/**
 * The `json_logger` of src/include/util.hpp: it collects key/value pairs of
 * strings in insertion order and writes them on one line as
 * `{"key": "value", ...}`. Keys and values are written as they are, without
 * escaping; numbers are added as the text `std::to_string` gives them.
 */
module JsonLog {
  import opened Text

  /** One entry: `"key": "value"`. */
  function Field(entry: (string, string)): string
  {
    "\"" + entry.0 + "\": \"" + entry.1 + "\""
  }

  /** The entries separated by `, `, in order, with no separator after the last. */
  function Fields(data: seq<(string, string)>): string
  {
    if |data| == 0 then ""
    else if |data| == 1 then Field(data[0])
    else Field(data[0]) + ", " + Fields(data[1..])
  }

  /** The line `write` emits, without its line break: `{`, the entries and `}`. */
  function JsonLine(data: seq<(string, string)>): string
  {
    "{" + Fields(data) + "}"
  }

  /**
   * What the loop of `write` has emitted after its first `i` iterations:
   * each entry, followed by `, ` when `std::next(it)` is not the end.
   */
  function Emitted(data: seq<(string, string)>, i: nat): string
    requires i <= |data|
  {
    if i == 0 then ""
    else Emitted(data, i - 1) + Field(data[i - 1]) + (if i < |data| then ", " else "")
  }

  class JsonLogger {
    /** The entries `_data`, in insertion order. */
    var data: seq<(string, string)>

    constructor ()
      ensures data == []
    {
      data := [];
    }

    /** `add(key, value)` for a string value. */
    method Add(key: string, value: string)
      modifies this
      ensures data == old(data) + [(key, value)]
    {
      data := data + [(key, value)];
    }

    /** `add(key, value)` for an `int` value: its `std::to_string` text. */
    method AddInt(key: string, value: int)
      modifies this
      ensures data == old(data) + [(key, IntToString(value))]
    {
      Add(key, IntToString(value));
    }

    /** `write(os)`: the line, then `std::endl`. The entries are left as they are. */
    method Write(os: OutStream)
      modifies os
      ensures os.text == old(os.text) + JsonLine(data) + "\n"
    {
      var start := os.text;
      os.Write("{");
      for i := 0 to |data|
        invariant os.text == start + "{" + Emitted(data, i)
      {
        os.Write(Field(data[i]));
        if i + 1 < |data| {
          os.Write(", ");
          EmitSeparated(start, data, i);
        } else {
          EmitLast(start, data, i);
        }
      }
      os.Write("}");
      os.Write("\n");
      Closed(start, data);
    }

    /** The destructor: `write()` on `std::cout`, modelled by `out`. */
    method Destroy(out: OutStream)
      modifies out
      ensures out.text == old(out.text) + JsonLine(data) + "\n"
    {
      Write(out);
    }
  }

  /** An iteration of `write` that is followed by another one. */
  lemma {:induction false} EmitSeparated(start: string, data: seq<(string, string)>, i: nat)
    requires i + 1 < |data|
    ensures start + "{" + Emitted(data, i) + Field(data[i]) + ", " == start + "{" + Emitted(data, i + 1)
  {
  }

  /** The last iteration of `write`. */
  lemma {:induction false} EmitLast(start: string, data: seq<(string, string)>, i: nat)
    requires i + 1 == |data|
    ensures start + "{" + Emitted(data, i) + Field(data[i]) == start + "{" + Emitted(data, i + 1)
  {
    assert Emitted(data, i + 1) == Emitted(data, i) + Field(data[i]) + "";
  }

  /** After the loop and the closing brace and line break, the text written is the line. */
  lemma {:induction false} Closed(start: string, data: seq<(string, string)>)
    ensures start + "{" + Emitted(data, |data|) + "}" + "\n" == start + JsonLine(data) + "\n"
  {
    EmittedAll(data);
  }

  /** The loop of `write` emits the entries joined by `, `: no separator is left dangling. */
  lemma {:induction false} EmittedAll(data: seq<(string, string)>)
    ensures Emitted(data, |data|) == Fields(data)
  {
    if |data| > 0 {
      EmittedPrefix(data, |data|);
      assert data[..|data|] == data;
    }
  }

  /**
   * Part way through, the loop has emitted the first `i` entries joined by
   * `, `, and a trailing `, ` exactly when more entries follow.
   */
  lemma {:induction false} EmittedPrefix(data: seq<(string, string)>, i: nat)
    requires 0 < i <= |data|
    ensures Emitted(data, i) == Fields(data[..i]) + (if i < |data| then ", " else "")
  {
    if i == 1 {
      assert Emitted(data, 0) == "";
      assert data[..1] == [data[0]];
    } else {
      EmittedPrefix(data, i - 1);
      FieldsSnoc(data[..i - 1], data[i - 1]);
      assert data[..i - 1] + [data[i - 1]] == data[..i];
    }
  }

  /** Adding an entry after others adds `, ` and the entry at the end of the fields. */
  lemma {:induction false} FieldsSnoc(data: seq<(string, string)>, entry: (string, string))
    requires |data| > 0
    ensures Fields(data + [entry]) == Fields(data) + ", " + Field(entry)
  {
    if |data| == 1 {
      assert (data + [entry])[1..] == [entry];
    } else {
      assert (data + [entry])[1..] == data[1..] + [entry];
      FieldsSnoc(data[1..], entry);
    }
  }

  /** An empty logger writes `{}`. */
  lemma {:induction false} EmptyLine()
    ensures JsonLine([]) == "{}"
  {
  }

  /**
   * After `add`, the line shows the earlier entries unchanged and the new
   * one at the end, separated from them by `, `; a key added twice appears
   * twice.
   */
  lemma {:induction false} AddShowsLast(data: seq<(string, string)>, key: string, value: string)
    ensures JsonLine(data + [(key, value)]) ==
      if |data| == 0 then "{" + Field((key, value)) + "}"
      else "{" + Fields(data) + ", " + Field((key, value)) + "}"
  {
    if |data| == 0 {
      assert data + [(key, value)] == [(key, value)];
    } else {
      FieldsSnoc(data, (key, value));
    }
  }

  /** Entries without line breaks give a single line, and it starts with `{`. */
  lemma {:induction false} OneLine(data: seq<(string, string)>)
    requires forall k | 0 <= k < |data| :: '\n' !in data[k].0 && '\n' !in data[k].1
    ensures '\n' !in JsonLine(data) && JsonLine(data)[0] == '{'
    ensures Lines(JsonLine(data) + "\n") == [JsonLine(data)]
  {
    FieldsNoBreak(data);
    LinesOfUnlines([JsonLine(data)]);
    assert Unlines([JsonLine(data)]) == JsonLine(data) + "\n" + "";
  }

  lemma {:induction false} FieldsNoBreak(data: seq<(string, string)>)
    requires forall k | 0 <= k < |data| :: '\n' !in data[k].0 && '\n' !in data[k].1
    ensures '\n' !in Fields(data)
  {
    if |data| > 1 {
      FieldsNoBreak(data[1..]);
    }
  }
}
