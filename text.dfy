/**
 * Character-level behaviour of the C++ standard streams that the readers and
 * writers rely on: `std::getline`, formatted extraction `is >> int`,
 * `operator<<` / `std::to_string` for `int`, and output written line by line.
 *
 * An input stream is modelled by the characters it has not yet delivered:
 * every extraction takes the remaining text and returns what it read
 * together with the text that remains after it.
 */
module Text {

  datatype Option<T> = None | Some(value: T)

  /** Bounds of a 32-bit C++ `int`. */
  const INT_MIN: int := -0x8000_0000
  const INT_MAX: int := 0x7fff_ffff

  predicate InInt32(x: int) { INT_MIN <= x <= INT_MAX }

  predicate AllInInt32(xs: seq<int>) {
    forall k | 0 <= k < |xs| :: InInt32(xs[k])
  }

  /** The number of iterations of `for (int i = 0; i < x; ++i)`. */
  function Iterations(x: int): nat { if x < 0 then 0 else x }

  /** The characters `isspace` accepts in the "C" locale. */
  predicate IsSpace(c: char) {
    c == ' ' || c == '\t' || c == '\n' || c == '\r' || c == '\U{000B}' || c == '\U{000C}'
  }

  predicate IsDigit(c: char) { '0' <= c <= '9' }

  /** `line[0]` on a `std::string`: the terminating NUL when the line is empty. */
  function FirstChar(line: string): char {
    if |line| == 0 then '\0' else line[0]
  }

  /** `line.substr(0, len) == lit` for a literal no longer than `len`. */
  predicate PrefixEquals(line: string, len: nat, lit: string) {
    (if |line| <= len then line else line[..len]) == lit
  }

  /** `line.substr(from)` for `from <= line.size()`; larger offsets throw and are not modelled. */
  function Substr(line: string, from: nat): string
    requires from <= |line|
  {
    line[from..]
  }

  // ---------------------------------------------------------------------------
  // Formatted extraction `is >> x` for an `int x`
  // ---------------------------------------------------------------------------

  /**
   * `is >> x` for an `int x` on a stream whose remaining text is `s`:
   * leading white space is skipped, an optional sign is accepted, and then at
   * least one decimal digit must follow; the longest digit run is taken. The
   * extraction fails (the stream's failbit) when no digit follows or when the
   * value does not fit in an `int`. On success the value and the text after
   * the last digit are returned.
   */
  function ReadInt(s: string): (r: Option<(int, string)>)
    ensures r.Some? ==> InInt32(r.value.0) && |r.value.1| < |s|
  {
    if |s| > 0 && IsSpace(s[0]) then ReadInt(s[1..])
    else
      var signed := |s| > 0 && (s[0] == '-' || s[0] == '+');
      var digits := if signed then s[1..] else s;
      if |digits| == 0 || !IsDigit(digits[0]) then None
      else
        var run := DigitRun(digits, 0);
        var v := if signed && s[0] == '-' then -run.0 else run.0;
        if InInt32(v) then Some((v, run.1)) else None
  }

  /**
   * Accumulates the run of decimal digits that `s` starts with onto `acc`,
   * most significant digit first; returns the value and what follows the run.
   */
  function DigitRun(s: string, acc: int): (r: (int, string))
    ensures |r.1| <= |s| && (|s| > 0 && IsDigit(s[0]) ==> |r.1| < |s|)
  {
    if |s| > 0 && IsDigit(s[0]) then DigitRun(s[1..], 10 * acc + (s[0] as int - '0' as int)) else (acc, s)
  }

  /** Reads `count` integers one after another, as a chain `is >> x1 >> x2 ...`. */
  function ReadInts(s: string, count: nat): (r: Option<(seq<int>, string)>)
    ensures r.Some? ==> |r.value.0| == count && AllInInt32(r.value.0) && |r.value.1| <= |s|
    decreases count
  {
    if count == 0 then Some(([], s))
    else match ReadInt(s)
      case None => None
      case Some((x, rest)) =>
        match ReadInts(rest, count - 1)
        case None => None
        case Some((xs, after)) => Some(([x] + xs, after))
  }

  // ---------------------------------------------------------------------------
  // `std::to_string(int)` and `os << int`
  // ---------------------------------------------------------------------------

  function DigitChar(d: nat): char
    requires d < 10
  {
    ('0' as int + d) as char
  }

  /** The decimal digits of `n`, without leading zeros. */
  function NatToString(n: nat): (r: string)
    ensures |r| > 0
    ensures forall k | 0 <= k < |r| :: IsDigit(r[k])
  {
    if n < 10 then [DigitChar(n)] else NatToString(n / 10) + [DigitChar(n % 10)]
  }

  /** The decimal text of an integer, with a leading `-` when it is negative. */
  function IntToString(x: int): (r: string)
    ensures |r| > 0 && '\n' !in r && '"' !in r
    ensures IsDigit(r[0]) || r[0] == '-'
  {
    if x < 0 then "-" + NatToString(-x) else NatToString(x)
  }

  /** The integers of `xs`, each written after one space. */
  function Tokens(xs: seq<int>): string
  {
    if |xs| == 0 then "" else " " + IntToString(xs[0]) + Tokens(xs[1..])
  }

  /** The integers of `xs` separated by single spaces: `Spaced([5, 5, 7]) == "5 5 7"`. */
  function Spaced(xs: seq<int>): (r: string)
    requires |xs| > 0
    ensures |r| > 0 && '\n' !in r && (IsDigit(r[0]) || r[0] == '-')
  {
    TokensNoNewline(xs[1..]);
    IntToString(xs[0]) + Tokens(xs[1..])
  }

  /** `s` is empty or does not start with a digit: a number written before it ends where `s` begins. */
  predicate NoDigitFirst(s: string) {
    |s| == 0 || !IsDigit(s[0])
  }

  /** A digit run is read up to the first character that is not a digit. */
  lemma {:induction false} DigitRunOf(ds: string, rest: string, acc: int)
    requires forall k | 0 <= k < |ds| :: IsDigit(ds[k])
    requires NoDigitFirst(rest)
    ensures DigitRun(ds + rest, acc) == (DigitRun(ds, acc).0, rest)
  {
    if |ds| > 0 {
      assert (ds + rest)[0] == ds[0] && (ds + rest)[1..] == ds[1..] + rest;
      DigitRunOf(ds[1..], rest, 10 * acc + (ds[0] as int - '0' as int));
    } else {
      assert ds + rest == rest;
    }
  }

  /** One more digit at the end multiplies the value read so far by ten and adds it. */
  lemma {:induction false} DigitRunSnoc(ds: string, c: char, acc: int)
    requires forall k | 0 <= k < |ds| :: IsDigit(ds[k])
    requires IsDigit(c)
    ensures DigitRun(ds + [c], acc).0 == 10 * DigitRun(ds, acc).0 + (c as int - '0' as int)
  {
    if |ds| > 0 {
      assert (ds + [c])[1..] == ds[1..] + [c];
      DigitRunSnoc(ds[1..], c, 10 * acc + (ds[0] as int - '0' as int));
    } else {
      assert [c][1..] == [];
    }
  }

  /** The digits `NatToString` writes read back as the number. */
  lemma {:induction false} NatToStringValue(n: nat)
    ensures DigitRun(NatToString(n), 0).0 == n
  {
    if n >= 10 {
      NatToStringValue(n / 10);
      DigitRunSnoc(NatToString(n / 10), DigitChar(n % 10), 0);
    }
  }

  lemma {:induction false} TokensNoNewline(xs: seq<int>)
    ensures '\n' !in Tokens(xs)
  {
    if |xs| > 0 {
      TokensNoNewline(xs[1..]);
    }
  }

  /**
   * Reading back what `IntToString` writes gives the same value, and the
   * extraction stops right after it when no digit follows: the writers and
   * the readers agree on the decimal format.
   */
  lemma {:induction false} ReadIntOfIntToString(x: int, rest: string)
    requires InInt32(x) && NoDigitFirst(rest)
    ensures ReadInt(IntToString(x) + rest) == Some((x, rest))
  {
    if x < 0 {
      ReadIntOfNegative(-x, rest);
    } else {
      ReadIntOfNat(x, rest);
    }
  }

  lemma {:induction false} ReadIntOfNat(n: nat, rest: string)
    requires n <= INT_MAX && NoDigitFirst(rest)
    ensures ReadInt(NatToString(n) + rest) == Some((n, rest))
  {
    NatToStringValue(n);
    ReadIntOfDigits(NatToString(n), rest);
  }

  lemma {:induction false} ReadIntOfNegative(n: nat, rest: string)
    requires 0 < n <= -INT_MIN && NoDigitFirst(rest)
    ensures ReadInt("-" + NatToString(n) + rest) == Some((-(n as int), rest))
  {
    var ds := NatToString(n);
    NatToStringValue(n);
    var s := "-" + ds + rest;
    assert s[0] == '-' && s[1..] == ds + rest;
    ReadIntOfMinus(s, ds, rest);
  }

  /** `is >> x` on a digit run followed by no digit reads the run. */
  lemma {:induction false} ReadIntOfDigits(ds: string, rest: string)
    requires |ds| > 0 && forall k | 0 <= k < |ds| :: IsDigit(ds[k])
    requires NoDigitFirst(rest) && InInt32(DigitRun(ds, 0).0)
    ensures ReadInt(ds + rest) == Some((DigitRun(ds, 0).0, rest))
  {
    DigitRunOf(ds, rest, 0);
    assert (ds + rest)[0] == ds[0];
  }

  /** `is >> x` on `-` and a digit run reads the run's value negated. */
  lemma {:induction false} ReadIntOfMinus(s: string, ds: string, rest: string)
    requires |ds| > 0 && forall k | 0 <= k < |ds| :: IsDigit(ds[k])
    requires NoDigitFirst(rest) && InInt32(-DigitRun(ds, 0).0)
    requires |s| > 0 && s[0] == '-' && s[1..] == ds + rest
    ensures ReadInt(s) == Some((-DigitRun(ds, 0).0, rest))
  {
    DigitRunOf(ds, rest, 0);
    assert s[1] == ds[0];
  }

  /** Leading white space, of any length, does not change what `is >> x` reads. */
  lemma {:induction false} ReadIntAfterSpace(ws: string, s: string)
    requires forall k | 0 <= k < |ws| :: IsSpace(ws[k])
    ensures ReadInt(ws + s) == ReadInt(s)
  {
    if |ws| > 0 {
      assert (ws + s)[0] == ws[0] && IsSpace(ws[0]);
      assert (ws + s)[1..] == ws[1..] + s;
      ReadIntAfterSpace(ws[1..], s);
    } else {
      assert ws + s == s;
    }
  }

  /** Nothing can be read from an empty stream. */
  lemma {:induction false} ReadIntOfEmpty()
    ensures ReadInt("") == None
  {
  }

  /** One step of a chain of extractions. */
  lemma {:induction false} ReadIntsCons(s: string, x: int, rest: string, xs: seq<int>, after: string)
    requires ReadInt(s) == Some((x, rest)) && ReadInts(rest, |xs|) == Some((xs, after))
    ensures ReadInts(s, |xs| + 1) == Some(([x] + xs, after))
  {
  }

  /** A chain `is >> x1 >> ... >> xn` reads back integers written as `Tokens`. */
  lemma {:induction false} ReadIntsTokens(xs: seq<int>, rest: string)
    requires AllInInt32(xs) && NoDigitFirst(rest)
    ensures ReadInts(Tokens(xs) + rest, |xs|) == Some((xs, rest))
  {
    if |xs| > 0 {
      var tail := Tokens(xs[1..]) + rest;
      var s := Tokens(xs) + rest;
      TokensCons(xs, rest);
      TokensHead(xs[1..], rest);
      ReadIntOfToken(xs[0], tail);
      AllInInt32Tail(xs);
      ReadIntsTokens(xs[1..], rest);
      HeadTail(xs);
      ReadIntsCons(s, xs[0], tail, xs[1..], rest);
    } else {
      assert Tokens(xs) + rest == rest;
    }
  }

  /** Written tokens followed by more text: the first token, then the others and the text. */
  lemma {:induction false} TokensCons(xs: seq<int>, rest: string)
    requires |xs| > 0
    ensures Tokens(xs) + rest == " " + IntToString(xs[0]) + (Tokens(xs[1..]) + rest)
  {
  }

  /** A number written after a space reads back, the space skipped. */
  lemma {:induction false} ReadIntOfToken(x: int, rest: string)
    requires InInt32(x) && NoDigitFirst(rest)
    ensures ReadInt(" " + IntToString(x) + rest) == Some((x, rest))
  {
    assert (" " + IntToString(x) + rest)[1..] == IntToString(x) + rest;
    ReadIntOfIntToString(x, rest);
  }

  /** What follows the first number of `Tokens` is a space or what followed the tokens. */
  lemma {:induction false} TokensHead(xs: seq<int>, rest: string)
    requires NoDigitFirst(rest)
    ensures NoDigitFirst(Tokens(xs) + rest)
  {
    if |xs| > 0 {
      assert (Tokens(xs) + rest)[0] == ' ';
    } else {
      assert Tokens(xs) + rest == rest;
    }
  }

  lemma {:induction false} HeadTail(xs: seq<int>)
    requires |xs| > 0
    ensures [xs[0]] + xs[1..] == xs && |xs[1..]| + 1 == |xs|
  {
  }

  lemma {:induction false} AllInInt32Tail(xs: seq<int>)
    requires |xs| > 0 && AllInInt32(xs)
    ensures AllInInt32(xs[1..])
  {
    forall k | 0 <= k < |xs| - 1 ensures InInt32(xs[1..][k]) {
      assert xs[1..][k] == xs[k + 1];
    }
  }

  /** A chain `is >> x1 >> ... >> xn` reads back integers written as `Spaced`. */
  lemma {:induction false} ReadIntsSpaced(xs: seq<int>, rest: string)
    requires |xs| > 0 && AllInInt32(xs) && NoDigitFirst(rest)
    ensures ReadInts(Spaced(xs) + rest, |xs|) == Some((xs, rest))
  {
    assert Spaced(xs) + rest == IntToString(xs[0]) + (Tokens(xs[1..]) + rest);
    AllInInt32Tail(xs);
    ReadIntsFirstThenTokens(xs[0], xs[1..], rest);
    HeadTail(xs);
  }

  /** One integer followed by `Tokens` of the others reads back as all of them. */
  lemma {:induction false} ReadIntsFirstThenTokens(x: int, xs: seq<int>, rest: string)
    requires InInt32(x) && AllInInt32(xs) && NoDigitFirst(rest)
    ensures ReadInts(IntToString(x) + (Tokens(xs) + rest), |xs| + 1) == Some(([x] + xs, rest))
  {
    var tail := Tokens(xs) + rest;
    TokensHead(xs, rest);
    ReadIntOfIntToString(x, tail);
    ReadIntsTokens(xs, rest);
    ReadIntsCons(IntToString(x) + tail, x, tail, xs, rest);
  }

  /** Writing one more integer adds a space and its digits at the end. */
  lemma {:induction false} TokensSnoc(xs: seq<int>, y: int)
    ensures Tokens(xs + [y]) == Tokens(xs) + " " + IntToString(y)
  {
    if |xs| == 0 {
      assert xs + [y] == [y] && [y][1..] == [];
    } else {
      assert (xs + [y])[1..] == xs[1..] + [y];
      TokensSnoc(xs[1..], y);
    }
  }

  lemma {:induction false} SpacedSnoc(xs: seq<int>, y: int)
    requires |xs| > 0
    ensures Spaced(xs + [y]) == Spaced(xs) + " " + IntToString(y)
  {
    assert (xs + [y])[1..] == xs[1..] + [y];
    TokensSnoc(xs[1..], y);
  }

  // ---------------------------------------------------------------------------
  // Lines: `std::getline` and text written line by line
  // ---------------------------------------------------------------------------

  /** Number of characters before the first `\n` of `s` (all of them when there is none). */
  function LineLength(s: string): (k: nat)
    ensures k <= |s|
    ensures forall j | 0 <= j < k :: s[j] != '\n'
    ensures k < |s| ==> s[k] == '\n'
  {
    if |s| == 0 || s[0] == '\n' then 0 else 1 + LineLength(s[1..])
  }

  /**
   * `std::getline(is, line)` on a stream whose remaining text is `s`: fails
   * when nothing is left; otherwise returns the characters up to the next
   * `\n` (which is consumed, not stored) and the text after it.
   */
  function GetLine(s: string): (r: Option<(string, string)>)
    ensures r.None? <==> |s| == 0
    ensures r.Some? ==> |r.value.1| < |s| && '\n' !in r.value.0
  {
    if |s| == 0 then None
    else
      var k := LineLength(s);
      assert forall c | c in s[..k] :: c != '\n';
      Some((s[..k], if k < |s| then s[k + 1..] else ""))
  }

  /** The successive lines that repeated `std::getline` calls return for the text `s`. */
  function Lines(s: string): (ls: seq<string>)
    ensures forall j | 0 <= j < |ls| :: '\n' !in ls[j]
    decreases |s|
  {
    match GetLine(s)
    case None => []
    case Some((line, rest)) => [line] + Lines(rest)
  }

  /** One `std::getline` on a stream whose lines are `ls[idx..]` returns `ls[idx]`. */
  lemma {:induction false} LinesStep(input: string, ls: seq<string>, idx: nat, line: string, rest: string)
    requires idx <= |ls| && Lines(input) == ls[idx..]
    requires GetLine(input) == Some((line, rest))
    ensures idx < |ls| && ls[idx] == line && Lines(rest) == ls[idx + 1..]
  {
    assert Lines(input) == [line] + Lines(rest);
    assert ls[idx..][1..] == ls[idx + 1..];
  }

  /** `std::getline` fails exactly when no lines remain. */
  lemma {:induction false} LinesEnd(input: string, ls: seq<string>, idx: nat)
    requires idx <= |ls| && Lines(input) == ls[idx..]
    requires GetLine(input).None?
    ensures idx == |ls|
  {
  }

  /** Text written as the given lines, each followed by `\n` (`os << line << "\n"`). */
  function Unlines(ls: seq<string>): string
  {
    if |ls| == 0 then "" else ls[0] + "\n" + Unlines(ls[1..])
  }

  /** `std::getline` returns a line written with its `\n`, and leaves what follows. */
  lemma {:induction false} GetLineOfLine(line: string, rest: string)
    requires '\n' !in line
    ensures GetLine(line + "\n" + rest) == Some((line, rest))
  {
    var s := line + "\n" + rest;
    assert s == line + ("\n" + rest);
    LineLengthOf(line, "\n" + rest);
    assert s[..|line|] == line;
    assert s[|line| + 1..] == rest;
  }

  lemma {:induction false} LineLengthOf(line: string, rest: string)
    requires '\n' !in line && |rest| > 0 && rest[0] == '\n'
    ensures LineLength(line + rest) == |line|
  {
    if |line| > 0 {
      assert line[0] in line;
      assert (line + rest)[1..] == line[1..] + rest;
      assert forall c | c in line[1..] :: c in line;
      LineLengthOf(line[1..], rest);
    } else {
      assert line + rest == rest;
    }
  }

  /** The lines `line(0)`, ..., `line(n - 1)`, in that order. */
  function Numbered(n: nat, line: nat --> string): (r: seq<string>)
    requires forall i | 0 <= i < n :: line.requires(i)
    ensures |r| == n
  {
    if n == 0 then [] else Numbered(n - 1, line) + [line(n - 1)]
  }

  /** Line `i` of `Numbered(n, line)` is `line(i)`. */
  lemma {:induction false} NumberedAt(n: nat, line: nat --> string, i: nat)
    requires forall i | 0 <= i < n :: line.requires(i)
    requires i < n
    ensures Numbered(n, line)[i] == line(i)
  {
    if i < n - 1 {
      NumberedAt(n - 1, line, i);
    }
  }

  /** `Numbered(n, line)` holds no line break when no `line(i)` does. */
  lemma {:induction false} NumberedOneLine(n: nat, line: nat --> string)
    requires forall i | 0 <= i < n :: line.requires(i) && '\n' !in line(i)
    ensures forall i | 0 <= i < n :: '\n' !in Numbered(n, line)[i]
  {
    if n > 0 {
      NumberedOneLine(n - 1, line);
      forall i | 0 <= i < n ensures '\n' !in Numbered(n, line)[i] {
        if i < n - 1 {
          assert Numbered(n, line)[i] == Numbered(n - 1, line)[i];
        }
      }
    }
  }

  /**
   * Reading text written line by line gives the lines back, one per line
   * written, provided no line holds a `\n` of its own.
   */
  lemma {:induction false} LinesOfUnlines(ls: seq<string>)
    requires forall j | 0 <= j < |ls| :: '\n' !in ls[j]
    ensures Lines(Unlines(ls)) == ls
  {
    if |ls| > 0 {
      GetLineOfLine(ls[0], Unlines(ls[1..]));
      LinesOfUnlines(ls[1..]);
    }
  }

  lemma {:induction false} UnlinesAppend(a: seq<string>, b: seq<string>)
    ensures Unlines(a + b) == Unlines(a) + Unlines(b)
  {
    if |a| > 0 {
      assert (a + b)[1..] == a[1..] + b;
      UnlinesAppend(a[1..], b);
    } else {
      assert a + b == b;
    }
  }

  /** An output stream (`std::ostream`): the text written to it so far. */
  class OutStream {
    var text: string

    constructor ()
      ensures text == ""
    {
      text := "";
    }

    /** `os << s`. */
    method Write(s: string)
      modifies this
      ensures text == old(text) + s
    {
      text := text + s;
    }
  }
}
