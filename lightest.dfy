/**
 * The bounded max-heap that `min_k_cut_value` and `min_k_cut_map` (in
 * src/include/k_min_cut.hpp) use to keep the `count` lightest tree edges:
 * each item is pushed, and whenever the heap holds more than `count` items
 * its largest one is popped. The heap's array layout is not modelled, only
 * what `std::push_heap` and `std::pop_heap` do to its contents.
 */
module Lightest {

  function Min(a: int, b: int): int { if a <= b then a else b }

  function Identity(x: int): int { x }

  /**
   * `chosen` is `count` of the items of `all`, and no item left out has a
   * smaller key than an item chosen.
   */
  ghost predicate IsLightest<T>(chosen: multiset<T>, all: multiset<T>, key: T -> int, count: nat) {
    chosen <= all && |chosen| == count &&
    forall x, y | x in chosen && y in all - chosen :: key(x) <= key(y)
  }

  /**
   * `std::pop_heap` followed by `pop_back`: removes an item whose key is
   * maximal and returns it.
   */
  method PopMax<T>(heap: seq<T>, key: T -> int) returns (rest: seq<T>, top: T)
    requires |heap| > 0
    ensures top in heap && forall x | x in heap :: key(x) <= key(top)
    ensures multiset(rest) == multiset(heap) - multiset{top}
    ensures |rest| == |heap| - 1
  {
    var j := 0;
    for i := 1 to |heap|
      invariant 0 <= j < |heap|
      invariant forall k | 0 <= k < i :: key(heap[k]) <= key(heap[j])
    {
      if key(heap[j]) < key(heap[i]) {
        j := i;
      }
    }
    top := heap[j];
    rest := heap[..j] + heap[j + 1..];
    assert heap == heap[..j] + [top] + heap[j + 1..];
    assert multiset(heap) == multiset(rest) + multiset{top};
  }

  /**
   * When the heap already holds every item seen, pushing the next item
   * keeps it holding every item seen.
   */
  lemma {:induction false} LightestPushAll<T>(chosen: multiset<T>, all: multiset<T>, key: T -> int, x: T)
    requires IsLightest(chosen, all, key, |all|)
    ensures IsLightest(chosen + multiset{x}, all + multiset{x}, key, |all| + 1)
  {
    SubMultisetOfSameSize(chosen, all);
    assert (all + multiset{x}) - (chosen + multiset{x}) == multiset{};
  }

  /**
   * Pushing an item onto a full heap and popping a largest item keeps the
   * heap holding the `count` lightest items seen.
   */
  lemma {:induction false} LightestPushPop<T>(chosen: multiset<T>, all: multiset<T>, key: T -> int, count: nat, x: T, top: T)
    requires IsLightest(chosen, all, key, count)
    requires top in chosen + multiset{x}
    requires forall y | y in chosen + multiset{x} :: key(y) <= key(top)
    ensures IsLightest(chosen + multiset{x} - multiset{top}, all + multiset{x}, key, count)
  {
    var pushed := chosen + multiset{x};
    var chosen' := pushed - multiset{top};
    var all' := all + multiset{x};
    assert chosen' <= all';
    forall a, b | a in chosen' && b in all' - chosen' ensures key(a) <= key(b) {
      assert a in pushed;
      if b == top {
      } else {
        assert b in all - chosen by {
          assert (all' - chosen')[b] == (all - chosen)[b] + (if b == top then 1 else 0);
        }
        if top in chosen {
          assert key(a) <= key(top);
        } else {
          assert top == x;
          assert chosen' == chosen;
        }
      }
    }
  }

  /** A sub-multiset as large as its super-multiset is that multiset. */
  lemma {:induction false} SubMultisetOfSameSize<T>(a: multiset<T>, b: multiset<T>)
    requires a <= b && |a| == |b|
    ensures a == b
  {
    var d := b - a;
    assert b == a + d;
    assert |d| == 0;
  }

  /**
   * `count` items of a multiset with no larger item left out are the same
   * whichever such selection is made: the `count` smallest values are
   * determined by the values alone.
   */
  lemma {:induction false} LightestUnique(a: multiset<int>, b: multiset<int>, all: multiset<int>, count: nat)
    requires IsLightest(a, all, Identity, count) && IsLightest(b, all, Identity, count)
    ensures a == b
    decreases count
  {
    if count > 0 {
      var m := MinOf(all);
      MinIsChosen(a, all, count, m);
      MinIsChosen(b, all, count, m);
      LightestUnique(a - multiset{m}, b - multiset{m}, all - multiset{m}, count - 1);
      assert a == (a - multiset{m}) + multiset{m};
      assert b == (b - multiset{m}) + multiset{m};
    }
  }

  /**
   * A least value of the items is among the chosen ones, and the rest of
   * the selection is a selection from the rest of the items.
   */
  lemma {:induction false} MinIsChosen(a: multiset<int>, all: multiset<int>, count: nat, m: int)
    requires IsLightest(a, all, Identity, count) && count > 0
    requires m in all && forall y | y in all :: m <= y
    ensures m in a
    ensures IsLightest(a - multiset{m}, all - multiset{m}, Identity, count - 1)
  {
    if forall v :: v !in a { assert false; }
    var v0 :| v0 in a;
    assert m in all - a ==> v0 <= m;
    assert (all - multiset{m}) - (a - multiset{m}) == all - a;
  }

  /** A least element of a non-empty multiset. */
  lemma {:induction false} MinOf(m: multiset<int>) returns (x: int)
    requires m != multiset{}
    ensures x in m && forall y | y in m :: x <= y
  {
    if forall v :: v !in m { assert false; }
    var v :| v in m;
    var rest := m - multiset{v};
    if rest == multiset{} {
      x := v;
      forall y | y in m ensures x <= y {
        assert m[y] == rest[y] + (if y == v then 1 else 0);
      }
    } else {
      var r := MinOf(rest);
      x := if v <= r then v else r;
      forall y | y in m ensures x <= y {
        assert m[y] == rest[y] + (if y == v then 1 else 0);
      }
    }
  }

  /** The items up to `i + 1` are those up to `i` and item `i`. */
  lemma {:induction false} PrefixMultiset<T>(items: seq<T>, i: nat)
    requires i < |items|
    ensures multiset(items[..i + 1]) == multiset(items[..i]) + multiset{items[i]}
  {
    assert items[..i + 1] == items[..i] + [items[i]];
  }

  /** A step of the loop that pushes item `i` and pops nothing, the heap holding every item before it. */
  lemma {:induction false} PushStep<T>(heap: seq<T>, items: seq<T>, i: nat, key: T -> int)
    requires i < |items| && |heap| == i && IsLightest(multiset(heap), multiset(items[..i]), key, |heap|)
    ensures IsLightest(multiset(heap + [items[i]]), multiset(items[..i + 1]), key, |heap| + 1)
  {
    PrefixMultiset(items, i);
    LightestPushAll(multiset(heap), multiset(items[..i]), key, items[i]);
  }

  /** A step of the loop that pushes item `i` and pops a largest item `top`, leaving `rest`. */
  lemma {:induction false} PopStep<T>(heap: seq<T>, items: seq<T>, i: nat, key: T -> int, rest: seq<T>, top: T)
    requires i < |items| && IsLightest(multiset(heap), multiset(items[..i]), key, |heap|)
    requires top in heap + [items[i]] && forall x | x in heap + [items[i]] :: key(x) <= key(top)
    requires multiset(rest) == multiset(heap + [items[i]]) - multiset{top} && |rest| == |heap|
    ensures IsLightest(multiset(rest), multiset(items[..i + 1]), key, |rest|)
  {
    var x := items[i];
    PrefixMultiset(items, i);
    assert multiset(heap + [x]) == multiset(heap) + multiset{x};
    forall y | y in multiset(heap) + multiset{x} ensures key(y) <= key(top) {
      assert y in heap + [x];
    }
    LightestPushPop(multiset(heap), multiset(items[..i]), key, |heap|, x, top);
  }

  /**
   * The loop of pushes and bounded pops: keeps the `count` lightest items of
   * `items` (all of them when there are fewer), never holding more than
   * `count` after a step.
   */
  method SelectLightest<T>(items: seq<T>, key: T -> int, count: nat) returns (heap: seq<T>)
    ensures |heap| == Min(|items|, count)
    ensures IsLightest(multiset(heap), multiset(items), key, |heap|)
  {
    heap := [];
    for i := 0 to |items|
      invariant |heap| == Min(i, count)
      invariant IsLightest(multiset(heap), multiset(items[..i]), key, |heap|)
    {
      var pushed := heap + [items[i]];
      if |pushed| > count {
        var rest, top := PopMax(pushed, key);
        PopStep(heap, items, i, key, rest, top);
        heap := rest;
      } else {
        PushStep(heap, items, i, key);
        heap := pushed;
      }
    }
    assert items[..|items|] == items;
  }

  /** The sum of a sequence of integers. */
  function SeqSum(s: seq<int>): int
  {
    if |s| == 0 then 0 else SeqSum(s[..|s| - 1]) + s[|s| - 1]
  }

  /** Removing the item at `j` removes one copy of it from the sequence's multiset. */
  lemma {:induction false} MultisetRemove(s: seq<int>, j: nat, t: seq<int>)
    requires j < |s| && t == s[..j] + s[j + 1..]
    ensures multiset(t) == multiset(s) - multiset{s[j]}
    ensures forall i | 0 <= i < |t| :: t[i] in s
  {
    assert s == s[..j] + [s[j]] + s[j + 1..];
    assert multiset(s) == multiset(t) + multiset{s[j]};
    forall i | 0 <= i < |t| ensures t[i] in s {
      if i < j {
        assert t[i] == s[i];
      } else {
        assert t[i] == s[i + 1];
      }
    }
  }

  /** Removing the last item removes one copy of it from the sequence's multiset. */
  lemma {:induction false} MultisetRemoveLast(s: seq<int>)
    requires |s| > 0
    ensures multiset(s[..|s| - 1]) == multiset(s) - multiset{s[|s| - 1]}
  {
    assert s == s[..|s| - 1] + [s[|s| - 1]];
  }

  /** Two sequences holding the same values have the same sum. */
  lemma {:induction false} SeqSumPermutation(a: seq<int>, b: seq<int>)
    requires multiset(a) == multiset(b)
    ensures SeqSum(a) == SeqSum(b)
    decreases |a|
  {
    if |a| > 0 {
      var x := a[|a| - 1];
      MultisetRemoveLast(a);
      assert x in multiset(b);
      var j :| 0 <= j < |b| && b[j] == x;
      MultisetRemove(b, j, b[..j] + b[j + 1..]);
      SeqSumPermutation(a[..|a| - 1], b[..j] + b[j + 1..]);
      SeqSumRemove(b, j);
    } else {
      assert |multiset(b)| == 0;
    }
  }

  lemma {:induction false} SeqSumRemove(s: seq<int>, j: nat)
    requires j < |s|
    ensures SeqSum(s) == SeqSum(s[..j] + s[j + 1..]) + s[j]
    decreases |s|
  {
    var k := |s| - 1;
    if j < k {
      var t := s[..j] + s[j + 1..];
      assert t[..|t| - 1] == s[..k][..j] + s[..k][j + 1..];
      assert t[|t| - 1] == s[k];
      SeqSumRemove(s[..k], j);
    } else {
      assert s[..j] + s[j + 1..] == s[..k];
    }
  }

  /**
   * The sum of the `count` lightest values does not depend on which
   * selection holds them or in which order.
   */
  lemma {:induction false} LightestSumDetermined(a: seq<int>, b: seq<int>, all: multiset<int>, count: nat)
    requires IsLightest(multiset(a), all, Identity, count) && IsLightest(multiset(b), all, Identity, count)
    ensures SeqSum(a) == SeqSum(b)
  {
    LightestUnique(multiset(a), multiset(b), all, count);
    SeqSumPermutation(a, b);
  }

  /** A sum of non-negative values is non-negative. */
  lemma {:induction false} SeqSumNonNegative(s: seq<int>)
    requires forall i | 0 <= i < |s| :: 0 <= s[i]
    ensures 0 <= SeqSum(s)
  {
    if |s| > 0 {
      SeqSumNonNegative(s[..|s| - 1]);
    }
  }

  /** Some of a collection of non-negative values sum to at most the sum of them all. */
  lemma {:induction false} SeqSumSub(a: seq<int>, b: seq<int>)
    requires multiset(a) <= multiset(b)
    requires forall i | 0 <= i < |b| :: 0 <= b[i]
    ensures SeqSum(a) <= SeqSum(b)
    decreases |a|
  {
    if |a| == 0 {
      SeqSumNonNegative(b);
    } else {
      var x := a[|a| - 1];
      MultisetRemoveLast(a);
      assert x in multiset(b);
      var j :| 0 <= j < |b| && b[j] == x;
      var b' := b[..j] + b[j + 1..];
      MultisetRemove(b, j, b');
      forall i | 0 <= i < |b'| ensures 0 <= b'[i] {
        var k :| 0 <= k < |b| && b[k] == b'[i];
      }
      SeqSumSub(a[..|a| - 1], b');
      SeqSumRemove(b, j);
    }
  }

  /** Every prefix of a sequence of non-negative values sums to at most the whole. */
  lemma {:induction false} SeqSumPrefix(s: seq<int>, i: nat)
    requires i <= |s| && forall j | 0 <= j < |s| :: 0 <= s[j]
    ensures 0 <= SeqSum(s[..i]) <= SeqSum(s)
  {
    assert s == s[..i] + s[i..];
    assert multiset(s) == multiset(s[..i]) + multiset(s[i..]);
    SeqSumSub(s[..i], s);
    SeqSumNonNegative(s[..i]);
  }
}
