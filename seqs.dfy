/** Sequence helpers shared by the modules: element sets, distinctness, reversal. */
module Seqs {

  /** The elements of a sequence. */
  function ToSet<T>(s: seq<T>): set<T> {
    set x | x in s
  }

  lemma ToSetAppend<T>(s: seq<T>, t: seq<T>)
    ensures ToSet(s + t) == ToSet(s) + ToSet(t)
  {
  }

  lemma ToSetEmpty<T>(s: seq<T>)
    ensures ToSet(s) == {} <==> s == []
  {
    if s != [] {
      assert s[0] in ToSet(s);
    }
  }

  predicate NoDuplicates<T(==)>(s: seq<T>) {
    forall i, j :: 0 <= i < j < |s| ==> s[i] != s[j]
  }

  /** A sequence without duplicates has as many elements as its element set. */
  lemma {:induction false} DistinctCount<T>(s: seq<T>)
    requires NoDuplicates(s)
    ensures |ToSet(s)| == |s|
    decreases |s|
  {
    if s != [] {
      var init := s[..|s| - 1];
      assert s == init + [s[|s| - 1]];
      assert s[|s| - 1] !in ToSet(init) by {
        forall x | x in init ensures x != s[|s| - 1] {
          var k :| 0 <= k < |init| && init[k] == x;
          assert s[k] == x;
        }
      }
      DistinctCount(init);
      ToSetAppend(init, [s[|s| - 1]]);
      assert ToSet([s[|s| - 1]]) == {s[|s| - 1]};
    }
  }

  /** A set has as many elements as its subset only when they are equal. */
  lemma SubsetCard<T>(a: set<T>, b: set<T>)
    requires a <= b
    ensures |a| <= |b|
    ensures |a| == |b| ==> a == b
  {
    assert b == a + (b - a);
    if a != b {
      var x :| x in b - a;
    }
  }

  function Reverse<T>(s: seq<T>): (r: seq<T>)
    ensures |r| == |s| && forall i :: 0 <= i < |s| ==> r[i] == s[|s| - 1 - i]
  {
    if s == [] then [] else [s[|s| - 1]] + Reverse(s[..|s| - 1])
  }

  /** `s.filter(keep)`: the kept elements, in order. */
  function Filter<T(!new)>(s: seq<T>, keep: T -> bool): (r: seq<T>)
    ensures |r| <= |s|
    ensures forall x :: x in r <==> x in s && keep(x)
  {
    if s == [] then []
    else
      var init := s[..|s| - 1];
      var last := s[|s| - 1];
      assert s == init + [last];
      Filter(init, keep) + (if keep(last) then [last] else [])
  }

  /** The filter `v => v != x`. */
  function Unequal<T(==)>(x: T): T -> bool {
    v => v != x
  }

  /** Filtering distributes over concatenation, so the kept elements stay in their order. */
  lemma {:induction false} FilterAppend<T(!new)>(a: seq<T>, b: seq<T>, keep: T -> bool)
    ensures Filter(a + b, keep) == Filter(a, keep) + Filter(b, keep)
    decreases |b|
  {
    if b == [] {
      assert a + b == a;
    } else {
      var b', last := b[..|b| - 1], b[|b| - 1];
      var tail := if keep(last) then [last] else [];
      assert (a + b)[..|a + b| - 1] == a + b';
      assert (a + b)[|a + b| - 1] == last;
      assert Filter(a + b, keep) == Filter(a + b', keep) + tail;
      assert Filter(b, keep) == Filter(b', keep) + tail;
      FilterAppend(a, b', keep);
      AppendAssoc(Filter(a, keep), Filter(b', keep), tail);
    }
  }

  /** Filtering keeps a sequence whose every element is kept. */
  lemma {:induction false} FilterKeepsAll<T(!new)>(s: seq<T>, keep: T -> bool)
    requires forall x :: x in s ==> keep(x)
    ensures Filter(s, keep) == s
    decreases |s|
  {
    if s != [] {
      var init := s[..|s| - 1];
      assert s == init + [s[|s| - 1]];
      FilterKeepsAll(init, keep);
    }
  }

  /** A filtered sequence without duplicates has none. */
  lemma {:induction false} FilterNoDuplicates<T(!new)>(s: seq<T>, keep: T -> bool)
    requires NoDuplicates(s)
    ensures NoDuplicates(Filter(s, keep))
    decreases |s|
  {
    if s != [] {
      var init := s[..|s| - 1];
      var last := s[|s| - 1];
      assert s == init + [last];
      assert NoDuplicates(init);
      FilterNoDuplicates(init, keep);
      assert last !in init;
    }
  }

  /** `Array.from(new Set(s))`: the first occurrence of each element, in order of first occurrence. */
  function Dedup<T(==)>(s: seq<T>): (r: seq<T>)
    ensures NoDuplicates(r) && ToSet(r) == ToSet(s) && |r| <= |s|
  {
    if s == [] then []
    else
      var init := s[..|s| - 1];
      var last := s[|s| - 1];
      assert s == init + [last];
      ToSetAppend(init, [last]);
      var d := Dedup(init);
      ToSetAppend(d, [last]);
      if last in ToSet(d) then d else d + [last]
  }

  /** The position of the first occurrence of `x` in `s`. */
  function FirstPos<T(==)>(s: seq<T>, x: T): (k: nat)
    requires x in s
    ensures k < |s| && s[k] == x && x !in s[..k]
  {
    if s[0] == x then 0
    else
      var k := FirstPos(s[1..], x);
      assert s[..k + 1] == [s[0]] + s[1..][..k];
      k + 1
  }

  /** Only one position holds the first occurrence. */
  lemma FirstPosUnique<T>(s: seq<T>, x: T, k: nat)
    requires k < |s| && s[k] == x && x !in s[..k]
    ensures FirstPos(s, x) == k
  {
    var f := FirstPos(s, x);
  }

  /** Appending keeps the first occurrence of an element already present. */
  lemma FirstPosSnoc<T>(s: seq<T>, y: T, x: T)
    requires x in s
    ensures FirstPos(s + [y], x) == FirstPos(s, x)
  {
    var k := FirstPos(s, x);
    assert (s + [y])[..k] == s[..k];
    FirstPosUnique(s + [y], x, k);
  }

  /**
   * `Dedup` lists each element at its first occurrence, in the order of those
   * occurrences: together with its ensures this determines the result.
   */
  lemma {:induction false} DedupFirstOccurrenceOrder<T>(s: seq<T>)
    ensures forall x :: x in Dedup(s) <==> x in s
    ensures forall i, j :: 0 <= i < j < |Dedup(s)| ==> FirstPos(s, Dedup(s)[i]) < FirstPos(s, Dedup(s)[j])
    decreases |s|
  {
    var r := Dedup(s);
    assert forall x :: x in r <==> x in ToSet(s);
    if s != [] {
      var init := s[..|s| - 1];
      var last := s[|s| - 1];
      assert s == init + [last];
      DedupFirstOccurrenceOrder(init);
      var d := Dedup(init);
      forall x | x in d ensures x in init && FirstPos(s, x) == FirstPos(init, x) {
        assert x in ToSet(d);
        FirstPosSnoc(init, last, x);
      }
      if last !in d {
        assert last !in init;
        FirstPosUnique(s, last, |s| - 1);
        assert r == d + [last];
        forall i, j | 0 <= i < j < |r| ensures FirstPos(s, r[i]) < FirstPos(s, r[j]) {
          assert r[i] in d;
          if j < |d| {
            assert r[j] in d;
          }
        }
      }
    }
  }

  /** A sequence without duplicates is its own deduplication. */
  lemma {:induction false} DedupOfDistinct<T>(s: seq<T>)
    requires NoDuplicates(s)
    ensures Dedup(s) == s
    decreases |s|
  {
    if s != [] {
      var init := s[..|s| - 1];
      var last := s[|s| - 1];
      assert s == init + [last];
      assert NoDuplicates(init);
      DedupOfDistinct(init);
      assert last !in init;
    }
  }

  /** Filters that agree on the elements of a sequence keep the same elements. */
  lemma {:induction false} FilterCongruent<T(!new)>(s: seq<T>, p: T -> bool, q: T -> bool)
    requires forall x :: x in s ==> p(x) == q(x)
    ensures Filter(s, p) == Filter(s, q)
    decreases |s|
  {
    if s != [] {
      var init := s[..|s| - 1];
      assert s == init + [s[|s| - 1]];
      assert forall x :: x in init ==> x in s;
      FilterCongruent(init, p, q);
    }
  }

  /** Filtering a list that ends in a kept element. */
  lemma FilterSnoc<T(!new)>(a: seq<T>, x: T, keep: T -> bool)
    requires keep(x)
    ensures Filter(a + [x], keep) == Filter(a, keep) + [x]
  {
    assert (a + [x])[..|a|] == a;
  }

  lemma AppendAssoc<T>(a: seq<T>, b: seq<T>, c: seq<T>)
    ensures (a + b) + c == a + (b + c)
  {
  }

  lemma PrefixOfAppend<T>(p: seq<T>, q: seq<T>)
    ensures p <= p + q
  {
    assert (p + q)[..|p|] == p;
  }

  /** The first `n` elements of `b`, then its next one, start `b` and whatever follows it. */
  lemma PrefixThenNext<T>(a: seq<T>, b: seq<T>, n: nat, c: seq<T>)
    requires n < |b|
    ensures a + b[..n] + [b[n]] <= a + (b + c)
  {
    assert a + b[..n] + [b[n]] == (a + (b + c))[..|a| + n + 1];
  }

  /** Filtering a prefix gives a prefix of the filtered sequence. */
  lemma FilterPrefix<T(!new)>(s: seq<T>, m: nat, keep: T -> bool)
    requires m <= |s|
    ensures Filter(s[..m], keep) <= Filter(s, keep)
  {
    assert s == s[..m] + s[m..];
    FilterAppend(s[..m], s[m..], keep);
    PrefixOfAppend(Filter(s[..m], keep), Filter(s[m..], keep));
  }

  /** A prefix stays a prefix behind a common start and before any continuation. */
  lemma PrefixExtend<T>(a: seq<T>, p: seq<T>, q: seq<T>, c: seq<T>)
    requires p <= q
    ensures a + p <= a + (q + c)
  {
    assert (a + (q + c))[..|a| + |p|] == a + p;
  }

  /** Reversal keeps the elements. */
  lemma ReverseMembers<T>(s: seq<T>)
    ensures forall x :: x in Reverse(s) <==> x in s
  {
    var r := Reverse(s);
    forall x ensures x in r <==> x in s {
      if x in r {
        var k :| 0 <= k < |r| && r[k] == x;
        assert s[|s| - 1 - k] == x;
      }
      if x in s {
        var k :| 0 <= k < |s| && s[k] == x;
        assert r[|s| - 1 - k] == x;
      }
    }
  }

  lemma ReverseAppend<T>(a: seq<T>, b: seq<T>)
    ensures Reverse(a + b) == Reverse(b) + Reverse(a)
  {
    var l, r := Reverse(a + b), Reverse(b) + Reverse(a);
    assert |l| == |r|;
    forall i | 0 <= i < |l| ensures l[i] == r[i] {
      if i < |b| {
        assert l[i] == (a + b)[|a| + |b| - 1 - i] == b[|b| - 1 - i];
      } else {
        assert l[i] == (a + b)[|a| + |b| - 1 - i] == a[|a| + |b| - 1 - i];
      }
    }
  }

  /** Filtering commutes with reversal. */
  lemma {:induction false} FilterReverse<T(!new)>(s: seq<T>, keep: T -> bool)
    ensures Reverse(Filter(s, keep)) == Filter(Reverse(s), keep)
    decreases |s|
  {
    if s != [] {
      var init := s[..|s| - 1];
      var last := s[|s| - 1];
      assert s == init + [last];
      var one := if keep(last) then [last] else [];
      assert Filter([last], keep) == one by {
        assert [last][..0] == [];
      }
      FilterReverse(init, keep);
      assert Reverse(s) == [last] + Reverse(init);
      FilterAppend([last], Reverse(init), keep);
      ReverseAppend(Filter(init, keep), one);
      assert Reverse(one) == one;
    }
  }
}
