/** Generic sequence helpers standing in for the lodash calls the source uses:
    `_.times`, `filter`, `_.findLastIndex`, and collapsing of repeated elements. */
module Seqs {

  datatype Option<+T> = None | Some(value: T)

  /** `_.times(n, () => x)`: n copies of x, none when n is not positive. */
  function Repeat<T>(n: int, x: T): (r: seq<T>)
    ensures |r| == if n <= 0 then 0 else n
    ensures forall i :: 0 <= i < |r| ==> r[i] == x
  {
    seq(if n <= 0 then 0 else n, _ => x)
  }

  lemma {:induction false} RepeatUnfold<T>(n: int, x: T)
    requires n > 0
    ensures Repeat(n, x) == [x] + Repeat(n - 1, x)
  {
  }

  /** The zero- or one-element list holding an optional value. */
  function OptionToSeq<T>(o: Option<T>): (r: seq<T>)
    ensures |r| <= 1 && (r == [] <==> o.None?)
    ensures o.Some? ==> r[0] == o.value
  {
    if o.Some? then [o.value] else []
  }

  /** `s.filter(p)`: the elements of s that satisfy p, in order. */
  function Filter<T>(s: seq<T>, p: T -> bool): (r: seq<T>)
    ensures |r| <= |s|
    ensures forall x :: x in r ==> x in s && p(x)
  {
    if s == [] then [] else (if p(s[0]) then [s[0]] else []) + Filter(s[1..], p)
  }

  /** Indexing a sequence with one element appended. */
  lemma {:induction false} AppendOneIndex<T>(s: seq<T>, x: T, i: int)
    requires 0 <= i <= |s|
    ensures (s + [x])[i] == if i < |s| then s[i] else x
  {
  }

  /** Filtering a sequence with a given first element. */
  lemma {:induction false} FilterCons<T>(h: T, t: seq<T>, p: T -> bool)
    ensures Filter([h] + t, p) == (if p(h) then [h] else []) + Filter(t, p)
  {
    assert ([h] + t)[1..] == t;
  }

  /** Moving x past y, when the filter does not keep both, keeps what the filter selects. */
  lemma {:induction false} FilterPassFront<T>(x: T, y: T, tail: seq<T>, inserted: seq<T>, p: T -> bool)
    requires !(p(x) && p(y))
    requires Filter(inserted, p) == (if p(x) then [x] else []) + Filter(tail, p)
    ensures Filter([y] + inserted, p) == (if p(x) then [x] else []) + Filter([y] + tail, p)
  {
    var rest := Filter(tail, p);
    FilterCons(y, inserted, p);
    FilterCons(y, tail, p);
    if p(x) {
      assert [] + rest == rest;
      assert Filter([y] + tail, p) == rest;
      assert Filter(inserted, p) == [x] + rest;
      assert Filter([y] + inserted, p) == [x] + rest;
    } else {
      assert [] + rest == rest;
      assert Filter(inserted, p) == rest;
    }
  }

  /** r can be obtained from s by deleting elements. */
  predicate IsSubsequence<T(==)>(r: seq<T>, s: seq<T>)
    decreases |s|
  {
    if r == [] then true
    else if s == [] then false
    else if r[0] == s[0] then IsSubsequence(r[1..], s[1..])
    else IsSubsequence(r, s[1..])
  }

  /** Filter keeps the order of s and keeps each element exactly as often as s holds it when
      it satisfies p, and never otherwise. */
  lemma {:induction false} FilterIsSelection<T>(s: seq<T>, p: T -> bool)
    ensures IsSubsequence(Filter(s, p), s)
    ensures forall x :: multiset(Filter(s, p))[x] == if p(x) then multiset(s)[x] else 0
  {
    if s != [] {
      FilterIsSelection(s[1..], p);
      assert s == [s[0]] + s[1..];
      var rest := Filter(s[1..], p);
      if p(s[0]) {
        assert Filter(s, p) == [s[0]] + rest;
        assert Filter(s, p)[1..] == rest;
      } else {
        assert Filter(s, p) == rest;
        SubsequenceOfTail(rest, s);
      }
    }
  }

  lemma {:induction false} SubsequenceOfTail<T>(r: seq<T>, s: seq<T>)
    requires s != [] && IsSubsequence(r, s[1..])
    ensures IsSubsequence(r, s)
    decreases |s|, 0
  {
    if r != [] && r[0] == s[0] {
      assert IsSubsequence(r[1..], s[1..]) by {
        if |s| > 1 {
          SubsequenceDropHead(r, s[1..]);
        } else {
          assert false;
        }
      }
    }
  }

  lemma {:induction false} SubsequenceDropHead<T>(r: seq<T>, s: seq<T>)
    requires r != [] && IsSubsequence(r, s)
    ensures IsSubsequence(r[1..], s)
    decreases |s|, 1
  {
    assert s != [];
    if r[0] == s[0] {
      SubsequenceOfTail(r[1..], s);
    } else {
      SubsequenceDropHead(r, s[1..]);
      SubsequenceOfTail(r[1..], s);
    }
  }

  lemma {:induction false} FilterAppend<T>(a: seq<T>, b: seq<T>, p: T -> bool)
    ensures Filter(a + b, p) == Filter(a, p) + Filter(b, p)
  {
    if a != [] {
      assert (a + b)[1..] == a[1..] + b;
      FilterAppend(a[1..], b, p);
    } else {
      assert a + b == b;
    }
  }

  /** `_.findLastIndex(s, p)`: the index of the last element satisfying p, or -1. */
  function FindLastIndex<T>(s: seq<T>, p: T -> bool): (r: int)
    ensures -1 <= r < |s|
    ensures r >= 0 ==> p(s[r])
    ensures forall j :: r < j < |s| ==> !p(s[j])
  {
    if s == [] then -1
    else if p(s[|s| - 1]) then |s| - 1
    else FindLastIndex(s[..|s| - 1], p)
  }

  /** When p holds of a prefix of s only (it is closed downwards along s), the elements
      satisfying p are exactly those up to the last index that does. */
  lemma {:induction false} FindLastIndexCountsPrefix<T>(s: seq<T>, p: T -> bool)
    requires forall i, j :: 0 <= i < j < |s| && p(s[j]) ==> p(s[i])
    ensures FindLastIndex(s, p) + 1 == |Filter(s, p)|
  {
    if s != [] {
      var n := |s| - 1;
      var init := s[..n];
      assert s == init + [s[n]];
      FilterAppend(init, [s[n]], p);
      assert Filter([s[n]], p) == if p(s[n]) then [s[n]] else [];
      if p(s[n]) {
        forall k | 0 <= k < |init| ensures p(init[k]) { assert p(s[k]); }
        FilterAll(init, p);
      } else {
        FindLastIndexCountsPrefix(init, p);
      }
    }
  }

  lemma {:induction false} FilterAll<T>(s: seq<T>, p: T -> bool)
    requires forall k :: 0 <= k < |s| ==> p(s[k])
    ensures Filter(s, p) == s
  {
    if s != [] {
      FilterAll(s[1..], p);
    }
  }

  /** When p implies q everywhere on s, q selects p's elements plus those of d, the elements
      satisfying q but not p. */
  lemma {:induction false} FilterDifference<T>(s: seq<T>, p: T -> bool, q: T -> bool, d: T -> bool)
    requires forall k :: 0 <= k < |s| && p(s[k]) ==> q(s[k])
    requires forall x :: d(x) == (q(x) && !p(x))
    ensures |Filter(s, q)| - |Filter(s, p)| == |Filter(s, d)|
  {
    if s != [] {
      FilterDifference(s[1..], p, q, d);
    }
  }

  /** If p implies q on s, the last index satisfying q is at or after the last satisfying p. */
  lemma {:induction false} FindLastIndexMonotone<T>(s: seq<T>, p: T -> bool, q: T -> bool)
    requires forall k :: 0 <= k < |s| && p(s[k]) ==> q(s[k])
    ensures FindLastIndex(s, p) <= FindLastIndex(s, q)
  {
    var i := FindLastIndex(s, p);
    if i >= 0 {
      assert q(s[i]);
    }
  }

  /** The last element Filter keeps is the one at FindLastIndex; Filter keeps nothing exactly
      when no index satisfies p. */
  lemma {:induction false} FilterLastIsFindLast<T>(s: seq<T>, p: T -> bool)
    ensures Filter(s, p) == [] <==> FindLastIndex(s, p) < 0
    ensures Filter(s, p) != [] ==> Filter(s, p)[|Filter(s, p)| - 1] == s[FindLastIndex(s, p)]
  {
    if s != [] {
      var n := |s| - 1;
      var init := s[..n];
      assert s == init + [s[n]];
      FilterAppend(init, [s[n]], p);
      assert Filter([s[n]], p) == if p(s[n]) then [s[n]] else [];
      if !p(s[n]) {
        FilterLastIsFindLast(init, p);
      }
    }
  }

  /** A weaker test keeps a list from which the stronger test's list can be obtained by
      deleting elements. */
  lemma {:induction false} FilterMonotone<T>(s: seq<T>, p: T -> bool, q: T -> bool)
    requires forall k :: 0 <= k < |s| && p(s[k]) ==> q(s[k])
    ensures IsSubsequence(Filter(s, p), Filter(s, q))
  {
    if s != [] {
      FilterMonotone(s[1..], p, q);
      var ps, qs := Filter(s[1..], p), Filter(s[1..], q);
      if p(s[0]) {
        assert Filter(s, p) == [s[0]] + ps && Filter(s, q) == [s[0]] + qs;
        assert Filter(s, p)[1..] == ps && Filter(s, q)[1..] == qs;
      } else if q(s[0]) {
        assert Filter(s, p) == ps && Filter(s, q) == [s[0]] + qs;
        assert Filter(s, q)[1..] == qs;
        SubsequenceOfTail(ps, Filter(s, q));
      } else {
        assert Filter(s, p) == ps && Filter(s, q) == qs;
      }
    }
  }

  /** Filter keeps every element exactly when every element satisfies p. */
  lemma {:induction false} FilterKeepsAllIff<T>(s: seq<T>, p: T -> bool)
    ensures |Filter(s, p)| == |s| <==> forall k :: 0 <= k < |s| ==> p(s[k])
  {
    if s != [] {
      FilterKeepsAllIff(s[1..], p);
      assert |Filter(s[1..], p)| <= |s[1..]|;
      if |Filter(s, p)| == |s| {
        forall k | 0 <= k < |s| ensures p(s[k]) {
          if k > 0 { assert s[k] == s[1..][k - 1]; }
        }
      }
      if forall k :: 0 <= k < |s| ==> p(s[k]) {
        FilterAll(s, p);
      }
    }
  }

  lemma {:induction false} FilterNone<T>(s: seq<T>, p: T -> bool)
    requires forall k :: 0 <= k < |s| ==> !p(s[k])
    ensures Filter(s, p) == []
  {
    if s != [] {
      FilterNone(s[1..], p);
    }
  }

  /** Counting q over s is counting it over the part that satisfies p plus the part that does
      not (np is the negation of p). */
  lemma {:induction false} FilterSplitCount<T>(s: seq<T>, p: T -> bool, np: T -> bool, q: T -> bool)
    requires forall x :: np(x) == !p(x)
    ensures |Filter(s, q)| == |Filter(Filter(s, p), q)| + |Filter(Filter(s, np), q)|
  {
    if s != [] {
      FilterSplitCount(s[1..], p, np, q);
      var x := s[0];
      var ps, nps := Filter(s[1..], p), Filter(s[1..], np);
      if p(x) {
        assert Filter(s, p) == [x] + ps && Filter(s, np) == nps;
        FilterAppend([x], ps, q);
      } else {
        assert Filter(s, p) == ps && Filter(s, np) == [x] + nps;
        FilterAppend([x], nps, q);
      }
    }
  }

  /** When every element satisfies p or q and none both, the two counts add up to the length. */
  lemma {:induction false} FilterPartitionCount<T>(s: seq<T>, p: T -> bool, q: T -> bool)
    requires forall k :: 0 <= k < |s| ==> (p(s[k]) <==> !q(s[k]))
    ensures |Filter(s, p)| + |Filter(s, q)| == |s|
  {
    if s != [] {
      FilterPartitionCount(s[1..], p, q);
    }
  }

  /** Removes consecutive repetitions: each run of equal neighbours becomes one element. */
  function Collapse<T(==)>(s: seq<T>): (r: seq<T>)
    ensures |r| <= |s|
    ensures s != [] ==> r != [] && r[0] == s[0]
  {
    if |s| <= 1 then s
    else if s[0] == s[1] then Collapse(s[1..])
    else [s[0]] + Collapse(s[1..])
  }

  /** No two neighbours are equal. */
  predicate NoAdjacentRepeats<T(==)>(s: seq<T>) {
    forall i :: 0 <= i < |s| - 1 ==> s[i] != s[i + 1]
  }

  /** A run of copies of x in front of a sequence that already starts with x collapses away. */
  lemma {:induction false} CollapseRun<T>(k: int, x: T, rest: seq<T>)
    requires rest != [] && rest[0] == x
    ensures Collapse(Repeat(k, x) + rest) == Collapse(rest)
    decreases if k <= 0 then 0 else k
  {
    if k > 0 {
      var s := Repeat(k, x) + rest;
      RepeatUnfold(k, x);
      assert s[0] == x;
      assert s[1..] == Repeat(k - 1, x) + rest;
      assert s[1] == x by {
        if k > 1 { assert Repeat(k - 1, x)[0] == x; } else { assert s[1..] == rest; }
      }
      CollapseRun(k - 1, x, rest);
    } else {
      assert Repeat(k, x) + rest == rest;
    }
  }

  function Count<T(==)>(s: seq<T>, x: T): (r: nat)
    ensures r == multiset(s)[x]
  {
    if s == [] then 0
    else (assert s == [s[0]] + s[1..]; (if s[0] == x then 1 else 0) + Count(s[1..], x))
  }

  /** The count of a later element after the head is kept in front of RepeatEach. */
  lemma {:induction false} HeadThenRepeatEachCount<T>(s: seq<T>, idx: T -> int, mult: int, i: int, k: int)
    requires forall a, b :: 0 <= a < b < |s| ==> s[a] != s[b]
    requires 1 <= i < |s| && idx(s[i]) - idx(s[i - 1]) == k
    ensures Count([s[0]] + RepeatEach(s, idx, mult), s[i]) == var n := 1 + k * mult; if n <= 0 then 0 else n
  {
    RepeatEachCount(s, idx, mult, i);
    CountConsOther(s[0], RepeatEach(s, idx, mult), s[i]);
  }

  /** A head other than x adds nothing to the count of x. */
  lemma {:induction false} CountConsOther<T>(h: T, rest: seq<T>, x: T)
    requires h != x
    ensures Count([h] + rest, x) == multiset(rest)[x]
  {
    assert ([h] + rest)[1..] == rest;
  }

  /** The neighbouring-pair expansion: for each pair (prev, curr) of s, in order,
      1 + mult * (idx(curr) - idx(prev)) copies of curr (none when that is not positive). */
  function RepeatEach<T>(s: seq<T>, idx: T -> int, mult: int): (r: seq<T>)
    ensures forall x :: x in r ==> x in s
  {
    if |s| < 2 then []
    else Repeat(1 + (idx(s[1]) - idx(s[0])) * mult, s[1]) + RepeatEach(s[1..], idx, mult)
  }

  /** Only elements after the first are repeated. */
  lemma {:induction false} RepeatEachFromTail<T>(s: seq<T>, idx: T -> int, mult: int)
    requires s != []
    ensures forall x :: x in RepeatEach(s, idx, mult) ==> x in s[1..]
  {
    if |s| >= 2 {
      assert s[1] in s[1..];
    }
  }

  /** idx never decreases between neighbours. */
  predicate StepsNonDecreasing<T>(s: seq<T>, idx: T -> int) {
    forall i :: 0 <= i < |s| - 1 ==> idx(s[i]) <= idx(s[i + 1])
  }

  lemma {:induction false} RepeatEachLength<T>(s: seq<T>, idx: T -> int, mult: nat)
    requires s != [] && StepsNonDecreasing(s, idx)
    ensures 1 + |RepeatEach(s, idx, mult)| == |s| + mult * (idx(s[|s| - 1]) - idx(s[0]))
  {
    if |s| >= 2 {
      var tail := s[1..];
      assert StepsNonDecreasing(tail, idx) by {
        forall i | 0 <= i < |tail| - 1 ensures idx(tail[i]) <= idx(tail[i + 1]) {
          assert tail[i] == s[i + 1] && tail[i + 1] == s[i + 2];
        }
      }
      RepeatEachLength(tail, idx, mult);
      var d := idx(s[1]) - idx(s[0]);
      var e := idx(s[|s| - 1]) - idx(s[1]);
      assert d >= 0 && 1 + d * mult >= 1;
      assert tail[|tail| - 1] == s[|s| - 1];
      assert mult * (d + e) == d * mult + mult * e;
    }
  }

  lemma {:induction false} RepeatEachCollapse<T>(s: seq<T>, idx: T -> int, mult: nat)
    requires s != [] && NoAdjacentRepeats(s) && StepsNonDecreasing(s, idx)
    ensures Collapse([s[0]] + RepeatEach(s, idx, mult)) == s
  {
    if |s| >= 2 {
      var tail := s[1..];
      TailKeepsSteps(s, idx);
      RepeatEachCollapse(tail, idx, mult);
      var d := idx(s[1]) - idx(s[0]);
      NonNegativeProduct(d, mult);
      var rest := RepeatEach(tail, idx, mult);
      assert tail[0] == s[1];
      assert RepeatEach(s, idx, mult) == Repeat(1 + d * mult, s[1]) + rest;
      CollapseAfterRun(s[0], 1 + d * mult, s[1], rest);
      assert s == [s[0]] + tail;
    } else {
      assert [s[0]] + RepeatEach(s, idx, mult) == s;
    }
  }

  lemma {:induction false} TailKeepsSteps<T>(s: seq<T>, idx: T -> int)
    requires s != [] && NoAdjacentRepeats(s) && StepsNonDecreasing(s, idx)
    ensures NoAdjacentRepeats(s[1..]) && StepsNonDecreasing(s[1..], idx)
  {
    var tail := s[1..];
    forall i | 0 <= i < |tail| - 1 ensures tail[i] != tail[i + 1] && idx(tail[i]) <= idx(tail[i + 1]) {
      assert tail[i] == s[i + 1] && tail[i + 1] == s[i + 2];
    }
  }

  lemma {:induction false} NonNegativeProduct(d: int, m: nat)
    requires d >= 0
    ensures d * m >= 0
  {
  }

  /** [a], then k >= 1 copies of b, then rest, collapses to a in front of the collapse of
      [b] + rest. */
  lemma {:induction false} CollapseAfterRun<T>(a: T, k: int, b: T, rest: seq<T>)
    requires k >= 1 && a != b
    ensures Collapse([a] + (Repeat(k, b) + rest)) == [a] + Collapse([b] + rest)
  {
    var m := [b] + rest;
    var x := Repeat(k, b) + rest;
    assert x == Repeat(k - 1, b) + m by {
      RepeatUnfold(k, b);
    }
    CollapseRun(k - 1, b, m);
    var whole := [a] + x;
    assert whole[1] == b;
    assert whole[1..] == x;
  }

  /** With idx constant along s every element appears once: nothing is repeated. */
  lemma {:induction false} RepeatEachConstant<T>(s: seq<T>, idx: T -> int, mult: int)
    requires s != []
    requires forall i :: 0 <= i < |s| ==> idx(s[i]) == idx(s[0])
    ensures [s[0]] + RepeatEach(s, idx, mult) == s
  {
    if |s| >= 2 {
      var tail := s[1..];
      assert forall i :: 0 <= i < |tail| ==> idx(tail[i]) == idx(s[i + 1]);
      RepeatEachConstant(tail, idx, mult);
      assert Repeat(1 + (idx(s[1]) - idx(s[0])) * mult, s[1]) == [s[1]];
      assert s == [s[0]] + tail;
    }
  }

  /** n copies of x hold x n times (none for n <= 0) and nothing else. */
  lemma {:induction false} RepeatCount<T>(n: int, x: T)
    ensures multiset(Repeat(n, x))[x] == if n <= 0 then 0 else n
    ensures forall y :: y != x ==> y !in Repeat(n, x)
    decreases if n <= 0 then 0 else n
  {
    if n > 0 {
      RepeatCount(n - 1, x);
      RepeatUnfold(n, x);
    }
  }

  /** In a sequence without repeated elements, every element after the first occurs in the
      expansion exactly as often as its own repeat count says. */
  lemma {:induction false} RepeatEachCount<T>(s: seq<T>, idx: T -> int, mult: int, i: int)
    requires forall a, b :: 0 <= a < b < |s| ==> s[a] != s[b]
    requires 1 <= i < |s|
    ensures multiset(RepeatEach(s, idx, mult))[s[i]]
      == var n := 1 + (idx(s[i]) - idx(s[i - 1])) * mult; if n <= 0 then 0 else n
  {
    var head := Repeat(1 + (idx(s[1]) - idx(s[0])) * mult, s[1]);
    var tail := RepeatEach(s[1..], idx, mult);
    assert RepeatEach(s, idx, mult) == head + tail;
    RepeatCount(1 + (idx(s[1]) - idx(s[0])) * mult, s[1]);
    if i == 1 {
      if |s| >= 2 {
        RepeatEachFromTail(s[1..], idx, mult);
        assert s[1] !in s[2..] by {
          forall k | 2 <= k < |s| ensures s[k] != s[1] { }
        }
        assert s[1..][1..] == s[2..];
        assert s[1] !in tail;
      }
    } else {
      assert s[i] != s[1];
      assert s[i] !in head;
      RepeatEachCount(s[1..], idx, mult, i - 1);
      assert s[1..][i - 1] == s[i] && s[1..][i - 2] == s[i - 1];
    }
  }

  /** Collapsing only removes elements. */
  lemma {:induction false} CollapseKeepsElements<T>(s: seq<T>, x: T)
    requires x in Collapse(s)
    ensures x in s
  {
    if |s| > 1 {
      if s[0] == s[1] {
        CollapseKeepsElements(s[1..], x);
      } else if x != s[0] {
        CollapseKeepsElements(s[1..], x);
      }
    }
  }
}
