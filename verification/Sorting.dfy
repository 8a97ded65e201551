/** The in-place insertion sort that the loader writes out three times: for firmware
    descriptors, for reservations and for page-table frames. */
module Sorting {
  import opened Prelude

  ghost predicate SortedBy<T(!new)>(s: seq<T>, key: T -> int) {
    forall i, j | 0 <= i < j < |s| :: key(s[i]) <= key(s[j])
  }

  ghost predicate StrictlySortedBy<T(!new)>(s: seq<T>, key: T -> int) {
    forall i, j | 0 <= i < j < |s| :: key(s[i]) < key(s[j])
  }

  ghost predicate Pairwise<T(!new)>(s: seq<T>, rel: (T, T) -> bool) {
    forall i, j | 0 <= i < j < |s| :: rel(s[i], s[j])
  }

  ghost predicate Symmetric<T(!new)>(rel: (T, T) -> bool) {
    forall x, y :: rel(x, y) == rel(y, x)
  }

  /** Inserts `v` behind every trailing element whose key is not larger. */
  ghost function Insert<T(!new)>(s: seq<T>, v: T, key: T -> int): seq<T> {
    if s == [] || key(s[|s| - 1]) <= key(v) then s + [v]
    else Insert(s[..|s| - 1], v, key) + [s[|s| - 1]]
  }

  ghost function Sort<T(!new)>(s: seq<T>, key: T -> int): seq<T> {
    if s == [] then [] else Insert(Sort(s[..|s| - 1], key), s[|s| - 1], key)
  }

  lemma {:induction false} InsertAtSplit<T(!new)>(s: seq<T>, v: T, key: T -> int, p: nat)
    requires p <= |s|
    requires forall i | p <= i < |s| :: key(s[i]) > key(v)
    requires p > 0 ==> key(s[p - 1]) <= key(v)
    ensures Insert(s, v, key) == s[..p] + [v] + s[p..]
  {
    if p < |s| {
      var front := s[..|s| - 1];
      InsertAtSplit(front, v, key, p);
      assert front[..p] + [v] + front[p..] + [s[|s| - 1]] == s[..p] + [v] + s[p..];
    }
  }

  /** Every insertion has a split point between the keys not above `v` and one above it. */
  lemma {:induction false} InsertSplits<T(!new)>(s: seq<T>, v: T, key: T -> int) returns (p: nat)
    ensures p <= |s| && Insert(s, v, key) == s[..p] + [v] + s[p..]
    ensures p > 0 ==> key(s[p - 1]) <= key(v)
    ensures p < |s| ==> key(v) < key(s[p])
  {
    if s == [] || key(s[|s| - 1]) <= key(v) {
      p := |s|;
    } else {
      var front, last := s[..|s| - 1], s[|s| - 1];
      p := InsertSplits(front, v, key);
      SplitSnoc(s, v, p);
    }
  }

  lemma SplitSnoc<T>(s: seq<T>, v: T, p: nat)
    requires p < |s|
    ensures s[..|s| - 1][..p] + [v] + s[..|s| - 1][p..] + [s[|s| - 1]] == s[..p] + [v] + s[p..]
  {
  }

  lemma SnocMultiset<T>(s: seq<T>, v: T)
    ensures multiset(s + [v]) == multiset(s) + multiset{v}
  {
  }

  lemma SplitMultiset<T>(s: seq<T>, v: T, p: nat)
    requires p <= |s|
    ensures multiset(s[..p] + [v] + s[p..]) == multiset(s) + multiset{v}
  {
    assert s == s[..p] + s[p..];
  }

  lemma SplitSorted<T(!new)>(s: seq<T>, v: T, p: nat, key: T -> int)
    requires p <= |s| && SortedBy(s, key)
    requires p > 0 ==> key(s[p - 1]) <= key(v)
    requires p < |s| ==> key(v) < key(s[p])
    ensures SortedBy(s[..p] + [v] + s[p..], key)
  {
    var t := s[..p] + [v] + s[p..];
    forall i, j | 0 <= i < j < |t| ensures key(t[i]) <= key(t[j]) {
      var x := if i < p then s[i] else if i == p then v else s[i - 1];
      var y := if j < p then s[j] else if j == p then v else s[j - 1];
      assert t[i] == x && t[j] == y;
    }
  }

  lemma {:induction false} SortSorts<T(!new)>(s: seq<T>, key: T -> int)
    ensures SortedBy(Sort(s, key), key)
    ensures |Sort(s, key)| == |s|
  {
    if s != [] {
      var front, v := s[..|s| - 1], s[|s| - 1];
      SortSorts(front, key);
      var p := InsertSplits(Sort(front, key), v, key);
      SplitSorted(Sort(front, key), v, p, key);
    }
  }

  lemma InsertPermutes<T(!new)>(s: seq<T>, v: T, key: T -> int)
    ensures multiset(Insert(s, v, key)) == multiset(s) + multiset{v}
  {
    hide Insert;
    var p := InsertSplits(s, v, key);
    SplitMultiset(s, v, p);
  }

  lemma {:induction false} SortPermutes<T(!new)>(s: seq<T>, key: T -> int)
    ensures multiset(Sort(s, key)) == multiset(s)
  {
    if s != [] {
      var front, v := s[..|s| - 1], s[|s| - 1];
      SortPermutes(front, key);
      InsertPermutes(Sort(front, key), v, key);
      SnocMultiset(front, v);
      assert s == front + [v];
    }
  }

  lemma SameMembers<T>(s: seq<T>, t: seq<T>, x: T)
    requires multiset(s) == multiset(t)
    ensures x in s <==> x in t
  {
    assert x in s <==> x in multiset(s);
    assert x in t <==> x in multiset(t);
  }

  ghost predicate AllRelate<T(!new)>(s: seq<T>, v: T, rel: (T, T) -> bool) {
    forall i | 0 <= i < |s| :: rel(s[i], v)
  }

  lemma RelatePermuted<T(!new)>(s: seq<T>, t: seq<T>, v: T, rel: (T, T) -> bool)
    requires multiset(s) == multiset(t) && AllRelate(s, v, rel)
    ensures AllRelate(t, v, rel)
  {
    forall i | 0 <= i < |t| ensures rel(t[i], v) {
      SameMembers(s, t, t[i]);
      var k :| 0 <= k < |s| && s[k] == t[i];
    }
  }

  /** A symmetric relation holds pairwise before sorting exactly when it does afterwards. */
  lemma {:induction false} SortPairwise<T(!new)>(s: seq<T>, key: T -> int, rel: (T, T) -> bool)
    requires Symmetric(rel)
    ensures Pairwise(Sort(s, key), rel) <==> Pairwise(s, rel)
  {
    if s != [] {
      hide Pairwise, Symmetric, AllRelate, Insert;
      var front, v := s[..|s| - 1], s[|s| - 1];
      SortPairwise(front, key, rel);
      SortStepPairwise(front, v, Sort(front, key), key, rel);
      assert s == front + [v];
    }
  }

  lemma SortStepPairwise<T(!new)>(front: seq<T>, v: T, t: seq<T>, key: T -> int, rel: (T, T) -> bool)
    requires Symmetric(rel) && t == Sort(front, key) && (Pairwise(t, rel) <==> Pairwise(front, rel))
    ensures Pairwise(Insert(t, v, key), rel) <==> Pairwise(front + [v], rel)
  {
    hide *;
    SortPermutes(front, key);
    var p := InsertSplits(t, v, key);
    PairwiseInsert(t, v, p, rel);
    PairwiseInsert(front, v, |front|, rel);
    AtEnd(front, v);
    if AllRelate(front, v, rel) { RelatePermuted(front, t, v, rel); }
    if AllRelate(t, v, rel) { RelatePermuted(t, front, v, rel); }
  }

  lemma AtEnd<T>(s: seq<T>, v: T)
    ensures s[..|s|] + [v] + s[|s|..] == s + [v]
  {
  }

  lemma PairwiseInsert<T(!new)>(s: seq<T>, v: T, p: nat, rel: (T, T) -> bool)
    requires p <= |s| && Symmetric(rel)
    ensures Pairwise(s[..p] + [v] + s[p..], rel) <==> Pairwise(s, rel) && AllRelate(s, v, rel)
  {
    hide *;
    var t := s[..p] + [v] + s[p..];
    Without(s, v, p);
    if Pairwise(t, rel) { PairwiseSplit(s, v, p, t, rel); }
    if Pairwise(s, rel) && AllRelate(s, v, rel) { PairwiseJoin(s, v, p, t, rel); }
  }

  lemma Without<T>(s: seq<T>, v: T, p: nat)
    requires p <= |s|
    ensures var t := s[..p] + [v] + s[p..]; |t| == |s| + 1 && t[p] == v && s == t[..p] + t[p + 1..]
  {
  }

  lemma PairwiseJoin<T(!new)>(s: seq<T>, v: T, p: nat, t: seq<T>, rel: (T, T) -> bool)
    requires p <= |s| && Symmetric(rel) && |t| == |s| + 1 && t[p] == v && Pairwise(s, rel) && AllRelate(s, v, rel)
    requires s == t[..p] + t[p + 1..]
    ensures Pairwise(t, rel)
  {
    forall i, j | 0 <= i < j < |t| ensures rel(t[i], t[j]) {
      assert i < p ==> s[i] == t[i];
      assert i > p ==> s[i - 1] == t[i];
      assert j < p ==> s[j] == t[j];
      assert j > p ==> s[j - 1] == t[j];
    }
  }

  lemma PairwiseSplit<T(!new)>(s: seq<T>, v: T, p: nat, t: seq<T>, rel: (T, T) -> bool)
    requires p <= |s| && Symmetric(rel) && |t| == |s| + 1 && t[p] == v && Pairwise(t, rel)
    requires s == t[..p] + t[p + 1..]
    ensures Pairwise(s, rel) && AllRelate(s, v, rel)
  {
    forall i, j | 0 <= i < j < |s| ensures rel(s[i], s[j]) {
      assert s[i] == t[if i < p then i else i + 1] && s[j] == t[if j < p then j else j + 1];
    }
    forall i | 0 <= i < |s| ensures rel(s[i], v) {
      if i < p { assert s[i] == t[i] && rel(t[i], t[p]); } else { assert s[i] == t[i + 1] && rel(t[p], t[i + 1]); }
    }
  }

  /** A strictly sorted sequence is the only sorted arrangement of its elements. */
  lemma {:induction false} SortedUnique<T(!new)>(a: seq<T>, b: seq<T>, key: T -> int)
    requires StrictlySortedBy(a, key) && SortedBy(b, key)
    requires multiset(a) == multiset(b)
    ensures a == b
  {
    SameLength(a, b);
    if a != [] {
      SameLast(a, b, key);
      SameFront(a, b);
      SortedUnique(a[..|a| - 1], b[..|b| - 1], key);
    }
  }

  lemma SameLength<T>(a: seq<T>, b: seq<T>)
    requires multiset(a) == multiset(b)
    ensures |a| == |b|
  {
    assert |a| == |multiset(a)| && |b| == |multiset(b)|;
  }

  lemma SameFront<T>(a: seq<T>, b: seq<T>)
    requires multiset(a) == multiset(b) && a != [] && b != [] && a[|a| - 1] == b[|b| - 1]
    ensures multiset(a[..|a| - 1]) == multiset(b[..|b| - 1])
  {
    FrontMultiset(a);
    FrontMultiset(b);
  }

  lemma FrontMultiset<T>(a: seq<T>)
    requires a != []
    ensures multiset(a[..|a| - 1]) == multiset(a) - multiset{a[|a| - 1]}
  {
    var front, x := a[..|a| - 1], a[|a| - 1];
    assert a == front + [x];
    SnocMultiset(front, x);
    MultisetMinus(multiset(front), x);
  }

  lemma MultisetMinus<T>(m: multiset<T>, x: T)
    ensures m + multiset{x} - multiset{x} == m
  {
  }

  lemma SameLast<T(!new)>(a: seq<T>, b: seq<T>, key: T -> int)
    requires StrictlySortedBy(a, key) && SortedBy(b, key)
    requires multiset(a) == multiset(b) && a != [] && b != []
    ensures a[|a| - 1] == b[|b| - 1]
  {
    var x, y := a[|a| - 1], b[|b| - 1];
    SameMembers(a, b, x);
    SameMembers(a, b, y);
    var i :| 0 <= i < |b| && b[i] == x;
    var j :| 0 <= j < |a| && a[j] == y;
    assert key(x) <= key(y);
  }

  /** Moves the value in cell `index` down to its place among the sorted cells before it. */
  method InsertLast<T(!new)>(a: array<T>, index: nat, key: T -> int)
    requires index < a.Length
    modifies a
    ensures a[..index + 1] == Insert(old(a[..index]), old(a[index]), key)
    ensures forall k | index < k < a.Length :: a[k] == old(a[k])
  {
    ghost var done := a[..index];
    var value := a[index];
    var position := index;
    while position > 0 && key(a[position - 1]) > key(value)
      invariant 0 <= position <= index
      invariant forall i | 0 <= i < position :: a[i] == done[i]
      invariant forall i | position < i <= index :: a[i] == done[i - 1]
      invariant forall i | position <= i < index :: key(done[i]) > key(value)
      invariant forall k | index < k < a.Length :: a[k] == old(a[k])
    {
      a[position] := a[position - 1];
      position := position - 1;
    }
    a[position] := value;
    InsertAtSplit(done, value, key, position);
    assert a[..index + 1] == done[..position] + [value] + done[position..];
  }

  lemma SortOne<T(!new)>(s: seq<T>, key: T -> int)
    ensures s == [] ==> Sort(s, key) == []
    ensures s != [] ==> Sort(s[..1], key) == s[..1]
  {
    if s != [] { assert s[..1][..0] == []; }
  }

  lemma SortNext<T(!new)>(s: seq<T>, n: nat, key: T -> int)
    requires n < |s|
    ensures Sort(s[..n + 1], key) == Insert(Sort(s[..n], key), s[n], key)
  {
    assert s[..n + 1][..n] == s[..n];
  }

  /** Sorts the first `len` cells in place and leaves the rest alone. */
  method InsertionSort<T(!new)>(a: array<T>, len: nat, key: T -> int)
    requires len <= a.Length
    modifies a
    ensures a[..len] == Sort(old(a[..len]), key)
    ensures forall k | len <= k < a.Length :: a[k] == old(a[k])
  {
    hide Sort, Insert;
    ghost var was := a[..len];
    var index := 1;
    SortOne(was, key);
    while index < len
      invariant 1 <= index && (len > 0 ==> index <= len)
      invariant len > 0 ==> a[..index] == Sort(was[..index], key)
      invariant forall k | Min(index, len) <= k < a.Length :: a[k] == old(a[k])
    {
      SortNext(was, index, key);
      InsertLast(a, index, key);
      index := index + 1;
    }
    assert len > 0 ==> was[..len] == was;
  }

  /** Shifts the cells from `p` up by one and stores `v` in the gap. */
  method ShiftIn<T>(a: array<T>, len: nat, p: nat, v: T)
    requires p <= len < a.Length
    modifies a
    ensures a[..len + 1] == old(a[..p]) + [v] + old(a[p..len])
  {
    var index := len;
    while index > p
      invariant p <= index <= len
      invariant forall k | 0 <= k <= index && k < len :: a[k] == old(a[k])
      invariant forall k | index < k <= len :: a[k] == old(a[k - 1])
    {
      a[index] := a[index - 1];
      index := index - 1;
    }
    a[p] := v;
  }
}
