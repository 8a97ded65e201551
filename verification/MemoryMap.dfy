/** Firmware memory descriptors and their normal form. */
module MemoryMap {
  import opened Prelude
  import opened Sorting

  const KIND_USABLE: U32 := 1
  const KIND_RESERVED: U32 := 2
  const KIND_PAGE_TABLE: U32 := 13

  datatype Descriptor = Descriptor(kind: U32, reserved0: U32, start: U64, pages: U64, attributes: U64)

  /** What a map says about one physical address. */
  datatype Tag = Tag(kind: U32, attributes: U64)

  datatype MapError =
    | ZeroPages | RangeOverflow | Unaligned | DescriptorOverlap
    | ReservationCapacity | ReservationOverlap | ReservationOutsideMap | OutputCapacity

  const EMPTY := Descriptor(0, 0, 0, 0, 0)

  function End(d: Descriptor): int { d.start + d.pages * 4096 }

  function Start(d: Descriptor): int { d.start }

  function TagOf(d: Descriptor): Tag { Tag(d.kind, d.attributes) }

  predicate Covers(d: Descriptor, a: int) { d.start <= a < End(d) }

  predicate Apart(x: Descriptor, y: Descriptor) { End(x) <= y.start || End(y) <= x.start }

  /** The checked end of a range. */
  function RangeEnd(start: U64, pages: U64): Result<U64, MapError> {
    if pages * 4096 >= U64_LIMIT then Err(RangeOverflow)
    else if start + pages * 4096 >= U64_LIMIT then Err(RangeOverflow)
    else Ok(start + pages * 4096)
  }

  function ValidateRange(start: U64, pages: U64): (r: Result<(), MapError>)
    ensures r.Ok? <==> pages > 0 && start % 4096 == 0 && start + pages * 4096 < U64_LIMIT
  {
    if pages == 0 then Err(ZeroPages)
    else if start % 4096 != 0 then Err(Unaligned)
    else match RangeEnd(start, pages)
      case Ok(_) => Ok(())
      case Err(e) => Err(e)
  }

  predicate ValidRange(d: Descriptor) { d.pages > 0 && d.start % 4096 == 0 && End(d) < U64_LIMIT }

  ghost predicate AllValid(s: seq<Descriptor>) { forall i | 0 <= i < |s| :: ValidRange(s[i]) }

  /** Sorted by start and pairwise disjoint. */
  ghost predicate Ordered(s: seq<Descriptor>) {
    forall i, j | 0 <= i < j < |s| :: End(s[i]) <= s[j].start
  }

  /** The meaning of a map: the tag of the descriptor that covers an address. */
  ghost function At(s: seq<Descriptor>, a: int): Option<Tag> {
    if s == [] then None
    else if Covers(s[|s| - 1], a) then Some(TagOf(s[|s| - 1]))
    else At(s[..|s| - 1], a)
  }

  predicate Mergeable(x: Descriptor, y: Descriptor) {
    End(x) == y.start && x.kind == y.kind && x.attributes == y.attributes
  }

  ghost predicate NoMergeableNeighbours(s: seq<Descriptor>) {
    forall i | 0 <= i < |s| - 1 :: !Mergeable(s[i], s[i + 1])
  }

  /** Adds one descriptor behind a map, extending the last one when they can merge. */
  ghost function MergeOne(acc: seq<Descriptor>, d: Descriptor): (o: seq<Descriptor>)
    requires AllValid(acc) && ValidRange(d)
    ensures AllValid(o) && |acc| <= |o| <= |acc| + 1 && o != [] && End(o[|o| - 1]) == End(d)
  {
    if acc != [] && Mergeable(acc[|acc| - 1], d) then
      var last := acc[|acc| - 1];
      acc[..|acc| - 1] + [last.(pages := last.pages + d.pages)]
    else acc + [d]
  }

  ghost function Merge(s: seq<Descriptor>): (r: seq<Descriptor>)
    requires AllValid(s)
    ensures AllValid(r) && |r| <= |s| && (s != [] ==> r != [] && End(r[|r| - 1]) == End(s[|s| - 1]))
  {
    if s == [] then [] else MergeOne(Merge(s[..|s| - 1]), s[|s| - 1])
  }

  /** The normal form of a map: sorted, then merged. */
  ghost function Normal(s: seq<Descriptor>): seq<Descriptor>
    requires AllValid(s)
  {
    SortValid(s);
    Merge(Sort(s, Start))
  }

  lemma ValidPermuted(s: seq<Descriptor>, t: seq<Descriptor>)
    requires multiset(s) == multiset(t) && AllValid(s)
    ensures AllValid(t)
  {
    forall i | 0 <= i < |t| ensures ValidRange(t[i]) {
      SameMembers(s, t, t[i]);
    }
  }

  lemma SortValid(s: seq<Descriptor>)
    ensures |Sort(s, Start)| == |s|
    ensures AllValid(s) ==> AllValid(Sort(s, Start))
  {
    SortSorts(s, Start);
    SortPermutes(s, Start);
    if AllValid(s) { ValidPermuted(s, Sort(s, Start)); }
  }

  /** On valid descriptors, being disjoint is exactly what the neighbour check sees after sorting. */
  lemma ApartIsOrdered(s: seq<Descriptor>)
    requires AllValid(s)
    ensures Ordered(Sort(s, Start)) <==> Pairwise(s, Apart)
  {
    var t := Sort(s, Start);
    SortSorts(s, Start);
    SortPairwise(s, Start, Apart);
    SortValid(s);
    if Pairwise(t, Apart) {
      forall i, j | 0 <= i < j < |t| ensures End(t[i]) <= t[j].start {
        assert Apart(t[i], t[j]) && Start(t[i]) <= Start(t[j]);
      }
    }
  }

  lemma {:induction false} AtCovered(s: seq<Descriptor>, i: nat, a: int)
    requires i < |s| && Covers(s[i], a) && Pairwise(s, Apart)
    ensures At(s, a) == Some(TagOf(s[i]))
  {
    if i < |s| - 1 {
      assert Apart(s[i], s[|s| - 1]);
      AtCovered(s[..|s| - 1], i, a);
    }
  }

  lemma {:induction false} AtUncovered(s: seq<Descriptor>, a: int)
    requires forall i | 0 <= i < |s| :: !Covers(s[i], a)
    ensures At(s, a) == None
  {
    if s != [] { AtUncovered(s[..|s| - 1], a); }
  }

  lemma {:induction false} AtHasDescriptor(s: seq<Descriptor>, a: int) returns (i: nat)
    requires At(s, a).Some?
    ensures i < |s| && Covers(s[i], a) && At(s, a) == Some(TagOf(s[i]))
  {
    if Covers(s[|s| - 1], a) { i := |s| - 1; } else { i := AtHasDescriptor(s[..|s| - 1], a); }
  }

  lemma OrderedIsApart(s: seq<Descriptor>)
    requires Ordered(s)
    ensures Pairwise(s, Apart)
  {
  }

  /** Reordering a disjoint map does not change its meaning. */
  lemma SortKeepsMeaning(s: seq<Descriptor>, a: int)
    requires Pairwise(s, Apart)
    ensures At(Sort(s, Start), a) == At(s, a)
  {
    var t := Sort(s, Start);
    SortPairwise(s, Start, Apart);
    SortPermutes(s, Start);
    if At(s, a).Some? {
      var i := AtHasDescriptor(s, a);
      SameMembers(s, t, s[i]);
      var k :| 0 <= k < |t| && t[k] == s[i];
      AtCovered(t, k, a);
    } else if At(t, a).Some? {
      var i := AtHasDescriptor(t, a);
      SameMembers(s, t, t[i]);
      var k :| 0 <= k < |s| && s[k] == t[i];
      AtCovered(s, k, a);
    }
  }

  lemma AtSnoc(s: seq<Descriptor>, d: Descriptor, a: int)
    ensures At(s + [d], a) == if Covers(d, a) then Some(TagOf(d)) else At(s, a)
  {
    assert (s + [d])[..|s|] == s;
  }

  lemma MergeOneAt(acc: seq<Descriptor>, d: Descriptor, a: int)
    requires AllValid(acc) && ValidRange(d)
    ensures At(MergeOne(acc, d), a) == if Covers(d, a) then Some(TagOf(d)) else At(acc, a)
  {
    if acc != [] && Mergeable(acc[|acc| - 1], d) {
      var last := acc[|acc| - 1];
      AtSnoc(acc[..|acc| - 1], last.(pages := last.pages + d.pages), a);
    } else {
      AtSnoc(acc, d, a);
    }
  }

  lemma MergeOneOrdered(acc: seq<Descriptor>, d: Descriptor)
    requires AllValid(acc) && ValidRange(d)
    requires Ordered(acc) && (acc != [] ==> End(acc[|acc| - 1]) <= d.start)
    ensures Ordered(MergeOne(acc, d))
  {
  }

  lemma MergeOneTight(acc: seq<Descriptor>, d: Descriptor)
    requires AllValid(acc) && ValidRange(d) && NoMergeableNeighbours(acc)
    ensures NoMergeableNeighbours(MergeOne(acc, d))
  {
    var o := MergeOne(acc, d);
    forall i | 0 <= i < |o| - 1 ensures !Mergeable(o[i], o[i + 1]) {
      if i < |acc| - 1 { assert !Mergeable(acc[i], acc[i + 1]); }
    }
  }

  /** Merging a sorted disjoint map: same meaning at every address, still sorted, nothing left to merge. */
  lemma {:induction false} MergeKeeps(s: seq<Descriptor>, a: int)
    requires AllValid(s) && Ordered(s)
    ensures At(Merge(s), a) == At(s, a)
    ensures Ordered(Merge(s)) && NoMergeableNeighbours(Merge(s))
  {
    if s != [] {
      hide MergeOne, NoMergeableNeighbours, ValidRange;
      var front := s[..|s| - 1];
      MergeKeeps(front, a);
      MergeOneAt(Merge(front), s[|s| - 1], a);
      MergeOneOrdered(Merge(front), s[|s| - 1]);
      MergeOneTight(Merge(front), s[|s| - 1]);
    }
  }

  lemma {:induction false} MergeIdentity(s: seq<Descriptor>)
    requires AllValid(s) && NoMergeableNeighbours(s)
    ensures Merge(s) == s
  {
    if s != [] {
      var front := s[..|s| - 1];
      assert NoMergeableNeighbours(front) by {
        forall i | 0 <= i < |front| - 1 ensures !Mergeable(front[i], front[i + 1]) {
          assert !Mergeable(s[i], s[i + 1]);
        }
      }
      MergeIdentity(front);
      assert |s| > 1 ==> !Mergeable(s[|s| - 2], s[|s| - 2 + 1]);
    }
  }

  ghost predicate Canonical(s: seq<Descriptor>) {
    AllValid(s) && Ordered(s) && NoMergeableNeighbours(s)
  }

  ghost predicate SameMeaning(s: seq<Descriptor>, t: seq<Descriptor>) {
    forall a :: At(s, a) == At(t, a)
  }

  ghost predicate ReservedZero(s: seq<Descriptor>) { forall i | 0 <= i < |s| :: s[i].reserved0 == 0 }

  lemma AtLast(s: seq<Descriptor>, a: int)
    requires AllValid(s) && Ordered(s) && s != []
    ensures a >= End(s[|s| - 1]) ==> At(s, a) == None
    ensures a >= s[|s| - 1].start ==> At(s[..|s| - 1], a) == None
    ensures a == End(s[|s| - 1]) - 1 ==> At(s, a) == Some(TagOf(s[|s| - 1]))
  {
    if a >= s[|s| - 1].start { AtUncovered(s[..|s| - 1], a); }
  }

  lemma SameLastEnd(s: seq<Descriptor>, t: seq<Descriptor>)
    requires Canonical(s) && Canonical(t) && SameMeaning(s, t) && s != [] && t != []
    ensures End(s[|s| - 1]) <= End(t[|t| - 1])
    ensures End(s[|s| - 1]) == End(t[|t| - 1]) ==> TagOf(s[|s| - 1]) == TagOf(t[|t| - 1])
  {
    var a := End(s[|s| - 1]) - 1;
    AtLast(s, a);
    AtLast(t, a);
    assert At(s, a) == At(t, a);
  }

  /** Just below its last descriptor a canonical map says something else, or nothing. */
  lemma BelowLast(t: seq<Descriptor>)
    requires Canonical(t) && t != []
    ensures At(t, t[|t| - 1].start - 1) != Some(TagOf(t[|t| - 1]))
  {
    var front, a := t[..|t| - 1], t[|t| - 1].start - 1;
    if |t| > 1 {
      assert !Mergeable(t[|t| - 2], t[|t| - 2 + 1]);
      AtLast(front, a);
    }
  }

  /** The last descriptor of one canonical map cannot begin before that of another with the same meaning. */
  lemma SameLastStart(s: seq<Descriptor>, t: seq<Descriptor>)
    requires Canonical(s) && Canonical(t) && SameMeaning(s, t) && s != [] && t != []
    requires End(s[|s| - 1]) == End(t[|t| - 1]) && TagOf(s[|s| - 1]) == TagOf(t[|t| - 1])
    ensures t[|t| - 1].start <= s[|s| - 1].start
  {
    BelowLast(t);
    assert At(s, t[|t| - 1].start - 1) == At(t, t[|t| - 1].start - 1);
  }

  lemma MeaningNotEmpty(s: seq<Descriptor>, t: seq<Descriptor>)
    requires Canonical(t) && SameMeaning(s, t)
    ensures t != [] ==> s != []
  {
    if t != [] {
      AtLast(t, End(t[|t| - 1]) - 1);
      assert At(s, End(t[|t| - 1]) - 1).Some?;
    }
  }

  lemma SameMeaningFront(s: seq<Descriptor>, t: seq<Descriptor>)
    requires Canonical(s) && Canonical(t) && SameMeaning(s, t) && s != [] && t != []
    requires s[|s| - 1] == t[|t| - 1]
    ensures Canonical(s[..|s| - 1]) && SameMeaning(s[..|s| - 1], t[..|t| - 1])
  {
    var front, back := s[..|s| - 1], t[..|t| - 1];
    forall a ensures At(front, a) == At(back, a) {
      AtLast(s, a);
      AtLast(t, a);
      assert At(s, a) == At(t, a);
    }
    forall i | 0 <= i < |front| - 1 ensures !Mergeable(front[i], front[i + 1]) {
      assert !Mergeable(s[i], s[i + 1]);
    }
  }

  /** Canonical maps are determined by their meaning: two that agree at every address are equal. */
  lemma {:induction false} CanonicalUnique(s: seq<Descriptor>, t: seq<Descriptor>)
    requires Canonical(s) && Canonical(t) && SameMeaning(s, t)
    requires ReservedZero(s) && ReservedZero(t)
    ensures s == t
    decreases |s| + |t|
  {
    MeaningNotEmpty(s, t);
    MeaningNotEmpty(t, s);
    if s != [] {
      SameLastEnd(s, t);
      SameLastEnd(t, s);
      SameLastStart(s, t);
      SameLastStart(t, s);
      SameMeaningFront(s, t);
      SameMeaningFront(t, s);
      CanonicalUnique(s[..|s| - 1], t[..|t| - 1]);
    }
  }

  /** Normalising a valid disjoint map: canonical, and every address keeps its kind and attributes. */
  lemma NormalIsCanonical(s: seq<Descriptor>)
    requires AllValid(s) && Pairwise(s, Apart)
    ensures Canonical(Normal(s)) && SameMeaning(Normal(s), s)
  {
    SortValid(s);
    ApartIsOrdered(s);
    MergeKeeps(Sort(s, Start), 0);
    forall a ensures At(Normal(s), a) == At(s, a) {
      MergeKeeps(Sort(s, Start), a);
      SortKeepsMeaning(s, a);
    }
  }

  lemma MergeOneReserved(acc: seq<Descriptor>, d: Descriptor)
    requires AllValid(acc) && ValidRange(d) && ReservedZero(acc) && d.reserved0 == 0
    ensures ReservedZero(MergeOne(acc, d))
  {
  }

  lemma {:induction false} MergeReserved(s: seq<Descriptor>)
    requires AllValid(s) && ReservedZero(s)
    ensures ReservedZero(Merge(s))
  {
    if s != [] {
      MergeReserved(s[..|s| - 1]);
      MergeOneReserved(Merge(s[..|s| - 1]), s[|s| - 1]);
    }
  }

  lemma NormalReserved(s: seq<Descriptor>)
    requires AllValid(s) && ReservedZero(s)
    ensures ReservedZero(Normal(s))
  {
    var t := Sort(s, Start);
    SortValid(s);
    SortPermutes(s, Start);
    forall i | 0 <= i < |t| ensures t[i].reserved0 == 0 { SameMembers(s, t, t[i]); }
    MergeReserved(t);
  }

  /** Any two firmware maps that describe memory alike, however they are cut up or ordered, normalise alike. */
  lemma NormalByMeaning(s: seq<Descriptor>, t: seq<Descriptor>)
    requires AllValid(s) && Pairwise(s, Apart) && ReservedZero(s)
    requires AllValid(t) && Pairwise(t, Apart) && ReservedZero(t)
    ensures SameMeaning(s, t) <==> Normal(s) == Normal(t)
  {
    NormalIsCanonical(s);
    NormalIsCanonical(t);
    if SameMeaning(s, t) {
      NormalReserved(s);
      NormalReserved(t);
      forall a ensures At(Normal(s), a) == At(Normal(t), a) { assert At(s, a) == At(t, a); }
      CanonicalUnique(Normal(s), Normal(t));
    } else {
      var a :| At(s, a) != At(t, a);
      assert At(Normal(s), a) != At(Normal(t), a);
    }
  }

  /** Acceptance and result do not depend on the order in which firmware lists its descriptors. */
  lemma NormalPermutation(s: seq<Descriptor>, t: seq<Descriptor>)
    requires multiset(s) == multiset(t)
    ensures AllValid(s) && Pairwise(s, Apart) ==>
              AllValid(t) && Pairwise(t, Apart) && Normal(s) == Normal(t)
  {
    if AllValid(s) && Pairwise(s, Apart) {
      ValidPermuted(s, t);
      ApartIsOrdered(s);
      SortValid(s);
      SortPermutes(s, Start);
      SortPermutes(t, Start);
      SortSorts(t, Start);
      assert StrictlySortedBy(Sort(s, Start), Start);
      SortedUnique(Sort(s, Start), Sort(t, Start), Start);
      ApartIsOrdered(t);
    }
  }

  lemma {:induction false} SortIdentity(s: seq<Descriptor>)
    requires AllValid(s) && Ordered(s)
    ensures Sort(s, Start) == s
  {
    SortSorts(s, Start);
    SortPermutes(s, Start);
    SortedUnique(s, Sort(s, Start), Start);
  }

  lemma NormalIdempotent(s: seq<Descriptor>)
    requires AllValid(s) && Pairwise(s, Apart)
    ensures AllValid(Normal(s)) && Pairwise(Normal(s), Apart) && Normal(Normal(s)) == Normal(s)
  {
    NormalIsCanonical(s);
    OrderedIsApart(Normal(s));
    SortIdentity(Normal(s));
    MergeIdentity(Normal(s));
  }

  /** What the scan over neighbouring windows accepts. */
  ghost predicate NeighboursOrdered(s: seq<Descriptor>) {
    forall i | 0 <= i < |s| - 1 :: RangeEnd(s[i].start, s[i].pages).Ok? && End(s[i]) <= s[i + 1].start
  }

  lemma {:induction false} NeighboursSuffice(s: seq<Descriptor>)
    requires AllValid(s)
    ensures NeighboursOrdered(s) <==> Ordered(s)
  {
    if NeighboursOrdered(s) && |s| > 1 {
      var front := s[..|s| - 1];
      forall i | 0 <= i < |front| - 1
        ensures RangeEnd(front[i].start, front[i].pages).Ok? && End(front[i]) <= front[i + 1].start {
        assert End(s[i]) <= s[i + 1].start;
      }
      NeighboursSuffice(front);
      assert End(s[|s| - 2]) <= s[|s| - 2 + 1].start;
      forall i, j | 0 <= i < j < |s| ensures End(s[i]) <= s[j].start {
        if j < |s| - 1 { assert End(front[i]) <= front[j].start; }
        else if i < |s| - 2 { assert End(front[i]) <= front[|s| - 2].start; }
      }
    }
  }

  method ValidateNonOverlapping(s: seq<Descriptor>) returns (r: Result<(), MapError>)
    ensures r.Ok? <==> NeighboursOrdered(s)
    ensures r.Err? ==> r.error == DescriptorOverlap || r.error == RangeOverflow
    ensures r.Err? && AllValid(s) ==> r.error == DescriptorOverlap
  {
    var i := 1;
    while i < |s|
      invariant 1 <= i
      invariant forall k | 0 <= k < i - 1 && k < |s| - 1 ::
          RangeEnd(s[k].start, s[k].pages).Ok? && End(s[k]) <= s[k + 1].start
    {
      var e := RangeEnd(s[i - 1].start, s[i - 1].pages);
      if e.Err? { return Err(e.error); }
      if e.value > s[i].start {
        assert !(End(s[i - 1]) <= s[i - 1 + 1].start);
        return Err(DescriptorOverlap);
      }
      i := i + 1;
    }
    return Ok(());
  }

  /** One turn of the merge: the cell under `read` joins the `write` merged cells. */
  method MergeStep(a: array<Descriptor>, write: nat, read: nat) returns (r: Result<nat, MapError>)
    requires 1 <= write <= read < a.Length
    requires AllValid(a[..write]) && ValidRange(a[read])
    modifies a
    ensures r.Ok? && 1 <= r.value <= read + 1
    ensures a[..r.value] == MergeOne(old(a[..write]), old(a[read]))
    ensures forall k | read < k < a.Length :: a[k] == old(a[k])
  {
    var previous, current := a[write - 1], a[read];
    ghost var before := a[..write];
    assert previous == before[write - 1];
    match RangeEnd(previous.start, previous.pages)
    case Err(e) => return Err(e);
    case Ok(previousEnd) =>
      if previousEnd == current.start && previous.kind == current.kind && previous.attributes == current.attributes {
        if previous.pages + current.pages >= U64_LIMIT { return Err(RangeOverflow); }
        a[write - 1] := previous.(pages := previous.pages + current.pages);
        assert a[..write] == before[..write - 1] + [a[write - 1]];
        return Ok(write);
      }
      a[write] := current;
      assert a[..write + 1] == before + [current];
      return Ok(write + 1);
  }

  lemma MergeEnds(s: seq<Descriptor>)
    requires |s| <= 1 && AllValid(s)
    ensures Merge(s) == s
  {
    hide ValidRange;
    if s != [] {
      assert Merge(s[..0]) == [];
      assert s == [s[0]];
    }
  }

  lemma MergeSnoc(s: seq<Descriptor>, n: nat)
    requires n < |s| && AllValid(s)
    ensures Merge(s[..n + 1]) == MergeOne(Merge(s[..n]), s[n])
  {
    assert s[..n + 1][..n] == s[..n];
  }

  /** Merges the first `len` cells with a read and a write cursor. */
  method MergeBaseDescriptors(a: array<Descriptor>, len: nat) returns (r: Result<nat, MapError>)
    requires len <= a.Length && AllValid(a[..len])
    modifies a
    ensures r.Ok? && r.value <= len && a[..r.value] == Merge(old(a[..len]))
    ensures forall k | len <= k < a.Length :: a[k] == old(a[k])
  {
    hide ValidRange, Merge, MergeOne;
    if len == 0 { MergeEnds(a[..0]); return Ok(0); }
    ghost var was := a[..len];
    var write := 1;
    assert a[..1] == was[..1];
    MergeEnds(was[..1]);
    for read := 1 to len
      invariant 1 <= write <= read
      invariant a[..write] == Merge(was[..read])
      invariant forall k | read <= k < a.Length :: a[k] == old(a[k])
    {
      MergeSnoc(was, read);
      assert a[read] == was[read];
      var step := MergeStep(a, write, read);
      match step {
        case Err(e) => return step;
        case Ok(next) => write := next;
      }
    }
    assert was[..len] == was;
    return Ok(write);
  }

  ghost predicate FirstInvalid(s: seq<Descriptor>, i: int) {
    0 <= i < |s| && !ValidRange(s[i]) && forall k | 0 <= k < i :: ValidRange(s[k])
  }

  method ValidateRanges(s: seq<Descriptor>) returns (r: Result<(), MapError>)
    ensures r.Ok? <==> AllValid(s)
    ensures r.Err? ==> r.error in {ZeroPages, Unaligned, RangeOverflow}
    ensures forall i | FirstInvalid(s, i) :: r == ValidateRange(s[i].start, s[i].pages)
  {
    for i := 0 to |s|
      invariant forall k | 0 <= k < i :: ValidRange(s[k])
    {
      var v := ValidateRange(s[i].start, s[i].pages);
      if v.Err? { return v; }
    }
    return Ok(());
  }

  /** Normalises the first `len` cells in place and blanks the rest. */
  method NormalizeMappedMemoryMap(output: array<Descriptor>, len: nat) returns (r: Result<nat, MapError>)
    modifies output
    ensures r == Err(OutputCapacity) <==> len > output.Length
    ensures len <= output.Length ==>
              (r.Ok? <==> AllValid(old(output[..len])) && Pairwise(old(output[..len]), Apart))
    ensures len <= output.Length && AllValid(old(output[..len])) && r.Err? ==> r.error == DescriptorOverlap
    ensures len <= output.Length && !AllValid(old(output[..len])) ==> r.error in {ZeroPages, Unaligned, RangeOverflow}
    ensures r.Ok? ==> r.value <= len && output[..r.value] == Normal(old(output[..len]))
    ensures r.Ok? ==> forall k | r.value <= k < output.Length :: output[k] == EMPTY
  {
    hide ValidRange, AllValid, Merge, Pairwise, Ordered, NeighboursOrdered, Sort, FirstInvalid;
    if len > output.Length { return Err(OutputCapacity); }
    ghost var was := output[..len];
    var ranges := ValidateRanges(output[..len]);
    if ranges.Err? { return Err(ranges.error); }
    InsertionSort(output, len, Start);
    SortValid(was);
    ApartIsOrdered(was);
    NeighboursSuffice(output[..len]);
    var check := ValidateNonOverlapping(output[..len]);
    if check.Err? { return Err(check.error); }
    r := MergeBaseDescriptors(output, len);
    ClearTail(output, r.value);
  }

  method ClearTail(output: array<Descriptor>, len: nat)
    requires len <= output.Length
    modifies output
    ensures output[..len] == old(output[..len]) && forall k | len <= k < output.Length :: output[k] == EMPTY
  {
    for k := len to output.Length
      invariant output[..len] == old(output[..len])
      invariant forall i | len <= i < k :: output[i] == EMPTY
    {
      output[k] := EMPTY;
    }
  }
}
