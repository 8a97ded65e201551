/** Cutting reservations out of a normalised memory map. */
module Overlay {
  import opened Prelude
  import opened Sorting
  import opened MemoryMap

  const RESERVATION_CAPACITY: nat := 64

  datatype ReservationSource =
    | KernelImage | BootInfo | RawMemoryMap | ConversionScratch
    | ConvertedMemoryMap | Framebuffer | BootstrapStack | PageTable

  datatype Reservation = Reservation(start: U64, pages: U64, kind: U32, source: ReservationSource)

  function ReservationStart(r: Reservation): int { r.start }

  /** A reservation speaks about addresses like a descriptor of its kind without attributes. */
  function AsDescriptor(r: Reservation): Descriptor { Descriptor(r.kind, 0, r.start, r.pages, 0) }

  function AsDescriptors(rs: seq<Reservation>): (s: seq<Descriptor>)
    ensures |s| == |rs| && forall i | 0 <= i < |rs| :: s[i] == AsDescriptor(rs[i])
  {
    seq(|rs|, i requires 0 <= i < |rs| => AsDescriptor(rs[i]))
  }

  ghost predicate AllPushed(rs: seq<Reservation>) { AllValid(AsDescriptors(rs)) }

  /** What `finish` establishes. */
  ghost predicate Finished(rs: seq<Reservation>) { AllPushed(rs) && Ordered(AsDescriptors(rs)) }

  /** Holds the reservations collected for one map. */
  class ReservationList {
    var items: array<Reservation>
    var len: nat

    ghost predicate Valid()
      reads this, items
    {
      items.Length == RESERVATION_CAPACITY && len <= RESERVATION_CAPACITY && AllPushed(items[..len])
    }

    ghost function Items(): seq<Reservation>
      requires len <= items.Length
      reads this, items
    {
      items[..len]
    }

    constructor ()
      ensures Valid() && Items() == [] && fresh(items)
    {
      items := new Reservation[RESERVATION_CAPACITY](_ => Reservation(0, 0, KIND_RESERVED, KernelImage));
      len := 0;
    }

    method Push(reservation: Reservation) returns (r: Result<(), MapError>)
      requires Valid()
      modifies this, items
      ensures Valid() && items == old(items)
      ensures r == if !ValidRange(AsDescriptor(reservation)) then ValidateRange(reservation.start, reservation.pages)
                   else if old(len) == RESERVATION_CAPACITY then Err(ReservationCapacity) else Ok(())
      ensures Items() == if r.Ok? then old(Items()) + [reservation] else old(Items())
    {
      var v := ValidateRange(reservation.start, reservation.pages);
      if v.Err? { return v; }
      if len == RESERVATION_CAPACITY { return Err(ReservationCapacity); }
      items[len] := reservation;
      len := len + 1;
      assert items[..len] == old(items[..len]) + [reservation];
      return Ok(());
    }

    /** Sorts the list and accepts it exactly when its ranges are disjoint. */
    method Finish() returns (r: Result<(), MapError>)
      requires Valid()
      modifies items
      ensures Valid() && Items() == Sort(old(Items()), ReservationStart)
      ensures r.Ok? <==> Finished(Items())
      ensures r.Ok? <==> Pairwise(AsDescriptors(old(Items())), Apart)
      ensures r.Err? ==> r.error == ReservationOverlap
    {
      ghost var was := Items();
      InsertionSort(items, len, ReservationStart);
      SortReservations(was);
      ApartIsOrdered(AsDescriptors(was));
      NeighboursSuffice(AsDescriptors(Items()));
      var check := ValidateNonOverlapping(AsDescriptors(items[..len]));
      return match check
        case Ok(_) => Ok(())
        case Err(e) => Err(if e == DescriptorOverlap then ReservationOverlap else e);
    }
  }

  /** Sorting reservations and sorting the descriptors they stand for are the same thing. */
  lemma {:induction false} SortReservations(rs: seq<Reservation>)
    requires AllPushed(rs)
    ensures |Sort(rs, ReservationStart)| == |rs|
    ensures AsDescriptors(Sort(rs, ReservationStart)) == Sort(AsDescriptors(rs), Start)
    ensures AllPushed(Sort(rs, ReservationStart))
  {
    SortCommutes(rs);
    SortValid(AsDescriptors(rs));
  }

  lemma {:induction false} SortCommutes(rs: seq<Reservation>)
    ensures |Sort(rs, ReservationStart)| == |rs|
    ensures AsDescriptors(Sort(rs, ReservationStart)) == Sort(AsDescriptors(rs), Start)
  {
    if rs != [] {
      var front := rs[..|rs| - 1];
      SortCommutes(front);
      SortSorts(rs, ReservationStart);
      InsertCommutes(Sort(front, ReservationStart), rs[|rs| - 1]);
      assert AsDescriptors(front) == AsDescriptors(rs)[..|rs| - 1];
    }
  }

  lemma {:induction false} InsertCommutes(s: seq<Reservation>, v: Reservation)
    ensures AsDescriptors(Insert(s, v, ReservationStart)) == Insert(AsDescriptors(s), AsDescriptor(v), Start)
  {
    if !(s == [] || s[|s| - 1].start <= v.start) {
      InsertCommutes(s[..|s| - 1], v);
      assert AsDescriptors(s[..|s| - 1]) == AsDescriptors(s)[..|s| - 1];
    }
  }

  // ---- the overlay as a function on sequences

  predicate Aligned(c: int) { c % 4096 == 0 }

  /** The part [lo, hi) of a base descriptor. */
  function Piece(d: Descriptor, lo: int, hi: int): (p: Descriptor)
    requires ValidRange(d) && d.start <= lo < hi <= End(d) && Aligned(lo) && Aligned(hi)
    ensures ValidRange(p) && p.start == lo && End(p) == hi && TagOf(p) == TagOf(d) && p.reserved0 == 0
  {
    Descriptor(d.kind, 0, lo, (hi - lo) / 4096, d.attributes)
  }

  ghost predicate SplitReady(acc: seq<Descriptor>, d: Descriptor, c: int) {
    AllValid(acc) && ValidRange(d) && d.start <= c <= End(d) && Aligned(c)
  }

  function OverlapStart(r: Reservation, c: int): int { Max(c, r.start) }

  function OverlapEnd(d: Descriptor, r: Reservation): int { Min(End(d), End(AsDescriptor(r))) }

  function NextCursor(d: Descriptor, r: Reservation, c: int): int {
    if OverlapStart(r, c) >= OverlapEnd(d, r) then c else OverlapEnd(d, r)
  }

  lemma OverlapAligned(d: Descriptor, r: Reservation, c: int)
    requires ValidRange(d) && Aligned(c) && ValidRange(AsDescriptor(r))
    ensures Aligned(OverlapStart(r, c)) && Aligned(OverlapEnd(d, r))
  {
    AlignedEnd(d);
    AlignedEnd(AsDescriptor(r));
    hide Aligned;
    assert Aligned(r.start) by { AlignedEnd(AsDescriptor(r)); }
  }

  /** Emits base pages up to the reservation and then the reserved pages. */
  ghost function CutOne(acc: seq<Descriptor>, d: Descriptor, r: Reservation, c: int): (o: seq<Descriptor>)
    requires SplitReady(acc, d, c) && ValidRange(AsDescriptor(r))
    ensures SplitReady(o, d, NextCursor(d, r, c)) && |o| >= |acc|
  {
    OverlapAligned(d, r, c);
    hide Aligned, ValidRange, MergeOne;
    var lo, hi := OverlapStart(r, c), OverlapEnd(d, r);
    if lo >= hi then acc
    else
      var acc' := if c < lo then MergeOne(acc, Piece(d, c, lo)) else acc;
      acc' + [Piece(AsDescriptor(r), lo, hi)]
  }

  ghost function CutTail(acc: seq<Descriptor>, d: Descriptor, c: int): (o: seq<Descriptor>)
    requires SplitReady(acc, d, c)
    ensures AllValid(o) && |o| >= |acc|
  {
    if c < End(d) then MergeOne(acc, Piece(d, c, End(d))) else acc
  }

  ghost function Split(acc: seq<Descriptor>, d: Descriptor, rs: seq<Reservation>, k: nat, c: int): (o: seq<Descriptor>)
    requires k <= |rs| && AllPushed(rs) && SplitReady(acc, d, c)
    ensures AllValid(o) && |o| >= |acc|
    decreases |rs| - k
  {
    if k == |rs| then CutTail(acc, d, c)
    else
      assert AsDescriptors(rs)[k] == AsDescriptor(rs[k]);
      Split(CutOne(acc, d, rs[k], c), d, rs, k + 1, NextCursor(d, rs[k], c))
  }

  /** The map that `apply_reservations` writes when it has room. */
  ghost function Overlaid(base: seq<Descriptor>, rs: seq<Reservation>): (o: seq<Descriptor>)
    requires AllValid(base) && AllPushed(rs)
    ensures AllValid(o)
  {
    if base == [] then []
    else Split(Overlaid(base[..|base| - 1], rs), base[|base| - 1], rs, 0, base[|base| - 1].start)
  }

  // ---- its meaning

  /** Page by page: the reservation where there is one, else the base, and nothing off the base. */
  ghost function OverlayAt(base: Option<Tag>, reserved: Option<Tag>): Option<Tag> {
    if base.Some? && reserved.Some? then reserved else base
  }

  ghost predicate EndsBy(acc: seq<Descriptor>, c: int) { forall i | 0 <= i < |acc| :: End(acc[i]) <= c }

  /** No reservation before `k` reaches into the rest [c, End(d)) of the descriptor. */
  ghost predicate Passed(d: Descriptor, rs: seq<Reservation>, k: int, c: int)
    requires k <= |rs|
  {
    forall i | 0 <= i < k :: End(AsDescriptor(rs[i])) <= c || End(d) <= rs[i].start || End(d) <= c
  }

  lemma SnocOrdered(acc: seq<Descriptor>, p: Descriptor)
    requires Ordered(acc) && EndsBy(acc, p.start) && AllValid(acc) && ValidRange(p)
    ensures Ordered(acc + [p]) && EndsBy(acc + [p], End(p))
    ensures Ordered(MergeOne(acc, p)) && EndsBy(MergeOne(acc, p), End(p))
  {
  }

  lemma BasePieceMeaning(acc: seq<Descriptor>, d: Descriptor, c: int, hi: int, a: int)
    requires SplitReady(acc, d, c) && Ordered(acc) && EndsBy(acc, c) && c < hi <= End(d) && Aligned(hi)
    ensures Ordered(MergeOne(acc, Piece(d, c, hi))) && EndsBy(MergeOne(acc, Piece(d, c, hi)), hi)
    ensures At(MergeOne(acc, Piece(d, c, hi)), a) == if c <= a < hi then Some(TagOf(d)) else At(acc, a)
  {
    SnocOrdered(acc, Piece(d, c, hi));
    MergeOneAt(acc, Piece(d, c, hi), a);
  }

  lemma ReservedPieceMeaning(acc: seq<Descriptor>, r: Reservation, lo: int, hi: int, a: int)
    requires AllValid(acc) && Ordered(acc) && EndsBy(acc, lo) && ValidRange(AsDescriptor(r))
    requires r.start <= lo < hi <= End(AsDescriptor(r)) && Aligned(lo) && Aligned(hi)
    ensures var o := acc + [Piece(AsDescriptor(r), lo, hi)];
      Ordered(o) && EndsBy(o, hi) && At(o, a) == if lo <= a < hi then Some(Tag(r.kind, 0)) else At(acc, a)
  {
    SnocOrdered(acc, Piece(AsDescriptor(r), lo, hi));
    AtSnoc(acc, Piece(AsDescriptor(r), lo, hi), a);
  }

  /** One reservation: the addresses between the cursors get their tags, all others keep theirs. */
  lemma CutOneMeaning(acc: seq<Descriptor>, d: Descriptor, r: Reservation, c: int, a: int)
    requires SplitReady(acc, d, c) && ValidRange(AsDescriptor(r)) && Ordered(acc) && EndsBy(acc, c)
    ensures Ordered(CutOne(acc, d, r, c)) && EndsBy(CutOne(acc, d, r, c), NextCursor(d, r, c))
    ensures At(CutOne(acc, d, r, c), a) ==
            if !(c <= a < NextCursor(d, r, c)) then At(acc, a)
            else if Covers(AsDescriptor(r), a) then Some(Tag(r.kind, 0)) else Some(TagOf(d))
  {
    OverlapAligned(d, r, c);
    hide At, MergeOne, Ordered, AllValid, Aligned, ValidRange;
    var lo, hi := OverlapStart(r, c), OverlapEnd(d, r);
    if lo < hi {
      if c < lo {
        BasePieceMeaning(acc, d, c, lo, a);
        ReservedPieceMeaning(MergeOne(acc, Piece(d, c, lo)), r, lo, hi, a);
      } else {
        ReservedPieceMeaning(acc, r, lo, hi, a);
      }
    }
  }

  /** What the reservations say about an address of the part the cursor has just crossed. */
  lemma ReservedBelow(d: Descriptor, rs: seq<Reservation>, k: nat, c: int, a: int)
    requires k < |rs| && Finished(rs) && Passed(d, rs, k, c) && c <= a < NextCursor(d, rs[k], c)
    ensures At(AsDescriptors(rs), a) == if Covers(AsDescriptor(rs[k]), a) then Some(Tag(rs[k].kind, 0)) else None
  {
    var s := AsDescriptors(rs);
    OrderedIsApart(s);
    if Covers(s[k], a) {
      AtCovered(s, k, a);
    } else {
      forall i | 0 <= i < |s| ensures !Covers(s[i], a) {
        if i > k { assert End(s[k]) <= s[i].start; }
      }
      AtUncovered(s, a);
    }
  }

  lemma PassedStep(d: Descriptor, rs: seq<Reservation>, k: nat, c: int)
    requires k < |rs| && Passed(d, rs, k, c) && rs[k].pages > 0
    ensures Passed(d, rs, k + 1, NextCursor(d, rs[k], c))
  {
  }

  lemma ReservedRest(d: Descriptor, rs: seq<Reservation>, c: int, a: int)
    requires Passed(d, rs, |rs|, c) && c <= a < End(d)
    ensures At(AsDescriptors(rs), a) == None
  {
    var s := AsDescriptors(rs);
    forall i | 0 <= i < |s| ensures !Covers(s[i], a) {
      assert End(AsDescriptor(rs[i])) <= c || End(d) <= rs[i].start || End(d) <= c;
    }
    AtUncovered(s, a);
  }

  /** One base descriptor: its remaining addresses get the overlay's tag, all others keep theirs. */
  lemma {:induction false} SplitMeaning(acc: seq<Descriptor>, d: Descriptor, rs: seq<Reservation>, k: nat, c: int,
                                        a: int)
    requires k <= |rs| && Finished(rs) && SplitReady(acc, d, c) && Ordered(acc) && EndsBy(acc, c) && Passed(d, rs, k, c)
    ensures Ordered(Split(acc, d, rs, k, c)) && EndsBy(Split(acc, d, rs, k, c), End(d))
    ensures At(Split(acc, d, rs, k, c), a) ==
            if c <= a < End(d) then OverlayAt(Some(TagOf(d)), At(AsDescriptors(rs), a)) else At(acc, a)
    decreases |rs| - k
  {
    hide At, MergeOne, Ordered, ValidRange;
    if k == |rs| {
      if c < End(d) {
        AlignedEnd(d);
        BasePieceMeaning(acc, d, c, End(d), a);
        if c <= a < End(d) { ReservedRest(d, rs, c, a); }
      }
    } else {
      hide CutOne, EndsBy, Passed;
      var r := rs[k];
      assert AsDescriptors(rs)[k] == AsDescriptor(r);
      CutOneMeaning(acc, d, r, c, a);
      assert ValidRange(AsDescriptor(r)) && rs[k].pages > 0 by { ReservationPages(rs, k); }
      PassedStep(d, rs, k, c);
      if c <= a < NextCursor(d, r, c) { ReservedBelow(d, rs, k, c, a); }
      SplitMeaning(CutOne(acc, d, r, c), d, rs, k + 1, NextCursor(d, r, c), a);
    }
  }

  lemma ReservationPages(rs: seq<Reservation>, k: nat)
    requires k < |rs| && AllPushed(rs)
    ensures ValidRange(AsDescriptor(rs[k])) && rs[k].pages > 0
  {
    assert ValidRange(AsDescriptors(rs)[k]);
  }

  lemma AlignedEnd(d: Descriptor)
    requires ValidRange(d)
    ensures Aligned(End(d)) && Aligned(d.start) && d.start < End(d)
  {
  }

  /** The overlay theorem at one address: the output carries the reservation's kind where the base is
      reserved, the base's tag elsewhere on the base, and nothing off it; and it is in order. */
  lemma {:induction false} OverlaidAt(base: seq<Descriptor>, rs: seq<Reservation>, a: int)
    requires AllValid(base) && Ordered(base) && Finished(rs)
    ensures Ordered(Overlaid(base, rs))
    ensures base != [] ==> EndsBy(Overlaid(base, rs), End(base[|base| - 1]))
    ensures At(Overlaid(base, rs), a) == OverlayAt(At(base, a), At(AsDescriptors(rs), a))
  {
    if base != [] {
      var front, d := base[..|base| - 1], base[|base| - 1];
      OverlaidAt(front, rs, a);
      var acc := Overlaid(front, rs);
      assert EndsBy(acc, d.start) by { if front != [] { EndsByLater(acc, base, |front| - 1, |front|); } }
      AlignedEnd(d);
      PassedNone(d, rs);
      SplitMeaning(acc, d, rs, 0, d.start, a);
      if Covers(d, a) { UncoveredBelow(acc, base, |front|, a); }
    }
  }

  lemma EndsByLater(acc: seq<Descriptor>, base: seq<Descriptor>, j: nat, i: nat)
    requires j < i < |base| && Ordered(base) && EndsBy(acc, End(base[j]))
    ensures EndsBy(acc, base[i].start)
  {
  }

  lemma PassedNone(d: Descriptor, rs: seq<Reservation>)
    requires ValidRange(d)
    ensures Passed(d, rs, 0, d.start) && Aligned(d.start)
  {
  }

  lemma UncoveredBelow(acc: seq<Descriptor>, base: seq<Descriptor>, j: nat, a: int)
    requires j < |base| && Ordered(base) && EndsBy(acc, base[j].start) && base[j].start <= a
    ensures At(acc, a) == None && At(base[..j], a) == None
  {
    AtUncovered(acc, a);
    AtUncovered(base[..j], a);
  }

  lemma OverlaidMeaning(base: seq<Descriptor>, rs: seq<Reservation>)
    requires AllValid(base) && Ordered(base) && Finished(rs)
    ensures Ordered(Overlaid(base, rs))
    ensures forall a :: At(Overlaid(base, rs), a) == OverlayAt(At(base, a), At(AsDescriptors(rs), a))
  {
    forall a ensures At(Overlaid(base, rs), a) == OverlayAt(At(base, a), At(AsDescriptors(rs), a)) {
      OverlaidAt(base, rs, a);
    }
    OverlaidAt(base, rs, 0);
  }

  /** The output never carries a nonzero reserved field. */
  lemma {:induction false} OverlaidReserved(base: seq<Descriptor>, rs: seq<Reservation>)
    requires AllValid(base) && AllPushed(rs)
    ensures ReservedZero(Overlaid(base, rs))
  {
    if base != [] {
      var front, d := base[..|base| - 1], base[|base| - 1];
      OverlaidReserved(front, rs);
      AlignedEnd(d);
      SplitReserved(Overlaid(front, rs), d, rs, 0, d.start);
    }
  }

  lemma {:induction false} SplitReserved(acc: seq<Descriptor>, d: Descriptor, rs: seq<Reservation>, k: nat, c: int)
    requires k <= |rs| && AllPushed(rs) && SplitReady(acc, d, c) && ReservedZero(acc)
    ensures ReservedZero(Split(acc, d, rs, k, c))
    decreases |rs| - k
  {
    hide ReservedZero, MergeOne, CutOne;
    if k == |rs| {
      AlignedEnd(d);
      if c < End(d) { MergeOneReserved(acc, Piece(d, c, End(d))); }
    } else {
      ReservationPages(rs, k);
      CutReserved(acc, d, rs[k], c);
      SplitReserved(CutOne(acc, d, rs[k], c), d, rs, k + 1, NextCursor(d, rs[k], c));
    }
  }

  lemma CutReserved(acc: seq<Descriptor>, d: Descriptor, r: Reservation, c: int)
    requires SplitReady(acc, d, c) && ValidRange(AsDescriptor(r)) && ReservedZero(acc)
    ensures ReservedZero(CutOne(acc, d, r, c))
  {
    OverlapAligned(d, r, c);
    hide MergeOne, Aligned, ValidRange;
    var lo, hi := OverlapStart(r, c), OverlapEnd(d, r);
    if lo < hi && c < lo { MergeOneReserved(acc, Piece(d, c, lo)); }
  }

  // ---- conservation

  ghost function Bytes(s: seq<Descriptor>): int {
    if s == [] then 0 else Bytes(s[..|s| - 1]) + s[|s| - 1].pages * 4096
  }

  lemma BytesSnoc(acc: seq<Descriptor>, p: Descriptor)
    ensures Bytes(acc + [p]) == Bytes(acc) + p.pages * 4096
  {
    assert (acc + [p])[..|acc|] == acc;
  }

  lemma BytesMerge(acc: seq<Descriptor>, p: Descriptor)
    requires AllValid(acc) && ValidRange(p)
    ensures Bytes(MergeOne(acc, p)) == Bytes(acc) + p.pages * 4096
  {
    if acc != [] && Mergeable(acc[|acc| - 1], p) {
      var last := acc[|acc| - 1];
      BytesSnoc(acc[..|acc| - 1], last.(pages := last.pages + p.pages));
    } else {
      BytesSnoc(acc, p);
    }
  }

  lemma BytesCut(acc: seq<Descriptor>, d: Descriptor, r: Reservation, c: int)
    requires SplitReady(acc, d, c) && ValidRange(AsDescriptor(r))
    ensures Bytes(CutOne(acc, d, r, c)) == Bytes(acc) + NextCursor(d, r, c) - c
  {
    OverlapAligned(d, r, c);
    hide Bytes, MergeOne, Aligned, ValidRange;
    var lo, hi := OverlapStart(r, c), OverlapEnd(d, r);
    if lo < hi {
      var acc' := if c < lo then MergeOne(acc, Piece(d, c, lo)) else acc;
      if c < lo { BytesMerge(acc, Piece(d, c, lo)); }
      BytesSnoc(acc', Piece(AsDescriptor(r), lo, hi));
    }
  }

  lemma {:induction false} BytesSplit(acc: seq<Descriptor>, d: Descriptor, rs: seq<Reservation>, k: nat, c: int)
    requires k <= |rs| && AllPushed(rs) && SplitReady(acc, d, c)
    ensures Bytes(Split(acc, d, rs, k, c)) == Bytes(acc) + End(d) - c
    decreases |rs| - k
  {
    hide Bytes, MergeOne, CutOne;
    if k == |rs| {
      AlignedEnd(d);
      if c < End(d) { BytesMerge(acc, Piece(d, c, End(d))); }
    } else {
      ReservationPages(rs, k);
      BytesCut(acc, d, rs[k], c);
      BytesSplit(CutOne(acc, d, rs[k], c), d, rs, k + 1, NextCursor(d, rs[k], c));
    }
  }

  /** No page is lost or invented by cutting reservations out. */
  lemma {:induction false} OverlaidConservesPages(base: seq<Descriptor>, rs: seq<Reservation>)
    requires AllValid(base) && AllPushed(rs)
    ensures Bytes(Overlaid(base, rs)) == Bytes(base)
  {
    if base != [] {
      hide Split;
      OverlaidConservesPages(base[..|base| - 1], rs);
      BytesSplit(Overlaid(base[..|base| - 1], rs), base[|base| - 1], rs, 0, base[|base| - 1].start);
    }
  }

  // ---- the coverage accounting

  function Overlap(d: Descriptor, r: Reservation): int {
    Max(0, Min(End(d), End(AsDescriptor(r))) - Max(d.start, r.start))
  }

  ghost function CoveredBytes(base: seq<Descriptor>, r: Reservation): int {
    if base == [] then 0 else CoveredBytes(base[..|base| - 1], r) + Overlap(base[|base| - 1], r)
  }

  ghost predicate FullyCovered(base: seq<Descriptor>, r: Reservation) {
    forall a | r.start <= a < End(AsDescriptor(r)) :: At(base, a).Some?
  }

  /** How far into the reservation the base reaches. */
  ghost function Reach(base: seq<Descriptor>, r: Reservation): int {
    if base == [] then r.start else Min(Max(End(base[|base| - 1]), r.start), End(AsDescriptor(r)))
  }

  ghost predicate CoveredTo(base: seq<Descriptor>, r: Reservation, e: int) {
    forall a | r.start <= a < e :: At(base, a).Some?
  }

  lemma CoveredStep(base: seq<Descriptor>, r: Reservation)
    requires AllValid(base) && Ordered(base) && ValidRange(AsDescriptor(r)) && base != []
    ensures var front, d := base[..|base| - 1], base[|base| - 1];
      CoveredTo(base, r, Reach(base, r)) <==>
        CoveredTo(front, r, Reach(front, r)) &&
        (Reach(front, r) == Reach(base, r) || d.start <= Reach(front, r))
  {
    var front, d := base[..|base| - 1], base[|base| - 1];
    var e0, e1 := Reach(front, r), Reach(base, r);
    if front != [] { assert End(front[|front| - 1]) <= d.start; }
    if CoveredTo(base, r, e1) {
      forall a | r.start <= a < e0 ensures At(front, a).Some? { assert At(base, a).Some?; }
      if e0 < e1 {
        assert At(base, e0).Some?;
        if !Covers(d, e0) { var i := AtHasDescriptor(front, e0); EndsBeforeLast(front, i); }
      }
    }
    if CoveredTo(front, r, e0) && (e0 == e1 || d.start <= e0) {
      forall a | r.start <= a < e1 ensures At(base, a).Some? {
        if a < e0 { assert At(front, a).Some?; }
      }
    }
  }

  lemma EndsBeforeLast(s: seq<Descriptor>, i: nat)
    requires i < |s| && AllValid(s) && Ordered(s)
    ensures End(s[i]) <= End(s[|s| - 1])
  {
    if i < |s| - 1 { assert End(s[i]) <= s[|s| - 1].start; }
  }

  /** The counted overlap never exceeds the part of the reservation reached, and equals it exactly
      when every address of that part lies in the base. */
  lemma {:induction false} CoverageCount(base: seq<Descriptor>, r: Reservation)
    requires AllValid(base) && Ordered(base) && ValidRange(AsDescriptor(r))
    ensures CoveredBytes(base, r) <= Reach(base, r) - r.start
    ensures CoveredBytes(base, r) == Reach(base, r) - r.start <==> CoveredTo(base, r, Reach(base, r))
  {
    if base != [] {
      var front, d := base[..|base| - 1], base[|base| - 1];
      CoverageCount(front, r);
      CoveredStep(base, r);
      if front != [] { assert End(front[|front| - 1]) <= d.start; }
    }
  }

  /** The page count reaches the reservation's size exactly when the reservation lies in the map. */
  lemma CoverageExact(base: seq<Descriptor>, r: Reservation)
    requires AllValid(base) && Ordered(base) && ValidRange(AsDescriptor(r))
    ensures CoveredBytes(base, r) <= r.pages * 4096
    ensures CoveredBytes(base, r) == r.pages * 4096 <==> FullyCovered(base, r)
  {
    CoverageCount(base, r);
    if Reach(base, r) < End(AsDescriptor(r)) {
      if FullyCovered(base, r) {
        assert At(base, Reach(base, r)).Some?;
        var i := AtHasDescriptor(base, Reach(base, r));
        EndsBeforeLast(base, i);
      }
    }
  }

  // ---- the in-place algorithm

  method AppendDescriptor(output: array<Descriptor>, len: nat, d: Descriptor, allowMerge: bool)
    returns (r: Result<nat, MapError>)
    requires len <= output.Length && AllValid(output[..len]) && ValidRange(d)
    modifies output
    ensures var full := if allowMerge then MergeOne(old(output[..len]), d) else old(output[..len]) + [d];
      if |full| <= output.Length then r == Ok(|full|) && output[..|full|] == full else r == Err(OutputCapacity)
  {
    if d.pages == 0 { return Ok(len); }
    ghost var before := output[..len];
    if allowMerge && len != 0 {
      var previous := output[len - 1];
      assert previous == before[len - 1];
      match RangeEnd(previous.start, previous.pages)
      case Err(e) => return Err(e);
      case Ok(previousEnd) =>
        if previousEnd == d.start && previous.kind == d.kind && previous.attributes == d.attributes {
          if previous.pages + d.pages >= U64_LIMIT { return Err(RangeOverflow); }
          output[len - 1] := previous.(pages := previous.pages + d.pages);
          assert output[..len] == before[..len - 1] + [output[len - 1]];
          return Ok(len);
        }
    }
    if len == output.Length { return Err(OutputCapacity); }
    output[len] := d;
    assert output[..len + 1] == before + [d];
    return Ok(len + 1);
  }

  /** Emits the part of the base before one reservation and the reserved part. */
  method CutReservation(output: array<Descriptor>, len: nat, d: Descriptor, r: Reservation, cursor: U64)
    returns (result: Result<nat, MapError>, next: U64, pages: U64)
    requires len <= output.Length && SplitReady(output[..len], d, cursor) && ValidRange(AsDescriptor(r))
    modifies output
    ensures var full := CutOne(old(output[..len]), d, r, cursor);
      if |full| <= output.Length then result == Ok(|full|) && output[..|full|] == full
      else result == Err(OutputCapacity)
    ensures next == NextCursor(d, r, cursor)
    ensures pages * 4096 == Max(0, OverlapEnd(d, r) - OverlapStart(r, cursor))
  {
    hide MergeOne;
    AlignedEnd(d);
    AlignedEnd(AsDescriptor(r));
    var lo, hi := OverlapStart(r, cursor), OverlapEnd(d, r);
    next, pages := cursor, 0;
    if lo >= hi { return Ok(len), next, pages; }
    next, pages := hi, (hi - lo) / 4096;
    result := Ok(len);
    if cursor < lo {
      result := AppendDescriptor(output, len, Piece(d, cursor, lo), true);
    }
    match result
    case Err(_) => return;
    case Ok(n) => result := AppendDescriptor(output, n, Piece(AsDescriptor(r), lo, hi), false);
  }

  /** The cursor has not overtaken any reservation still to come. */
  ghost predicate CursorBehind(d: Descriptor, rs: seq<Reservation>, k: nat, c: int) {
    c == d.start || forall i | k <= i < |rs| :: c <= rs[i].start
  }

  lemma CursorStays(d: Descriptor, rs: seq<Reservation>, k: nat, c: int)
    requires k < |rs| && Finished(rs) && d.start <= c && CursorBehind(d, rs, k, c)
    ensures CursorBehind(d, rs, k + 1, NextCursor(d, rs[k], c))
    ensures Max(0, OverlapEnd(d, rs[k]) - OverlapStart(rs[k], c)) == Overlap(d, rs[k])
  {
    var s := AsDescriptors(rs);
    forall i | k < i < |rs| ensures OverlapEnd(d, rs[k]) <= rs[i].start { assert End(s[k]) <= s[i].start; }
  }

  /** The counters gained at most the overlap with `d`, and exactly that for a finished list. */
  ghost predicate Counted(was: seq<nat>, now: seq<nat>, d: Descriptor, rs: seq<Reservation>, n: nat)
    requires n <= |rs| == |was| == |now|
  {
    (forall i | 0 <= i < n :: now[i] * 4096 <= was[i] * 4096 + Overlap(d, rs[i])) &&
    (Finished(rs) ==> forall i | 0 <= i < n :: now[i] * 4096 == was[i] * 4096 + Overlap(d, rs[i])) &&
    (forall i | n <= i < |rs| :: now[i] == was[i])
  }

  /** No counter can leave 64 bits while `d` is counted. */
  ghost predicate CountersFit(d: Descriptor, rs: seq<Reservation>, counts: seq<nat>)
    requires |counts| == |rs|
  {
    forall i | 0 <= i < |rs| :: counts[i] * 4096 + Overlap(d, rs[i]) < U64_LIMIT * 4096
  }

  /** Splits one base descriptor by every reservation. */
  method SplitDescriptor(output: array<Descriptor>, len: nat, d: Descriptor, rs: seq<Reservation>, counts: seq<nat>)
    returns (result: Result<nat, MapError>, covered: seq<nat>)
    requires len <= output.Length && AllValid(output[..len]) && ValidRange(d)
    requires AllPushed(rs) && |counts| == |rs|
    requires CountersFit(d, rs, counts)
    modifies output
    ensures var full := Split(old(output[..len]), d, rs, 0, d.start);
      if |full| <= output.Length then result == Ok(|full|) && output[..|full|] == full
      else result == Err(OutputCapacity)
    ensures |covered| == |rs| && (result.Ok? ==> Counted(counts, covered, d, rs, |rs|))
  {
    hide *;
    SplitStart(output[..len], d, rs, counts);
    ghost var full := Split(output[..len], d, rs, 0, d.start);
    var n, cursor := len, d.start;
    covered := counts;
    for k := 0 to |rs|
      invariant n <= output.Length && SplitReady(output[..n], d, cursor)
      invariant Split(output[..n], d, rs, k, cursor) == full
      invariant |covered| == |rs| && Counted(counts, covered, d, rs, k)
      invariant Finished(rs) ==> CursorBehind(d, rs, k, cursor)
    {
      ReservationPages(rs, k);
      SplitUnfold(output[..n], d, rs, k, cursor);
      CursorInside(output[..n], d, cursor);
      CutBounds(d, rs, k, cursor);
      if Finished(rs) { CursorStays(d, rs, k, cursor); }
      var step, next, pages := CutReservation(output, n, d, rs[k], cursor);
      match step
      case Err(_) => return step, covered;
      case Ok(m) =>
        CounterFits(counts, covered, d, rs, k, pages);
        if covered[k] + pages >= U64_LIMIT { return Err(RangeOverflow), covered; }
        CountedStep(counts, covered, d, rs, k, pages);
        covered := covered[k := covered[k] + pages];
        n, cursor := m, next;
    }
    SplitDone(output[..n], d, rs, cursor);
    result := AppendRest(output, n, d, cursor);
  }

  method AppendRest(output: array<Descriptor>, len: nat, d: Descriptor, cursor: int)
    returns (result: Result<nat, MapError>)
    requires len <= output.Length && SplitReady(output[..len], d, cursor)
    modifies output
    ensures var full := CutTail(old(output[..len]), d, cursor);
      if |full| <= output.Length then result == Ok(|full|) && output[..|full|] == full
      else result == Err(OutputCapacity)
  {
    result := Ok(len);
    if cursor < End(d) {
      AlignedEnd(d);
      result := AppendDescriptor(output, len, Piece(d, cursor, End(d)), true);
    }
  }

  lemma SplitDone(acc: seq<Descriptor>, d: Descriptor, rs: seq<Reservation>, c: int)
    requires AllPushed(rs) && SplitReady(acc, d, c)
    ensures Split(acc, d, rs, |rs|, c) == CutTail(acc, d, c)
  {
  }

  lemma SplitUnfold(acc: seq<Descriptor>, d: Descriptor, rs: seq<Reservation>, k: nat, c: int)
    requires k < |rs| && AllPushed(rs) && SplitReady(acc, d, c) && ValidRange(AsDescriptor(rs[k]))
    ensures Split(acc, d, rs, k, c) == Split(CutOne(acc, d, rs[k], c), d, rs, k + 1, NextCursor(d, rs[k], c))
    ensures |CutOne(acc, d, rs[k], c)| <= |Split(acc, d, rs, k, c)|
  {
  }

  lemma CountedStep(was: seq<nat>, now: seq<nat>, d: Descriptor, rs: seq<Reservation>, k: nat, pages: U64)
    requires k < |rs| == |was| == |now| && Counted(was, now, d, rs, k)
    requires pages * 4096 <= Overlap(d, rs[k]) && (Finished(rs) ==> pages * 4096 == Overlap(d, rs[k]))
    ensures Counted(was, now[k := now[k] + pages], d, rs, k + 1)
  {
  }

  lemma SplitStart(acc: seq<Descriptor>, d: Descriptor, rs: seq<Reservation>, counts: seq<nat>)
    requires AllValid(acc) && ValidRange(d) && |counts| == |rs|
    ensures SplitReady(acc, d, d.start) && Counted(counts, counts, d, rs, 0) && CursorBehind(d, rs, 0, d.start)
  {
  }

  lemma CursorInside(acc: seq<Descriptor>, d: Descriptor, c: int)
    requires SplitReady(acc, d, c)
    ensures d.start <= c <= End(d)
  {
  }

  lemma CounterFits(was: seq<nat>, now: seq<nat>, d: Descriptor, rs: seq<Reservation>, k: nat, pages: U64)
    requires k < |rs| == |was| == |now| && Counted(was, now, d, rs, k) && CountersFit(d, rs, was)
    requires pages * 4096 <= Overlap(d, rs[k])
    ensures now[k] + pages < U64_LIMIT
  {
    hide Overlap;
    assert now[k] == was[k];
  }

  lemma CutBounds(d: Descriptor, rs: seq<Reservation>, k: nat, c: int)
    requires k < |rs| && d.start <= c
    ensures Max(0, OverlapEnd(d, rs[k]) - OverlapStart(rs[k], c)) <= Overlap(d, rs[k])
  {
  }

  /** What the checks on the base accept. */
  ghost predicate BaseOk(base: seq<Descriptor>) { AllValid(base) && Ordered(base) && ReservedZero(base) }

  /** Some reservation other than the framebuffer has a page off the map. */
  ghost predicate SomeOutside(base: seq<Descriptor>, rs: seq<Reservation>) {
    exists i | 0 <= i < |rs| :: rs[i].source != Framebuffer && !FullyCovered(base, rs[i])
  }

  method CheckCoverage(rs: seq<Reservation>, covered: seq<nat>) returns (r: Result<(), MapError>)
    requires |covered| == |rs|
    ensures r == if exists i | 0 <= i < |rs| :: rs[i].source != Framebuffer && covered[i] != rs[i].pages
                 then Err(ReservationOutsideMap) else Ok(())
  {
    for i := 0 to |rs|
      invariant forall k | 0 <= k < i :: rs[k].source == Framebuffer || covered[k] == rs[k].pages
    {
      if rs[i].source != Framebuffer && covered[i] != rs[i].pages { return Err(ReservationOutsideMap); }
    }
    return Ok(());
  }

  /** The counters after the first `j` base descriptors. */
  ghost predicate Tally(base: seq<Descriptor>, rs: seq<Reservation>, covered: seq<nat>)
    requires |covered| == |rs|
  {
    (forall i | 0 <= i < |rs| :: covered[i] * 4096 <= CoveredBytes(base, rs[i])) &&
    (Finished(rs) ==> forall i | 0 <= i < |rs| :: covered[i] * 4096 == CoveredBytes(base, rs[i]))
  }

  lemma TallyStep(base: seq<Descriptor>, rs: seq<Reservation>, j: nat, was: seq<nat>, now: seq<nat>)
    requires j < |base| && |was| == |now| == |rs|
    requires Tally(base[..j], rs, was) && Counted(was, now, base[j], rs, |rs|)
    ensures Tally(base[..j + 1], rs, now)
  {
    assert base[..j + 1][..j] == base[..j];
    hide Overlap;
  }

  /** The counters cannot overflow. */
  lemma TallyBound(base: seq<Descriptor>, rs: seq<Reservation>, j: nat, covered: seq<nat>, i: nat)
    requires j < |base| && |covered| == |rs| && i < |rs| && AllValid(base[..j + 1]) && Ordered(base[..j + 1])
    requires AllPushed(rs) && Tally(base[..j], rs, covered)
    ensures covered[i] * 4096 + Overlap(base[j], rs[i]) < U64_LIMIT * 4096
  {
    assert base[..j + 1][..j] == base[..j];
    ReservationPages(rs, i);
    CoverageExact(base[..j + 1], rs[i]);
    hide Overlap, ValidRange;
  }

  lemma TallyExact(base: seq<Descriptor>, rs: seq<Reservation>, covered: seq<nat>)
    requires BaseOk(base) && Finished(rs) && |covered| == |rs| && Tally(base, rs, covered)
    ensures (exists i | 0 <= i < |rs| :: rs[i].source != Framebuffer && covered[i] != rs[i].pages) <==>
      SomeOutside(base, rs)
  {
    hide CoveredBytes, FullyCovered, ValidRange, Ordered;
    forall i | 0 <= i < |rs| ensures covered[i] == rs[i].pages <==> FullyCovered(base, rs[i]) {
      ReservationPages(rs, i);
      CoverageExact(base, rs[i]);
    }
  }

  lemma OverlaidSnoc(base: seq<Descriptor>, rs: seq<Reservation>, j: nat)
    requires j < |base| && AllValid(base[..j + 1]) && AllPushed(rs)
    ensures AllValid(base[..j]) && ValidRange(base[j])
    ensures Overlaid(base[..j + 1], rs) == Split(Overlaid(base[..j], rs), base[j], rs, 0, base[j].start)
    ensures |Overlaid(base[..j], rs)| <= |Overlaid(base[..j + 1], rs)|
  {
    assert base[..j + 1][..j] == base[..j] && base[..j + 1][j] == base[j];
  }

  lemma {:induction false} OverlaidGrows(base: seq<Descriptor>, rs: seq<Reservation>, j: nat)
    requires j <= |base| && AllValid(base) && AllPushed(rs)
    ensures AllValid(base[..j]) && |Overlaid(base[..j], rs)| <= |Overlaid(base, rs)|
    decreases |base| - j
  {
    hide Overlaid, ValidRange;
    if j == |base| {
      assert base[..j] == base;
    } else {
      assert AllValid(base[..j + 1]);
      OverlaidSnoc(base, rs, j);
      OverlaidGrows(base, rs, j + 1);
    }
  }

  /** The first `j` base descriptors are well formed, split into `out` and counted in `covered`. */
  ghost predicate SplitSoFar(base: seq<Descriptor>, rs: seq<Reservation>, j: nat, out: seq<Descriptor>,
                             covered: seq<nat>) {
    j <= |base| && |covered| == |rs| && AllPushed(rs) && NeighboursOrdered(base) &&
    AllValid(base[..j]) && ReservedZero(base[..j]) && out == Overlaid(base[..j], rs) && Tally(base[..j], rs, covered)
  }

  lemma NoneSplit(base: seq<Descriptor>, rs: seq<Reservation>)
    requires AllPushed(rs) && NeighboursOrdered(base)
    ensures SplitSoFar(base, rs, 0, [], seq(|rs|, _ => 0))
  {
    assert base[..0] == [];
  }

  lemma BadDescriptor(base: seq<Descriptor>, j: nat)
    requires j < |base| && (base[j].reserved0 != 0 || ValidateRange(base[j].start, base[j].pages).Err?)
    ensures !BaseOk(base)
  {
    assert !ValidRange(base[j]) || base[j].reserved0 != 0;
  }

  lemma SplitReadyAt(base: seq<Descriptor>, rs: seq<Reservation>, j: nat, out: seq<Descriptor>, covered: seq<nat>)
    requires SplitSoFar(base, rs, j, out, covered) && j < |base|
    requires base[j].reserved0 == 0 && ValidateRange(base[j].start, base[j].pages).Ok?
    ensures AllValid(base[..j + 1]) && ReservedZero(base[..j + 1]) && AllValid(out) && ValidRange(base[j])
    ensures |covered| == |rs| && CountersFit(base[j], rs, covered)
  {
    assert base[..j + 1] == base[..j] + [base[j]];
    PrefixOrdered(base, j + 1);
    forall i | 0 <= i < |rs| ensures covered[i] * 4096 + Overlap(base[j], rs[i]) < U64_LIMIT * 4096 {
      TallyBound(base, rs, j, covered, i);
    }
    hide Tally, Overlap;
  }

  lemma SplitTooLong(base: seq<Descriptor>, rs: seq<Reservation>, j: nat, out: seq<Descriptor>, covered: seq<nat>)
    requires SplitSoFar(base, rs, j, out, covered) && j < |base|
    ensures BaseOk(base) ==> |Split(out, base[j], rs, 0, base[j].start)| <= |Overlaid(base, rs)|
  {
    if BaseOk(base) {
      OverlaidSnoc(base, rs, j);
      OverlaidGrows(base, rs, j + 1);
    }
  }

  lemma SplitOneMore(base: seq<Descriptor>, rs: seq<Reservation>, j: nat, was: seq<Descriptor>, counts: seq<nat>,
                     out: seq<Descriptor>, covered: seq<nat>)
    requires SplitSoFar(base, rs, j, was, counts) && j < |base| && |covered| == |rs| == |counts|
    requires AllValid(base[..j + 1]) && ReservedZero(base[..j + 1]) && Counted(counts, covered, base[j], rs, |rs|)
    requires AllValid(was) && out == Split(was, base[j], rs, 0, base[j].start)
    ensures SplitSoFar(base, rs, j + 1, out, covered)
  {
    hide Split, Counted, Tally, ValidRange;
    OverlaidSnoc(base, rs, j);
    TallyStep(base, rs, j, counts, covered);
  }

  lemma AllSplit(base: seq<Descriptor>, rs: seq<Reservation>, out: seq<Descriptor>, covered: seq<nat>)
    requires SplitSoFar(base, rs, |base|, out, covered)
    ensures BaseOk(base) && out == Overlaid(base, rs) && |covered| == |rs| && Tally(base, rs, covered)
  {
    assert base[..|base|] == base;
    NeighboursSuffice(base);
  }

  /** Walks the base; every exit other than success is an invalid base or a full output. */
  method SplitBase(base: seq<Descriptor>, rs: seq<Reservation>, output: array<Descriptor>)
    returns (r: Result<nat, MapError>, covered: seq<nat>)
    requires AllPushed(rs) && NeighboursOrdered(base)
    modifies output
    ensures |covered| == |rs|
    ensures r.Ok? ==> BaseOk(base) && r.value <= output.Length && output[..r.value] == Overlaid(base, rs) &&
                      Tally(base, rs, covered)
    ensures BaseOk(base) && r.Err? ==> r == Err(OutputCapacity) && |Overlaid(base, rs)| > output.Length
  {
    var len := 0;
    covered := seq(|rs|, _ => 0);
    hide *;
    NoneSplit(base, rs);
    for j := 0 to |base|
      invariant len <= output.Length && |covered| == |rs|
      invariant SplitSoFar(base, rs, j, output[..len], covered)
    {
      var d := base[j];
      if d.reserved0 != 0 || ValidateRange(d.start, d.pages).Err? {
        BadDescriptor(base, j);
        return Err(RangeOverflow), covered;
      }
      ghost var was, counts := output[..len], covered;
      SplitReadyAt(base, rs, j, was, counts);
      var step;
      step, covered := SplitDescriptor(output, len, d, rs, covered);
      match step
      case Err(e) =>
        SplitTooLong(base, rs, j, was, counts);
        return step, covered;
      case Ok(n) =>
        len := n;
        SplitOneMore(base, rs, j, was, counts, output[..len], covered);
    }
    AllSplit(base, rs, output[..len], covered);
    return Ok(len), covered;
  }

  lemma PrefixOrdered(base: seq<Descriptor>, j: nat)
    requires j <= |base| && NeighboursOrdered(base) && AllValid(base[..j])
    ensures Ordered(base[..j])
  {
    var s := base[..j];
    forall i | 0 <= i < |s| - 1 ensures RangeEnd(s[i].start, s[i].pages).Ok? && End(s[i]) <= s[i + 1].start {
      assert End(base[i]) <= base[i + 1].start;
    }
    NeighboursSuffice(s);
  }

  /** Cuts the reservations out of the base map. For an accepted base and a finished list the outcome
      is decided by the size of the overlay and by coverage alone. */
  method ApplyReservations(base: seq<Descriptor>, reservations: ReservationList, output: array<Descriptor>)
    returns (r: Result<nat, MapError>)
    requires reservations.Valid()
    modifies output
    ensures !BaseOk(base) ==> r.Err?
    ensures BaseOk(base) && Finished(reservations.Items()) ==>
              r == if |Overlaid(base, reservations.Items())| > output.Length then Err(OutputCapacity)
                   else if SomeOutside(base, reservations.Items()) then Err(ReservationOutsideMap)
                   else Ok(|Overlaid(base, reservations.Items())|)
    ensures r.Ok? ==> r.value <= output.Length && output[..r.value] == Overlaid(base, reservations.Items())
    ensures r.Ok? ==> forall i | r.value <= i < output.Length :: output[i] == EMPTY
  {
    var rs := reservations.items[..reservations.len];
    var first := ValidateNonOverlapping(base);
    if AllValid(base) { NeighboursSuffice(base); }
    if first.Err? { return Err(first.error); }
    var split, covered := SplitBase(base, rs, output);
    if split.Err? { return Err(split.error); }
    var coverage := CheckCoverage(rs, covered);
    if Finished(rs) { TallyExact(base, rs, covered); }
    if coverage.Err? { return Err(coverage.error); }
    var len := split.value;
    ghost var full := output[..len];
    for i := len to output.Length
      invariant output[..len] == full
      invariant forall k | len <= k < i :: output[k] == EMPTY
    {
      output[i] := EMPTY;
    }
    if Finished(rs) {
      OverlaidMeaning(base, rs);
      NeighboursSuffice(output[..len]);
    }
    var last := ValidateNonOverlapping(output[..len]);
    match last
    case Err(e) => return Err(e);
    case Ok(_) => return Ok(len);
  }
}
