/** Reserving the page-table frames in the final memory map, and checking that they are. */
module FrameReservations {
  import opened Prelude
  import opened Counting
  import opened Sorting
  import opened MemoryMap
  import opened Overlay
  import Extensions

  const FRAME_CAPACITY: nat := 8

  datatype FrameError =
    | Map(error: MapError)
    | IncompleteCoverage(slot: nat)
    | UsableFrame(slot: nat)
    | WrongKind(slot: nat)
    | FrameRangeOverflow

  datatype ReservationProof = ReservationProof(frameCount: nat, root: U64, frames: seq<U64>)

  /** A usable page-table frame: not the null frame, page-aligned and under the physical cap. */
  predicate ValidFrame(f: U64) { 0 < f < 0x0000_4000_0000_0000 && f % 4096 == 0 }

  ghost predicate AllFrames(frames: seq<U64>) { forall i | 0 <= i < |frames| :: ValidFrame(frames[i]) }

  function Address(f: U64): int { f }

  function FramePage(f: U64): Descriptor { Descriptor(KIND_PAGE_TABLE, 0, f, 1, 0) }

  function FramePages(frames: seq<U64>): (s: seq<Descriptor>)
    ensures |s| == |frames| && forall i | 0 <= i < |s| :: s[i] == FramePage(frames[i])
  {
    seq(|frames|, i requires 0 <= i < |frames| => FramePage(frames[i]))
  }

  lemma FramePagesValid(frames: seq<U64>)
    requires AllFrames(frames)
    ensures AllValid(FramePages(frames))
  {
  }

  function RunOf(d: Descriptor): Reservation { Reservation(d.start, d.pages, KIND_PAGE_TABLE, PageTable) }

  function RunsOf(s: seq<Descriptor>): (rs: seq<Reservation>)
    ensures |rs| == |s| && forall i | 0 <= i < |s| :: rs[i] == RunOf(s[i])
  {
    seq(|s|, i requires 0 <= i < |s| => RunOf(s[i]))
  }

  /** The runs pushed for a set of frames: the normal form of their one-page descriptors. */
  ghost function FrameRuns(frames: seq<U64>): seq<Reservation>
    requires AllFrames(frames)
  {
    FramePagesValid(frames);
    RunsOf(Normal(FramePages(frames)))
  }

  /** Sorting frames and sorting their one-page descriptors are the same thing. */
  lemma {:induction false} SortFrames(frames: seq<U64>)
    ensures |Sort(frames, Address)| == |frames|
    ensures FramePages(Sort(frames, Address)) == Sort(FramePages(frames), Start)
  {
    SortSorts(frames, Address);
    if frames != [] {
      var front := frames[..|frames| - 1];
      SortFrames(front);
      InsertFrame(Sort(front, Address), frames[|frames| - 1]);
      assert FramePages(front) == FramePages(frames)[..|frames| - 1];
    }
  }

  lemma {:induction false} InsertFrame(s: seq<U64>, f: U64)
    ensures FramePages(Insert(s, f, Address)) == Insert(FramePages(s), FramePage(f), Start)
  {
    if !(s == [] || s[|s| - 1] <= f) {
      InsertFrame(s[..|s| - 1], f);
      assert FramePages(s[..|s| - 1]) == FramePages(s)[..|s| - 1];
    }
  }

  ghost predicate PageTableTagged(s: seq<Descriptor>) {
    forall i | 0 <= i < |s| :: TagOf(s[i]) == Tag(KIND_PAGE_TABLE, 0) && s[i].reserved0 == 0
  }

  lemma {:induction false} MergeTagged(s: seq<Descriptor>)
    requires AllValid(s) && PageTableTagged(s)
    ensures PageTableTagged(Merge(s))
  {
    if s != [] {
      MergeTagged(s[..|s| - 1]);
      MergeOneTagged(Merge(s[..|s| - 1]), s[|s| - 1]);
    }
  }

  lemma MergeOneTagged(acc: seq<Descriptor>, d: Descriptor)
    requires AllValid(acc) && ValidRange(d) && PageTableTagged(acc) && PageTableTagged([d])
    ensures PageTableTagged(MergeOne(acc, d))
  {
    hide ValidRange;
    assert [d][0] == d;
  }

  /** Tagged descriptors and the reservations made of them describe the same thing. */
  lemma RunsDescribe(s: seq<Descriptor>)
    requires PageTableTagged(s)
    ensures AsDescriptors(RunsOf(s)) == s
  {
  }

  lemma FrameRunsDescribe(frames: seq<U64>)
    requires AllFrames(frames)
    ensures AllValid(FramePages(frames)) && AsDescriptors(FrameRuns(frames)) == Normal(FramePages(frames))
    ensures forall i | 0 <= i < |FrameRuns(frames)| :: FrameRuns(frames)[i].source == PageTable
  {
    FramePagesValid(frames);
    SortFrames(frames);
    var sorted := FramePages(Sort(frames, Address));
    SortValid(FramePages(frames));
    MergeTagged(sorted);
    RunsDescribe(Merge(sorted));
  }

  lemma FramesApart(frames: seq<U64>)
    requires AllFrames(frames) && Distinct(frames)
    ensures Pairwise(FramePages(frames), Apart)
  {
    var s := FramePages(frames);
    forall i, j | 0 <= i < j < |s| ensures Apart(s[i], s[j]) {
      assert frames[i] != frames[j] && frames[i] % 4096 == 0 && frames[j] % 4096 == 0;
    }
  }

  /** For distinct frames the pushed ranges are maximal runs that cover exactly those frames. */
  lemma FrameRunsExact(frames: seq<U64>)
    requires AllFrames(frames) && Distinct(frames)
    ensures Canonical(AsDescriptors(FrameRuns(frames)))
    ensures forall a :: At(AsDescriptors(FrameRuns(frames)), a).Some? <==>
                        exists i | 0 <= i < |frames| :: frames[i] <= a < frames[i] + 4096
  {
    FrameRunsDescribe(frames);
    FramesApart(frames);
    NormalIsCanonical(FramePages(frames));
    var s := FramePages(frames);
    forall a ensures At(s, a).Some? <==> exists i | 0 <= i < |frames| :: frames[i] <= a < frames[i] + 4096 {
      if i :| 0 <= i < |frames| && frames[i] <= a < frames[i] + 4096 {
        AtCovered(s, i, a);
      } else {
        AtUncovered(s, a);
      }
    }
  }

  lemma {:induction false} MergeGrows(s: seq<Descriptor>, i: nat)
    requires i <= |s| && AllValid(s)
    ensures AllValid(s[..i]) && |Merge(s[..i])| <= |Merge(s)|
    decreases |s| - i
  {
    hide Merge, ValidRange;
    if i == |s| { assert s[..i] == s; } else { MergeSnoc(s, i); MergeGrows(s, i + 1); }
  }

  function Run(start: U64, pages: U64): Descriptor { Descriptor(KIND_PAGE_TABLE, 0, start, pages, 0) }

  /** The coalescing loop after `i` sorted frames: `front` is pushed and one run is still open. */
  ghost predicate Coalesced(s: seq<Descriptor>, i: nat, front: seq<Descriptor>, start: U64, pages: U64) {
    i <= |s| && AllValid(s) && Merge(s[..i]) == front + [Run(start, pages)] && PageTableTagged(s)
  }

  lemma CoalesceStep(s: seq<Descriptor>, i: nat, front: seq<Descriptor>, start: U64, pages: U64, f: U64)
    requires i < |s| && Coalesced(s, i, front, start, pages) && s[i] == FramePage(f)
    ensures start + pages * 4096 < U64_LIMIT
    ensures start + pages * 4096 == f ==> Coalesced(s, i + 1, front, start, pages + 1)
    ensures start + pages * 4096 != f ==> Coalesced(s, i + 1, front + [Run(start, pages)], f, 1)
  {
    MergeSnoc(s, i);
    var acc := Merge(s[..i]);
    assert acc[|acc| - 1] == Run(start, pages) && acc[..|acc| - 1] == front;
    assert ValidRange(acc[|acc| - 1]) && ValidRange(s[i]);
  }

  lemma CoalesceStart(s: seq<Descriptor>, f: U64)
    requires s != [] && AllValid(s) && PageTableTagged(s) && s[0] == FramePage(f)
    ensures Coalesced(s, 1, [], f, 1)
  {
    MergeEnds(s[..1]);
  }

  lemma CoalesceRun(s: seq<Descriptor>, i: nat, front: seq<Descriptor>, start: U64, pages: U64)
    requires Coalesced(s, i, front, start, pages)
    ensures ValidRange(Run(start, pages)) && AsDescriptor(RunOf(Run(start, pages))) == Run(start, pages)
    ensures AllValid(s) && |front| < |Merge(s)|
    ensures RunsOf(front + [Run(start, pages)]) == RunsOf(front) + [RunOf(Run(start, pages))]
    ensures i == |s| ==> Merge(s) == front + [Run(start, pages)]
  {
    var acc := Merge(s[..i]);
    assert ValidRange(acc[|front|]);
    MergeGrows(s, i);
    if i == |s| { assert s[..i] == s; }
  }

  method SortedFrames(frames: seq<U64>) returns (sorted: seq<U64>)
    requires 1 <= |frames| <= FRAME_CAPACITY
    ensures sorted == Sort(frames, Address)
  {
    var cells := new U64[FRAME_CAPACITY](_ => frames[0]);
    for i := 0 to |frames|
      invariant cells[..i] == frames[..i]
    {
      cells[i] := frames[i];
    }
    assert cells[..|frames|] == frames;
    InsertionSort(cells, |frames|, Address);
    return cells[..|frames|];
  }

  method PushRun(reservations: ReservationList, start: U64, pages: U64) returns (r: Result<(), FrameError>)
    requires reservations.Valid() && ValidRange(Run(start, pages))
    modifies reservations, reservations.items
    ensures reservations.Valid() && reservations.items == old(reservations.items)
    ensures r == if |old(reservations.Items())| == RESERVATION_CAPACITY then Err(Map(ReservationCapacity)) else Ok(())
    ensures reservations.Items() ==
            old(reservations.Items()) + if r.Ok? then [RunOf(Run(start, pages))] else []
  {
    var push := reservations.Push(Reservation(start, pages, KIND_PAGE_TABLE, PageTable));
    match push
    case Err(e) => return Err(Map(e));
    case Ok(_) => return Ok(());
  }

  /** Takes the next sorted frame into the open run, or closes that run and opens another. */
  method AdvanceRun(reservations: ReservationList, start: U64, pages: U64, frame: U64, ghost s: seq<Descriptor>,
                    ghost i: nat, ghost front: seq<Descriptor>, ghost base: seq<Reservation>)
    returns (r: Result<(), FrameError>, nextStart: U64, nextPages: U64, ghost nextFront: seq<Descriptor>)
    requires reservations.Valid() && i < |s| && Coalesced(s, i, front, start, pages) && s[i] == FramePage(frame)
    requires reservations.Items() == base + RunsOf(front)
    modifies reservations, reservations.items
    ensures reservations.Valid() && reservations.items == old(reservations.items)
    ensures r.Ok? ==> Coalesced(s, i + 1, nextFront, nextStart, nextPages) &&
                      reservations.Items() == base + RunsOf(nextFront)
    ensures r.Err? ==> r.error == Map(ReservationCapacity) && reservations.Items() == base + RunsOf(front)
    ensures r.Err? ==> AllValid(s) && |base| + |Merge(s)| > RESERVATION_CAPACITY
  {
    hide Merge, Coalesced, RunsOf, Run, RunOf, AllPushed, ValidRange;
    CoalesceStep(s, i, front, start, pages, frame);
    CoalesceRun(s, i, front, start, pages);
    nextStart, nextPages, nextFront := start, pages, front;
    r := Ok(());
    if frame == start + pages * 4096 {
      nextPages := pages + 1;
    } else {
      r := PushRun(reservations, start, pages);
      if r.Err? { return; }
      nextFront := front + [Run(start, pages)];
      nextStart, nextPages := frame, 1;
    }
  }

  /** Walks the sorted frames with one open run. */
  method CoalesceSorted(sorted: seq<U64>, reservations: ReservationList, ghost s: seq<Descriptor>)
    returns (r: Result<(), FrameError>)
    requires reservations.Valid() && sorted != [] && s == FramePages(sorted) && AllValid(s) && PageTableTagged(s)
    modifies reservations, reservations.items
    ensures reservations.Valid()
    ensures r == if |old(reservations.Items())| + |Merge(s)| > RESERVATION_CAPACITY
                 then Err(Map(ReservationCapacity)) else Ok(())
    ensures r.Ok? ==> reservations.Items() == old(reservations.Items()) + RunsOf(Merge(s))
    ensures old(reservations.Items()) <= reservations.Items()
  {
    hide Merge, Coalesced, RunsOf, Run, RunOf, AllPushed, ValidRange, AllValid, PageTableTagged, FramePages, FramePage;
    var start, pages := sorted[0], 1;
    ghost var front: seq<Descriptor> := [];
    CoalesceStart(s, start);
    for i := 1 to |sorted|
      invariant reservations.Valid() && reservations.items == old(reservations.items)
      invariant Coalesced(s, i, front, start, pages)
      invariant reservations.Items() == old(reservations.Items()) + RunsOf(front)
    {
      r, start, pages, front := AdvanceRun(reservations, start, pages, sorted[i], s, i, front,
        old(reservations.Items()));
      if r.Err? { return; }
    }
    CoalesceRun(s, |s|, front, start, pages);
    r := PushRun(reservations, start, pages);
  }

  /** Pushes one reservation for every run of adjacent frames. */
  method AppendPageTableReservations(frames: seq<U64>, reservations: ReservationList)
    returns (r: Result<(), FrameError>)
    requires reservations.Valid() && AllFrames(frames)
    modifies reservations, reservations.items
    ensures reservations.Valid()
    ensures r == if |frames| == 0 || |frames| > FRAME_CAPACITY then Err(IncompleteCoverage(0))
                 else if |old(reservations.Items())| + |FrameRuns(frames)| > RESERVATION_CAPACITY
                 then Err(Map(ReservationCapacity)) else Ok(())
    ensures r.Ok? ==> reservations.Items() == old(reservations.Items()) + FrameRuns(frames)
    ensures old(reservations.Items()) <= reservations.Items()
  {
    if |frames| == 0 || |frames| > FRAME_CAPACITY { return Err(IncompleteCoverage(0)); }
    var sorted := SortedFrames(frames);
    FrameRunsAreMerged(frames);
    hide Merge, Sort, ValidRange;
    r := CoalesceSorted(sorted, reservations, FramePages(sorted));
  }

  lemma FrameRunsAreMerged(frames: seq<U64>)
    requires AllFrames(frames)
    ensures var s := FramePages(Sort(frames, Address));
      AllValid(s) && PageTableTagged(s) && FrameRuns(frames) == RunsOf(Merge(s)) &&
      |s| == |frames| == |Sort(frames, Address)|
  {
    FramePagesValid(frames);
    SortFrames(frames);
    SortValid(FramePages(frames));
  }

  // ---- the checks on the finished map

  /** What the first descriptor covering a frame means for it. */
  function Verdict(tag: Option<Tag>, slot: nat): Result<(), FrameError> {
    if tag.None? then Err(IncompleteCoverage(slot))
    else if tag.value.kind == KIND_USABLE then Err(UsableFrame(slot))
    else if tag.value.kind != KIND_PAGE_TABLE then Err(WrongKind(slot))
    else Ok(())
  }

  /** The tag of the first descriptor, in list order, that covers the frame. */
  method FindCovering(descriptors: seq<Descriptor>, frame: U64) returns (r: Result<Option<Tag>, FrameError>)
    ensures AllValid(descriptors) ==> r.Ok?
    ensures AllValid(descriptors) && Pairwise(descriptors, Apart) ==> r == Ok(At(descriptors, frame))
  {
    for i := 0 to |descriptors|
      invariant forall k | 0 <= k < i :: !Covers(descriptors[k], frame)
    {
      var d := descriptors[i];
      if d.pages * 4096 >= U64_LIMIT || d.start + d.pages * 4096 >= U64_LIMIT { return Err(FrameRangeOverflow); }
      if d.start <= frame && frame < d.start + d.pages * 4096 {
        if Pairwise(descriptors, Apart) { AtCovered(descriptors, i, frame); }
        return Ok(Some(TagOf(d)));
      }
    }
    AtUncovered(descriptors, frame);
    return Ok(None);
  }

  ghost predicate AllReserved(frames: seq<U64>, descriptors: seq<Descriptor>) {
    forall i | 0 <= i < |frames| :: Verdict(At(descriptors, frames[i]), i).Ok?
  }

  /** The first frame, in list order, that is not page-table memory. */
  ghost predicate FirstBad(frames: seq<U64>, descriptors: seq<Descriptor>, i: int) {
    0 <= i < |frames| && Verdict(At(descriptors, frames[i]), i).Err? &&
    forall k | 0 <= k < i :: Verdict(At(descriptors, frames[k]), k).Ok?
  }

  /** Accepts exactly the maps in which every frame is page-table memory, and otherwise reports the first frame
      that is not. */
  method VerifyPageTableReservations(frames: seq<U64>, descriptors: seq<Descriptor>)
    returns (r: Result<ReservationProof, FrameError>)
    ensures AllValid(descriptors) && Pairwise(descriptors, Apart) && |frames| < U32_LIMIT ==>
              (r.Ok? <==> frames != [] && AllReserved(frames, descriptors))
    ensures AllValid(descriptors) && Pairwise(descriptors, Apart) && |frames| < U32_LIMIT && r.Err? && frames != [] ==>
              exists i :: FirstBad(frames, descriptors, i) && Err(r.error) == Verdict(At(descriptors, frames[i]), i)
    ensures r.Ok? ==> r.value.frames == frames && frames != [] && r.value.frameCount == |frames| &&
                      r.value.root == frames[0]
  {
    if frames == [] { return Err(IncompleteCoverage(0)); }
    for i := 0 to |frames|
      invariant AllValid(descriptors) && Pairwise(descriptors, Apart) ==>
          forall k | 0 <= k < i :: Verdict(At(descriptors, frames[k]), k).Ok?
    {
      if i >= U32_LIMIT { return Err(IncompleteCoverage(0)); }
      var covering := FindCovering(descriptors, frames[i]);
      if covering.Err? { return Err(covering.error); }
      var verdict := Verdict(covering.value, i);
      if verdict.Err? {
        assert AllValid(descriptors) && Pairwise(descriptors, Apart) ==> FirstBad(frames, descriptors, i);
        return Err(verdict.error);
      }
    }
    return Ok(ReservationProof(|frames|, frames[0], frames));
  }

  lemma RunCoversFrame(frames: seq<U64>, i: nat) returns (k: nat)
    requires i < |frames| && AllFrames(frames) && Distinct(frames)
    ensures k < |FrameRuns(frames)| && Covers(AsDescriptor(FrameRuns(frames)[k]), frames[i])
    ensures FrameRuns(frames)[k].kind == KIND_PAGE_TABLE && FrameRuns(frames)[k].source == PageTable
  {
    FrameRunsExact(frames);
    assert At(AsDescriptors(FrameRuns(frames)), frames[i]).Some?;
    k := AtHasDescriptor(AsDescriptors(FrameRuns(frames)), frames[i]);
  }

  /** Once the frames' runs are on a finished list and the overlay accepts it, every frame is
      page-table memory in the resulting map. */
  lemma FramesReserved(frames: seq<U64>, others: seq<Reservation>, rs: seq<Reservation>, base: seq<Descriptor>, i: nat)
    requires AllFrames(frames) && Distinct(frames) && i < |frames|
    requires rs == Sort(others + FrameRuns(frames), ReservationStart) && Finished(rs)
    requires BaseOk(base) && !SomeOutside(base, rs)
    ensures At(Overlaid(base, rs), frames[i]) == Some(Tag(KIND_PAGE_TABLE, 0))
  {
    var all := others + FrameRuns(frames);
    var k := RunCoversFrame(frames, i);
    var run := all[|others| + k];
    SortPermutes(all, ReservationStart);
    SameMembers(all, rs, run);
    var j :| 0 <= j < |rs| && rs[j] == run;
    OrderedIsApart(AsDescriptors(rs));
    AtCovered(AsDescriptors(rs), j, frames[i]);
    assert FullyCovered(base, rs[j]);
    assert At(base, frames[i]).Some?;
    OverlaidAt(base, rs, frames[i]);
  }

  /** The frame list handed to the kernel. */
  function FrameList(frames: seq<U64>): (s: seq<Extensions.OwnedFrame>)
    ensures |s| == |frames| && forall i | 0 <= i < |s| :: s[i] == Extensions.OwnedFrame(frames[i], 0)
  {
    seq(|frames|, i requires 0 <= i < |frames| => Extensions.OwnedFrame(frames[i], 0))
  }

  /** Both checks accept the resulting map: the loader's own and, for a validated ownership record with
      that count and root, the boot protocol's. */
  lemma ReservedFramesPassBothChecks(frames: seq<U64>, others: seq<Reservation>, rs: seq<Reservation>,
                                     base: seq<Descriptor>, o: Extensions.Ownership)
    requires AllFrames(frames) && Distinct(frames) && frames != []
    requires rs == Sort(others + FrameRuns(frames), ReservationStart) && Finished(rs)
    requires BaseOk(base) && !SomeOutside(base, rs)
    requires Extensions.ValidateOwnership(o).Ok? && o.frameCount == |frames| && o.root == frames[0]
    ensures AllReserved(frames, Overlaid(base, rs))
    ensures Extensions.FramesAccepted(o, FrameList(frames), Overlaid(base, rs))
  {
    var out := Overlaid(base, rs);
    forall i | 0 <= i < |frames|
      ensures Verdict(At(out, frames[i]), i).Ok? && Extensions.FrameOk(o, FrameList(frames), out, i) {
      FramesReserved(frames, others, rs, base, i);
      FrameAccepted(frames, rs, base, o, i);
    }
    assert FrameList(frames)[0].frame == o.root;
  }

  lemma FrameAccepted(frames: seq<U64>, rs: seq<Reservation>, base: seq<Descriptor>, o: Extensions.Ownership, i: nat)
    requires AllFrames(frames) && Distinct(frames) && i < |frames| && o.cap == Extensions.PHYSICAL_CAP
    requires BaseOk(base) && AllPushed(rs) && At(Overlaid(base, rs), frames[i]) == Some(Tag(KIND_PAGE_TABLE, 0))
    ensures Extensions.FrameOk(o, FrameList(frames), Overlaid(base, rs), i)
  {
    hide Overlaid, At, AllPushed;
    var out := Overlaid(base, rs);
    var k := AtHasDescriptor(out, frames[i]);
    OverlaidReserved(base, rs);
    assert Extensions.ReservesFrame(out[k], frames[i]);
    assert ValidFrame(frames[i]);
  }
}
