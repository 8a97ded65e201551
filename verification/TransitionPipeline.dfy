/** From two addresses to a verified hierarchy in memory: plan, allocate, materialise, verify. */
module TransitionPipeline {
  import opened Prelude
  import opened MappingPlan
  import opened PageTablePlan
  import opened MappingPages
  import opened PageTableBuilder
  import opened Paging
  import opened AddressTranslation
  import opened PageTables
  import opened PageTableVerifier
  import opened FrameOwner
  import opened TransitionTables

  datatype InstallError =
    | PlanningFailed(plan: PlanError) | AllocationFailed(build: BuildError)
    | WriteFailed(write: MaterializationError) | VerificationFailed(verify: VerificationError)

  /** What the processor must see: the page executable, the stack writable, both at their own address, and
      nothing else at all. */
  function TransitionWalk(t: U64, k: U64, a: U64): Option<Translation> {
    if t <= a < t + 4096 then Some(Translation(a, false, true, false, false, false, true))
    else if k <= a < k + 65536 then Some(Translation(a, true, false, false, false, false, true))
    else None
  }

  lemma PlannedTransition(s: seq<PlanEntry>, t: U64, k: U64, a: U64)
    requires TransitionArgs(t, k) && TwoMappings(s, t, k)
    ensures Planned(s, a) == TransitionWalk(t, k, a)
  {
    hide FindEntry;
    FindInTwo(s, a);
  }

  lemma FindInTwo(s: seq<PlanEntry>, a: int)
    requires |s| == 2
    ensures FindEntry(s, a) == if Contains(s[0].virt, a) then Some(s[0])
      else if Contains(s[1].virt, a) then Some(s[1]) else None
  {
    hide Contains;
    var rest := s[1..];
    assert rest[0] == s[1] && rest[1..] == [];
    assert FindEntry(rest, a) == if Contains(rest[0].virt, a) then Some(rest[0]) else FindEntry(rest[1..], a);
  }

  lemma OwnerFrames(owner: PageTableFrameOwner)
    requires owner.Valid() && owner.owned
    ensures owner.len <= owner.frames.Length && FramesOk(owner.frames[..owner.len])
    ensures owner.len > 0 ==> owner.root == owner.frames[..owner.len][0]
  {
    var frames: seq<int> := owner.frames[..owner.len];
    forall i | 0 <= i < |frames| ensures FrameForm(frames[i]) { assert NewFrame(frames[i]).Ok?; }
  }

  /** Every canonical address, as the processor sees it once the hierarchy has been verified. */
  lemma InstalledWalk(plan: ConstructionPlan, s: seq<PlanEntry>, t: U64, k: U64, frames: seq<int>, m: Words)
    requires plan.Valid() && PlanOk(s) && plan.pages == AllPages(s) && FramesOk(frames) && |frames| == |plan.tables|
    requires TransitionArgs(t, k) && TwoMappings(s, t, k) && Materialized(m, plan.entries, frames)
    ensures |frames| > 0 && forall a: U64 | IsCanonical(a) :: HardwareWalk(m, frames[0], a) == TransitionWalk(t, k, a)
  {
    hide *;
    InstalledCompiled(plan, s, frames, m);
    CompiledPlaced(s, plan.View(), plan.index, frames, m);
    forall a: U64 | IsCanonical(a) ensures HardwareWalk(m, frames[0], a) == TransitionWalk(t, k, a) {
      WalkIsTranslate(s, plan.View(), plan.index, frames, m, a);
      PlannedTransition(s, t, k, a);
    }
  }

  /** The whole pipeline. On success the processor's view through the root is exactly the two mappings; on
      any failure after allocation the frames have been given back as far as the backend allows. */
  method Install(t: U64, k: U64, backend: FrameBackend, memory: TableMemory)
    returns (r: Result<PageTableFrameOwner, InstallError>)
    requires backend.live == {}
    modifies backend, memory
    ensures r.Ok? ==> TransitionArgs(t, k) && r.value.Valid() && r.value.owned && r.value.len > 0 &&
                      forall a: U64 | IsCanonical(a) ::
                        HardwareWalk(memory.words, r.value.root, a) == TransitionWalk(t, k, a)
    ensures r.Err? && r.error.PlanningFailed? ==> !TransitionArgs(t, k) && unchanged(backend) && unchanged(memory)
    ensures r.Err? && backend.failures == old(backend.failures) ==> backend.live == {}
    ensures r.Err? && r.error.WriteFailed? ==> r.error.write.WriteAccess?
    ensures r.Err? && r.error.VerificationFailed? ==> r.error.verify.Access?
  {
    hide *;
    var planned := ForTransition(t, k);
    match planned
    case Err(e) => return Err(PlanningFailed(e));
    case Ok(plan) =>
      ghost var s := MappingsOf(plan, t, k);
      PlanHasRoot(plan);
      var allocation := PageTableFrameOwner.Allocate(|plan.tables|, 8, backend);
      match allocation
      case Err(e) => return Err(AllocationFailed(e));
      case Ok(owner) => r := Fill(plan, owner, memory, t, k, s);
  }

  lemma MappingsOf(plan: ConstructionPlan, t: U64, k: U64) returns (s: seq<PlanEntry>)
    requires TransitionArgs(t, k) && exists m :: TwoMappings(m, t, k) && PlanOk(m) && plan.pages == AllPages(m)
    ensures PlanOk(s) && TwoMappings(s, t, k) && plan.pages == AllPages(s)
  {
    hide TwoMappings, AllPages;
    s :| TwoMappings(s, t, k) && PlanOk(s) && plan.pages == AllPages(s);
  }

  lemma PlanHasRoot(plan: ConstructionPlan)
    requires plan.Valid()
    ensures |plan.tables| > 0
  {
  }

  method Fill(plan: ConstructionPlan, owner: PageTableFrameOwner, memory: TableMemory, t: U64, k: U64,
              ghost s: seq<PlanEntry>)
    returns (r: Result<PageTableFrameOwner, InstallError>)
    requires plan.Valid() && PlanOk(s) && plan.pages == AllPages(s) && TransitionArgs(t, k) && TwoMappings(s, t, k)
    requires owner.Valid() && owner.owned && owner.len == |plan.tables|
    modifies memory, owner, owner.backend
    ensures r.Ok? ==> r.value == owner && owner.Valid() && owner.owned && owner.len > 0 &&
                      forall a: U64 | IsCanonical(a) ::
                        HardwareWalk(memory.words, owner.root, a) == TransitionWalk(t, k, a)
    ensures r.Err? && owner.backend.failures == old(owner.backend.failures) ==> owner.backend.live == {}
    ensures r.Err? ==> (r.error.WriteFailed? && r.error.write.WriteAccess?) ||
                       (r.error.VerificationFailed? && r.error.verify.Access?)
  {
    hide *;
    OwnerFrames(owner);
    var frames: seq<int> := owner.frames[..owner.len];
    InstalledCompiled(plan, s, frames, memory.words);
    var written := Materialize(plan, frames, memory);
    match written
    case Err(e) =>
      var _ := owner.Drop();
      return Err(WriteFailed(e));
    case Ok(_) =>
      InstalledWalk(plan, s, t, k, frames, memory.words);
      var verified := VerifyMaterialized(plan, frames, owner.root, memory);
      match verified
      case Err(e) =>
        var _ := owner.Drop();
        return Err(VerificationFailed(e));
      case Ok(_) => return Ok(owner);
  }
}
