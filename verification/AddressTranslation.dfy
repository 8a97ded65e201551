/** What the processor makes of a materialised plan. */
module AddressTranslation {
  import opened Prelude
  import opened MappingPlan
  import opened PageTablePlan
  import opened MappingPages
  import opened Paging

  /** A hierarchy compiled from the mappings, with one frame per table, lies in table memory. */
  ghost predicate Compiled(s: seq<PlanEntry>, t: Tree, ix: Index, frames: seq<int>, m: Words) {
    PlanOk(s) && TreeOk(t, ix, AllPages(s)) && FramesOk(frames) && |frames| == |t.tables| &&
    Materialized(m, t.entries, frames)
  }

  lemma CompiledPlaced(s: seq<PlanEntry>, t: Tree, ix: Index, frames: seq<int>, m: Words)
    requires Compiled(s, t, ix, frames, m)
    ensures Placed(t, ix, AllPages(s), frames) && BelowRoot(m, t.entries, frames) && |frames| > 0
    ensures forall i: nat | i < 512 :: WordAt(m, frames[0], i) == ExpectedWord(t.entries, frames, 0, i)
  {
    hide EntryOk, Compatible, TableOk, EntriesOk, Encodable, WordAt, ExpectedWord;
    AllPagesEncodable(s);
  }

  /** What the plan promises for an address: its physical address and effective rights. */
  function Planned(s: seq<PlanEntry>, a: U64): Option<Translation> {
    match (Translate(s, a), FindEntry(s, a))
    case (Ok(physical), Some(e)) =>
      var uncached := e.cache == Some(Uncached);
      Some(Translation(physical, Writable(e), Executable(e), false, uncached, uncached, true))
    case _ => None
  }

  /** The page of an address carries exactly what the plan promises for it. */
  lemma PlannedIsPage(s: seq<PlanEntry>, a: U64)
    requires PlanOk(s) && IsCanonical(a)
    ensures Vpn(a) >= 0 && PageWalk(AllPages(s), a, Rights(true, true, false)) == Planned(s, a)
    ensures Planned(s, a).Some? <==> Translate(s, a).Ok?
  {
    hide LeafBits, Vpn, FindPage, AllPages, FindEntry, ValidateMappingPolicy, Compatible,
      WritableBit, UserBit, NoExecuteBit, WriteThroughBit, CacheDisableBit, GlobalBit;
    PagesFaithful(s, a);
    match FindEntry(s, a)
    case None =>
    case Some(e) =>
      FindEntryOk(s, a);
      if e.backing.Mapped? {
        EntryOffset(e, a);
        DecodeLeafBits(e.permissions.value, e.cache.value);
      }
  }

  lemma EntryOffset(e: PlanEntry, a: int)
    requires EntryOk(e) && e.backing.Mapped? && Contains(e.virt, a)
    ensures var ph := e.backing.physical.start;
      ph + (a - e.virt.start) / 4096 * 4096 + a % 4096 == ph + (a - e.virt.start) < SUPPORTED_PHYSICAL_END
  {
    hide ValidateMappingPolicy;
    assert e.virt.start % 4096 == 0;
  }

  /** Meaning preservation: for every canonical address the processor's walk of the materialised tables
      and the mapping plan give the same answer, with the mapping's rights and cache policy. */
  lemma WalkIsTranslate(s: seq<PlanEntry>, t: Tree, ix: Index, frames: seq<int>, m: Words, a: U64)
    requires Compiled(s, t, ix, frames, m) && IsCanonical(a)
    ensures |frames| > 0 && HardwareWalk(m, frames[0], a) == Planned(s, a)
    ensures HardwareWalk(m, frames[0], a).Some? <==> Translate(s, a).Ok?
  {
    hide *;
    CompiledPlaced(s, t, ix, frames, m);
    CompiledPlan(s, t, ix, frames, m);
    PlannedIsPage(s, a);
    AddressIndexIsPrefix(a, 4);
    WalkFromRoot(t, ix, AllPages(s), frames, m, a);
  }

  lemma CompiledPlan(s: seq<PlanEntry>, t: Tree, ix: Index, frames: seq<int>, m: Words)
    requires Compiled(s, t, ix, frames, m)
    ensures PlanOk(s) && AllOk(s) && TreeOk(t, ix, AllPages(s)) && FramesOk(frames) && |frames| == |t.tables|
  {
  }

  /** Write-xor-execute as the processor sees it: no physical page is writable through one canonical
      address and executable through any canonical address. */
  lemma NoWritableExecutableAlias(s: seq<PlanEntry>, t: Tree, ix: Index, frames: seq<int>, m: Words, a: U64, b: U64)
    requires Compiled(s, t, ix, frames, m) && IsCanonical(a) && IsCanonical(b)
    ensures |frames| > 0
    ensures var x, y := HardwareWalk(m, frames[0], a), HardwareWalk(m, frames[0], b);
      x.Some? && y.Some? && x.value.physical / 4096 == y.value.physical / 4096 ==>
      !(x.value.writable && y.value.executable) && x.value.writable == y.value.writable && !x.value.user
  {
    hide *;
    CompiledPlan(s, t, ix, frames, m);
    WalkIsTranslate(s, t, ix, frames, m, a);
    WalkIsTranslate(s, t, ix, frames, m, b);
    PlannedMeans(s, a);
    PlannedMeans(s, b);
    if Planned(s, a).Some? && Planned(s, b).Some? &&
      Planned(s, a).value.physical / 4096 == Planned(s, b).value.physical / 4096 {
      var i := FindEntryIndex(s, a);
      var j := FindEntryIndex(s, b);
      AliasesAgree(s, i, j, a, b);
    }
  }

  lemma PlannedMeans(s: seq<PlanEntry>, a: U64)
    ensures Planned(s, a).Some? ==>
      FindEntry(s, a).Some? && Translate(s, a) == Ok(Planned(s, a).value.physical) && !Planned(s, a).value.user &&
      Planned(s, a).value.writable == Writable(FindEntry(s, a).value) &&
      Planned(s, a).value.executable == Executable(FindEntry(s, a).value)
  {
  }

  // ---- removing the transition mappings

  /** Table memory after the words named by the removals have been cleared. */
  function Cleared(m: Words, root: int, rs: seq<Removal>): Words
    decreases |rs|
  {
    if rs == [] then m else Cleared(m[Cell(root, rs[0].index) := 0], root, rs[1..])
  }

  lemma {:induction false} ClearedAt(m: Words, root: int, rs: seq<Removal>, frame: int, index: nat)
    ensures WordAt(Cleared(m, root, rs), frame, index) ==
            if frame == root && index in RemovalIndices(rs) then 0 else WordAt(m, frame, index)
    decreases |rs|
  {
    if rs != [] {
      ClearedAt(m[Cell(root, rs[0].index) := 0], root, rs[1..], frame, index);
      assert RemovalIndices(rs) == [rs[0].index] + RemovalIndices(rs[1..]);
    }
  }

  /** Only words of the root frame change. */
  lemma ClearedBelow(t: Tree, frames: seq<int>, m: Words)
    requires BelowRoot(m, t.entries, frames) && FramesOk(frames) && |frames| > 0
    ensures BelowRoot(Cleared(m, frames[0], t.removals), t.entries, frames)
  {
    hide ExpectedWord, WordAt, RemovalIndices, Cleared;
    var m' := Cleared(m, frames[0], t.removals);
    forall table: nat, i: nat | 0 < table < |frames| && i < 512
      ensures WordAt(m', frames[table], i) == ExpectedWord(t.entries, frames, table, i) {
      assert frames[table] != frames[0];
      ClearedAt(m, frames[0], t.removals, frames[table], i);
      assert TableMaterialized(m, t.entries, frames, table);
    }
  }

  lemma RootChild(t: Tree, ix: Index, pages: seq<Page>, i: nat)
    requires TreeOk(t, ix, pages) && i < 512
    ensures Lookup(t.entries, 0, i).Some? ==> Node(3, i) in ix.slots
  {
    hide Lookup, FindPage;
    assert TableOk(t, ix, 0) && EntryAt(t, ix, pages, 0, i);
    if Lookup(t.entries, 0, i).Some? {
      var c := Lookup(t.entries, 0, i).value.target.slot;
      assert TableOk(t, ix, c);
      assert NodeOf(t, ix, c) == Node(3, i);
    }
  }

  /** A lower-half root word is either listed for removal or was never set. */
  lemma LowRootWord(t: Tree, ix: Index, pages: seq<Page>, frames: seq<int>, i: nat)
    requires TreeOk(t, ix, pages) && RemovalsOk(t, ix) && i < 256 && i !in RemovalIndices(t.removals)
    ensures ExpectedWord(t.entries, frames, 0, i) == 0
  {
    hide Lookup, FindPage, RemovalOk, RemovalIndices, TreeOk;
    RootChild(t, ix, pages, i);
  }

  lemma RemovalIndexLow(t: Tree, ix: Index, i: nat)
    requires RemovalsOk(t, ix) && i in RemovalIndices(t.removals)
    ensures i < 256
  {
    var k :| 0 <= k < |t.removals| && RemovalIndices(t.removals)[k] == i;
    assert RemovalOk(ix, t.removals[k]);
  }

  lemma RootIndex(a: U64)
    requires IsCanonical(a)
    ensures 0 <= AddressIndex(a, 4) < 512 && (AddressIndex(a, 4) < 256 <==> a < HIGH_CANONICAL_START)
  {
  }

  lemma NoRootWord(m: Words, root: int, a: U64)
    requires WordAt(m, root, AddressIndex(a, 4)) == 0
    ensures HardwareWalk(m, root, a) == None
  {
  }

  /** Clearing the listed root words removes every lower-half translation and no upper-half one. */
  lemma RemovalsClearLowerHalf(s: seq<PlanEntry>, t: Tree, ix: Index, frames: seq<int>, m: Words, a: U64)
    requires Compiled(s, t, ix, frames, m) && RemovalsOk(t, ix) && IsCanonical(a)
    ensures |frames| > 0
    ensures var m' := Cleared(m, frames[0], t.removals);
      HardwareWalk(m', frames[0], a) == if a < HIGH_CANONICAL_START then None else HardwareWalk(m, frames[0], a)
  {
    hide *;
    CompiledPlan(s, t, ix, frames, m);
    CompiledPlaced(s, t, ix, frames, m);
    RootIndex(a);
    var i, m' := AddressIndex(a, 4), Cleared(m, frames[0], t.removals);
    ClearedAt(m, frames[0], t.removals, frames[0], i);
    if a < HIGH_CANONICAL_START {
      if i !in RemovalIndices(t.removals) { LowRootWord(t, ix, AllPages(s), frames, i); }
      NoRootWord(m', frames[0], a);
    } else {
      if i in RemovalIndices(t.removals) { RemovalIndexLow(t, ix, i); }
      ClearedBelow(t, frames, m);
      AddressIndexIsPrefix(a, 4);
      WalkFromRoot(t, ix, AllPages(s), frames, m, a);
      WalkFromRoot(t, ix, AllPages(s), frames, m', a);
    }
  }
}
