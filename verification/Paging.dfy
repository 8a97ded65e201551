/** Table memory and the four-level translation the processor performs on it (Intel SDM Volume 3A,
    section 4.5, 4-level paging). */
module Paging {
  import opened Prelude
  import opened Counting
  import opened MappingPlan
  import opened PageTablePlan
  import opened MappingPages

  datatype Cell = Cell(frame: int, index: int)

  type Words = map<Cell, U64>

  function WordAt(m: Words, frame: int, index: int): U64 {
    if Cell(frame, index) in m then m[Cell(frame, index)] else 0
  }

  // ---- words

  /** The bit of the given weight among bits 11:0. */
  predicate LowBit(low: int, weight: int)
    requires weight > 0
  {
    (low / weight) % 2 == 1
  }

  /** Bits 51:12 of an entry. */
  function EntryAddress(w: int): int { w / 4096 % 0x100_0000_0000 * 4096 }

  predicate Present(w: int) { LowBit(w % 4096, 1) }

  predicate WritableBit(w: int) { LowBit(w % 4096, 2) }

  predicate UserBit(w: int) { LowBit(w % 4096, 4) }

  predicate WriteThroughBit(w: int) { LowBit(w % 4096, 8) }

  predicate CacheDisableBit(w: int) { LowBit(w % 4096, 16) }

  predicate HugeBit(w: int) { LowBit(w % 4096, 128) }

  predicate GlobalBit(w: int) { LowBit(w % 4096, 256) }

  predicate NoExecuteBit(w: int) { w / 0x8000_0000_0000_0000 % 2 == 1 }

  /** User, huge-page, accessed, dirty, available and reserved bits, none of which a plan uses. */
  predicate StrayBits(w: int) {
    UserBit(w) || HugeBit(w) || w % 4096 / 32 % 4 != 0 || w % 4096 / 512 != 0 || w / 0x10_0000_0000_0000 % 2048 != 0
  }

  // ---- the processor's walk

  datatype Translation = Translation(
    physical: int, writable: bool, executable: bool, user: bool, writeThrough: bool, cacheDisable: bool, global_: bool)

  /** The rights accumulated on the way down: writable and user need every level, execution no NX bit. */
  datatype Rights = Rights(writable: bool, executable: bool, user: bool)

  function Narrow(r: Rights, w: int): Rights {
    Rights(r.writable && WritableBit(w), r.executable && !NoExecuteBit(w), r.user && UserBit(w))
  }

  function Mapping(w: int, base: int, offset: int, r: Rights): Translation {
    Translation(base + offset, r.writable, r.executable, r.user, WriteThroughBit(w), CacheDisableBit(w), GlobalBit(w))
  }

  function WalkFrom(m: Words, frame: int, a: int, level: nat, r: Rights): Option<Translation>
    requires 1 <= level <= 4
    decreases level
  {
    var w := WordAt(m, frame, AddressIndex(a, level));
    var r' := Narrow(r, w);
    if !Present(w) then None
    else if level == 1 then Some(Mapping(w, EntryAddress(w), a % 4096, r'))
    else if HugeBit(w) then
      if level == 4 then None
      else if level == 3 then Some(Mapping(w, w / 0x4000_0000 % 0x40_0000 * 0x4000_0000, a % 0x4000_0000, r'))
      else Some(Mapping(w, w / 0x20_0000 % 0x8000_0000 * 0x20_0000, a % 0x20_0000, r'))
    else WalkFrom(m, EntryAddress(w), a, level - 1, r')
  }

  function HardwareWalk(m: Words, root: int, a: int): Option<Translation> {
    WalkFrom(m, root, a, 4, Rights(true, true, true))
  }

  // ---- planned words

  /** Flag words have no address bits: twelve low bits and the execute-disable bit. */
  predicate FlagForm(f: int) { 0 <= f < U64_LIMIT && f % 0x8000_0000_0000_0000 < 4096 }

  predicate FrameForm(address: int) { 0 <= address < SUPPORTED_PHYSICAL_END && address % 4096 == 0 }

  /** Address and flags occupy disjoint fields, so the encoded word is their sum. */
  lemma DecodeWord(address: int, f: int)
    requires FrameForm(address) && FlagForm(f)
    ensures 0 <= address + f < U64_LIMIT && EntryAddress(address + f) == address
    ensures Present(address + f) == Present(f) && WritableBit(address + f) == WritableBit(f)
    ensures UserBit(address + f) == UserBit(f) && WriteThroughBit(address + f) == WriteThroughBit(f)
    ensures CacheDisableBit(address + f) == CacheDisableBit(f) && HugeBit(address + f) == HugeBit(f)
    ensures GlobalBit(address + f) == GlobalBit(f) && NoExecuteBit(address + f) == NoExecuteBit(f)
    ensures StrayBits(address + f) == StrayBits(f)
  {
    hide LowBit;
    WordFields(address, f);
  }

  lemma WordFields(address: int, f: int)
    requires FrameForm(address) && FlagForm(f)
    ensures 0 <= address + f < U64_LIMIT && (address + f) % 4096 == f % 4096
    ensures (address + f) / 4096 % 0x100_0000_0000 * 4096 == address
    ensures (address + f) / 0x8000_0000_0000_0000 == f / 0x8000_0000_0000_0000
    ensures (address + f) / 0x10_0000_0000_0000 % 2048 == f / 0x10_0000_0000_0000 % 2048 == 0
  {
    var low, nx, p := f % 0x8000_0000_0000_0000, f / 0x8000_0000_0000_0000, address / 4096;
    var w := address + f;
    assert w == nx * 0x8000_0000_0000_0000 + p * 4096 + low;
    assert w / 4096 == nx * 0x8_0000_0000_0000 + p;
    assert w / 0x10_0000_0000_0000 == nx * 2048 == f / 0x10_0000_0000_0000;
  }

  lemma DecodeLeafBits(p: Permissions, cache: CachePolicy)
    ensures var f := LeafBits(p, cache);
      FlagForm(f) && Present(f) && WritableBit(f) == p.write && NoExecuteBit(f) == !p.execute && !StrayBits(f) &&
      GlobalBit(f) && WriteThroughBit(f) == (cache == Uncached) && CacheDisableBit(f) == (cache == Uncached)
  {
    var f := LeafBits(p, cache);
    var low := 257 + (if p.write then 2 else 0) + (if cache == Uncached then 24 else 0);
    assert f % 4096 == low && f / 0x8000_0000_0000_0000 == if p.execute then 0 else 1;
    assert f / 0x10_0000_0000_0000 == if p.execute then 0 else 2048;
    LowBitsOf(p.write, cache == Uncached);
    hide LowBit;
  }

  lemma LowBitsOf(write: bool, uncached: bool)
    ensures var low := 257 + (if write then 2 else 0) + (if uncached then 24 else 0);
      LowBit(low, 1) && LowBit(low, 2) == write && LowBit(low, 8) == uncached && LowBit(low, 16) == uncached &&
      LowBit(low, 256) && !LowBit(low, 4) && !LowBit(low, 128) && low / 32 % 4 == 0 && low / 512 == 0
  {
    if write { if uncached { assert LowBit(283, 1); } else { assert LowBit(259, 1); } }
    else { if uncached { assert LowBit(281, 1); } else { assert LowBit(257, 1); } }
  }

  // ---- table memory holding a plan

  ghost predicate FramesOk(frames: seq<int>) {
    Distinct(frames) && forall i | 0 <= i < |frames| :: FrameForm(frames[i])
  }

  /** The word recorded for an entry once its child slots have frames. */
  function EncodedValue(e: PlannedEntry, frames: seq<int>): Result<int, PlanError> {
    match e.target
    case PhysicalFrame(address) => Ok(address + e.flags)
    case TableSlot(slot) => if slot < |frames| then Ok(frames[slot] + e.flags) else Err(MissingFrameAssignment)
  }

  /** The word planned for a table and an index, zero where nothing is planned. */
  function ExpectedWord(entries: seq<PlannedEntry>, frames: seq<int>, table: nat, index: nat): int {
    match Lookup(entries, table, index)
    case None => 0
    case Some(e) => match EncodedValue(e, frames) { case Ok(w) => w case Err(_) => 0 }
  }

  /** Every one of the 512 words of every table's frame is the planned one. */
  ghost predicate Materialized(m: Words, entries: seq<PlannedEntry>, frames: seq<int>) {
    forall table: nat, index: nat | table < |frames| && index < 512 ::
      WordAt(m, frames[table], index) == ExpectedWord(entries, frames, table, index)
  }

  // ---- the walk of a materialised hierarchy

  predicate LeafFlagForm(f: int) {
    FlagForm(f) && Present(f) && !StrayBits(f) && !(WritableBit(f) && !NoExecuteBit(f))
  }

  ghost predicate Encodable(pages: seq<Page>) {
    forall k | 0 <= k < |pages| :: FrameForm(pages[k].frame) && LeafFlagForm(pages[k].flags)
  }

  /** What the walk must answer from a table on the path of the address. */
  ghost function PageWalk(pages: seq<Page>, a: int, r: Rights): Option<Translation>
    requires Vpn(a) >= 0
  {
    match FindPage(pages, Vpn(a))
    case None => None
    case Some(p) => Some(Mapping(p.flags, p.frame, a % 4096, Narrow(r, p.flags)))
  }

  ghost predicate Placed(t: Tree, ix: Index, pages: seq<Page>, frames: seq<int>) {
    TreeOk(t, ix, pages) && Encodable(pages) && FramesOk(frames) && |frames| == |t.tables|
  }

  /** The words of one table's frame are the planned ones. */
  ghost predicate TableMaterialized(m: Words, entries: seq<PlannedEntry>, frames: seq<int>, table: nat)
    requires table < |frames|
  {
    forall index: nat | index < 512 :: WordAt(m, frames[table], index) == ExpectedWord(entries, frames, table, index)
  }

  ghost predicate BelowRoot(m: Words, entries: seq<PlannedEntry>, frames: seq<int>) {
    forall table: nat | 0 < table < |frames| :: TableMaterialized(m, entries, frames, table)
  }

  ghost predicate OnPath(t: Tree, ix: Index, slot: nat, level: nat, vpn: nat) {
    1 <= level <= 4 && slot < |t.tables| == |ix.keys| && t.tables[slot].level == level &&
    ix.keys[slot] == Prefix(level + 1, vpn)
  }

  /** In a page table the record for the address is the leaf of its page. */
  lemma LeafOnPath(t: Tree, ix: Index, pages: seq<Page>, slot: nat, vpn: nat)
    requires TreeOk(t, ix, pages) && OnPath(t, ix, slot, 1, vpn)
    ensures Lookup(t.entries, slot, vpn % 512) == LeafEntry(slot, vpn % 512, FindPage(pages, vpn))
  {
    hide Lookup, FindPage;
    PrefixSteps(vpn);
    assert EntryAt(t, ix, pages, slot, vpn % 512);
  }

  /** Above it, the record is the child on the path, and a missing record leaves the address unmapped. */
  lemma ChildOnPath(t: Tree, ix: Index, pages: seq<Page>, slot: nat, level: nat, vpn: nat)
    requires TreeOk(t, ix, pages) && OnPath(t, ix, slot, level, vpn) && level > 1
    ensures var e := Lookup(t.entries, slot, Prefix(level, vpn) % 512);
      (e.None? ==> FindPage(pages, vpn) == None) &&
      (e.Some? ==> e.value.target.TableSlot? && e.value.flags == INTERMEDIATE && 0 < e.value.target.slot &&
                   OnPath(t, ix, e.value.target.slot, level - 1, vpn))
  {
    hide Lookup, FindPage;
    assert TableOk(t, ix, slot);
    var index := Prefix(level, vpn) % 512;
    assert Prefix(level, vpn) == Prefix(level + 1, vpn) * 512 + index;
    assert EntryAt(t, ix, pages, slot, index);
    match Lookup(t.entries, slot, index)
    case None =>
      NodeFresh(t, ix, pages, slot, index);
      if FindPage(pages, vpn).Some? {
        var k := FindPageIndex(pages, vpn);
        AncestorsPresent(t, ix, pages, vpn, level - 1);
      }
    case Some(e) =>
      assert TableOk(t, ix, e.target.slot);
  }

  lemma ChildWord(frame: int, r: Rights)
    requires FrameForm(frame)
    ensures var w := frame + INTERMEDIATE;
      0 <= w < U64_LIMIT && Present(w) && !HugeBit(w) && EntryAddress(w) == frame && Narrow(r, w) == r.(user := false)
  {
    DecodeWord(frame, INTERMEDIATE);
    assert 3 % 4096 == 3;
  }

  lemma ZeroWord()
    ensures !Present(0)
  {
  }

  lemma WalkMeans(m: Words, frame: int, a: int, level: nat, r: Rights)
    requires 1 <= level <= 4
    ensures var w := WordAt(m, frame, AddressIndex(a, level));
      (!Present(w) ==> WalkFrom(m, frame, a, level, r) == None) &&
      (Present(w) && level == 1 ==>
         WalkFrom(m, frame, a, level, r) == Some(Mapping(w, EntryAddress(w), a % 4096, Narrow(r, w)))) &&
      (Present(w) && level > 1 && !HugeBit(w) ==>
        WalkFrom(m, frame, a, level, r) == WalkFrom(m, EntryAddress(w), a, level - 1, Narrow(r, w)))
  {
  }

  lemma LeafWord(p: Page, a: int, r: Rights)
    requires FrameForm(p.frame) && LeafFlagForm(p.flags)
    ensures var w := p.frame + p.flags;
      Present(w) && Mapping(w, EntryAddress(w), a % 4096, Narrow(r, w)) ==
        Mapping(p.flags, p.frame, a % 4096, Narrow(r, p.flags))
  {
    hide Present, StrayBits, WritableBit, UserBit, HugeBit, WriteThroughBit, CacheDisableBit, GlobalBit, NoExecuteBit,
      EntryAddress;
    DecodeWord(p.frame, p.flags);
  }

  lemma FoundEncodable(pages: seq<Page>, vpn: nat)
    requires Encodable(pages) && FindPage(pages, vpn).Some?
    ensures FrameForm(FindPage(pages, vpn).value.frame) && LeafFlagForm(FindPage(pages, vpn).value.flags)
  {
    var k := FindPageIndex(pages, vpn);
  }

  lemma ExpectedMeans(entries: seq<PlannedEntry>, frames: seq<int>, table: nat, index: nat)
    ensures match Lookup(entries, table, index)
      case None => ExpectedWord(entries, frames, table, index) == 0
      case Some(PlannedEntry(_, _, PhysicalFrame(address), flags)) => ExpectedWord(entries, frames, table, index) ==
        address + flags
      case Some(PlannedEntry(_, _, TableSlot(slot), flags)) =>
        slot < |frames| ==> ExpectedWord(entries, frames, table, index) == frames[slot] + flags
  {
  }

  /** The walk from a page table. */
  lemma WalkLeaf(t: Tree, ix: Index, pages: seq<Page>, frames: seq<int>, m: Words, slot: nat, a: U64, r: Rights)
    requires Placed(t, ix, pages, frames) && Vpn(a) >= 0 && OnPath(t, ix, slot, 1, Vpn(a))
    requires TableMaterialized(m, t.entries, frames, slot)
    ensures WalkFrom(m, frames[slot], a, 1, r) == PageWalk(pages, a, r)
  {
    hide Lookup, FindPage, Vpn, ExpectedWord, WalkFrom, TreeOk, FramesOk, Encodable, Mapping, Narrow, AddressIndex,
      Present, EntryAddress, FrameForm, LeafFlagForm;
    var vpn := Vpn(a);
    AddressIndexIsPrefix(a, 1);
    LeafOnPath(t, ix, pages, slot, vpn);
    ExpectedMeans(t.entries, frames, slot, vpn % 512);
    WalkMeans(m, frames[slot], a, 1, r);
    match FindPage(pages, vpn)
    case None => ZeroWord();
    case Some(p) =>
      FoundEncodable(pages, vpn);
      LeafWord(p, a, r);
  }

  /** One step down: the walk continues in the child's frame, or stops where nothing is mapped. */
  lemma WalkChild(t: Tree, ix: Index, pages: seq<Page>, frames: seq<int>, m: Words, slot: nat, a: U64, level: nat,
                  r: Rights)
    requires Placed(t, ix, pages, frames) && Vpn(a) >= 0 && OnPath(t, ix, slot, level, Vpn(a)) && level > 1
    requires AddressIndex(a, level) >= 0 &&
      WordAt(m, frames[slot], AddressIndex(a, level)) == ExpectedWord(t.entries, frames, slot, AddressIndex(a, level))
    ensures var e := Lookup(t.entries, slot, AddressIndex(a, level));
      (e.None? ==> FindPage(pages, Vpn(a)) == None && WalkFrom(m, frames[slot], a, level, r) == None) &&
      (e.Some? ==> e.value.target.TableSlot? && 0 < e.value.target.slot &&
                   OnPath(t, ix, e.value.target.slot, level - 1, Vpn(a)) &&
                   WalkFrom(m, frames[slot], a, level, r) ==
                     WalkFrom(m, frames[e.value.target.slot], a, level - 1, r.(user := false)))
  {
    hide Lookup, FindPage, Vpn, ExpectedWord, WalkFrom, TreeOk, Encodable, Mapping, Narrow, AddressIndex,
      Present, HugeBit, EntryAddress, FrameForm, LeafFlagForm, Prefix;
    AddressIndexIsPrefix(a, level);
    ChildOnPath(t, ix, pages, slot, level, Vpn(a));
    ExpectedMeans(t.entries, frames, slot, AddressIndex(a, level));
    WalkMeans(m, frames[slot], a, level, r);
    match Lookup(t.entries, slot, AddressIndex(a, level))
    case None => ZeroWord();
    case Some(e) => ChildWord(frames[e.target.slot], r);
  }

  lemma {:induction false} WalkBelow(t: Tree, ix: Index, pages: seq<Page>, frames: seq<int>, m: Words, slot: nat,
                                     a: U64, level: nat, r: Rights)
    requires Placed(t, ix, pages, frames) && Vpn(a) >= 0 && OnPath(t, ix, slot, level, Vpn(a)) && slot > 0
    requires BelowRoot(m, t.entries, frames)
    ensures WalkFrom(m, frames[slot], a, level, r) == PageWalk(pages, a, if level == 1 then r else r.(user := false))
    decreases level
  {
    hide Lookup, FindPage, Vpn, ExpectedWord, WalkFrom, TreeOk, Encodable, FramesOk, Mapping, Narrow, AddressIndex,
      Prefix, WordAt;
    if level == 1 {
      WalkLeaf(t, ix, pages, frames, m, slot, a, r);
    } else {
      assert TableMaterialized(m, t.entries, frames, slot);
      AddressIndexIsPrefix(a, level);
      WalkChild(t, ix, pages, frames, m, slot, a, level, r);
      match Lookup(t.entries, slot, AddressIndex(a, level))
      case None =>
      case Some(e) => WalkBelow(t, ix, pages, frames, m, e.target.slot, a, level - 1, r.(user := false));
    }
  }

  lemma RootOnPath(t: Tree, ix: Index, pages: seq<Page>, vpn: nat)
    requires TreeOk(t, ix, pages) && vpn < 0x10_0000_0000
    ensures OnPath(t, ix, 0, 4, vpn)
  {
    assert TableOk(t, ix, 0);
    PrefixSteps(vpn);
  }

  /** With its root word as planned and the tables below as planned, an address translates to its page. */
  lemma WalkFromRoot(t: Tree, ix: Index, pages: seq<Page>, frames: seq<int>, m: Words, a: U64)
    requires Placed(t, ix, pages, frames) && IsCanonical(a) && BelowRoot(m, t.entries, frames) && Vpn(a) >= 0
    requires AddressIndex(a, 4) >= 0 && WordAt(m, frames[0], AddressIndex(a, 4)) ==
      ExpectedWord(t.entries, frames, 0, AddressIndex(a, 4))
    ensures HardwareWalk(m, frames[0], a) == PageWalk(pages, a, Rights(true, true, false))
  {
    hide Lookup, FindPage, Vpn, ExpectedWord, WalkFrom, TreeOk, Encodable, FramesOk, Mapping, Narrow, AddressIndex,
      Prefix, WordAt;
    VpnInjective(a, a);
    RootOnPath(t, ix, pages, Vpn(a));
    var r := Rights(true, true, true);
    WalkChild(t, ix, pages, frames, m, 0, a, 4, r);
    match Lookup(t.entries, 0, AddressIndex(a, 4))
    case None =>
    case Some(e) => WalkBelow(t, ix, pages, frames, m, e.target.slot, a, 3, r.(user := false));
  }

  lemma EntryPagesEncodable(e: PlanEntry)
    requires EntryOk(e)
    ensures Encodable(PagesOf(e))
  {
    hide LeafFlagForm, LeafBits, Vpn, ValidateMappingPolicy;
    var pages := PagesOf(e);
    forall j | 0 <= j < |pages| ensures FrameForm(pages[j].frame) && LeafFlagForm(pages[j].flags) {
      EntrySpan(e, j);
      KernelLeaf(e.permissions.value, e.cache.value);
      assert e.backing.physical.start % 4096 == 0;
    }
  }

  lemma KernelLeaf(p: Permissions, cache: CachePolicy)
    requires KernelPermissions(p)
    ensures LeafFlagForm(LeafBits(p, cache))
  {
    hide LeafBits, Present, StrayBits, FlagForm, WritableBit, NoExecuteBit;
    DecodeLeafBits(p, cache);
  }

  lemma {:induction false} AllPagesEncodable(s: seq<PlanEntry>)
    requires AllOk(s)
    ensures Encodable(AllPages(s))
  {
    hide EntryOk, FrameForm, LeafFlagForm;
    if s != [] {
      AllPagesEncodable(s[..|s| - 1]);
      assert EntryOk(s[|s| - 1]);
      EntryPagesEncodable(s[|s| - 1]);
    }
  }
}
