/** A mapping plan seen as the list of 4 KiB pages it maps. */
module MappingPages {
  import opened Prelude
  import opened MappingPlan
  import opened PageTablePlan

  /** The flag bits of a leaf; the fields are disjoint, so their union is their sum. */
  function LeafBits(p: Permissions, cache: CachePolicy): U64 {
    1 + 256 + (if p.write then 2 else 0) + (if p.execute then 0 else 0x8000_0000_0000_0000)
    + (if cache == Uncached then 24 else 0)
  }

  function LeafFlags(p: Permissions, cache: CachePolicy): Result<U64, PlanError> {
    if p.user then Err(UserMapping)
    else if p.write && p.execute then Err(WritableExecutableLeaf)
    else Ok(LeafBits(p, cache))
  }

  function NewFrame(address: U64): Result<U64, PlanError> {
    if address == 0 then Err(ZeroPhysicalFrame)
    else if address >= SUPPORTED_PHYSICAL_END then Err(Layout(UnsupportedPhysicalAddress))
    else if address % 4096 != 0 then Err(UnalignedPhysicalFrame)
    else Ok(address)
  }

  ghost function PageCount(e: PlanEntry): nat
    requires EntryOk(e)
  {
    if e.backing.Unmapped? then 0 else Length(e.virt) / 4096
  }

  /** Page `j` of a mapping. */
  ghost function PageOf(e: PlanEntry, j: nat): Page
    requires EntryOk(e) && j < PageCount(e)
  {
    EntrySpan(e, j);
    Page(Vpn(e.virt.start + j * 4096), e.backing.physical.start + j * 4096,
      LeafBits(e.permissions.value, e.cache.value))
  }

  lemma EntrySpan(e: PlanEntry, j: nat)
    requires EntryOk(e) && e.backing.Mapped? && j < Length(e.virt) / 4096
    ensures 0 <= e.backing.physical.start + j * 4096 < SUPPORTED_PHYSICAL_END
    ensures 0 <= e.virt.start + j * 4096 < e.virt.end && Contains(e.virt, e.virt.start + j * 4096)
  {
  }

  ghost function PagesOf(e: PlanEntry): (s: seq<Page>)
    requires EntryOk(e)
    ensures |s| == PageCount(e) && forall j | 0 <= j < |s| :: s[j] == PageOf(e, j)
  {
    seq(PageCount(e), j requires 0 <= j < PageCount(e) => PageOf(e, j))
  }

  ghost function AllPages(s: seq<PlanEntry>): seq<Page>
    requires AllOk(s)
  {
    if s == [] then [] else AllPages(s[..|s| - 1]) + PagesOf(s[|s| - 1])
  }

  // ---- page numbers

  lemma VpnLow(a: int)
    requires 0 <= a < LOW_CANONICAL_END
    ensures Vpn(a) == a / 4096 && 0 <= Vpn(a) < 0x8_0000_0000
  {
  }

  lemma VpnHigh(a: U64)
    requires HIGH_CANONICAL_START <= a
    ensures Vpn(a) == a / 4096 - 0xf_fff0_0000_0000 && 0x8_0000_0000 <= Vpn(a) < 0x10_0000_0000
  {
    assert a % 0x1_0000_0000_0000 == a - 0xffff_0000_0000_0000;
  }

  /** Canonical addresses share a page number exactly when they share a page. */
  lemma VpnInjective(a: U64, b: U64)
    requires IsCanonical(a) && IsCanonical(b)
    ensures Vpn(a) == Vpn(b) <==> a / 4096 == b / 4096
    ensures 0 <= Vpn(a) < 0x10_0000_0000
    ensures a < HIGH_CANONICAL_START <==> Vpn(a) < 0x8_0000_0000
  {
    if a < LOW_CANONICAL_END { VpnLow(a); } else { VpnHigh(a); }
    if b < LOW_CANONICAL_END { VpnLow(b); } else { VpnHigh(b); }
    hide Vpn;
  }

  lemma RangeCanonical(r: Range, a: int)
    requires ValidVirtual(r) && Contains(r, a)
    ensures 0 <= a < U64_LIMIT && IsCanonical(a)
  {
  }

  // ---- the pages mean what the plan means

  lemma {:induction false} FindPageConcat(a: seq<Page>, b: seq<Page>, vpn: nat)
    ensures FindPage(a + b, vpn) == if FindPage(b, vpn).Some? then FindPage(b, vpn) else FindPage(a, vpn)
  {
    if b == [] {
      assert a + b == a;
    } else {
      FindPageConcat(a, b[..|b| - 1], vpn);
      assert a + b == a + b[..|b| - 1] + [b[|b| - 1]];
      FindPageSnoc(a + b[..|b| - 1], b[|b| - 1], vpn);
    }
  }

  lemma {:induction false} FindPageOnly(pages: seq<Page>, vpn: nat, k: nat)
    requires k < |pages| && pages[k].vpn == vpn
    requires forall i | 0 <= i < |pages| && i != k :: pages[i].vpn != vpn
    ensures FindPage(pages, vpn) == Some(pages[k])
  {
    if k < |pages| - 1 { FindPageOnly(pages[..|pages| - 1], vpn, k); }
  }

  /** The offset of an address inside a mapping, in whole pages. */
  lemma PageIndex(r: Range, a: int) returns (j: nat)
    requires ValidVirtual(r) && Contains(r, a)
    ensures j < Length(r) / 4096 && j == (a - r.start) / 4096 && (r.start + j * 4096) / 4096 == a / 4096
    ensures r.start + j * 4096 == a - a % 4096
  {
    j := (a - r.start) / 4096;
  }

  lemma PageVpn(e: PlanEntry, j: nat, a: U64)
    requires EntryOk(e) && j < PageCount(e) && IsCanonical(a)
    ensures PageOf(e, j).vpn == Vpn(a) <==> (e.virt.start + j * 4096) / 4096 == a / 4096
  {
    hide Vpn, ValidateMappingPolicy;
    EntrySpan(e, j);
    RangeCanonical(e.virt, e.virt.start + j * 4096);
    VpnInjective(e.virt.start + j * 4096, a);
  }

  /** The page of a mapping that holds an address. */
  ghost function PageIn(e: PlanEntry, a: int): Page
    requires EntryOk(e) && e.backing.Mapped? && Contains(e.virt, a) && Vpn(a) >= 0
  {
    Page(Vpn(a), e.backing.physical.start + (a - e.virt.start) / 4096 * 4096,
      LeafBits(e.permissions.value, e.cache.value))
  }

  lemma FindInEntry(e: PlanEntry, a: U64)
    requires EntryOk(e) && IsCanonical(a) && Vpn(a) >= 0
    ensures FindPage(PagesOf(e), Vpn(a)) ==
            if e.backing.Mapped? && Contains(e.virt, a)
            then Some(PageIn(e, a)) else None
  {
    hide Vpn, FindPage, LeafBits, ValidateMappingPolicy;
    var pages := PagesOf(e);
    forall j | 0 <= j < |pages| ensures pages[j].vpn == Vpn(a) <==> (e.virt.start + j * 4096) / 4096 == a / 4096 {
      PageVpn(e, j, a);
    }
    if e.backing.Mapped? && Contains(e.virt, a) {
      var j := PageIndex(e.virt, a);
      assert e.virt.start % 4096 == 0;
      FindPageOnly(pages, Vpn(a), j);
    } else {
      forall j | 0 <= j < |pages| ensures pages[j].vpn != Vpn(a) { OutsidePage(e, j, a); }
      FindPageNone(pages, Vpn(a));
    }
  }

  lemma OutsidePage(e: PlanEntry, j: nat, a: int)
    requires EntryOk(e) && j < PageCount(e) && !Contains(e.virt, a)
    ensures (e.virt.start + j * 4096) / 4096 != a / 4096
  {
  }

  lemma {:induction false} FindEntrySnoc(s: seq<PlanEntry>, e: PlanEntry, a: int)
    ensures FindEntry(s + [e], a) ==
            if FindEntry(s, a).Some? then FindEntry(s, a) else if Contains(e.virt, a) then Some(e) else None
  {
    if s == [] {
      assert (s + [e])[1..] == [];
    } else {
      FindEntrySnoc(s[1..], e, a);
      assert (s + [e])[1..] == s[1..] + [e];
    }
  }

  lemma PlanPrefix(s: seq<PlanEntry>)
    requires PlanOk(s) && s != []
    ensures PlanOk(s[..|s| - 1])
  {
    hide EntryOk, Compatible;
  }

  /** What the plan says about an address, as a page. */
  ghost function PlannedPage(s: seq<PlanEntry>, a: int): Option<Page>
    requires AllOk(s) && Vpn(a) >= 0
  {
    match FindEntry(s, a)
    case None => None
    case Some(e) =>
      FindEntryOk(s, a);
      if e.backing.Unmapped? then None else Some(PageIn(e, a))
  }

  lemma {:induction false} FindEntryOk(s: seq<PlanEntry>, a: int)
    requires AllOk(s) && FindEntry(s, a).Some?
    ensures EntryOk(FindEntry(s, a).value) && Contains(FindEntry(s, a).value.virt, a)
  {
    hide ValidateMappingPolicy;
    var i := FindEntryIndex(s, a);
    assert EntryOk(s[i]);
  }

  /** The page list maps exactly what the plan maps: for every canonical address the same page or none. */
  lemma {:induction false} PagesFaithful(s: seq<PlanEntry>, a: U64)
    requires PlanOk(s) && IsCanonical(a)
    ensures Vpn(a) >= 0 && FindPage(AllPages(s), Vpn(a)) == PlannedPage(s, a)
  {
    hide EntryOk, Compatible, Vpn, PageIn, Contains;
    VpnInjective(a, a);
    if s != [] {
      hide FindPage;
      var front, e := s[..|s| - 1], s[|s| - 1];
      PlanPrefix(s);
      PagesFaithful(front, a);
      assert s == front + [e];
      FindEntrySnoc(front, e, a);
      assert EntryOk(e);
      FindInEntry(e, a);
      FindPageConcat(AllPages(front), PagesOf(e), Vpn(a));
      if Contains(e.virt, a) && FindEntry(front, a).Some? {
        var i := FindEntryIndex(front, a);
        NotInBoth(s, i, a);
      }
    }
  }

  lemma NotInBoth(s: seq<PlanEntry>, i: nat, a: int)
    requires PlanOk(s) && i < |s| - 1 && Contains(s[i].virt, a)
    ensures !Contains(s[|s| - 1].virt, a)
  {
    PlanDisjoint(s, i, |s| - 1);
  }

  ghost predicate DistinctPages(pages: seq<Page>) {
    forall i, j | 0 <= i < j < |pages| :: pages[i].vpn != pages[j].vpn
  }

  lemma {:induction false} FindPageMissing(pages: seq<Page>, vpn: nat, k: nat)
    requires FindPage(pages, vpn) == None && k < |pages|
    ensures pages[k].vpn != vpn
  {
    if k < |pages| - 1 { FindPageMissing(pages[..|pages| - 1], vpn, k); }
  }

  lemma EntryPagesDistinct(e: PlanEntry)
    requires EntryOk(e)
    ensures DistinctPages(PagesOf(e))
  {
    hide Vpn, ValidateMappingPolicy;
    var pages := PagesOf(e);
    forall i, j | 0 <= i < j < |pages| ensures pages[i].vpn != pages[j].vpn {
      EntrySpan(e, j);
      RangeCanonical(e.virt, e.virt.start + j * 4096);
      PageVpn(e, i, e.virt.start + j * 4096);
      assert pages[j] == PageOf(e, j);
      assert e.virt.start % 4096 == 0;
    }
  }

  lemma LastEntryApart(s: seq<PlanEntry>, j: nat)
    requires PlanOk(s) && s != [] && j < PageCount(s[|s| - 1])
    ensures FindPage(AllPages(s[..|s| - 1]), PageOf(s[|s| - 1], j).vpn) == None
  {
    hide Compatible, Vpn, LeafBits, ValidateMappingPolicy, FindPage;
    var front, e := s[..|s| - 1], s[|s| - 1];
    var a := e.virt.start + j * 4096;
    EntrySpan(e, j);
    RangeCanonical(e.virt, a);
    PlanPrefix(s);
    PagesFaithful(front, a);
    if FindEntry(front, a).Some? {
      var i := FindEntryIndex(front, a);
      PlanDisjoint(s, i, |s| - 1);
    }
  }

  /** No page number is mapped twice, so duplicate and remap errors cannot arise. */
  lemma {:induction false} AllPagesDistinct(s: seq<PlanEntry>)
    requires PlanOk(s)
    ensures DistinctPages(AllPages(s))
  {
    hide EntryOk, Compatible, FindPage;
    if s != [] {
      var front, e := s[..|s| - 1], s[|s| - 1];
      PlanPrefix(s);
      AllPagesDistinct(front);
      assert EntryOk(e);
      EntryPagesDistinct(e);
      var a, b := AllPages(front), PagesOf(e);
      forall i, j | 0 <= i < |a| && 0 <= j < |b| ensures a[i].vpn != b[j].vpn {
        LastEntryApart(s, j);
        FindPageMissing(a, b[j].vpn, i);
      }
    }
  }
}
