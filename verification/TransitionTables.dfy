/** The hierarchy that carries execution across the switch of address spaces: one executable page and the
    bootstrap stack, both mapped to themselves. */
module TransitionTables {
  import opened Prelude
  import opened Sorting
  import opened Counting
  import opened MappingPlan
  import opened PageTablePlan
  import opened MappingPages
  import opened PageTableBuilder

  const CAPACITY := Capacity(8, 32, 1)

  /** The page and the stack can be mapped side by side below the limit. */
  predicate Placeable(t: U64, k: U64) {
    t % 4096 == 0 && k % 4096 == 0 && t + 4096 <= TRANSITION_IDENTITY_END &&
    k + BOOTSTRAP_STACK_BYTES <= TRANSITION_IDENTITY_END && !RangesOverlap(t, t + 4096, k, k + BOOTSTRAP_STACK_BYTES)
  }

  /** Exactly what the two addresses must satisfy. */
  predicate TransitionArgs(t: U64, k: U64) { 0 < t && 0 < k && Placeable(t, k) }

  /** An identity mapping, as long as it stays below the limit. */
  predicate IdentityArgs(start: U64, length: int) {
    start % 4096 == 0 && start + length <= TRANSITION_IDENTITY_END
  }

  function IdentityEntry(start: U64, length: int, p: Permissions): PlanEntry
    requires 0 < length && start + length < U64_LIMIT
  {
    var r := Range(start, start + length);
    PlanEntry(r, Mapped(r), Some(p), Some(WriteBack), TransitionIdentity)
  }

  lemma IdentityOk(start: U64, length: int, p: Permissions)
    requires 0 < length <= 65536 && length % 4096 == 0 && start + length < U64_LIMIT && KernelPermissions(p)
    ensures EntryOk(IdentityEntry(start, length, p)) <==> IdentityArgs(start, length)
  {
  }

  /** Inserts an identity mapping, with the checks its two ranges go through. */
  method InsertIdentity(plan: Plan, start: U64, length: U64, p: Permissions) returns (r: Result<(), LayoutError>)
    requires plan.Valid() && 0 < length <= 65536 && length % 4096 == 0 && KernelPermissions(p)
    modifies plan, plan.entries
    ensures plan.Valid() && plan.entries == old(plan.entries)
    ensures r.Ok? <==> IdentityArgs(start, length) && FitsWith(old(plan.Entries()), IdentityEntry(start, length, p)) &&
                       old(plan.len) < plan.entries.Length
    ensures r.Ok? ==> plan.Entries() == Insert(old(plan.Entries()), IdentityEntry(start, length, p), VStart)
  {
    hide PlanOk, FitsWith, Insert, EntryOk;
    if start + length >= U64_LIMIT { return Err(RangeOverflow); }
    IdentityOk(start, length, p);
    RangesOk(start, length);
    match NewVirtualRange(start, start + length)
    case Err(e) => return Err(e);
    case Ok(virt) =>
      match NewPhysicalRange(start, start + length)
      case Err(e) => return Err(e);
      case Ok(physical) => r := plan.InsertMapping(virt, physical, p, WriteBack, TransitionIdentity);
  }

  lemma RangesOk(start: U64, length: U64)
    requires 0 < length && length % 4096 == 0 && start + length < U64_LIMIT
    ensures IdentityArgs(start, length) ==>
      ValidVirtual(Range(start, start + length)) && ValidPhysical(Range(start, start + length))
  {
  }

  // ---- the size of the hierarchy

  lemma ThreeAtMost(a: nat, b: nat, c: nat)
    ensures |{a, b, c}| <= 3 && |{a}| == 1
  {
    assert {a, b, c} == {a} + {b} + {c};
    AddSize({a}, b);
    AddSize({a} + {b}, c);
  }

  /** Sixteen consecutive pages lie under at most two tables of any level. */
  lemma StackPrefixes(s: nat, v: nat)
    requires s <= v <= s + 15
    ensures Prefix(2, v) == Prefix(2, s) || Prefix(2, v) == Prefix(2, s + 15)
    ensures Prefix(3, v) == Prefix(3, s) || Prefix(3, v) == Prefix(3, s + 15)
  {
    PrefixSteps(v);
    PrefixSteps(s);
    PrefixSteps(s + 15);
  }

  lemma LowPrefix(v: nat)
    requires v < 0x10_0000
    ensures Prefix(4, v) == 0
  {
    PrefixSteps(v);
  }

  ghost predicate TransitionPages(pages: seq<Page>, t: nat, s: nat) {
    |pages| == 17 && forall k | 0 <= k < |pages| ::
      pages[k].vpn < 0x10_0000 && (pages[k].vpn == t || s <= pages[k].vpn <= s + 15)
  }

  /** Wherever the page and the stack lie below the limit, eight tables are enough. */
  lemma EightTablesSuffice(pages: seq<Page>, t: nat, s: nat)
    requires TransitionPages(pages, t, s)
    ensures |Nodes(pages)| <= 8
  {
    hide Prefix, Nodes, Paths;
    NodesCounted(pages);
    forall k | 0 <= k < |pages|
      ensures Prefix(4, pages[k].vpn) in {0}
      ensures Prefix(3, pages[k].vpn) in {Prefix(3, t), Prefix(3, s), Prefix(3, s + 15)}
      ensures Prefix(2, pages[k].vpn) in {Prefix(2, t), Prefix(2, s), Prefix(2, s + 15)} {
      LowPrefix(pages[k].vpn);
      if pages[k].vpn != t { StackPrefixes(s, pages[k].vpn); }
    }
    PathsWithin(pages, 4, {0});
    PathsWithin(pages, 3, {Prefix(3, t), Prefix(3, s), Prefix(3, s + 15)});
    PathsWithin(pages, 2, {Prefix(2, t), Prefix(2, s), Prefix(2, s + 15)});
    SubsetSize(Paths(pages, 4), {0});
    SubsetSize(Paths(pages, 3), {Prefix(3, t), Prefix(3, s), Prefix(3, s + 15)});
    SubsetSize(Paths(pages, 2), {Prefix(2, t), Prefix(2, s), Prefix(2, s + 15)});
    ThreeAtMost(Prefix(3, t), Prefix(3, s), Prefix(3, s + 15));
    ThreeAtMost(Prefix(2, t), Prefix(2, s), Prefix(2, s + 15));
  }

  // ---- the two mappings

  function Trampoline(t: U64): PlanEntry
    requires t + 4096 < U64_LIMIT
  {
    IdentityEntry(t, 4096, KERNEL_RX)
  }

  function Stack(k: U64): PlanEntry
    requires k + 65536 < U64_LIMIT
  {
    IdentityEntry(k, 65536, KERNEL_RW)
  }

  ghost predicate TwoMappings(s: seq<PlanEntry>, t: U64, k: U64)
    requires t + 4096 < U64_LIMIT && k + 65536 < U64_LIMIT
  {
    s == [Trampoline(t), Stack(k)] || s == [Stack(k), Trampoline(t)]
  }

  lemma TwoInserted(t: U64, k: U64)
    requires t + 4096 < U64_LIMIT && k + 65536 < U64_LIMIT
    ensures TwoMappings(Insert(Insert([], Trampoline(t), VStart), Stack(k), VStart), t, k)
  {
    var one := Insert([], Trampoline(t), VStart);
    assert one == [Trampoline(t)];
    assert one[..0] == [] && one[1..] == [];
  }

  lemma TwoFit(t: U64, k: U64)
    requires t + 4096 < U64_LIMIT && k + 65536 < U64_LIMIT
    ensures FitsWith([Trampoline(t)], Stack(k)) <==> !RangesOverlap(t, t + 4096, k, k + 65536)
    ensures FitsWith([], Trampoline(t))
  {
    var one := [Trampoline(t)];
    assert one[0] == Trampoline(t);
    assert Overlaps(Trampoline(t).virt, Stack(k).virt) == RangesOverlap(t, t + 4096, k, k + 65536);
  }

  lemma TwoAreTransition(s: seq<PlanEntry>, t: U64, k: U64)
    requires t + 4096 < LOW_CANONICAL_END && k + 65536 < LOW_CANONICAL_END && TwoMappings(s, t, k)
    ensures TransitionOk(s)
  {
    CountTwo(s, IsTrampoline);
    CountTwo(s, IsTransitionStack);
  }

  lemma CountTwo(s: seq<PlanEntry>, p: PlanEntry -> bool)
    requires |s| == 2
    ensures CountLow(s, p) == (if IsLow(s[0]) && p(s[0]) then 1 else 0) + if IsLow(s[1]) && p(s[1]) then 1 else 0
  {
    hide IsLow;
    CountLowSnoc(s, 0, p);
    CountLowSnoc(s, 1, p);
    assert s[..0] == [] && s[..2] == s;
  }

  lemma TwoPages(s: seq<PlanEntry>, t: U64, k: U64)
    requires t + 4096 < U64_LIMIT && k + 65536 < U64_LIMIT && TwoMappings(s, t, k) && AllOk(s)
    ensures |AllPages(s)| == 17
  {
    hide EntryOk;
    var a, b := s[0], s[1];
    assert EntryOk(a) && EntryOk(b);
    assert s[..1][..0] == [] && s[..1] == [a];
    assert AllPages(s[..1]) == AllPages(s[..1][..0]) + PagesOf(a);
    assert AllPages(s) == AllPages(s[..1]) + PagesOf(b);
  }

  lemma TwoArePages(s: seq<PlanEntry>, t: U64, k: U64)
    requires Placeable(t, k) && TwoMappings(s, t, k) && AllOk(s)
    ensures TransitionPages(AllPages(s), t / 4096, k / 4096) && (0 < t && 0 < k ==> NoZeroFrame(AllPages(s)))
  {
    hide EntryOk, AllPages, PageOf, TwoMappings;
    TwoPages(s, t, k);
    var pages := AllPages(s);
    forall n | 0 <= n < |pages|
      ensures pages[n].vpn < 0x10_0000 && (pages[n].vpn == t / 4096 || k / 4096 <= pages[n].vpn <= k / 4096 + 15)
      ensures 0 < t && 0 < k ==> pages[n].frame != 0 {
      var i, j := PageOrigin(s, n);
      OnePage(s, t, k, i, j);
    }
  }

  lemma OnePage(s: seq<PlanEntry>, t: U64, k: U64, i: nat, j: nat)
    requires Placeable(t, k) && TwoMappings(s, t, k) && i < |s| && EntryOk(s[i]) && j < PageCount(s[i])
    ensures var p := PageOf(s[i], j);
      p.vpn < 0x10_0000 && (p.vpn == t / 4096 || k / 4096 <= p.vpn <= k / 4096 + 15) &&
      (0 < t && 0 < k ==> p.frame != 0)
  {
    hide EntryOk;
    var a := s[i].virt.start + j * 4096;
    VpnLow(a);
  }

  lemma ZeroPage(s: seq<PlanEntry>, t: U64, k: U64)
    requires t + 4096 < U64_LIMIT && k + 65536 < U64_LIMIT && TwoMappings(s, t, k) && AllOk(s) && (t == 0 || k == 0)
    ensures !NoZeroFrame(AllPages(s))
  {
    hide EntryOk, AllPages;
    var i: nat := if s[0].virt.start == 0 then 0 else 1;
    assert EntryOk(s[i]) && s[i].virt.start == 0;
    var n := PageMember(s, i, 0);
  }

  /** Compiles the transition hierarchy. It fails only for addresses that do not qualify: the fixed
      capacities are always enough. */
  method ForTransition(t: U64, k: U64) returns (r: Result<ConstructionPlan, PlanError>)
    ensures r.Ok? <==> TransitionArgs(t, k)
    ensures r.Err? ==> (r.error.Layout? && !Placeable(t, k)) || (r.error == ZeroPhysicalFrame && (t == 0 || k == 0))
    ensures r.Ok? ==> fresh(r.value) && r.value.Valid() && r.value.Minimal()
    ensures r.Ok? ==> exists s :: TwoMappings(s, t, k) && PlanOk(s) && r.value.pages == AllPages(s)
  {
    hide *;
    ArgsMean(t, k);
    var plan := new Plan(2);
    PlanEntriesOk(plan);
    var first := InsertIdentity(plan, t, 4096, KERNEL_RX);
    match first
    case Err(e) => return Err(Layout(e));
    case Ok(_) =>
      PlanEntriesOk(plan);
      var second := InsertIdentity(plan, k, 65536, KERNEL_RW);
      match second
      case Err(e) => return Err(Layout(e));
      case Ok(_) =>
        PlanEntriesOk(plan);
        var s := plan.entries[..plan.len];
        TwoInserted(t, k);
        TransitionFits(s, t, k);
        r := ConstructionPlan.Build(s, Transitional, CAPACITY);
  }

  lemma ArgsMean(t: U64, k: U64)
    ensures KernelPermissions(KERNEL_RX) && KernelPermissions(KERNEL_RW)
    ensures IdentityArgs(t, 4096) ==>
      t + 4096 < U64_LIMIT && Trampoline(t) == IdentityEntry(t, 4096, KERNEL_RX) && FitsWith([], Trampoline(t)) &&
      Insert([], Trampoline(t), VStart) == [Trampoline(t)]
    ensures IdentityArgs(k, 65536) ==> k + 65536 < U64_LIMIT && Stack(k) == IdentityEntry(k, 65536, KERNEL_RW)
    ensures Placeable(t, k) <==> IdentityArgs(t, 4096) && IdentityArgs(k, 65536) && FitsWith([Trampoline(t)], Stack(k))
    ensures TransitionArgs(t, k) <==> 0 < t && 0 < k && Placeable(t, k)
  {
    hide EntryOk, FitsWith;
    if IdentityArgs(t, 4096) && IdentityArgs(k, 65536) { TwoFit(t, k); }
    if IdentityArgs(t, 4096) { TwoFit(t, 0); }
  }

  lemma PlanEntriesOk(plan: Plan)
    requires plan.Valid()
    ensures |plan.Entries()| == plan.len <= plan.entries.Length && plan.Entries() == plan.entries[..plan.len] &&
      PlanOk(plan.entries[..plan.len])
  {
  }

  /** For the two mappings of a plan, the build conditions come down to the two frames being non-zero. */
  lemma TransitionFits(s: seq<PlanEntry>, t: U64, k: U64)
    requires IdentityArgs(t, 4096) && IdentityArgs(k, 65536) && t + 4096 < U64_LIMIT && k + 65536 < U64_LIMIT
    requires TwoMappings(s, t, k) && PlanOk(s) && FitsWith([Trampoline(t)], Stack(k))
    ensures ModeOk(s, Transitional) && Fits(AllPages(s), CAPACITY) && (NoZeroFrame(AllPages(s)) <==> 0 < t && 0 < k)
    ensures forall e :: !Exhausted(e, AllPages(s), CAPACITY)
  {
    hide PlanOk, TwoMappings, Nodes, LowRoots, AllPages, NoZeroFrame, FitsWith;
    EntriesAllOk(s);
    TwoAreTransition(s, t, k);
    ArgsMean(t, k);
    TwoArePages(s, t, k);
    EightTablesSuffice(AllPages(s), t / 4096, k / 4096);
    TransitionLowRoots(s);
    FitsMeans(AllPages(s), CAPACITY);
    assert |{0}| == 1;
    if t == 0 || k == 0 { ZeroPage(s, t, k); }
  }

  // ---- the bound is tight

  lemma ThreePaths(pages: seq<Page>, level: nat, i: nat, j: nat, k: nat)
    requires i < |pages| && j < |pages| && k < |pages|
    requires Prefix(level, pages[i].vpn) != Prefix(level, pages[j].vpn) &&
      Prefix(level, pages[i].vpn) != Prefix(level, pages[k].vpn)
    requires Prefix(level, pages[j].vpn) != Prefix(level, pages[k].vpn)
    ensures |Paths(pages, level)| >= 3
  {
    hide Prefix, Paths;
    var a, b, c := Prefix(level, pages[i].vpn), Prefix(level, pages[j].vpn), Prefix(level, pages[k].vpn);
    PathMember(pages, level, a);
    PathMember(pages, level, b);
    PathMember(pages, level, c);
    SubsetSize({a} + {b} + {c}, Paths(pages, level));
    AddSize({a}, b);
    AddSize({a} + {b}, c);
  }

  const FAR_PAGE: U64 := 0x8000_0000
  const STRADDLING_STACK: U64 := 0x3fff_8000

  /** A stack across a GiB boundary and a page in a third GiB need all eight tables. */
  lemma EightTablesNeeded(s: seq<PlanEntry>)
    requires TwoMappings(s, FAR_PAGE, STRADDLING_STACK) && AllOk(s)
    ensures TransitionArgs(FAR_PAGE, STRADDLING_STACK) && |Nodes(AllPages(s))| == 8
  {
    hide EntryOk, AllPages, Nodes, Paths;
    var pages := AllPages(s);
    var t: nat := if s[0] == Trampoline(FAR_PAGE) then 0 else 1;
    assert s[t] == Trampoline(FAR_PAGE) && s[1 - t] == Stack(STRADDLING_STACK);
    var i := PageMember(s, t, 0);
    var j := PageMember(s, 1 - t, 0);
    var k := PageMember(s, 1 - t, 15);
    FarPrefixes();
    hide Prefix;
    ThreePaths(pages, 2, i, j, k);
    ThreePaths(pages, 3, i, j, k);
    PathMember(pages, 4, Prefix(4, pages[i].vpn));
    SubsetSize({Prefix(4, pages[i].vpn)}, Paths(pages, 4));
    NodesCounted(pages);
    TwoArePages(s, FAR_PAGE, STRADDLING_STACK);
    EightTablesSuffice(pages, FAR_PAGE / 4096, STRADDLING_STACK / 4096);
  }

  lemma FarPrefixes()
    ensures Prefix(2, 0x8_0000) == 0x400 && Prefix(2, 0x3_fff8) == 0x1ff && Prefix(2, 0x4_0007) == 0x200
    ensures Prefix(3, 0x8_0000) == 2 && Prefix(3, 0x3_fff8) == 0 && Prefix(3, 0x4_0007) == 1
  {
    PrefixSteps(0x8_0000);
    PrefixSteps(0x3_fff8);
    PrefixSteps(0x4_0007);
  }
}
