/** The planner itself: it appends to the construction records, page by page. */
module PageTableBuilder {
  import opened Prelude
  import opened Counting
  import opened MappingPlan
  import opened PageTablePlan
  import opened MappingPages

  datatype PlanMode = Transitional | Final

  ghost predicate ModeOk(s: seq<PlanEntry>, mode: PlanMode) {
    match mode
    case Transitional => TransitionOk(s)
    case Final => FinalOk(s)
  }

  ghost predicate NoZeroFrame(pages: seq<Page>) { forall i | 0 <= i < |pages| :: pages[i].frame != 0 }

  class ConstructionPlan {
    const mode: PlanMode
    const capacity: Capacity
    var tables: seq<PlannedTable>
    var entries: seq<PlannedEntry>
    var removals: seq<Removal>
    ghost var index: Index
    ghost var pages: seq<Page>

    ghost function View(): Tree
      reads this
    {
      Tree(tables, entries, removals)
    }

    ghost predicate Valid()
      reads this
    {
      TreeOk(View(), index, pages) && RemovalsOk(View(), index) &&
      |tables| <= capacity.tables && |entries| <= capacity.entries && |removals| <= capacity.removals
    }

    /** Everything recorded so far belongs to the records for `all`. */
    ghost predicate Underway(all: seq<Page>)
      reads this
    {
      Valid() && PartOf(index, pages, all)
    }

    constructor Begin(mode: PlanMode, capacity: Capacity)
      requires capacity.tables > 0
      ensures this.mode == mode && this.capacity == capacity
      ensures Valid() && pages == [] && index.slots.Keys == Nodes([]) && |tables| == 1
    {
      this.mode := mode;
      this.capacity := capacity;
      tables := [ROOT_TABLE];
      entries := [];
      removals := [];
      index := Index([0], map[Node(4, 0) := 0]);
      pages := [];
      new;
      EmptyTreeOk(View(), index);
    }

    method PushEntry(e: PlannedEntry) returns (r: Result<(), PlanError>)
      modifies this`entries
      ensures r == if |old(entries)| == capacity.entries then Err(EntryCapacityExhausted) else Ok(())
      ensures entries == old(entries) + if r.Ok? then [e] else []
    {
      if |entries| == capacity.entries { return Err(EntryCapacityExhausted); }
      entries := entries + [e];
      return Ok(());
    }

    method PushRemoval(e: PlannedEntry) returns (r: Result<(), PlanError>)
      modifies this`removals
      ensures r == if |old(removals)| == capacity.removals then Err(RemovalCapacityExhausted)
                   else if e.target.PhysicalFrame? then Err(MissingParent) else Ok(())
      ensures removals == old(removals) + if r.Ok? then [Removal(e.table, e.index, e.target.slot, e.flags)] else []
    {
      if |removals| == capacity.removals { return Err(RemovalCapacityExhausted); }
      match e.target
      case PhysicalFrame(_) => return Err(MissingParent);
      case TableSlot(slot) =>
        removals := removals + [Removal(e.table, e.index, slot, e.flags)];
        return Ok(());
    }

    /** Records a new table under a free entry; only a lack of capacity can stop it. */
    method AddTable(parent: nat, at: nat, low: bool, ghost all: seq<Page>) returns (r: Result<nat, PlanError>)
      requires Underway(all) && |pages| < |all| && parent < |tables| && tables[parent].level > 1 && at < 512
      requires Lookup(entries, parent, at) == None && ChildNode(View(), index, parent, at) in Nodes(all)
      requires tables[parent].level == ROOT_LEVEL ==> (low <==> at < 256)
      modifies this`tables, this`entries, this`removals, this`index
      ensures r.Ok? ==> Underway(all) && r.value == |old(tables)| && |tables| == r.value + 1
      ensures r.Ok? ==> index == IndexWithChild(old(View()), old(index), parent, at) &&
                        tables[r.value].level == old(tables[parent].level) - 1
      ensures r.Err? ==> Exhausted(r.error, all, capacity)
    {
      hide *;
      ghost var t, ix := View(), index;
      UnderwayMeans(all);
      GrowTree(t, ix, pages, all, parent, at);
      GrownRecords(t, ix, parent, at);
      FitsMeans(all, capacity);
      if |tables| == capacity.tables { return Err(TableCapacityExhausted); }
      if |tables| >= U32_LIMIT { return Err(FrameSlotOverflow); }
      var child := |tables|;
      var intermediate := PlannedEntry(parent, at, TableSlot(child), INTERMEDIATE);
      var level := tables[parent].level;
      tables := tables + [PlannedTable(level - 1, child, parent, at)];
      var push := PushEntry(intermediate);
      match push {
        case Err(e) => return Err(e);
        case Ok(_) =>
      }
      if level == ROOT_LEVEL && low {
        push := PushRemoval(intermediate);
        match push {
          case Err(e) => return Err(e);
          case Ok(_) =>
        }
      }
      index := IndexWithChild(t, ix, parent, at);
      UnderwayMeans(all);
      return Ok(child);
    }

    lemma UnderwayMeans(all: seq<Page>)
      ensures View() == Tree(tables, entries, removals)
      ensures Underway(all) <==>
              TreeOk(View(), index, pages) && RemovalsOk(View(), index) && PartOf(index, pages, all) &&
              |tables| <= capacity.tables && |entries| <= capacity.entries && |removals| <= capacity.removals
      ensures Underway(all) ==> |tables| == |index.keys|
    {
    }

    /** Finds the child table of an entry, recording one where there is none. */
    method EnsureChild(parent: nat, at: nat, low: bool, ghost all: seq<Page>) returns (r: Result<nat, PlanError>)
      requires Underway(all) && |pages| < |all| && parent < |tables| && tables[parent].level > 1 && at < 512
      requires ChildNode(View(), index, parent, at) in Nodes(all)
      requires tables[parent].level == ROOT_LEVEL ==> (low <==> at < 256)
      modifies this`tables, this`entries, this`removals, this`index
      ensures r.Ok? ==> Underway(all) && r.value < |tables| && tables[r.value].level == old(tables[parent].level) - 1
      ensures r.Ok? ==> index.keys[r.value] == old(index.keys[parent]) * 512 + at
      ensures r.Ok? ==> index.slots.Keys == old(index.slots.Keys) + {old(ChildNode(View(), index, parent, at))}
      ensures r.Err? ==> Exhausted(r.error, all, capacity)
    {
      hide *;
      UnderwayMeans(all);
      ChildNodeMeans(View(), index, parent, at);
      match Lookup(entries, parent, at)
      case None =>
        r := AddTable(parent, at, low, all);
      case Some(existing) =>
        ExistingChild(View(), index, pages, parent, at);
        match existing.target
        case TableSlot(slot) => return Ok(slot);
        case PhysicalFrame(_) => return Err(IncompatibleRemap);
    }

    /** One step of the path: the child on the way to the page. */
    method StepDown(slot: nat, level: nat, va: U64, ghost all: seq<Page>) returns (r: Result<nat, PlanError>)
      requires Underway(all) && |pages| < |all| && IsCanonical(va) && Vpn(va) >= 0 && all[|pages|].vpn == Vpn(va)
      requires slot < |tables| && 2 <= level <= 4 && tables[slot].level == level &&
        index.keys[slot] == Prefix(level + 1, Vpn(va))
      modifies this`tables, this`entries, this`removals, this`index
      ensures r.Ok? ==> Underway(all) && r.value < |tables| == |index.keys| && tables[r.value].level == level - 1
      ensures r.Ok? ==> index.keys[r.value] == Prefix(level, Vpn(va))
      ensures r.Ok? ==> index.slots.Keys == old(index.slots.Keys) + {Node(level - 1, Prefix(level, Vpn(va)))}
      ensures r.Err? ==> Exhausted(r.error, all, capacity)
    {
      hide *;
      UnderwayMeans(all);
      PathStep(all, |pages|, va, level);
      ChildNodeMeans(View(), index, slot, AddressIndex(va, level));
      r := EnsureChild(slot, AddressIndex(va, level), va < HIGH_CANONICAL_START, all);
      UnderwayMeans(all);
    }

    /** Makes sure of the three tables above a page and returns the slot of its PT. */
    method EnsurePath(va: U64, ghost all: seq<Page>) returns (r: Result<nat, PlanError>)
      requires Underway(all) && |pages| < |all| && IsCanonical(va) && Vpn(va) >= 0 && all[|pages|].vpn == Vpn(va)
      modifies this`tables, this`entries, this`removals, this`index
      ensures r.Ok? ==> Underway(all) && r.value < |tables| == |index.keys| && tables[r.value].level == 1
      ensures r.Ok? ==> index.keys[r.value] == Prefix(2, Vpn(va))
      ensures r.Ok? ==> index.slots.Keys == old(index.slots.Keys) + PathNodes(Vpn(va), 1)
      ensures r.Err? ==> Exhausted(r.error, all, capacity)
    {
      PathStart(View(), index, pages, all, va);
      ghost var vpn: nat, keys := Vpn(va), index.slots.Keys;
      hide Underway, Exhausted, Vpn, Prefix, PathNodes;
      PathNodesStart(vpn, keys);
      var slot, level := 0, 4;
      while level > 1
        invariant 1 <= level <= 4 && Underway(all) && slot < |tables| == |index.keys| && tables[slot].level == level
        invariant index.keys[slot] == Prefix(level + 1, vpn) && index.slots.Keys == keys + PathNodes(vpn, level)
      {
        PathNodesStep(vpn, level - 1, keys);
        r := StepDown(slot, level, va, all);
        match r
        case Err(e) => return;
        case Ok(next) => slot, level := next, level - 1;
      }
      return Ok(slot);
    }

    /** Records the leaf of a page in its PT. */
    method PlaceLeaf(table: nat, va: U64, frame: U64, flags: U64, ghost all: seq<Page>)
      returns (r: Result<(), PlanError>)
      requires Underway(all) && |pages| < |all| && Vpn(va) >= 0 && all[|pages|] == Page(Vpn(va), frame, flags)
      requires FindPage(pages, Vpn(va)) == None
      requires table < |tables| && tables[table].level == 1 && index.keys[table] == Vpn(va) / 512
      modifies this`entries, this`pages
      ensures r.Ok? ==> Underway(all) && pages == old(pages) + [all[|old(pages)|]]
      ensures r.Err? ==> r.error.EntryCapacityExhausted? && Exhausted(r.error, all, capacity)
    {
      hide *;
      UnderwayMeans(all);
      ghost var t, page := View(), all[|pages|];
      AddressIndexIsPrefix(va, 1);
      AddLeaf(t, index, pages, table, page);
      LeafNeedsRoom(t, index, pages, all);
      LeafKeeps(t, index, pages, all, table, page);
      FitsMeans(all, capacity);
      var at := AddressIndex(va, 1);
      var leaf := PlannedEntry(table, at, PhysicalFrame(frame), flags);
      match Lookup(entries, table, at)
      case Some(existing) => return Err(if existing == leaf then DuplicateLeaf else IncompatibleRemap);
      case None =>
        r := PushEntry(leaf);
        pages := pages + [page];
        UnderwayMeans(all);
    }

    /** Maps one page. */
    method InsertPage(va: U64, frame: U64, permissions: Permissions, cache: CachePolicy, ghost all: seq<Page>)
      returns (r: Result<(), PlanError>)
      requires Underway(all) && |pages| < |all| && IsCanonical(va) && Vpn(va) >= 0
      requires KernelPermissions(permissions) && all[|pages|] == Page(Vpn(va), frame, LeafBits(permissions, cache))
      requires FindPage(pages, Vpn(va)) == None
      modifies this
      ensures r.Ok? ==> Underway(all) && pages == old(pages) + [all[|old(pages)|]]
      ensures r.Ok? ==> index.slots.Keys == old(index.slots.Keys) + PageNodes(Vpn(va))
      ensures r.Err? ==> Exhausted(r.error, all, capacity)
    {
      hide *;
      UnderwayMeans(all);
      PathEnd(View(), index, pages, Vpn(va));
      LeafFlagsOk(permissions, cache);
      var path := EnsurePath(va, all);
      match path
      case Err(e) => return Err(e);
      case Ok(table) =>
        match LeafFlags(permissions, cache)
        case Err(e) => return Err(e);
        case Ok(flags) => r := PlaceLeaf(table, va, frame, flags, all);
    }

    /** The tree has exactly the tables its pages need. */
    ghost predicate Minimal()
      reads this
    {
      index.slots.Keys == Nodes(pages)
    }

    /** Maps page `j` of a mapping. */
    method AddPage(e: PlanEntry, j: nat, physical: Range, permissions: Permissions, cache: CachePolicy,
                   ghost all: seq<Page>)
      returns (r: Result<(), PlanError>)
      requires Underway(all) && Minimal() && EntryOk(e) && j < PageCount(e) && DistinctPages(all)
      requires e.backing == Mapped(physical) && e.permissions == Some(permissions) && e.cache == Some(cache)
      requires |pages| < |all| && all[|pages|] == PageOf(e, j)
      modifies this
      ensures r.Ok? ==> Underway(all) && Minimal() && pages == old(pages) + [PageOf(e, j)] && PageOf(e, j).frame != 0
      ensures r.Err? ==> Exhausted(r.error, all, capacity) || (r.error == ZeroPhysicalFrame && PageOf(e, j).frame == 0)
    {
      hide *;
      PageFacts(e, j);
      UnderwayPrefix(all);
      PageIsNew(pages, all);
      NodesSnoc(pages, PageOf(e, j));
      MinimalMeans();
      var va := e.virt.start + j * 4096;
      if !IsCanonical(va) { return Err(Layout(NonCanonicalVirtualAddress)); }
      match NewFrame(physical.start + j * 4096)
      case Err(x) => return Err(x);
      case Ok(frame) => r := InsertPage(va, frame, permissions, cache, all);
      MinimalMeans();
    }

    lemma UnderwayPrefix(all: seq<Page>)
      requires Underway(all)
      ensures pages <= all
    {
    }

    lemma MinimalMeans()
      ensures Minimal() <==> index.slots.Keys == Nodes(pages)
    {
    }

    /** Expands a mapping into its pages; a guard contributes none. */
    method AddMapping(e: PlanEntry, ghost all: seq<Page>) returns (r: Result<(), PlanError>)
      requires Underway(all) && Minimal() && EntryOk(e) && pages + PagesOf(e) <= all && DistinctPages(all)
      requires mode == Final ==> !IsLow(e) && e.kind != TransitionIdentity
      modifies this
      ensures r.Ok? ==> Underway(all) && Minimal() && pages == old(pages) + PagesOf(e) && NoZeroFrame(PagesOf(e))
      ensures r.Err? ==> Exhausted(r.error, all, capacity) || (r.error == ZeroPhysicalFrame && !NoZeroFrame(PagesOf(e)))
    {
      if mode == Final && (IsLow(e) || e.kind == TransitionIdentity) { return Err(Layout(LowMappingInFinalPlan)); }
      if e.backing.Unmapped? {
        if e.kind != Guard { return Err(UnsupportedGuardLocation); }
        return Ok(());
      }
      match (e.backing, e.permissions, e.cache)
      case (Mapped(physical), Some(permissions), Some(cache)) =>
        r := AddPages(e, physical, permissions, cache, all);
      case _ => return Err(InvalidEntryFlags);
    }

    method AddPages(e: PlanEntry, physical: Range, permissions: Permissions, cache: CachePolicy, ghost all: seq<Page>)
      returns (r: Result<(), PlanError>)
      requires Underway(all) && Minimal() && EntryOk(e) && pages + PagesOf(e) <= all && DistinctPages(all)
      requires e.backing == Mapped(physical) && e.permissions == Some(permissions) && e.cache == Some(cache)
      modifies this
      ensures r.Ok? ==> Underway(all) && Minimal() && pages == old(pages) + PagesOf(e) && NoZeroFrame(PagesOf(e))
      ensures r.Err? ==> Exhausted(r.error, all, capacity) || (r.error == ZeroPhysicalFrame && !NoZeroFrame(PagesOf(e)))
    {
      hide Underway, Minimal, EntryOk, PageOf, PagesOf, Exhausted, DistinctPages;
      ghost var before, ps := pages, PagesOf(e);
      assert before + ps[..0] == before;
      var count := Length(e.virt) / 4096;
      for j := 0 to count
        invariant Underway(all) && Minimal() && pages == before + ps[..j]
        invariant forall i | 0 <= i < j :: ps[i].frame != 0
      {
        NextPage(all, before, ps, j);
        r := AddPage(e, j, physical, permissions, cache, all);
        match r
        case Err(_) => return;
        case Ok(_) =>
      }
      assert ps[..count] == ps;
      return Ok(());
    }

    /** Every table but the root is named by an entry of its parent. */
    method ValidateStructure() returns (r: Result<(), PlanError>)
      requires Valid()
      ensures r.Ok?
    {
      TableCountBounded(View(), index);
      hide EntryAt, RemovalsOk, PagesPlaced;
      for i := 1 to |tables|
      {
        assert TableOk(View(), index, i);
        var table := tables[i];
        if table.parentSlot == NO_SLOT { return Err(MissingParent); }
        var entry := Lookup(entries, table.parentSlot, table.parentIndex);
        if entry.None? || entry.value.target != TableSlot(table.slot) || entry.value.flags != INTERMEDIATE {
          return Err(MissingParent);
        }
      }
      return Ok(());
    }

    /** Compiles a plan. It succeeds exactly when the mode check passes, no mapped frame is the null frame and
        the records fit; the result is the minimal tree for the plan's pages. */
    static method Build(mappings: seq<PlanEntry>, mode: PlanMode, capacity: Capacity)
      returns (r: Result<ConstructionPlan, PlanError>)
      requires PlanOk(mappings)
      ensures r.Ok? <==> ModeOk(mappings, mode) && NoZeroFrame(AllPages(mappings)) && Fits(AllPages(mappings), capacity)
      ensures r.Err? ==> Exhausted(r.error, AllPages(mappings), capacity) ||
                         (r.error.Layout? && !ModeOk(mappings, mode)) ||
                         (r.error == ZeroPhysicalFrame && !NoZeroFrame(AllPages(mappings)))
      ensures r.Ok? ==> fresh(r.value) && r.value.Valid() && r.value.Minimal()
      ensures r.Ok? ==> r.value.mode == mode && r.value.pages == AllPages(mappings)
    {
      ghost var all := AllPages(mappings);
      var check;
      if mode == Transitional { check := ValidateTransition(mappings); } else { check := ValidateFinal(mappings); }
      if check.Err? { return Err(Layout(check.error)); }
      if capacity.tables == 0 { RootNeeded(all); return Err(TableCapacityExhausted); }
      var plan := new ConstructionPlan.Begin(mode, capacity);
      r := plan.AddAll(mappings);
    }

    method AddAll(mappings: seq<PlanEntry>) returns (r: Result<ConstructionPlan, PlanError>)
      requires Valid() && Minimal() && pages == [] && PlanOk(mappings) && ModeOk(mappings, mode)
      modifies this
      ensures r.Ok? <==> NoZeroFrame(AllPages(mappings)) && Fits(AllPages(mappings), capacity)
      ensures r.Err? ==> Exhausted(r.error, AllPages(mappings), capacity) ||
                         (r.error == ZeroPhysicalFrame && !NoZeroFrame(AllPages(mappings)))
      ensures r.Ok? ==> r.value == this && Valid() && Minimal() && pages == AllPages(mappings)
    {
      hide *;
      StartAll(mappings);
      ghost var all := AllPages(mappings);
      AllPagesDistinct(mappings);
      for i := 0 to |mappings|
        invariant Underway(all) && Minimal() && AllOk(mappings[..i])
        invariant pages == AllPages(mappings[..i]) && NoZeroFrame(pages)
      {
        NextMapping(mappings, mode, i);
        var step := AddMapping(mappings[i], all);
        match step
        case Err(e) =>
          PartZero(mappings, i);
          FitsMeans(all, capacity);
          return Err(e);
        case Ok(_) =>
          ZeroFree(mappings, i);
      }
      assert mappings[..|mappings|] == mappings;
      FitsWhenDone(all);
      var structure := ValidateStructure();
      match structure
      case Err(e) => return Err(e);
      case Ok(_) => return Ok(this);
    }

    lemma StartAll(mappings: seq<PlanEntry>)
      requires Valid() && Minimal() && pages == [] && PlanOk(mappings)
      ensures AllOk(mappings) && AllOk(mappings[..0]) && AllPages(mappings[..0]) == []
      ensures Underway(AllPages(mappings)) && NoZeroFrame(pages)
    {
      RootIn(AllPages(mappings));
    }

    lemma FitsWhenDone(all: seq<Page>)
      requires Underway(all) && Minimal() && pages == all
      ensures Fits(all, capacity) && Valid()
    {
      CountsWhenMinimal(View(), index, pages);
    }
  }

  lemma EmptyTreeOk(t: Tree, ix: Index)
    requires t == Tree([ROOT_TABLE], [], []) && ix == Index([0], map[Node(4, 0) := 0])
    ensures TreeOk(t, ix, []) && RemovalsOk(t, ix) && ix.slots.Keys == Nodes([])
  {
    assert ix.slots.Keys == {Node(4, 0)};
    assert |ix.slots| == |{Node(4, 0)}| == 1;
    assert TableOk(t, ix, 0);
  }

  lemma ExistingChild(t: Tree, ix: Index, pages: seq<Page>, parent: nat, at: nat)
    requires TreeOk(t, ix, pages) && parent < |t.tables| && t.tables[parent].level > 1 && at < 512
    requires Lookup(t.entries, parent, at).Some?
    ensures var target := Lookup(t.entries, parent, at).value.target;
      target.TableSlot? && target.slot < |t.tables| == |ix.keys| &&
      Node(t.tables[target.slot].level, ix.keys[target.slot]) == ChildNode(t, ix, parent, at) &&
      ChildNode(t, ix, parent, at) in ix.slots
  {
    assert EntryAt(t, ix, pages, parent, at);
    var c := Lookup(t.entries, parent, at).value.target.slot;
    assert TableOk(t, ix, c);
  }

  /** The records after a new table: one removal more exactly for a lower-half child of the root. */
  function Grown(t: Tree, p: nat, at: nat): Tree
    requires p < |t.tables| && t.tables[p].level > 1
  {
    var t' := WithChild(t, p, at);
    if t.tables[p].level == ROOT_LEVEL && at < 256
    then t'.(removals := t.removals + [Removal(p, at, |t.tables|, INTERMEDIATE)]) else t'
  }

  lemma TreeIgnoresRemovals(t: Tree, ix: Index, pages: seq<Page>, rs: seq<Removal>)
    requires TreeOk(t, ix, pages)
    ensures TreeOk(t.(removals := rs), ix, pages)
  {
    var t' := t.(removals := rs);
    forall i | 0 <= i < |t'.tables| ensures TableOk(t', ix, i) { assert TableOk(t, ix, i); }
    forall table: nat, at: nat ensures EntryAt(t', ix, pages, table, at) { assert EntryAt(t, ix, pages, table, at); }
  }

  lemma GrownRecords(t: Tree, ix: Index, p: nat, at: nat)
    requires p < |t.tables| == |ix.keys| && t.tables[p].level > 1
    ensures ROOT_LEVEL == 4 && U32_LIMIT == 0x1_0000_0000
    ensures Grown(t, p, at) == Tree(
              t.tables + [PlannedTable(t.tables[p].level - 1, |t.tables|, p, at)],
              t.entries + [PlannedEntry(p, at, TableSlot(|t.tables|), INTERMEDIATE)],
              if t.tables[p].level == ROOT_LEVEL && at < 256
              then t.removals + [Removal(p, at, |t.tables|, INTERMEDIATE)] else t.removals)
  {
  }

  lemma ChildNodeMeans(t: Tree, ix: Index, p: nat, at: nat)
    requires p < |t.tables| == |ix.keys| && t.tables[p].level > 1
    ensures ChildNode(t, ix, p, at) == Node(t.tables[p].level - 1, ix.keys[p] * 512 + at)
    ensures NodeOf(t, ix, p) == Node(t.tables[p].level, ix.keys[p])
    ensures var ix' := IndexWithChild(t, ix, p, at);
      ix'.slots.Keys == ix.slots.Keys + {ChildNode(t, ix, p, at)} &&
      |ix'.keys| == |ix.keys| + 1 && ix'.keys[|ix.keys|] == ChildNode(t, ix, p, at).key
    ensures ROOT_LEVEL == 4
  {
  }

  lemma FitsMeans(all: seq<Page>, cap: Capacity)
    ensures Fits(all, cap) <==>
            |Nodes(all)| <= cap.tables && |Nodes(all)| - 1 + |all| <= cap.entries && |LowRoots(all)| <= cap.removals
    ensures Exhausted(TableCapacityExhausted, all, cap) <==> |Nodes(all)| > cap.tables
    ensures Exhausted(EntryCapacityExhausted, all, cap) <==> |Nodes(all)| - 1 + |all| > cap.entries
    ensures Exhausted(RemovalCapacityExhausted, all, cap) <==> |LowRoots(all)| > cap.removals
    ensures forall e :: Exhausted(e, all, cap) ==> !Fits(all, cap)
  {
  }

  lemma AddRemoval(t: Tree, ix: Index, pages: seq<Page>, all: seq<Page>, p: nat, at: nat)
    requires TreeOk(t, ix, pages) && RemovalsOk(t, ix) && PartOf(ix, pages, all)
    requires p < |t.tables| && t.tables[p].level > 1 && at < 512
    requires ChildNode(t, ix, p, at) !in ix.slots && ChildNode(t, ix, p, at) in Nodes(all)
    ensures RemovalsOk(Grown(t, p, at), IndexWithChild(t, ix, p, at))
    ensures t.tables[p].level == ROOT_LEVEL && at < 256 ==> |t.removals| + 1 <= |LowRoots(all)|
  {
    hide EntriesOk, RemovalsOk, Nodes, LowRoots;
    RootOnly(t, ix, p);
    assert TableOk(t, ix, 0) && TableOk(t, ix, p);
    if t.tables[p].level == ROOT_LEVEL && at < 256 {
      RemovalAdded(t, ix, at);
      RemovalNeedsRoom(t, ix, pages, all, at);
    } else {
      RemovalsKept(t, ix, p, at);
    }
  }

  lemma GrowTree(t: Tree, ix: Index, pages: seq<Page>, all: seq<Page>, p: nat, at: nat)
    requires TreeOk(t, ix, pages) && RemovalsOk(t, ix) && PartOf(ix, pages, all) && |pages| < |all|
    requires p < |t.tables| && t.tables[p].level > 1 && at < 512 && |t.tables| == |ix.keys|
    requires Lookup(t.entries, p, at) == None && ChildNode(t, ix, p, at) in Nodes(all)
    ensures var t' := Grown(t, p, at); var ix' := IndexWithChild(t, ix, p, at);
      TreeOk(t', ix', pages) && RemovalsOk(t', ix') && PartOf(ix', pages, all)
    ensures |t.tables| + 1 <= |Nodes(all)| && |t.entries| + 2 <= |Nodes(all)| - 1 + |all|
    ensures t.tables[p].level == ROOT_LEVEL && at < 256 ==> |t.removals| + 1 <= |LowRoots(all)|
    ensures |t.tables| <= 0x4000_0000
  {
    TableCountBounded(t, ix);
    AddChild(t, ix, pages, p, at);
    ChildNeedsRoom(t, ix, pages, all, ChildNode(t, ix, p, at));
    AddRemoval(t, ix, pages, all, p, at);
    hide TreeOk, RemovalsOk, Nodes, LowRoots, Lookup;
    TreeIgnoresRemovals(WithChild(t, p, at), IndexWithChild(t, ix, p, at), pages, Grown(t, p, at).removals);
    assert IndexWithChild(t, ix, p, at).slots.Keys == ix.slots.Keys + {ChildNode(t, ix, p, at)};
  }

  /** The nodes on the way to a page, from below the root down to a level. */
  ghost function PathNodes(vpn: nat, level: nat): set<Node>
    decreases 4 - level
  {
    if level >= 4 then {} else PathNodes(vpn, level + 1) + {Node(level, Prefix(level + 1, vpn))}
  }

  lemma PathNodesStart(vpn: nat, keys: set<Node>)
    ensures keys + PathNodes(vpn, 4) == keys
  {
  }

  lemma PathNodesStep(vpn: nat, level: nat, keys: set<Node>)
    requires level < 4
    ensures keys + PathNodes(vpn, level) == keys + PathNodes(vpn, level + 1) + {Node(level, Prefix(level + 1, vpn))}
  {
  }

  lemma PathStart(t: Tree, ix: Index, pages: seq<Page>, all: seq<Page>, va: U64)
    requires TreeOk(t, ix, pages) && IsCanonical(va)
    ensures |t.tables| == |ix.keys| >= 1 && t.tables[0].level == 4 && Vpn(va) >= 0 && ix.keys[0] == Prefix(5, Vpn(va))
  {
    assert TableOk(t, ix, 0);
    VpnInjective(va, va);
    PrefixSteps(Vpn(va));
  }

  lemma PathStep(all: seq<Page>, k: nat, va: U64, level: nat)
    requires k < |all| && IsCanonical(va) && Vpn(va) >= 0 && all[k].vpn == Vpn(va) && 2 <= level <= 4
    ensures 0 <= AddressIndex(va, level) < 512
    ensures Prefix(level, Vpn(va)) == Prefix(level + 1, Vpn(va)) * 512 + AddressIndex(va, level)
    ensures Node(level - 1, Prefix(level, Vpn(va))) in Nodes(all)
    ensures level == 4 ==> (va < HIGH_CANONICAL_START <==> AddressIndex(va, level) < 256)
  {
    AddressIndexIsPrefix(va, level);
    PageNodesIn(all, k);
    VpnInjective(va, va);
    PrefixSteps(Vpn(va));
    hide AddressIndex, Vpn, Nodes;
  }

  lemma PathEnd(t: Tree, ix: Index, pages: seq<Page>, vpn: nat)
    requires TreeOk(t, ix, pages)
    ensures Node(4, 0) in ix.slots && Prefix(2, vpn) == vpn / 512
    ensures PageNodes(vpn) == PathNodes(vpn, 1) + {Node(4, 0)}
  {
    assert TableOk(t, ix, 0);
    PrefixSteps(vpn);
    assert PathNodes(vpn, 3) == PathNodes(vpn, 4) + {Node(3, Prefix(4, vpn))};
    assert PathNodes(vpn, 2) == PathNodes(vpn, 3) + {Node(2, Prefix(3, vpn))};
    assert PathNodes(vpn, 1) == PathNodes(vpn, 2) + {Node(1, Prefix(2, vpn))};
  }

  lemma LeafKeeps(t: Tree, ix: Index, pages: seq<Page>, all: seq<Page>, table: nat, page: Page)
    requires RemovalsOk(t, ix) && PartOf(ix, pages, all) && |pages| < |all| && page == all[|pages|]
    ensures RemovalsOk(WithLeaf(t, table, page.vpn % 512, page), ix) && PartOf(ix, pages + [page], all)
    ensures WithLeaf(t, table, page.vpn % 512, page) ==
            Tree(t.tables, t.entries + [PlannedEntry(table, page.vpn % 512, PhysicalFrame(page.frame), page.flags)],
              t.removals)
    ensures Prefix(1, page.vpn) == page.vpn
  {
  }

  lemma LeafFlagsOk(p: Permissions, cache: CachePolicy)
    requires KernelPermissions(p)
    ensures LeafFlags(p, cache) == Ok(LeafBits(p, cache))
  {
  }

  lemma PageFacts(e: PlanEntry, j: nat)
    requires EntryOk(e) && j < PageCount(e)
    ensures e.backing.Mapped? && e.permissions.Some? && e.cache.Some? && KernelPermissions(e.permissions.value)
    ensures 0 <= e.virt.start + j * 4096 < 0x1_0000_0000_0000_0000 && IsCanonical(e.virt.start + j * 4096)
    ensures 0 <= e.backing.physical.start + j * 4096 < SUPPORTED_PHYSICAL_END
    ensures var frame := e.backing.physical.start + j * 4096;
      0 <= frame < 0x1_0000_0000_0000_0000 &&
      NewFrame(frame) == if frame == 0 then Err(ZeroPhysicalFrame) else Ok(frame)
    ensures Vpn(e.virt.start + j * 4096) >= 0
    ensures PageOf(e, j) == Page(Vpn(e.virt.start + j * 4096), e.backing.physical.start + j * 4096,
                                 LeafBits(e.permissions.value, e.cache.value))
  {
    hide Vpn, LeafBits, ValidateMappingPolicy;
    EntrySpan(e, j);
    RangeCanonical(e.virt, e.virt.start + j * 4096);
    VpnInjective(e.virt.start + j * 4096, e.virt.start + j * 4096);
  }

  lemma PageIsNew(pages: seq<Page>, all: seq<Page>)
    requires pages <= all && |pages| < |all| && DistinctPages(all)
    ensures FindPage(pages, all[|pages|].vpn) == None
  {
    forall k | 0 <= k < |pages| ensures pages[k].vpn != all[|pages|].vpn { assert all[k].vpn != all[|pages|].vpn; }
    FindPageNone(pages, all[|pages|].vpn);
  }

  lemma NodesSnoc(pages: seq<Page>, p: Page)
    ensures Nodes(pages + [p]) == Nodes(pages) + PageNodes(p.vpn)
  {
    assert (pages + [p])[..|pages|] == pages;
  }

  lemma NextPage(all: seq<Page>, before: seq<Page>, ps: seq<Page>, j: nat)
    requires j < |ps| && before + ps <= all
    ensures |before + ps[..j]| < |all| && all[|before + ps[..j]|] == ps[j]
    ensures before + ps[..j] + [ps[j]] == before + ps[..j + 1]
  {
    assert all[|before| + j] == (before + ps)[|before| + j];
  }

  lemma {:induction false} RootIn(all: seq<Page>)
    ensures Node(4, 0) in Nodes(all) && Nodes([]) <= Nodes(all)
  {
    if all != [] { RootIn(all[..|all| - 1]); }
  }

  lemma RootNeeded(all: seq<Page>)
    ensures forall c: Capacity :: c.tables == 0 ==> !Fits(all, c) && Exhausted(TableCapacityExhausted, all, c)
  {
    RootIn(all);
    SubsetSize({Node(4, 0)}, Nodes(all));
  }

  lemma AllPagesSnoc(s: seq<PlanEntry>, i: nat)
    requires i < |s| && AllOk(s)
    ensures AllOk(s[..i]) && AllOk(s[..i + 1]) && EntryOk(s[i])
    ensures AllPages(s[..i + 1]) == AllPages(s[..i]) + PagesOf(s[i])
  {
    hide EntryOk;
    assert s[..i + 1][..i] == s[..i];
  }

  lemma {:induction false} AllPagesPrefix(s: seq<PlanEntry>, i: nat)
    requires i <= |s| && AllOk(s)
    ensures AllOk(s[..i]) && AllPages(s[..i]) <= AllPages(s)
    decreases |s| - i
  {
    hide EntryOk, PagesOf;
    if i == |s| { assert s[..i] == s; } else { AllPagesSnoc(s, i); AllPagesPrefix(s, i + 1); }
  }

  lemma NextMapping(s: seq<PlanEntry>, mode: PlanMode, i: nat)
    requires i < |s| && PlanOk(s) && ModeOk(s, mode)
    ensures AllOk(s) && AllOk(s[..i]) && AllOk(s[..i + 1]) && EntryOk(s[i])
    ensures AllPages(s[..i + 1]) == AllPages(s[..i]) + PagesOf(s[i])
    ensures AllPages(s[..i]) + PagesOf(s[i]) <= AllPages(s)
    ensures mode == Final ==> !IsLow(s[i]) && s[i].kind != TransitionIdentity
  {
    AllPagesSnoc(s, i);
    AllPagesPrefix(s, i + 1);
  }

  lemma PartZero(s: seq<PlanEntry>, i: nat)
    requires i < |s| && AllOk(s) && AllOk(s[..i]) && EntryOk(s[i])
    requires AllPages(s[..i]) + PagesOf(s[i]) <= AllPages(s)
    ensures !NoZeroFrame(PagesOf(s[i])) ==> !NoZeroFrame(AllPages(s))
  {
    var a, b, all := AllPages(s[..i]), PagesOf(s[i]), AllPages(s);
    if k :| 0 <= k < |b| && b[k].frame == 0 { assert all[|a| + k] == (a + b)[|a| + k]; }
  }

  lemma ZeroFree(s: seq<PlanEntry>, i: nat)
    requires i < |s| && AllOk(s[..i]) && EntryOk(s[i])
    requires NoZeroFrame(AllPages(s[..i])) && NoZeroFrame(PagesOf(s[i]))
    ensures NoZeroFrame(AllPages(s[..i]) + PagesOf(s[i]))
  {
  }

  lemma CountsWhenMinimal(t: Tree, ix: Index, pages: seq<Page>)
    requires TreeOk(t, ix, pages) && RemovalsOk(t, ix) && ix.slots.Keys == Nodes(pages)
    ensures |t.tables| == |Nodes(pages)| && |t.entries| == |Nodes(pages)| - 1 + |pages|
    ensures |t.removals| == |LowRoots(pages)|
  {
    var s := RemovalIndices(t.removals);
    DistinctSize(s);
    forall k ensures k in LowRoots(pages) <==> k in s {
      NodeIsPath(pages, Node(3, k));
      if k in s {
        var j :| 0 <= j < |s| && s[j] == k;
        assert RemovalOk(ix, t.removals[j]);
      }
    }
    assert Elements(s) == LowRoots(pages);
  }

  // ---- removals of a whole plan

  lemma {:induction false} PathMember(pages: seq<Page>, level: nat, key: nat)
    ensures key in Paths(pages, level) <==> exists i | 0 <= i < |pages| :: Prefix(level, pages[i].vpn) == key
  {
    if pages != [] {
      PathMember(pages[..|pages| - 1], level, key);
      if i :| 0 <= i < |pages| && Prefix(level, pages[i].vpn) == key {
        if i < |pages| - 1 { assert pages[..|pages| - 1][i] == pages[i]; }
      }
    }
  }

  lemma {:induction false} PageOrigin(s: seq<PlanEntry>, k: nat) returns (i: nat, j: nat)
    requires AllOk(s) && k < |AllPages(s)|
    ensures i < |s| && j < PageCount(s[i]) && AllPages(s)[k] == PageOf(s[i], j)
  {
    hide EntryOk, PageOf;
    var front := AllPages(s[..|s| - 1]);
    if k < |front| { i, j := PageOrigin(s[..|s| - 1], k); } else { i, j := |s| - 1, k - |front|; }
  }

  lemma {:induction false} PageMember(s: seq<PlanEntry>, i: nat, j: nat) returns (k: nat)
    requires AllOk(s) && i < |s| && j < PageCount(s[i])
    ensures k < |AllPages(s)| && AllPages(s)[k] == PageOf(s[i], j)
  {
    hide EntryOk, PageOf;
    var front := AllPages(s[..|s| - 1]);
    if i < |s| - 1 { k := PageMember(s[..|s| - 1], i, j); } else { k := |front| + j; }
  }

  /** A page belongs to the lower half exactly when its mapping does; a lower-half page lies in root entry 0. */
  lemma PageHalf(e: PlanEntry, j: nat)
    requires EntryOk(e) && j < PageCount(e)
    ensures Prefix(4, PageOf(e, j).vpn) < 256 <==> IsLow(e)
    ensures IsLow(e) ==> Prefix(4, PageOf(e, j).vpn) == 0
  {
    hide Vpn, LeafBits, Prefix;
    EntrySpan(e, j);
    var a := e.virt.start + j * 4096;
    RangeCanonical(e.virt, a);
    VpnInjective(a, a);
    PrefixSteps(Vpn(a));
    if IsLow(e) { VpnLow(a); }
  }

  /** A transitional plan has exactly one removal, of root entry 0. */
  lemma TransitionLowRoots(s: seq<PlanEntry>)
    requires PlanOk(s) && TransitionOk(s)
    ensures LowRoots(AllPages(s)) == {0}
  {
    var all := AllPages(s);
    forall key | key in LowRoots(all) ensures key == 0 {
      PathMember(all, 4, key);
      var k :| 0 <= k < |all| && Prefix(4, all[k].vpn) == key;
      var i, j := PageOrigin(s, k);
      PageHalf(s[i], j);
    }
    var i := CountLowWitness(s, IsTrampoline);
    assert EntryOk(s[i]);
    MappedWhenTransition(s[i]);
    var k := PageMember(s, i, 0);
    PageHalf(s[i], 0);
    PathMember(all, 4, 0);
  }

  /** A final plan has none. */
  lemma FinalLowRoots(s: seq<PlanEntry>)
    requires PlanOk(s) && FinalOk(s)
    ensures LowRoots(AllPages(s)) == {}
  {
    var all := AllPages(s);
    forall key ensures key !in LowRoots(all) {
      PathMember(all, 4, key);
      if k :| 0 <= k < |all| && Prefix(4, all[k].vpn) == key {
        var i, j := PageOrigin(s, k);
        PageHalf(s[i], j);
      }
    }
  }
}
