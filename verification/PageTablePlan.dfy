/** Compiling a mapping plan into an inactive four-level page-table hierarchy. */
module PageTablePlan {
  import opened Prelude
  import opened MappingPlan
  import opened Counting

  const NO_SLOT: nat := 0xffff_ffff
  const ROOT_LEVEL: nat := 4
  const INTERMEDIATE: U64 := 3

  datatype PlanError =
    | Layout(error: LayoutError) | ZeroPhysicalFrame | UnalignedPhysicalFrame | UserMapping | WritableExecutableLeaf
    | InvalidEntryFlags
    | UnsupportedGuardLocation | DuplicateLeaf | IncompatibleRemap | MissingParent
    | TableCapacityExhausted | EntryCapacityExhausted | RemovalCapacityExhausted | FrameSlotOverflow
    | MissingFrameAssignment

  datatype Target = TableSlot(slot: nat) | PhysicalFrame(address: U64)

  datatype PlannedTable = PlannedTable(level: nat, slot: nat, parentSlot: nat, parentIndex: nat)

  datatype PlannedEntry = PlannedEntry(table: nat, index: nat, target: Target, flags: U64)

  datatype Removal = Removal(table: nat, index: nat, expectedTarget: nat, expectedFlags: U64)

  /** The construction records: tables by slot, entries and removals in order of creation. */
  datatype Tree = Tree(tables: seq<PlannedTable>, entries: seq<PlannedEntry>, removals: seq<Removal>)

  const ROOT_TABLE := PlannedTable(ROOT_LEVEL, 0, NO_SLOT, 0)

  /** One 4 KiB page to be mapped: its 36-bit virtual page number, its frame and its leaf flags. */
  datatype Page = Page(vpn: nat, frame: U64, flags: U64)

  /** A place in the hierarchy: the table of this level whose entries share the key as upper part. */
  datatype Node = Node(level: nat, key: nat)

  /** Proof bookkeeping: the key of every table slot and the slot of every node. */
  datatype Index = Index(keys: seq<nat>, slots: map<Node, nat>)

  // ---- addresses

  /** The page number without its lowest level - 1 nine-bit groups. */
  function Prefix(level: nat, vpn: nat): nat {
    if level <= 1 then vpn else Prefix(level - 1, vpn) / 512
  }

  function Vpn(a: int): int { (a % 0x1_0000_0000_0000) / 4096 }

  /** The 9-bit index of an address at a level, as the source shifts and masks it. */
  function AddressIndex(a: int, level: nat): int
    requires 1 <= level <= 4
  {
    if level == 4 then (a / 0x80_0000_0000) % 512
    else if level == 3 then (a / 0x4000_0000) % 512
    else if level == 2 then (a / 0x20_0000) % 512
    else (a / 0x1000) % 512
  }

  lemma AddressIndexIsPrefix(a: U64, level: nat)
    requires 1 <= level <= 4
    ensures Vpn(a) >= 0 && AddressIndex(a, level) == Prefix(level, Vpn(a)) % 512
  {
    var v := Vpn(a);
    PrefixSteps(v);
    DivideSteps(a);
  }

  lemma PrefixSteps(v: nat)
    ensures Prefix(1, v) == v && Prefix(2, v) == v / 512
    ensures Prefix(3, v) == v / 512 / 512 && Prefix(4, v) == v / 512 / 512 / 512
    ensures Prefix(5, v) == v / 512 / 512 / 512 / 512
  {
    assert Prefix(3, v) == Prefix(2, v) / 512;
    assert Prefix(4, v) == Prefix(3, v) / 512;
    assert Prefix(5, v) == Prefix(4, v) / 512;
  }

  lemma DivideSteps(a: U64)
    ensures var v := Vpn(a);
      v >= 0 && (a / 0x1000) % 512 == v % 512 && (a / 0x20_0000) % 512 == v / 512 % 512 &&
      (a / 0x4000_0000) % 512 == v / 512 / 512 % 512 && (a / 0x80_0000_0000) % 512 == v / 512 / 512 / 512 % 512
  {
    var hi, low := a / 0x1_0000_0000_0000, a % 0x1_0000_0000_0000;
    var v := low / 4096;
    var p := a / 4096;
    assert p == hi * 0x10_0000_0000 + v;
    assert a / 0x20_0000 == p / 512;
    assert a / 0x4000_0000 == p / 512 / 512;
    assert a / 0x80_0000_0000 == p / 512 / 512 / 512;
    assert p / 512 == hi * 0x800_0000 + v / 512;
    assert p / 512 / 512 == hi * 0x4_0000 + v / 512 / 512;
    assert p / 512 / 512 / 512 == hi * 512 + v / 512 / 512 / 512;
  }

  // ---- lookups

  /** The first entry recorded for a table and an index. */
  function Lookup(entries: seq<PlannedEntry>, table: nat, index: nat): Option<PlannedEntry> {
    if entries == [] then None
    else if entries[0].table == table && entries[0].index == index then Some(entries[0])
    else Lookup(entries[1..], table, index)
  }

  lemma {:induction false} LookupSnoc(entries: seq<PlannedEntry>, e: PlannedEntry, table: nat, index: nat)
    ensures Lookup(entries + [e], table, index) ==
            if Lookup(entries, table, index).Some? then Lookup(entries, table, index)
            else if e.table == table && e.index == index then Some(e) else None
  {
    if entries == [] {
      assert (entries + [e])[1..] == [];
    } else {
      LookupSnoc(entries[1..], e, table, index);
      assert (entries + [e])[1..] == entries[1..] + [e];
    }
  }

  ghost function FindPage(pages: seq<Page>, vpn: nat): Option<Page> {
    if pages == [] then None
    else if pages[|pages| - 1].vpn == vpn then Some(pages[|pages| - 1])
    else FindPage(pages[..|pages| - 1], vpn)
  }

  lemma FindPageSnoc(pages: seq<Page>, p: Page, vpn: nat)
    ensures FindPage(pages + [p], vpn) == if p.vpn == vpn then Some(p) else FindPage(pages, vpn)
  {
    assert (pages + [p])[..|pages|] == pages;
  }

  lemma {:induction false} FindPageIndex(pages: seq<Page>, vpn: nat) returns (k: nat)
    requires FindPage(pages, vpn).Some?
    ensures k < |pages| && FindPage(pages, vpn) == Some(pages[k]) && pages[k].vpn == vpn
  {
    if pages[|pages| - 1].vpn == vpn { k := |pages| - 1; } else { k := FindPageIndex(pages[..|pages| - 1], vpn); }
  }

  lemma {:induction false} FindPageNone(pages: seq<Page>, vpn: nat)
    requires forall k | 0 <= k < |pages| :: pages[k].vpn != vpn
    ensures FindPage(pages, vpn) == None
  {
    if pages != [] { FindPageNone(pages[..|pages| - 1], vpn); }
  }

  // ---- the tree invariant

  function NodeOf(t: Tree, ix: Index, i: nat): Node
    requires i < |t.tables| == |ix.keys|
  {
    Node(t.tables[i].level, ix.keys[i])
  }

  /** Slot equals index, the parent comes earlier and one level up, and the key extends the parent's. */
  ghost predicate TableOk(t: Tree, ix: Index, i: nat)
    requires i < |t.tables| == |ix.keys|
  {
    var table := t.tables[i];
    table.slot == i && 1 <= table.level <= ROOT_LEVEL &&
    NodeOf(t, ix, i) in ix.slots && ix.slots[NodeOf(t, ix, i)] == i &&
    if i == 0 then table == ROOT_TABLE && ix.keys[0] == 0
    else table.parentSlot < i && table.parentIndex < 512 &&
         t.tables[table.parentSlot].level == table.level + 1 &&
         ix.keys[i] == ix.keys[table.parentSlot] * 512 + table.parentIndex
  }

  ghost predicate TablesOk(t: Tree, ix: Index) {
    1 <= |t.tables| == |ix.keys| == |ix.slots| &&
    (forall i | 0 <= i < |t.tables| :: TableOk(t, ix, i)) &&
    forall n | n in ix.slots :: ix.slots[n] < |t.tables| && NodeOf(t, ix, ix.slots[n]) == n
  }

  function ChildEntry(t: Tree, c: nat): PlannedEntry
    requires c < |t.tables|
  {
    PlannedEntry(t.tables[c].parentSlot, t.tables[c].parentIndex, TableSlot(c), INTERMEDIATE)
  }

  function LeafEntry(table: nat, index: nat, page: Option<Page>): Option<PlannedEntry> {
    if page.None? then None else Some(PlannedEntry(table, index, PhysicalFrame(page.value.frame), page.value.flags))
  }

  /** What the record for one table and index may be: a leaf of a mapped page in a PT, else a child table. */
  ghost predicate EntryAt(t: Tree, ix: Index, pages: seq<Page>, table: nat, index: nat)
    requires |t.tables| == |ix.keys|
  {
    var e := Lookup(t.entries, table, index);
    if table >= |t.tables| || index >= 512 then e == None
    else if t.tables[table].level == 1 then e == LeafEntry(table, index, FindPage(pages, ix.keys[table] * 512 + index))
    else e.Some? ==> e.value.target.TableSlot? && 0 < e.value.target.slot < |t.tables| &&
                     e.value == ChildEntry(t, e.value.target.slot) && e.value.table == table && e.value.index == index
  }

  ghost predicate EntriesOk(t: Tree, ix: Index, pages: seq<Page>)
    requires |t.tables| == |ix.keys|
  {
    (forall table: nat, index: nat :: EntryAt(t, ix, pages, table, index)) &&
    forall c | 0 < c < |t.tables| ::
      Lookup(t.entries, t.tables[c].parentSlot, t.tables[c].parentIndex) == Some(ChildEntry(t, c))
  }

  /** Every page lies under a PT of the tree. */
  ghost predicate PagesPlaced(ix: Index, pages: seq<Page>) {
    forall k | 0 <= k < |pages| :: Node(1, Prefix(2, pages[k].vpn)) in ix.slots
  }

  ghost predicate TreeOk(t: Tree, ix: Index, pages: seq<Page>) {
    TablesOk(t, ix) && EntriesOk(t, ix, pages) && PagesPlaced(ix, pages) && |t.entries| == |t.tables| - 1 + |pages|
  }

  lemma RootOnly(t: Tree, ix: Index, i: nat)
    requires TablesOk(t, ix) && i < |t.tables|
    ensures i > 0 ==> t.tables[i].level < ROOT_LEVEL
  {
    assert TableOk(t, ix, i);
    if i > 0 { assert TableOk(t, ix, t.tables[i].parentSlot); }
  }

  /** Every node below the root hangs off the node one level up, through the entry its key names. */
  lemma NodeLinked(t: Tree, ix: Index, pages: seq<Page>, n: Node)
    requires TreeOk(t, ix, pages) && n in ix.slots && n.level < ROOT_LEVEL
    ensures Node(n.level + 1, n.key / 512) in ix.slots
    ensures var up := ix.slots[Node(n.level + 1, n.key / 512)];
      Lookup(t.entries, up, n.key % 512) == Some(PlannedEntry(up, n.key % 512, TableSlot(ix.slots[n]), INTERMEDIATE))
  {
    var i := ix.slots[n];
    assert TableOk(t, ix, 0) && TableOk(t, ix, i);
    var q := t.tables[i].parentSlot;
    assert TableOk(t, ix, q);
    assert NodeOf(t, ix, i) == n && NodeOf(t, ix, q) == Node(n.level + 1, n.key / 512);
  }

  /** A place without an entry has no table yet. */
  lemma NodeFresh(t: Tree, ix: Index, pages: seq<Page>, p: nat, index: nat)
    requires TreeOk(t, ix, pages) && p < |t.tables| && index < 512 && Lookup(t.entries, p, index) == None
    requires t.tables[p].level > 1
    ensures Node(t.tables[p].level - 1, ix.keys[p] * 512 + index) !in ix.slots
  {
    hide EntriesOk, PagesPlaced, Lookup;
    var n := Node(t.tables[p].level - 1, ix.keys[p] * 512 + index);
    if n in ix.slots {
      assert TableOk(t, ix, p);
      NodeLinked(t, ix, pages, n);
    }
  }

  // ---- growing the tree

  function WithChild(t: Tree, p: nat, index: nat): Tree
    requires p < |t.tables| && t.tables[p].level > 1
  {
    var c := |t.tables|;
    t.(tables := t.tables + [PlannedTable(t.tables[p].level - 1, c, p, index)],
       entries := t.entries + [PlannedEntry(p, index, TableSlot(c), INTERMEDIATE)])
  }

  function ChildNode(t: Tree, ix: Index, p: nat, index: nat): Node
    requires p < |t.tables| == |ix.keys| && t.tables[p].level > 1
  {
    Node(t.tables[p].level - 1, ix.keys[p] * 512 + index)
  }

  function IndexWithChild(t: Tree, ix: Index, p: nat, index: nat): Index
    requires p < |t.tables| == |ix.keys| && t.tables[p].level > 1
  {
    var n := ChildNode(t, ix, p, index);
    Index(ix.keys + [n.key], ix.slots[n := |t.tables|])
  }

  lemma ChildTablesOk(t: Tree, ix: Index, p: nat, index: nat)
    requires TablesOk(t, ix) && p < |t.tables| && t.tables[p].level > 1 && index < 512
    requires ChildNode(t, ix, p, index) !in ix.slots
    ensures TablesOk(WithChild(t, p, index), IndexWithChild(t, ix, p, index))
  {
    var t', ix' := WithChild(t, p, index), IndexWithChild(t, ix, p, index);
    var n := ChildNode(t, ix, p, index);
    assert TableOk(t, ix, p);
    forall i | 0 <= i < |t'.tables| ensures TableOk(t', ix', i) {
      if i < |t.tables| { assert TableOk(t, ix, i); }
    }
    assert ix'.slots.Keys == ix.slots.Keys + {n};
    assert |ix'.slots| == |ix.slots.Keys + {n}|;
  }

  lemma ChildEntryOld(t: Tree, ix: Index, pages: seq<Page>, p: nat, index: nat, table: nat, i: nat)
    requires |t.tables| == |ix.keys| && EntryAt(t, ix, pages, table, i) && p < |t.tables| && t.tables[p].level > 1 &&
      index < 512
    requires Lookup(t.entries, p, index) == None && table < |t.tables|
    ensures EntryAt(WithChild(t, p, index), IndexWithChild(t, ix, p, index), pages, table, i)
  {
    hide Lookup, FindPage, ChildNode;
    var t', ix' := WithChild(t, p, index), IndexWithChild(t, ix, p, index);
    LookupSnoc(t.entries, PlannedEntry(p, index, TableSlot(|t.tables|), INTERMEDIATE), table, i);
    assert t'.tables[table] == t.tables[table] && ix'.keys[table] == ix.keys[table];
    if Lookup(t.entries, table, i).Some? && Lookup(t.entries, table, i).value.target.TableSlot? {
      assert Lookup(t'.entries, table, i) == Lookup(t.entries, table, i);
    }
  }

  lemma ChildEntryNew(t: Tree, ix: Index, pages: seq<Page>, p: nat, index: nat, table: nat, i: nat)
    requires |t.tables| == |ix.keys| && EntryAt(t, ix, pages, table, i) && p < |t.tables| && t.tables[p].level > 1 &&
      index < 512
    requires PagesPlaced(ix, pages) && ChildNode(t, ix, p, index) !in ix.slots && table >= |t.tables|
    ensures EntryAt(WithChild(t, p, index), IndexWithChild(t, ix, p, index), pages, table, i)
  {
    hide PagesPlaced, Lookup, FindPage;
    LookupSnoc(t.entries, PlannedEntry(p, index, TableSlot(|t.tables|), INTERMEDIATE), table, i);
    if table == |t.tables| && t.tables[p].level == 2 && i < 512 {
      NoPageUnder(ix, pages, ChildNode(t, ix, p, index).key, i);
    }
  }

  lemma NoPageUnder(ix: Index, pages: seq<Page>, key: nat, i: nat)
    requires PagesPlaced(ix, pages) && Node(1, key) !in ix.slots && i < 512
    ensures FindPage(pages, key * 512 + i) == None
  {
    forall k | 0 <= k < |pages| ensures pages[k].vpn != key * 512 + i {
      assert Node(1, Prefix(2, pages[k].vpn)) in ix.slots;
      assert Prefix(2, pages[k].vpn) == Prefix(1, pages[k].vpn) / 512;
    }
    FindPageNone(pages, key * 512 + i);
  }

  /** Adding a table and its parent entry at a free place keeps the tree. */
  lemma AddChild(t: Tree, ix: Index, pages: seq<Page>, p: nat, index: nat)
    requires TreeOk(t, ix, pages) && p < |t.tables| && t.tables[p].level > 1 && index < 512
    requires Lookup(t.entries, p, index) == None
    ensures ChildNode(t, ix, p, index) !in ix.slots
    ensures TreeOk(WithChild(t, p, index), IndexWithChild(t, ix, p, index), pages)
  {
    NodeFresh(t, ix, pages, p, index);
    ChildTablesOk(t, ix, p, index);
    var t', ix' := WithChild(t, p, index), IndexWithChild(t, ix, p, index);
    hide TableOk, EntryAt, Lookup;
    forall table: nat, i: nat ensures EntryAt(t', ix', pages, table, i) {
      if table < |t.tables| { ChildEntryOld(t, ix, pages, p, index, table, i); }
      else { ChildEntryNew(t, ix, pages, p, index, table, i); }
    }
    forall c | 0 < c < |t'.tables|
      ensures Lookup(t'.entries, t'.tables[c].parentSlot, t'.tables[c].parentIndex) == Some(ChildEntry(t', c)) {
      ChildLinked(t, ix, pages, p, index, c);
    }
  }

  lemma ChildLinked(t: Tree, ix: Index, pages: seq<Page>, p: nat, index: nat, c: nat)
    requires |t.tables| == |ix.keys| && EntriesOk(t, ix, pages) && p < |t.tables| && t.tables[p].level > 1
    requires Lookup(t.entries, p, index) == None && 0 < c <= |t.tables|
    ensures var t' := WithChild(t, p, index);
      Lookup(t'.entries, t'.tables[c].parentSlot, t'.tables[c].parentIndex) == Some(ChildEntry(t', c))
  {
    hide EntryAt, Lookup;
    var t' := WithChild(t, p, index);
    LookupSnoc(t.entries, PlannedEntry(p, index, TableSlot(|t.tables|), INTERMEDIATE),
               t'.tables[c].parentSlot, t'.tables[c].parentIndex);
    if c < |t.tables| { assert t'.tables[c] == t.tables[c]; }
  }

  function WithLeaf(t: Tree, table: nat, index: nat, page: Page): Tree {
    t.(entries := t.entries + [PlannedEntry(table, index, PhysicalFrame(page.frame), page.flags)])
  }

  lemma SameTable(t: Tree, ix: Index, a: nat, b: nat)
    requires TablesOk(t, ix) && a < |t.tables| && b < |t.tables|
    requires t.tables[a].level == t.tables[b].level && ix.keys[a] == ix.keys[b]
    ensures a == b
  {
    assert TableOk(t, ix, a) && TableOk(t, ix, b);
  }

  /** Adding the leaf of a page not yet mapped keeps the tree. */
  lemma AddLeaf(t: Tree, ix: Index, pages: seq<Page>, table: nat, page: Page)
    requires TreeOk(t, ix, pages) && table < |t.tables| && t.tables[table].level == 1
    requires ix.keys[table] == page.vpn / 512 && FindPage(pages, page.vpn) == None
    ensures Lookup(t.entries, table, page.vpn % 512) == None
    ensures TreeOk(WithLeaf(t, table, page.vpn % 512, page), ix, pages + [page])
  {
    var index := page.vpn % 512;
    var t', pages' := WithLeaf(t, table, index, page), pages + [page];
    assert EntryAt(t, ix, pages, table, index);
    forall u: nat, i: nat ensures EntryAt(t', ix, pages', u, i) { LeafEntryAt(t, ix, pages, table, page, u, i); }
    assert TablesOk(t', ix) by {
      forall i | 0 <= i < |t'.tables| ensures TableOk(t', ix, i) { assert TableOk(t, ix, i); }
    }
    assert PagesPlaced(ix, pages') by { PlaceLeaf(t, ix, pages, table, page); }
    forall c | 0 < c < |t'.tables|
      ensures Lookup(t'.entries, t'.tables[c].parentSlot, t'.tables[c].parentIndex) == Some(ChildEntry(t', c)) {
      LookupSnoc(t.entries, PlannedEntry(table, index, PhysicalFrame(page.frame), page.flags),
                 t'.tables[c].parentSlot, t'.tables[c].parentIndex);
    }
  }

  lemma PlaceLeaf(t: Tree, ix: Index, pages: seq<Page>, table: nat, page: Page)
    requires TreeOk(t, ix, pages) && table < |t.tables| && t.tables[table].level == 1 &&
      ix.keys[table] == page.vpn / 512
    ensures PagesPlaced(ix, pages + [page])
  {
    assert TableOk(t, ix, table);
    assert Prefix(2, page.vpn) == Prefix(1, page.vpn) / 512;
  }

  lemma LeafEntryAt(t: Tree, ix: Index, pages: seq<Page>, table: nat, page: Page, u: nat, i: nat)
    requires TreeOk(t, ix, pages) && table < |t.tables| && t.tables[table].level == 1
    requires ix.keys[table] == page.vpn / 512 && FindPage(pages, page.vpn) == None
    ensures EntryAt(WithLeaf(t, table, page.vpn % 512, page), ix, pages + [page], u, i)
  {
    var index := page.vpn % 512;
    assert EntryAt(t, ix, pages, table, index) && EntryAt(t, ix, pages, u, i);
    LookupSnoc(t.entries, PlannedEntry(table, index, PhysicalFrame(page.frame), page.flags), u, i);
    if u < |t.tables| && i < 512 {
      FindPageSnoc(pages, page, ix.keys[u] * 512 + i);
      if t.tables[u].level == 1 && ix.keys[u] * 512 + i == page.vpn { SameTable(t, ix, u, table); }
    }
  }

  // ---- the size of the tree

  ghost predicate KeyBounded(level: nat, key: nat) {
    (level == 4 ==> key < 1) && (level == 3 ==> key < 512) && (level == 2 ==> key < 0x4_0000) &&
    (level == 1 ==> key < 0x800_0000)
  }

  lemma {:induction false} KeysBounded(t: Tree, ix: Index, i: nat)
    requires TablesOk(t, ix) && i < |t.tables|
    ensures KeyBounded(t.tables[i].level, ix.keys[i])
  {
    assert TableOk(t, ix, i);
    if i > 0 {
      var q := t.tables[i].parentSlot;
      assert TableOk(t, ix, q);
      KeysBounded(t, ix, q);
    }
  }

  /** Slots stay far below both the 32-bit limit and the sentinel, whatever the capacity. */
  lemma TableCountBounded(t: Tree, ix: Index)
    requires TablesOk(t, ix)
    ensures |t.tables| <= 0x4000_0000
  {
    var codes := seq(|t.tables|, i requires 0 <= i < |t.tables| == |ix.keys| => t.tables[i].level * 0x800_0000 +
      ix.keys[i]);
    forall i | 0 <= i < |codes| ensures 0 <= codes[i] < 0x4000_0000 {
      KeysBounded(t, ix, i);
      assert TableOk(t, ix, i);
    }
    forall i, j | 0 <= i < j < |codes| ensures codes[i] != codes[j] {
      KeysBounded(t, ix, i);
      KeysBounded(t, ix, j);
      assert TableOk(t, ix, i) && TableOk(t, ix, j);
      if t.tables[i].level == t.tables[j].level && ix.keys[i] == ix.keys[j] { SameTable(t, ix, i, j); }
    }
    DistinctBounded(codes, 0x4000_0000);
  }

  ghost function PageNodes(vpn: nat): set<Node> {
    {Node(4, 0), Node(3, Prefix(4, vpn)), Node(2, Prefix(3, vpn)), Node(1, Prefix(2, vpn))}
  }

  /** The nodes any hierarchy for these pages must have. */
  ghost function Nodes(pages: seq<Page>): set<Node> {
    if pages == [] then {Node(4, 0)} else Nodes(pages[..|pages| - 1]) + PageNodes(pages[|pages| - 1].vpn)
  }

  ghost function Paths(pages: seq<Page>, level: nat): set<nat> {
    if pages == [] then {} else Paths(pages[..|pages| - 1], level) + {Prefix(level, pages[|pages| - 1].vpn)}
  }

  lemma {:induction false} NodeIsPath(pages: seq<Page>, n: Node)
    ensures n in Nodes(pages) <==> n == Node(4, 0) || (1 <= n.level <= 3 && n.key in Paths(pages, n.level + 1))
  {
    if pages != [] { NodeIsPath(pages[..|pages| - 1], n); }
  }

  lemma {:induction false} PathsWithin(pages: seq<Page>, level: nat, s: set<nat>)
    requires forall k | 0 <= k < |pages| :: Prefix(level, pages[k].vpn) in s
    ensures Paths(pages, level) <= s
  {
    hide Prefix;
    if pages != [] { PathsWithin(pages[..|pages| - 1], level, s); }
  }

  /** One root and one table for every distinct PML4, PDPT and PD path. */
  lemma {:induction false} NodesCounted(pages: seq<Page>)
    ensures |Nodes(pages)| == 1 + |Paths(pages, 4)| + |Paths(pages, 3)| + |Paths(pages, 2)|
  {
    if pages != [] {
      var front, v := pages[..|pages| - 1], pages[|pages| - 1].vpn;
      NodesCounted(front);
      var a, b, c := Node(3, Prefix(4, v)), Node(2, Prefix(3, v)), Node(1, Prefix(2, v));
      NodeIsPath(front, a);
      NodeIsPath(front, b);
      NodeIsPath(front, c);
      NodeIsPath(front, Node(4, 0));
      assert Nodes(pages) == Nodes(front) + {a} + {b} + {c};
      AddSize(Nodes(front), a);
      AddSize(Nodes(front) + {a}, b);
      AddSize(Nodes(front) + {a} + {b}, c);
      AddSize(Paths(front, 4), Prefix(4, v));
      AddSize(Paths(front, 3), Prefix(3, v));
      AddSize(Paths(front, 2), Prefix(2, v));
    }
  }

  lemma {:induction false} PageNodesIn(pages: seq<Page>, k: nat)
    requires k < |pages|
    ensures PageNodes(pages[k].vpn) <= Nodes(pages)
  {
    if k < |pages| - 1 { PageNodesIn(pages[..|pages| - 1], k); }
  }

  // ---- the walk through the records

  /** Follows child tables down to the PT for a page number. */
  function Descend(entries: seq<PlannedEntry>, vpn: nat, level: nat, slot: nat): Option<nat> {
    if level <= 1 then Some(slot)
    else match Lookup(entries, slot, Prefix(level, vpn) % 512)
      case Some(PlannedEntry(_, _, TableSlot(child), _)) => Descend(entries, vpn, level - 1, child)
      case _ => None
  }

  function LeafFor(entries: seq<PlannedEntry>, vpn: nat): Option<PlannedEntry> {
    match Descend(entries, vpn, ROOT_LEVEL, 0)
    case None => None
    case Some(slot) =>
      match Lookup(entries, slot, vpn % 512)
      case Some(e) => if e.target.PhysicalFrame? then Some(e) else None
      case None => None
  }

  lemma {:induction false} AncestorsPresent(t: Tree, ix: Index, pages: seq<Page>, vpn: nat, level: nat)
    requires TreeOk(t, ix, pages) && Node(1, Prefix(2, vpn)) in ix.slots && 1 <= level <= 4
    ensures Node(level, Prefix(level + 1, vpn)) in ix.slots
  {
    if level > 1 {
      AncestorsPresent(t, ix, pages, vpn, level - 1);
      NodeLinked(t, ix, pages, Node(level - 1, Prefix(level, vpn)));
    }
  }

  /** From a table on the path, the descent finds the PT of the page number if the tree has one. */
  lemma {:induction false} DescendExact(t: Tree, ix: Index, pages: seq<Page>, vpn: nat, level: nat, slot: nat)
    requires TreeOk(t, ix, pages) && 1 <= level <= 4 && slot < |t.tables|
    requires t.tables[slot].level == level && ix.keys[slot] == Prefix(level + 1, vpn)
    ensures Descend(t.entries, vpn, level, slot) ==
            if Node(1, Prefix(2, vpn)) in ix.slots then Some(ix.slots[Node(1, Prefix(2, vpn))]) else None
  {
    hide Lookup, FindPage;
    assert TableOk(t, ix, slot);
    if level > 1 {
      var index := Prefix(level, vpn) % 512;
      assert Prefix(level, vpn) == Prefix(level + 1, vpn) * 512 + index;
      assert EntryAt(t, ix, pages, slot, index);
      match Lookup(t.entries, slot, index)
      case None =>
        NodeFresh(t, ix, pages, slot, index);
        if Node(1, Prefix(2, vpn)) in ix.slots { AncestorsPresent(t, ix, pages, vpn, level - 1); }
      case Some(e) =>
        assert TableOk(t, ix, e.target.slot);
        DescendExact(t, ix, pages, vpn, level - 1, e.target.slot);
    }
  }

  /** The compiled records map exactly the pages, each to its frame with its flags. */
  lemma LeafForExact(t: Tree, ix: Index, pages: seq<Page>, vpn: nat)
    requires TreeOk(t, ix, pages) && vpn < 0x10_0000_0000
    ensures LeafFor(t.entries, vpn).Some? <==> FindPage(pages, vpn).Some?
    ensures FindPage(pages, vpn).Some? ==>
              Node(1, Prefix(2, vpn)) in ix.slots &&
              LeafFor(t.entries, vpn) == LeafEntry(ix.slots[Node(1, Prefix(2, vpn))], vpn % 512, FindPage(pages, vpn))
  {
    hide Lookup, Descend;
    PrefixSteps(vpn);
    assert TableOk(t, ix, 0);
    DescendExact(t, ix, pages, vpn, 4, 0);
    if Node(1, Prefix(2, vpn)) in ix.slots {
      var slot := ix.slots[Node(1, Prefix(2, vpn))];
      assert NodeOf(t, ix, slot) == Node(1, vpn / 512);
      assert EntryAt(t, ix, pages, slot, vpn % 512);
    } else if FindPage(pages, vpn).Some? {
      var k := FindPageIndex(pages, vpn);
    }
  }

  // ---- removals

  function RemovalIndices(rs: seq<Removal>): (s: seq<nat>)
    ensures |s| == |rs| && forall k | 0 <= k < |s| :: s[k] == rs[k].index
  {
    seq(|rs|, k requires 0 <= k < |rs| => rs[k].index)
  }

  ghost predicate RemovalOk(ix: Index, r: Removal) {
    r.index < 256 && Node(3, r.index) in ix.slots && r == Removal(0, r.index, ix.slots[Node(3, r.index)], INTERMEDIATE)
  }

  /** The removals are the lower-half children of the root, each once. */
  ghost predicate RemovalsOk(t: Tree, ix: Index) {
    (forall k | 0 <= k < |t.removals| :: RemovalOk(ix, t.removals[k])) && Distinct(RemovalIndices(t.removals)) &&
    forall key | Node(3, key) in ix.slots && key < 256 :: key in RemovalIndices(t.removals)
  }

  ghost function LowRoots(pages: seq<Page>): set<nat> { set k | k in Paths(pages, 4) && k < 256 }

  /** A child elsewhere than in the lower half of the root needs no removal. */
  lemma RemovalsKept(t: Tree, ix: Index, p: nat, index: nat)
    requires TablesOk(t, ix) && RemovalsOk(t, ix) && p < |t.tables| && t.tables[p].level > 1 && index < 512
    requires ChildNode(t, ix, p, index) !in ix.slots && (t.tables[p].level < 4 || index >= 256)
    ensures RemovalsOk(WithChild(t, p, index), IndexWithChild(t, ix, p, index))
  {
    var t', ix' := WithChild(t, p, index), IndexWithChild(t, ix, p, index);
    RootOnly(t, ix, p);
    assert TableOk(t, ix, 0);
    forall k | 0 <= k < |t'.removals| ensures RemovalOk(ix', t'.removals[k]) { assert RemovalOk(ix, t.removals[k]); }
  }

  lemma RemovalAdded(t: Tree, ix: Index, index: nat)
    requires TablesOk(t, ix) && RemovalsOk(t, ix) && t.tables[0].level == 4 && index < 256
    requires ix.keys[0] == 0 && Node(3, index) !in ix.slots
    ensures var r := Removal(0, index, |t.tables|, INTERMEDIATE); var t' := WithChild(t, 0, index);
      RemovalsOk(t'.(removals := t.removals + [r]), IndexWithChild(t, ix, 0, index))
  {
    var r := Removal(0, index, |t.tables|, INTERMEDIATE);
    var rs, ix' := t.removals + [r], IndexWithChild(t, ix, 0, index);
    forall k | 0 <= k < |rs| ensures RemovalOk(ix', rs[k]) {
      if k < |t.removals| { assert RemovalOk(ix, t.removals[k]); }
    }
    assert RemovalIndices(rs) == RemovalIndices(t.removals) + [index];
    forall k | 0 <= k < |t.removals| ensures t.removals[k].index != index { assert RemovalOk(ix, t.removals[k]); }
  }

  // ---- why capacity runs out

  datatype Capacity = Capacity(tables: nat, entries: nat, removals: nat)

  /** The records for these pages fit: one table per node, one entry per table but the root and per page. */
  ghost predicate Fits(all: seq<Page>, cap: Capacity) {
    |Nodes(all)| <= cap.tables && |Nodes(all)| - 1 + |all| <= cap.entries && |LowRoots(all)| <= cap.removals
  }

  /** The error names a capacity that these pages exceed. */
  ghost predicate Exhausted(e: PlanError, all: seq<Page>, cap: Capacity) {
    match e
    case TableCapacityExhausted => |Nodes(all)| > cap.tables
    case EntryCapacityExhausted => |Nodes(all)| - 1 + |all| > cap.entries
    case RemovalCapacityExhausted => |LowRoots(all)| > cap.removals
    case _ => false
  }

  ghost predicate PartOf(ix: Index, pages: seq<Page>, all: seq<Page>) {
    pages <= all && ix.slots.Keys <= Nodes(all)
  }

  lemma ChildNeedsRoom(t: Tree, ix: Index, pages: seq<Page>, all: seq<Page>, n: Node)
    requires TreeOk(t, ix, pages) && PartOf(ix, pages, all) && |pages| < |all| && n in Nodes(all) && n !in ix.slots
    ensures |t.tables| + 1 <= |Nodes(all)| && |t.entries| + 2 <= |Nodes(all)| - 1 + |all|
    ensures ix.slots.Keys + {n} <= Nodes(all)
  {
    hide EntriesOk, TableOk, Nodes;
    SubsetSize(ix.slots.Keys + {n}, Nodes(all));
    AddSize(ix.slots.Keys, n);
  }

  lemma LeafNeedsRoom(t: Tree, ix: Index, pages: seq<Page>, all: seq<Page>)
    requires TreeOk(t, ix, pages) && PartOf(ix, pages, all) && |pages| < |all|
    ensures |t.entries| + 1 <= |Nodes(all)| - 1 + |all|
  {
    hide EntriesOk, TableOk, Nodes;
    SubsetSize(ix.slots.Keys, Nodes(all));
  }

  lemma RemovalNeedsRoom(t: Tree, ix: Index, pages: seq<Page>, all: seq<Page>, index: nat)
    requires RemovalsOk(t, ix) && PartOf(ix, pages, all) && index < 256
    requires Node(3, index) in Nodes(all) && Node(3, index) !in ix.slots
    ensures |t.removals| + 1 <= |LowRoots(all)|
  {
    var s := RemovalIndices(t.removals);
    DistinctSize(s);
    NodeIsPath(all, Node(3, index));
    forall k | k in s ensures k in LowRoots(all) && k != index {
      var j :| 0 <= j < |s| && s[j] == k;
      assert RemovalOk(ix, t.removals[j]);
      NodeIsPath(all, Node(3, k));
    }
    assert Elements(s) + {index} <= LowRoots(all);
    SubsetSize(Elements(s) + {index}, LowRoots(all));
    AddSize(Elements(s), index);
  }
}
