/** The independent read-back of a hierarchy before it is trusted. */
module PageTableVerifier {
  import opened Prelude
  import opened MappingPlan
  import opened PageTablePlan
  import opened PageTableBuilder
  import opened Paging
  import opened PageTables

  /** The checks on a non-zero word that do not depend on its position. */
  predicate BitsOk(w: U64, expected: Option<PlannedEntry>) {
    Present(w) && !StrayBits(w) && EntryAddress(w) < SUPPORTED_PHYSICAL_END &&
    !(expected.Some? && expected.value.target.PhysicalFrame? && WritableBit(w) && !NoExecuteBit(w))
  }

  function FramePosition(frames: seq<int>, address: int): (r: Option<nat>)
    ensures r.Some? ==> r.value < |frames| && frames[r.value] == address
    ensures r.None? ==> address !in frames
  {
    if frames == [] then None
    else if frames[0] == address then Some(0)
    else match FramePosition(frames[1..], address) { case None => None case Some(k) => Some(k + 1) }
  }

  /** A planned word passes every check made on a non-zero word. */
  lemma PlannedWordPasses(t: Tree, ix: Index, pages: seq<Page>, frames: seq<int>, slot: nat, index: nat)
    requires Placed(t, ix, pages, frames) && slot < |frames| && index < 512
    ensures var e := Lookup(t.entries, slot, index); var w := ExpectedWord(t.entries, frames, slot, index);
      e.Some? ==>
      0 < w < 0x1_0000_0000_0000_0000 && BitsOk(w, e) && EncodedValue(e.value, frames) == Ok(w) &&
      (e.value.target.TableSlot? ==> FramePosition(frames, EntryAddress(w)) == Some(e.value.target.slot))
  {
    hide Lookup, FindPage, BitsOk, ExpectedWord, FramePosition;
    EntryEncodes(t, ix, pages, frames, slot, index);
    assert EntryAt(t, ix, pages, slot, index);
    match Lookup(t.entries, slot, index)
    case None =>
    case Some(e) =>
      match e.target
      case TableSlot(c) => ChildWordOk(frames, c, e);
      case PhysicalFrame(address) =>
        FoundEncodable(pages, ix.keys[slot] * 512 + index);
        LeafWordOk(address, e);
  }

  lemma ChildWordOk(frames: seq<int>, c: nat, e: PlannedEntry)
    requires FramesOk(frames) && c < |frames| && e.target.TableSlot? && e.flags == INTERMEDIATE
    ensures var w := frames[c] + INTERMEDIATE;
      0 < w < 0x1_0000_0000_0000_0000 && BitsOk(w, Some(e)) && FramePosition(frames, EntryAddress(w)) == Some(c)
  {
    hide WritableBit, NoExecuteBit;
    ChildWord(frames[c], Rights(true, true, true));
    DecodeWord(frames[c], INTERMEDIATE);
    assert 3 % 4096 == 3;
  }

  lemma LeafWordOk(address: int, e: PlannedEntry)
    requires FrameForm(address) && LeafFlagForm(e.flags) && e.target == PhysicalFrame(address)
    ensures 0 < address + e.flags < 0x1_0000_0000_0000_0000 && BitsOk(address + e.flags, Some(e))
  {
    hide StrayBits, WritableBit, NoExecuteBit;
    DecodeWord(address, e.flags);
  }

  // ---- ancestry

  ghost predicate ParentsBefore(tables: seq<PlannedTable>) {
    |tables| > 0 && tables[0].parentSlot == NO_SLOT &&
    forall i | 0 < i < |tables| :: tables[i].parentSlot < i && tables[i].parentSlot != NO_SLOT
  }

  ghost predicate Ancestor(tables: seq<PlannedTable>, candidate: nat, slot: nat)
    requires ParentsBefore(tables) && slot < |tables|
    decreases slot
  {
    slot > 0 && (tables[slot].parentSlot == candidate || Ancestor(tables, candidate, tables[slot].parentSlot))
  }

  method IsAncestor(tables: seq<PlannedTable>, candidate: nat, slot: nat) returns (r: bool)
    requires ParentsBefore(tables) && slot < |tables|
    ensures r == Ancestor(tables, candidate, slot)
  {
    var at: nat := slot;
    while tables[at].parentSlot != NO_SLOT
      invariant at < |tables| && Ancestor(tables, candidate, slot) == Ancestor(tables, candidate, at)
      decreases at
    {
      if tables[at].parentSlot == candidate { return true; }
      at := tables[at].parentSlot;
    }
    return false;
  }

  lemma TreeParentsBefore(t: Tree, ix: Index)
    requires TablesOk(t, ix)
    ensures ParentsBefore(t.tables)
  {
    TableCountBounded(t, ix);
    assert TableOk(t, ix, 0);
    forall i | 0 < i < |t.tables| ensures t.tables[i].parentSlot < i && t.tables[i].parentSlot != NO_SLOT {
      assert TableOk(t, ix, i);
    }
  }

  // ---- one word

  /** The word is the planned one, or is zero where a child table was planned. */
  ghost predicate EntryAccepted(m: Words, entries: seq<PlannedEntry>, frames: seq<int>, slot: nat, index: nat)
    requires slot < |frames|
  {
    var w := WordAt(m, frames[slot], index);
    w == ExpectedWord(entries, frames, slot, index) ||
    (w == 0 && Lookup(entries, slot, index).Some? && Lookup(entries, slot, index).value.target.TableSlot?)
  }

  /** The child a non-zero word marks as reached. */
  ghost function Marked(m: Words, entries: seq<PlannedEntry>, frames: seq<int>, slot: nat, index: nat): Option<nat>
    requires slot < |frames|
  {
    match Lookup(entries, slot, index)
    case Some(PlannedEntry(_, _, TableSlot(c), _)) => if WordAt(m, frames[slot], index) != 0 then Some(c) else None
    case _ => None
  }

  /** Why a non-zero word in place of a child pointer is not that child's. */
  method ChildMismatch(tables: seq<PlannedTable>, slot: nat, index: nat, child: nat) returns (e: VerificationError)
    requires ParentsBefore(tables) && slot < |tables| && child < |tables|
    ensures e == if child == slot || Ancestor(tables, child, slot) then Cycle(slot, index)
                 else if tables[child].level + 1 != tables[slot].level then
                   WrongTableLevel(slot, index) else WrongChild(slot, index)
  {
    if child == slot { return Cycle(slot, index); }
    var above := IsAncestor(tables, child, slot);
    if above { return Cycle(slot, index); }
    if tables[child].level + 1 != tables[slot].level { return WrongTableLevel(slot, index); }
    return WrongChild(slot, index);
  }

  /** Checks the child a word points at; an acceptable child is marked as reached. */
  method CheckChild(plan: ConstructionPlan, frames: seq<int>, slot: nat, index: nat, w: U64, expected: nat,
                    reachable: array<bool>)
    returns (r: Result<(), VerificationError>)
    requires Assigned(plan, frames) && slot < |frames| && index < 512 && reachable.Length >= |frames|
    requires Lookup(plan.entries, slot, index) == Some(PlannedEntry(slot, index, TableSlot(expected), INTERMEDIATE))
    modifies reachable
    ensures r.Ok? <==> FramePosition(frames, EntryAddress(w)) == Some(expected)
    ensures r.Err? ==> !r.error.Access?
    ensures r.Ok? ==> expected < |frames| && reachable[..] == old(reachable[..])[expected := true]
  {
    hide *;
    AssignedMeans(plan, frames);
    PlannedChild(plan.View(), plan.index, plan.pages, slot, index);
    match FramePosition(frames, EntryAddress(w))
    case None => return Err(UnownedChild(slot, index));
    case Some(child) =>
      if child != expected {
        var e := ChildMismatch(plan.tables, slot, index, child);
        return Err(e);
      }
      if plan.tables[child].level + 1 != plan.tables[slot].level { return Err(WrongTableLevel(slot, index)); }
      reachable[child] := true;
      return Ok(());
  }

  lemma PlannedChild(t: Tree, ix: Index, pages: seq<Page>, slot: nat, index: nat)
    requires TreeOk(t, ix, pages) && slot < |t.tables| && index < 512
    requires Lookup(t.entries, slot, index).Some? && Lookup(t.entries, slot, index).value.target.TableSlot?
    ensures var c := Lookup(t.entries, slot, index).value.target.slot;
      0 < c < |t.tables| && t.tables[c].level + 1 == t.tables[slot].level &&
      t.tables[c].parentSlot == slot && t.tables[c].parentIndex == index
    ensures ParentsBefore(t.tables)
  {
    hide Lookup, FindPage, ParentsBefore;
    TreeParentsBefore(t, ix);
    assert EntryAt(t, ix, pages, slot, index);
    assert TableOk(t, ix, Lookup(t.entries, slot, index).value.target.slot);
  }

  /** Reads one word back and compares it with the plan. */
  method VerifyEntry(plan: ConstructionPlan, frames: seq<int>, memory: TableMemory, slot: nat, index: nat,
                     reachable: array<bool>)
    returns (r: Result<(), VerificationError>)
    requires Assigned(plan, frames) && slot < |frames| && index < 512 && reachable.Length >= |frames|
    modifies reachable
    ensures r.Ok? ==> EntryAccepted(memory.words, plan.entries, frames, slot, index)
    ensures r.Ok? ==> reachable[..] == match Marked(memory.words, plan.entries, frames, slot, index)
                                       case None => old(reachable[..])
                                       case Some(c) => if c < reachable.Length then old(reachable[..])[c := true]
                                         else old(reachable[..])
    ensures r.Err? ==> r.error.Access? || !EntryAccepted(memory.words, plan.entries, frames, slot, index)
  {
    hide *;
    AssignedMeans(plan, frames);
    PlannedWordPasses(plan.View(), plan.index, plan.pages, frames, slot, index);
    EntryMeans(memory.words, plan.entries, frames, slot, index);
    var read := memory.ReadEntry(frames[slot], index);
    if read == None { return Err(Access(slot, index)); }
    var w := read.value;
    match Lookup(plan.entries, slot, index)
    case None =>
      if w == 0 { return Ok(()); }
      if !BitsOk(w, None) { return Err(InvalidBits(slot, index)); }
      return Err(UnexpectedNonZero(slot, index));
    case Some(e) =>
      if w == 0 {
        if e.target.PhysicalFrame? { return Err(EntryMismatch(slot, index)); }
        return Ok(());
      }
      if !BitsOk(w, Some(e)) { return Err(InvalidBits(slot, index)); }
      if e.target.TableSlot? {
        PlannedFlags(plan.View(), plan.index, plan.pages, slot, index);
        r := CheckChild(plan, frames, slot, index, w, e.target.slot, reachable);
        if r.Err? { return; }
      }
      match EncodedValue(e, frames)
      case Err(x) => return Err(Plan(x));
      case Ok(expected) =>
        if w != expected { return Err(EntryMismatch(slot, index)); }
        return Ok(());
  }

  lemma EntryMeans(m: Words, entries: seq<PlannedEntry>, frames: seq<int>, slot: nat, index: nat)
    requires slot < |frames|
    ensures var w := WordAt(m, frames[slot], index);
      match Lookup(entries, slot, index)
      case None => ExpectedWord(entries, frames, slot, index) == 0 && Marked(m, entries, frames, slot, index) == None &&
                   (EntryAccepted(m, entries, frames, slot, index) <==> w == 0)
      case Some(e) =>
        (EntryAccepted(m, entries, frames, slot, index) <==>
          w == ExpectedWord(entries, frames, slot, index) || (w == 0 && e.target.TableSlot?)) &&
        Marked(m, entries, frames, slot, index) == if e.target.TableSlot? && w != 0 then Some(e.target.slot) else None
  {
  }

  lemma PlannedFlags(t: Tree, ix: Index, pages: seq<Page>, slot: nat, index: nat)
    requires TreeOk(t, ix, pages) && slot < |t.tables| && index < 512
    requires Lookup(t.entries, slot, index).Some? && Lookup(t.entries, slot, index).value.target.TableSlot?
    ensures var e := Lookup(t.entries, slot, index).value;
      e == PlannedEntry(slot, index, TableSlot(e.target.slot), INTERMEDIATE) && e.target.slot < |t.tables|
  {
    hide Lookup, FindPage;
    assert EntryAt(t, ix, pages, slot, index);
  }

  // ---- all words

  /** The word in the parent's frame that should point at table `c` is set. */
  ghost predicate Linked(m: Words, tables: seq<PlannedTable>, frames: seq<int>, c: nat)
    requires c < |tables|
  {
    var parent := tables[c].parentSlot;
    parent < |frames| && WordAt(m, frames[parent], tables[c].parentIndex) != 0
  }

  /** After the first `n` words of a table, exactly the tables linked from them have been added. */
  ghost predicate ReachedIn(m: Words, tables: seq<PlannedTable>, frames: seq<int>, was: seq<bool>, now: seq<bool>,
                            slot: nat, n: nat) {
    |was| == |now| >= |tables| &&
    forall c | 0 < c < |tables| ::
      now[c] == (was[c] || (tables[c].parentSlot == slot && tables[c].parentIndex < n && Linked(m, tables, frames, c)))
  }

  lemma MarkStep(t: Tree, ix: Index, pages: seq<Page>, frames: seq<int>, m: Words, was: seq<bool>, now: seq<bool>,
                 slot: nat, n: nat)
    requires Placed(t, ix, pages, frames) && slot < |frames| && n < 512 &&
      ReachedIn(m, t.tables, frames, was, now, slot, n)
    ensures var now' := match Marked(m, t.entries, frames, slot, n)
                        case None => now
                        case Some(c) => if c < |now| then now[c := true] else now;
      ReachedIn(m, t.tables, frames, was, now', slot, n + 1)
  {
    hide Lookup, FindPage, WordAt, TablesOk, EntryAt, PagesPlaced, Encodable, FramesOk;
    var mark := Marked(m, t.entries, frames, slot, n);
    if mark.Some? { PlannedChild(t, ix, pages, slot, n); }
    forall c | 0 < c < |t.tables|
      ensures t.tables[c].parentSlot == slot && t.tables[c].parentIndex == n ==>
        (mark == Some(c) <==> Linked(m, t.tables, frames, c)) {
      assert Lookup(t.entries, t.tables[c].parentSlot, t.tables[c].parentIndex) == Some(ChildEntry(t, c));
    }
  }

  ghost predicate AcceptedUpTo(m: Words, entries: seq<PlannedEntry>, frames: seq<int>, slot: nat, n: nat)
    requires slot < |frames|
  {
    forall index: nat | index < n :: EntryAccepted(m, entries, frames, slot, index)
  }

  method VerifyTable(plan: ConstructionPlan, frames: seq<int>, memory: TableMemory, slot: nat, reachable: array<bool>)
    returns (r: Result<(), VerificationError>)
    requires Assigned(plan, frames) && slot < |frames| && reachable.Length >= |frames|
    modifies reachable
    ensures r.Ok? ==> AcceptedUpTo(memory.words, plan.entries, frames, slot, 512)
    ensures r.Ok? ==> ReachedIn(memory.words, plan.tables, frames, old(reachable[..]), reachable[..], slot, 512)
    ensures r.Err? ==> r.error.Access? || !AcceptedUpTo(memory.words, plan.entries, frames, slot, 512)
  {
    hide *;
    AssignedMeans(plan, frames);
    NothingAccepted(memory.words, plan.tables, plan.entries, frames, reachable[..], slot);
    for index := 0 to 512
      invariant AcceptedUpTo(memory.words, plan.entries, frames, slot, index)
      invariant ReachedIn(memory.words, plan.tables, frames, old(reachable[..]), reachable[..], slot, index)
    {
      AcceptedStep(memory.words, plan.entries, frames, slot, index);
      MarkStep(plan.View(), plan.index, plan.pages, frames, memory.words, old(reachable[..]), reachable[..], slot,
        index);
      r := VerifyEntry(plan, frames, memory, slot, index, reachable);
      if r.Err? { return; }
    }
    return Ok(());
  }

  lemma NothingAccepted(m: Words, tables: seq<PlannedTable>, entries: seq<PlannedEntry>, frames: seq<int>,
                        now: seq<bool>, slot: nat)
    requires slot < |frames| && |now| >= |tables|
    ensures AcceptedUpTo(m, entries, frames, slot, 0) && ReachedIn(m, tables, frames, now, now, slot, 0)
  {
  }

  lemma AcceptedStep(m: Words, entries: seq<PlannedEntry>, frames: seq<int>, slot: nat, n: nat)
    requires slot < |frames| && n < 512 && AcceptedUpTo(m, entries, frames, slot, n)
    ensures AcceptedUpTo(m, entries, frames, slot, n + 1) <==> EntryAccepted(m, entries, frames, slot, n)
    ensures AcceptedUpTo(m, entries, frames, slot, 512) ==> EntryAccepted(m, entries, frames, slot, n)
  {
    hide EntryAccepted;
  }

  ghost predicate AllAccepted(m: Words, entries: seq<PlannedEntry>, frames: seq<int>, n: nat)
    requires n <= |frames|
  {
    forall slot: nat | slot < n :: AcceptedUpTo(m, entries, frames, slot, 512)
  }

  ghost predicate Reached(m: Words, tables: seq<PlannedTable>, frames: seq<int>, now: seq<bool>, n: nat) {
    |now| >= |tables| && forall c | 0 < c < |tables| ::
      now[c] == (tables[c].parentSlot < n && Linked(m, tables, frames, c))
  }

  ghost predicate AllLinked(m: Words, tables: seq<PlannedTable>, frames: seq<int>) {
    forall c | 0 < c < |tables| :: Linked(m, tables, frames, c)
  }

  /** The strength of the check: a zero word passes in place of a child pointer, but then that child has
      no other parent to reach it, so all words accepted and all tables reached means all words planned. */
  lemma AcceptedAndLinked(t: Tree, ix: Index, pages: seq<Page>, frames: seq<int>, m: Words)
    requires Placed(t, ix, pages, frames)
    ensures Materialized(m, t.entries, frames) <==>
            AllAccepted(m, t.entries, frames, |frames|) && AllLinked(m, t.tables, frames)
  {
    hide *;
    if AllAccepted(m, t.entries, frames, |frames|) && AllLinked(m, t.tables, frames) {
      forall slot: nat, index: nat | slot < |frames| && index < 512
        ensures WordAt(m, frames[slot], index) == ExpectedWord(t.entries, frames, slot, index) {
        AcceptedIsPlanned(t, ix, pages, frames, m, slot, index);
      }
      MaterializedMeans(m, t.entries, frames);
    }
    if Materialized(m, t.entries, frames) {
      PlannedIsAccepted(m, t.entries, frames);
      forall c | 0 < c < |t.tables| ensures Linked(m, t.tables, frames, c) {
        PlannedIsLinked(t, ix, pages, frames, m, c);
      }
      LinkedMeans(m, t.tables, frames);
    }
  }

  lemma MaterializedMeans(m: Words, entries: seq<PlannedEntry>, frames: seq<int>)
    requires forall slot: nat, index: nat | slot < |frames| && index < 512 ::
      WordAt(m, frames[slot], index) == ExpectedWord(entries, frames, slot, index)
    ensures Materialized(m, entries, frames)
  {
  }

  lemma LinkedMeans(m: Words, tables: seq<PlannedTable>, frames: seq<int>)
    requires forall c | 0 < c < |tables| :: Linked(m, tables, frames, c)
    ensures AllLinked(m, tables, frames)
  {
  }

  lemma AcceptedIsPlanned(t: Tree, ix: Index, pages: seq<Page>, frames: seq<int>, m: Words, slot: nat, index: nat)
    requires Placed(t, ix, pages, frames) && AllAccepted(m, t.entries, frames, |frames|) &&
      AllLinked(m, t.tables, frames)
    requires slot < |frames| && index < 512
    ensures WordAt(m, frames[slot], index) == ExpectedWord(t.entries, frames, slot, index)
  {
    hide Lookup, FindPage, WordAt, TreeOk, Encodable, FramesOk, ExpectedWord;
    assert AcceptedUpTo(m, t.entries, frames, slot, 512);
    assert EntryAccepted(m, t.entries, frames, slot, index);
    var e := Lookup(t.entries, slot, index);
    if e.Some? && e.value.target.TableSlot? {
      PlannedChild(t, ix, pages, slot, index);
      assert Linked(m, t.tables, frames, e.value.target.slot);
    }
  }

  lemma PlannedIsAccepted(m: Words, entries: seq<PlannedEntry>, frames: seq<int>)
    requires Materialized(m, entries, frames)
    ensures AllAccepted(m, entries, frames, |frames|)
  {
    hide Lookup, WordAt, ExpectedWord;
  }

  lemma PlannedIsLinked(t: Tree, ix: Index, pages: seq<Page>, frames: seq<int>, m: Words, c: nat)
    requires Placed(t, ix, pages, frames) && Materialized(m, t.entries, frames) && 0 < c < |t.tables|
    ensures Linked(m, t.tables, frames, c)
  {
    hide Lookup, FindPage, WordAt, ExpectedWord, EntryAt, PagesPlaced, Encodable, BitsOk, FramePosition, EncodedValue;
    assert TableOk(t, ix, c);
    var parent, index := t.tables[c].parentSlot, t.tables[c].parentIndex;
    assert Lookup(t.entries, parent, index) == Some(ChildEntry(t, c));
    PlannedWordPasses(t, ix, pages, frames, parent, index);
  }

  lemma TableReached(m: Words, tables: seq<PlannedTable>, frames: seq<int>, was: seq<bool>, now: seq<bool>, n: nat)
    requires Reached(m, tables, frames, was, n) && ReachedIn(m, tables, frames, was, now, n, 512)
    requires forall c | 0 < c < |tables| :: tables[c].parentIndex < 512
    ensures Reached(m, tables, frames, now, n + 1)
  {
    hide Linked;
  }

  lemma TableAccepted(m: Words, entries: seq<PlannedEntry>, frames: seq<int>, n: nat)
    requires n < |frames| && AllAccepted(m, entries, frames, n)
    ensures AllAccepted(m, entries, frames, n + 1) <==> AcceptedUpTo(m, entries, frames, n, 512)
    ensures AllAccepted(m, entries, frames, |frames|) ==> AcceptedUpTo(m, entries, frames, n, 512)
  {
    hide AcceptedUpTo;
  }

  /** The word a removal expects is the planned one. */
  lemma RemovalWord(t: Tree, ix: Index, pages: seq<Page>, frames: seq<int>, m: Words, k: nat)
    requires Placed(t, ix, pages, frames) && RemovalsOk(t, ix) && Materialized(m, t.entries, frames) && k < |t.removals|
    ensures var rm := t.removals[k];
      rm.table < |frames| && rm.expectedTarget < |frames| &&
      WordAt(m, frames[rm.table], rm.index) == frames[rm.expectedTarget] + rm.expectedFlags
  {
    hide Lookup, FindPage, WordAt, ExpectedWord, EntryAt, PagesPlaced, Encodable;
    var rm := t.removals[k];
    assert RemovalOk(ix, rm);
    NodeLinked(t, ix, pages, Node(3, rm.index));
    assert TableOk(t, ix, 0);
    assert NodeOf(t, ix, 0) == Node(4, 0);
    ExpectedMeans(t.entries, frames, 0, rm.index);
  }

  /** First pass: every word of every table. */
  method VerifyTables(plan: ConstructionPlan, frames: seq<int>, memory: TableMemory, reachable: array<bool>)
    returns (r: Result<(), VerificationError>)
    requires Assigned(plan, frames) && reachable.Length >= |frames| && forall c | 0 <= c < reachable.Length ::
      reachable[c] == (c == 0)
    modifies reachable
    ensures r.Ok? ==> AllAccepted(memory.words, plan.entries, frames, |frames|)
    ensures r.Ok? ==> Reached(memory.words, plan.tables, frames, reachable[..], |frames|)
    ensures r.Err? ==> r.error.Access? || !AllAccepted(memory.words, plan.entries, frames, |frames|)
  {
    AssignedMeans(plan, frames);
    TablesStart(plan, frames, memory.words, reachable[..]);
    hide *;
    for i := 0 to |plan.tables|
      invariant AllAccepted(memory.words, plan.entries, frames, i) &&
        Reached(memory.words, plan.tables, frames, reachable[..], i)
    {
      TableSlotIs(plan, frames, i);
      var slot := plan.tables[i].slot;
      if slot >= |frames| { return Err(Plan(MissingFrameAssignment)); }
      TableAccepted(memory.words, plan.entries, frames, i);
      ghost var was := reachable[..];
      r := VerifyTable(plan, frames, memory, slot, reachable);
      if r.Err? { return; }
      TableReached(memory.words, plan.tables, frames, was, reachable[..], i);
    }
    return Ok(());
  }

  lemma TablesStart(plan: ConstructionPlan, frames: seq<int>, m: Words, now: seq<bool>)
    requires Assigned(plan, frames) && |now| >= |frames| && forall c | 0 <= c < |now| :: now[c] == (c == 0)
    ensures AllAccepted(m, plan.entries, frames, 0) && Reached(m, plan.tables, frames, now, 0)
    ensures forall c | 0 < c < |plan.tables| :: plan.tables[c].parentIndex < 512
  {
    hide Linked, RemovalsOk, EntriesOk, Encodable, PagesPlaced;
    forall c | 0 < c < |plan.tables| ensures plan.tables[c].parentIndex < 512 {
      assert TableOk(plan.View(), plan.index, c);
    }
  }

  /** Second pass: every table but the root has been reached. */
  method VerifyReachable(tables: seq<PlannedTable>, frames: seq<int>, reachable: array<bool>, ghost m: Words)
    returns (r: Result<(), VerificationError>)
    requires reachable.Length >= |tables| == |frames| > 0 && ParentsBefore(tables) &&
      Reached(m, tables, frames, reachable[..], |frames|)
    requires forall c | 0 <= c < |tables| :: tables[c].slot == c
    ensures r.Ok? <==> AllLinked(m, tables, frames)
    ensures r.Err? ==> r.error.UnreachableTable?
  {
    hide Linked;
    var c := 1;
    while c < |tables|
      invariant 1 <= c <= |tables| && forall d | 0 < d < c :: Linked(m, tables, frames, d)
    {
      assert reachable[..][c] == (tables[c].parentSlot < |frames| && Linked(m, tables, frames, c));
      if !reachable[tables[c].slot] { return Err(UnreachableTable(tables[c].slot)); }
      c := c + 1;
    }
    return Ok(());
  }

  /** Third pass: the words to be removed later are in place; on planned words it cannot fail. */
  method VerifyRemovals(plan: ConstructionPlan, frames: seq<int>, memory: TableMemory)
    returns (r: Result<(), VerificationError>)
    requires Assigned(plan, frames) && Materialized(memory.words, plan.entries, frames)
    ensures r.Err? ==> r.error.Access?
  {
    hide *;
    AssignedMeans(plan, frames);
    for k := 0 to |plan.removals| {
      RemovalWord(plan.View(), plan.index, plan.pages, frames, memory.words, k);
      var rm := plan.removals[k];
      if rm.table >= |frames| { return Err(Plan(MissingFrameAssignment)); }
      var read := memory.ReadEntry(frames[rm.table], rm.index);
      if read == None { return Err(Access(rm.table, rm.index)); }
      if rm.expectedTarget >= |frames| { return Err(Plan(MissingFrameAssignment)); }
      if read.value != frames[rm.expectedTarget] + rm.expectedFlags { return Err(RemovalMismatch(rm.table, rm.index)); }
    }
    return Ok(());
  }

  /** Failing reads aside, accepts exactly the memories in which all 512 words of every owned frame are
      the planned ones. */
  method VerifyMaterialized(plan: ConstructionPlan, frames: seq<int>, root: int, memory: TableMemory)
    returns (r: Result<(), VerificationError>)
    requires plan.Valid() && Encodable(plan.pages) && FramesOk(frames)
    ensures r.Ok? ==> |frames| == |plan.tables| && root == frames[0] && Materialized(memory.words, plan.entries, frames)
    ensures r.Err? ==> r.error.Access? || |frames| != |plan.tables| || root != frames[0] ||
                       !Materialized(memory.words, plan.entries, frames)
  {
    RootSlot(plan);
    if |frames| != |plan.tables| { return Err(OwnershipCount); }
    if frames[plan.tables[0].slot] != root { return Err(RootFrame); }
    AssignedMeans(plan, frames);
    AcceptedAndLinked(plan.View(), plan.index, plan.pages, frames, memory.words);
    var reachable := new bool[plan.capacity.tables](_ => false);
    reachable[plan.tables[0].slot] := true;
    hide *;
    r := VerifyTables(plan, frames, memory, reachable);
    if r.Err? { return; }
    r := VerifyReachable(plan.tables, frames, reachable, memory.words);
    if r.Err? { return; }
    r := VerifyRemovals(plan, frames, memory);
  }

  lemma RootSlot(plan: ConstructionPlan)
    requires plan.Valid()
    ensures 0 < |plan.tables| <= plan.capacity.tables && ParentsBefore(plan.tables)
    ensures forall c | 0 <= c < |plan.tables| :: plan.tables[c].slot == c
  {
    hide EntriesOk, RemovalsOk, PagesPlaced;
    TreeParentsBefore(plan.View(), plan.index);
    forall c | 0 <= c < |plan.tables| ensures plan.tables[c].slot == c { assert TableOk(plan.View(), plan.index, c); }
  }
}
