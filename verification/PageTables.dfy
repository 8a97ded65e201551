/** Table memory and writing a compiled hierarchy into its frames. */
module PageTables {
  import opened Prelude
  import opened Counting
  import opened MappingPlan
  import opened PageTablePlan
  import opened MappingPages
  import opened PageTableBuilder
  import opened Paging
  import opened AddressTranslation

  datatype MaterializationError = PlanFailure(error: PlanError) | WriteAccess(slot: nat, index: nat)

  datatype VerificationError =
    | Plan(error: PlanError) | OwnershipCount | RootFrame | Access(slot: nat, index: nat)
    | InvalidBits(slot: nat, index: nat) | UnexpectedNonZero(slot: nat, index: nat)
    | EntryMismatch(slot: nat, index: nat)
    | UnownedChild(slot: nat, index: nat) | Cycle(slot: nat, index: nat) | WrongChild(slot: nat, index: nat)
    | WrongTableLevel(slot: nat, index: nat) | UnreachableTable(slot: nat) | RemovalMismatch(slot: nat, index: nat)

  /** The physical-memory adapter: any access may fail, a successful one has its effect. */
  class TableMemory {
    var words: Words

    method WriteEntry(frame: int, index: nat, value: U64) returns (ok: bool)
      modifies this
      ensures words == if ok then old(words)[Cell(frame, index) := value] else old(words)
    {
      ok := *;
      if ok { words := words[Cell(frame, index) := value]; }
    }

    method ReadEntry(frame: int, index: nat) returns (r: Option<U64>)
      ensures r.Some? ==> r.value == WordAt(words, frame, index)
    {
      var ok: bool := *;
      return if ok then Some(WordAt(words, frame, index)) else None;
    }
  }

  /** A compiled plan with a frame for every table. */
  ghost predicate Assigned(plan: ConstructionPlan, frames: seq<int>)
    reads plan
  {
    plan.Valid() && Placed(plan.View(), plan.index, plan.pages, frames)
  }

  /** A built plan, one frame for each table and its words in them make a compiled hierarchy. */
  lemma InstalledCompiled(plan: ConstructionPlan, s: seq<PlanEntry>, frames: seq<int>, m: Words)
    requires plan.Valid() && PlanOk(s) && plan.pages == AllPages(s) && FramesOk(frames) && |frames| == |plan.tables|
    ensures Encodable(plan.pages) && Assigned(plan, frames)
    ensures Materialized(m, plan.entries, frames) ==> Compiled(s, plan.View(), plan.index, frames, m)
  {
    hide PlanOk, TreeOk, RemovalsOk, FramesOk, Encodable;
    EntriesAllOk(s);
    AllPagesEncodable(s);
  }

  ghost predicate SameElsewhere(was: Words, now: Words, frame: int) {
    forall f: int, i: nat | f != frame :: WordAt(now, f, i) == WordAt(was, f, i)
  }

  /** Whatever is planned for a word can be encoded. */
  lemma EntryEncodes(t: Tree, ix: Index, pages: seq<Page>, frames: seq<int>, slot: nat, index: nat)
    requires Placed(t, ix, pages, frames) && slot < |frames| && index < 512
    ensures var w := ExpectedWord(t.entries, frames, slot, index);
      match Lookup(t.entries, slot, index)
      case None => w == 0
      case Some(e) => EncodedValue(e, frames) == Ok(w) && 0 <= w < 0x1_0000_0000_0000_0000
  {
    hide Lookup, FindPage, FrameForm, LeafFlagForm;
    assert EntryAt(t, ix, pages, slot, index);
    match Lookup(t.entries, slot, index)
    case None =>
    case Some(e) =>
      match e.target
      case TableSlot(c) => ChildWord(frames[c], Rights(true, true, true));
      case PhysicalFrame(address) =>
        FoundEncodable(pages, ix.keys[slot] * 512 + index);
        EncodedBound(address, e.flags);
  }

  lemma EncodedBound(address: int, f: int)
    requires FrameForm(address) && LeafFlagForm(f)
    ensures 0 <= address + f < U64_LIMIT
  {
    DecodeWord(address, f);
  }

  /** Writes the 512 words of one table. */
  method WriteTable(plan: ConstructionPlan, frames: seq<int>, memory: TableMemory, slot: nat)
    returns (r: Result<(), MaterializationError>)
    requires Assigned(plan, frames) && slot < |frames|
    modifies memory
    ensures SameElsewhere(old(memory.words), memory.words, frames[slot])
    ensures r.Ok? ==> TableMaterialized(memory.words, plan.entries, frames, slot)
    ensures r.Err? ==> r.error.WriteAccess?
  {
    hide *;
    NothingWritten(memory.words, plan.entries, frames, slot);
    for index := 0 to 512
      invariant SameElsewhere(old(memory.words), memory.words, frames[slot])
      invariant WrittenUpTo(memory.words, plan.entries, frames, slot, index)
    {
      AssignedMeans(plan, frames);
      EntryEncodes(plan.View(), plan.index, plan.pages, frames, slot, index);
      WordStored(old(memory.words), memory.words, plan.entries, frames, slot, index);
      var value: U64 := 0;
      match Lookup(plan.entries, slot, index) {
        case None =>
        case Some(e) =>
          match EncodedValue(e, frames)
          case Err(x) => return Err(PlanFailure(x));
          case Ok(w) => value := w;
      }
      var ok := memory.WriteEntry(frames[slot], index, value);
      if !ok { return Err(WriteAccess(slot, index)); }
    }
    WrittenAll(memory.words, plan.entries, frames, slot);
    return Ok(());
  }

  lemma AssignedMeans(plan: ConstructionPlan, frames: seq<int>)
    requires Assigned(plan, frames)
    ensures Placed(plan.View(), plan.index, plan.pages, frames) && RemovalsOk(plan.View(), plan.index)
    ensures plan.View() == Tree(plan.tables, plan.entries, plan.removals) &&
      |plan.tables| == |frames| == |plan.index.keys|
  {
  }

  ghost predicate WrittenUpTo(m: Words, entries: seq<PlannedEntry>, frames: seq<int>, slot: nat, n: nat)
    requires slot < |frames|
  {
    forall index: nat | index < n :: WordAt(m, frames[slot], index) == ExpectedWord(entries, frames, slot, index)
  }

  lemma NothingWritten(m: Words, entries: seq<PlannedEntry>, frames: seq<int>, slot: nat)
    requires slot < |frames|
    ensures SameElsewhere(m, m, frames[slot]) && WrittenUpTo(m, entries, frames, slot, 0)
  {
  }

  lemma WrittenAll(m: Words, entries: seq<PlannedEntry>, frames: seq<int>, slot: nat)
    requires slot < |frames| && WrittenUpTo(m, entries, frames, slot, 512)
    ensures TableMaterialized(m, entries, frames, slot)
  {
  }

  lemma WordStored(was: Words, m: Words, entries: seq<PlannedEntry>, frames: seq<int>, slot: nat, index: nat)
    requires slot < |frames| && SameElsewhere(was, m, frames[slot]) && WrittenUpTo(m, entries, frames, slot, index)
    ensures var w := ExpectedWord(entries, frames, slot, index);
      0 <= w < 0x1_0000_0000_0000_0000 ==>
      var m' := m[Cell(frames[slot], index) := w];
      SameElsewhere(was, m', frames[slot]) && WrittenUpTo(m', entries, frames, slot, index + 1)
  {
    hide ExpectedWord;
  }

  ghost predicate Untouched(was: Words, m: Words, frames: seq<int>) {
    forall f: int, i: nat | f !in frames :: WordAt(m, f, i) == WordAt(was, f, i)
  }

  /** Tables before `n` are written, and no word outside the frames has changed. */
  ghost predicate WrittenTables(was: Words, m: Words, entries: seq<PlannedEntry>, frames: seq<int>, n: nat)
    requires n <= |frames|
  {
    (forall table: nat | table < n :: TableMaterialized(m, entries, frames, table)) && Untouched(was, m, frames)
  }

  lemma TableAdded(was: Words, m: Words, m': Words, entries: seq<PlannedEntry>, frames: seq<int>, n: nat)
    requires n < |frames| && Distinct(frames) && WrittenTables(was, m, entries, frames, n)
    requires SameElsewhere(m, m', frames[n])
    ensures TableMaterialized(m', entries, frames, n) ==> WrittenTables(was, m', entries, frames, n + 1)
    ensures Untouched(was, m', frames)
  {
    hide WordAt, ExpectedWord;
    forall table: nat | table < n ensures TableMaterialized(m', entries, frames, table) {
      assert TableMaterialized(m, entries, frames, table) && frames[table] != frames[n];
    }
  }

  lemma TableSlotIs(plan: ConstructionPlan, frames: seq<int>, i: nat)
    requires Assigned(plan, frames) && i < |frames|
    ensures plan.tables[i].slot == i && Distinct(frames)
  {
    hide EntriesOk, RemovalsOk, Encodable;
    assert TableOk(plan.View(), plan.index, i);
  }

  lemma TablesWritten(was: Words, m: Words, entries: seq<PlannedEntry>, frames: seq<int>)
    requires WrittenTables(was, m, entries, frames, |frames|)
    ensures Materialized(m, entries, frames)
  {
    hide WordAt, ExpectedWord;
    forall table: nat, index: nat | table < |frames| && index < 512
      ensures WordAt(m, frames[table], index) == ExpectedWord(entries, frames, table, index) {
      assert TableMaterialized(m, entries, frames, table);
    }
  }

  /** Writes all 512 words of every frame and nothing else; only a failing access can stop it. */
  method Materialize(plan: ConstructionPlan, frames: seq<int>, memory: TableMemory)
    returns (r: Result<(), MaterializationError>)
    requires Assigned(plan, frames)
    modifies memory
    ensures r.Ok? ==> Materialized(memory.words, plan.entries, frames)
    ensures r.Err? ==> r.error.WriteAccess?
    ensures Untouched(old(memory.words), memory.words, frames)
  {
    hide *;
    AssignedMeans(plan, frames);
    NoTables(memory.words, plan.entries, frames);
    for i := 0 to |plan.tables|
      invariant WrittenTables(old(memory.words), memory.words, plan.entries, frames, i)
    {
      TableSlotIs(plan, frames, i);
      var slot := plan.tables[i].slot;
      if slot >= |frames| { return Err(PlanFailure(MissingFrameAssignment)); }
      ghost var m := memory.words;
      r := WriteTable(plan, frames, memory, slot);
      TableAdded(old(memory.words), m, memory.words, plan.entries, frames, i);
      if r.Err? { return; }
    }
    TablesWritten(old(memory.words), memory.words, plan.entries, frames);
    WrittenUntouched(old(memory.words), memory.words, plan.entries, frames);
    return Ok(());
  }

  lemma NoTables(m: Words, entries: seq<PlannedEntry>, frames: seq<int>)
    ensures WrittenTables(m, m, entries, frames, 0)
  {
  }

  lemma WrittenUntouched(was: Words, m: Words, entries: seq<PlannedEntry>, frames: seq<int>)
    requires WrittenTables(was, m, entries, frames, |frames|)
    ensures Untouched(was, m, frames)
  {
  }
}
