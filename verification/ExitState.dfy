/** The last steps before firmware is left: which owners may reach the boundary, who frees what on the way,
    and what happens to ownership when it is crossed. */
module ExitState {
  import opened Prelude
  import opened Owners

  // ---- the state

  datatype TablesStage = Verified | Prepared | Reserved

  /** The page-table owner as it moves through its stages; `planned` is fixed when it is verified. */
  datatype Tables = Tables(stage: TablesStage, planned: nat, owner: Owner, root: int)

  datatype Stage = BootServices | KernelOwned | ExitReady | TablesReady | Crossed | Failed

  /** What was handed over at the boundary, by owner. */
  datatype Handed = Handed(kernel: seq<int>, boot: seq<int>, stack: seq<int>, tables: seq<int>)

  /** What the firmware has seen: every free call, those that succeeded, and the allocations whose owner is
      gone although their free was refused. */
  datatype Log = Log(attempts: seq<int>, freed: seq<int>, leaked: seq<int>)

  datatype World = World(
    stage: Stage, kernel: Option<Owner>, boot: Option<Owner>, stack: Option<Owner>, tables: Option<Tables>,
    log: Log, handed: Option<Handed>, attempts: nat)

  /** One call of the protocol. A release frees `frees` allocations before one free fails or none is left. */
  datatype Call =
    | ReleaseKernel(frees: nat) | ReleaseBoot(frees: nat) | ReleaseStack(frees: nat) | ReleaseTables(frees: nat)
    | PrepareActivation(permitted: bool, proposedRoot: int)
    | ConfirmReservation(count: nat, proofRoot: int, proofFrames: seq<int>)
    | WithKernel(segments: nat) | WithBootInformation(descriptors: nat, wellFormed: bool) | WithStackAndTables
    | CrossBoundary | BeginAttempt | Unwind

  /** A call, and the allocations whose free the firmware refuses should the call drop their owner. */
  datatype Step = Step(call: Call, refused: set<int>)

  function TablesOwner(t: Option<Tables>): Option<Owner> { if t.None? then None else Some(t.value.owner) }

  function Pieces(o: Option<Owner>): seq<int> { if o.None? then [] else Holds(o.value) }

  predicate IsReleased(o: Option<Owner>) { o.None? || o.value.pieces == [] }

  function Disarm(o: Option<Owner>): Option<Owner> { if o.None? then None else Some(o.value.(armed := false)) }

  /** The log after an explicit release. */
  function LogRelease(log: Log, o: Owner, frees: nat): Log {
    log.(attempts := log.attempts + ReleaseAttempts(o, frees), freed := log.freed + Released(o, frees))
  }

  /** The log after an owner, if there is one, has gone out of scope. */
  function LogDrop(log: Log, o: Option<Owner>, refused: set<int>): Log {
    if o.None? then log
    else Log(log.attempts + DropAttempts(o.value), log.freed + DropFreed(o.value, refused),
      log.leaked + DropLeaked(o.value, refused))
  }

  // ---- the protocol

  function DropAll(w: World, refused: set<int>): World {
    w.(kernel := None, boot := None, stack := None, tables := None,
       log := LogDrop(LogDrop(LogDrop(LogDrop(w.log, w.kernel, refused), w.boot, refused), w.stack, refused),
                      TablesOwner(w.tables), refused))
  }

  function DropTables(w: World, refused: set<int>): World {
    w.(tables := None, log := LogDrop(w.log, TablesOwner(w.tables), refused))
  }

  function NextTables(w: World, t: Tables, step: Step): World {
    match step.call
    case ReleaseTables(n) =>
      if t.stage != Verified then w
      else w.(tables := Some(t.(owner := Release(t.owner, n))), log := LogRelease(w.log, t.owner, n))
    case PrepareActivation(permitted, proposedRoot) =>
      if t.stage != Verified then w
      else if !permitted || proposedRoot != t.root then DropTables(w, step.refused)
      else w.(tables := Some(t.(stage := Prepared)))
    case ConfirmReservation(count, proofRoot, proofFrames) =>
      if t.stage != Prepared then w
      else if count != |t.owner.pieces| || proofRoot != t.root || proofFrames != t.owner.pieces then
        DropTables(w, step.refused)
      else w.(tables := Some(t.(stage := Reserved)))
    case WithStackAndTables =>
      if w.stage != ExitReady || w.stack.None? || t.stage != Reserved then w
      else if IsReleased(w.stack) || |t.owner.pieces| == 0 || |t.owner.pieces| != t.planned
      then DropAll(w, step.refused).(stage := Failed)
      else w.(stage := TablesReady)
    case CrossBoundary =>
      if w.stage != TablesReady then w
      else w.(stage := Crossed, kernel := Disarm(w.kernel), boot := Disarm(w.boot), stack := Disarm(w.stack),
              tables := Some(t.(owner := t.owner.(armed := false))),
              handed := Some(Handed(Pieces(w.kernel), Pieces(w.boot), Pieces(w.stack), Holds(t.owner))))
    case _ => w
  }

  function Next(w: World, step: Step): World {
    match step.call
    case ReleaseKernel(n) =>
      if w.stage != BootServices || w.kernel.None? then w
      else w.(kernel := Some(Release(w.kernel.value, n)), log := LogRelease(w.log, w.kernel.value, n))
    case ReleaseBoot(n) =>
      if !(w.stage == BootServices || w.stage == KernelOwned) || w.boot.None? then w
      else w.(boot := Some(Release(w.boot.value, n)), log := LogRelease(w.log, w.boot.value, n))
    case ReleaseStack(n) =>
      if !(w.stage == BootServices || w.stage == KernelOwned || w.stage == ExitReady) || w.stack.None? then w
      else w.(stack := Some(Release(w.stack.value, n)), log := LogRelease(w.log, w.stack.value, n))
    case WithKernel(segments) =>
      if w.stage != BootServices || w.kernel.None? then w
      else if IsReleased(w.kernel) || segments == 0
      then w.(stage := Failed, kernel := None, log := LogDrop(w.log, w.kernel, step.refused))
      else w.(stage := KernelOwned)
    case WithBootInformation(descriptors, wellFormed) =>
      if w.stage != KernelOwned || w.boot.None? then w
      else if IsReleased(w.boot) || descriptors == 0 || !wellFormed then
        w.(stage := Failed, kernel := None, boot := None,
           log := LogDrop(LogDrop(w.log, w.kernel, step.refused), w.boot, step.refused))
      else w.(stage := ExitReady)
    case BeginAttempt => if w.stage == Crossed && w.attempts != 2 then w.(attempts := w.attempts + 1) else w
    case Unwind => DropAll(w, step.refused).(stage := if w.stage == Crossed then Crossed else Failed)
    case _ => if w.tables.None? || w.stage == Crossed then w else NextTables(w, w.tables.value, step)
  }

  function Run(w: World, steps: seq<Step>): World
    decreases |steps|
  {
    if steps == [] then w else Run(Next(w, steps[0]), steps[1..])
  }

  predicate OnTables(c: Call) {
    c.ReleaseTables? || c.PrepareActivation? || c.ConfirmReservation? || c.WithStackAndTables? || c.CrossBoundary?
  }

  lemma TablesStep(w: World, step: Step)
    requires OnTables(step.call)
    ensures Next(w, step) == if w.tables.None? || w.stage == Crossed then w else NextTables(w, w.tables.value, step)
  {
  }

  // ---- conservation

  ghost function HandedCount(h: Option<Handed>, x: int): nat {
    if h.None? then 0
    else Count(h.value.kernel, x) + Count(h.value.boot, x) + Count(h.value.stack, x) + Count(h.value.tables, x)
  }

  /** What the log says became of an allocation: freed, or abandoned after a refused free. */
  ghost function Settled(log: Log, x: int): nat { Count(log.freed, x) + Count(log.leaked, x) }

  /** How often an allocation is held by an armed owner, was freed, was leaked, or was handed over. */
  ghost function Account(w: World, x: int): nat {
    Count(Pieces(w.kernel), x) + Count(Pieces(w.boot), x) + Count(Pieces(w.stack), x) +
      Count(Pieces(TablesOwner(w.tables)), x) +
    Settled(w.log, x) + HandedCount(w.handed, x)
  }

  lemma LogReleaseKeeps(log: Log, o: Owner, frees: nat, x: int)
    ensures Settled(LogRelease(log, o, frees), x) + Count(Holds(Release(o, frees)), x) == Settled(log, x) +
      Count(Holds(o), x)
  {
    hide Count, Release, Released, ReleaseAttempts, Holds;
    ReleaseKeeps(o, frees, x);
    CountConcat(log.freed, Released(o, frees), x);
  }

  lemma LogDropKeeps(log: Log, o: Option<Owner>, refused: set<int>, x: int)
    ensures Settled(LogDrop(log, o, refused), x) == Settled(log, x) + Count(Pieces(o), x)
    ensures Count(LogDrop(log, o, refused).leaked, x) == Count(log.leaked, x) +
      if x in refused then Count(Pieces(o), x) else 0
  {
    hide Count, DropFreed, DropLeaked, DropAttempts, Holds;
    CountNone(x);
    if o.Some? {
      DropKeeps(o.value, refused, x);
      CountConcat(log.freed, DropFreed(o.value, refused), x);
      CountConcat(log.leaked, DropLeaked(o.value, refused), x);
    }
  }

  lemma NoPieces(x: int)
    ensures Pieces(None) == [] && TablesOwner(None) == None && Count([], x) == 0
  {
  }

  lemma DropAllConserves(w: World, refused: set<int>, x: int)
    ensures Account(DropAll(w, refused), x) == Account(w, x)
    ensures Count(DropAll(w, refused).log.leaked, x) <= Count(w.log.leaked, x) +
      if x in refused then Account(w, x) else 0
  {
    hide Count, LogDrop, Settled, HandedCount, Pieces, TablesOwner;
    NoPieces(x);
    var a := LogDrop(w.log, w.kernel, refused);
    var b := LogDrop(a, w.boot, refused);
    var c := LogDrop(b, w.stack, refused);
    LogDropKeeps(w.log, w.kernel, refused, x);
    LogDropKeeps(a, w.boot, refused, x);
    LogDropKeeps(b, w.stack, refused, x);
    LogDropKeeps(c, TablesOwner(w.tables), refused, x);
  }

  lemma DropTablesConserves(w: World, refused: set<int>, x: int)
    ensures Account(DropTables(w, refused), x) == Account(w, x)
  {
    hide Count, LogDrop, Settled, HandedCount, Pieces, TablesOwner;
    NoPieces(x);
    LogDropKeeps(w.log, TablesOwner(w.tables), refused, x);
  }

  /** Crossing hands over exactly what was held. */
  lemma CrossConserves(w: World, t: Tables, step: Step, x: int)
    requires w.tables == Some(t) && w.handed == None && step.call.CrossBoundary?
    ensures Account(NextTables(w, t, step), x) == Account(w, x)
  {
    hide Count, Settled;
    CountNone(x);
  }

  lemma ReleaseTablesConserves(w: World, t: Tables, step: Step, x: int)
    requires w.tables == Some(t) && step.call.ReleaseTables?
    ensures Account(NextTables(w, t, step), x) == Account(w, x)
  {
    hide Count, Settled, HandedCount, LogRelease, Release, Holds;
    LogReleaseKeeps(w.log, t.owner, step.call.frees, x);
  }

  lemma CheckConserves(w: World, t: Tables, step: Step, x: int)
    requires w.tables == Some(t)
    requires step.call.PrepareActivation? || step.call.ConfirmReservation? || step.call.WithStackAndTables?
    ensures Account(NextTables(w, t, step), x) == Account(w, x)
  {
    hide Count, Settled, HandedCount, Pieces, DropAll, DropTables;
    DropAllConserves(w, step.refused, x);
    DropTablesConserves(w, step.refused, x);
  }

  lemma NextTablesConserves(w: World, t: Tables, step: Step, x: int)
    requires w.tables == Some(t) && w.handed == None && OnTables(step.call)
    ensures Account(NextTables(w, t, step), x) == Account(w, x)
  {
    hide Account, NextTables;
    if step.call.ReleaseTables? {
      ReleaseTablesConserves(w, t, step, x);
    } else if step.call.CrossBoundary? {
      CrossConserves(w, t, step, x);
    } else {
      CheckConserves(w, t, step, x);
    }
  }

  lemma ReleaseStepConserves(w: World, step: Step, x: int)
    requires step.call.ReleaseKernel? || step.call.ReleaseBoot? || step.call.ReleaseStack?
    ensures Account(Next(w, step), x) == Account(w, x)
  {
    hide Count, Settled, HandedCount, LogRelease, Release, Holds, NextTables;
    var n := step.call.frees;
    if w.kernel.Some? { LogReleaseKeeps(w.log, w.kernel.value, n, x); }
    if w.boot.Some? { LogReleaseKeeps(w.log, w.boot.value, n, x); }
    if w.stack.Some? { LogReleaseKeeps(w.log, w.stack.value, n, x); }
  }

  lemma FailedStepConserves(w: World, step: Step, x: int)
    requires step.call.WithKernel? || step.call.WithBootInformation?
    ensures Account(Next(w, step), x) == Account(w, x)
  {
    hide Count, Settled, HandedCount, Pieces, LogDrop, NextTables;
    NoPieces(x);
    LogDropKeeps(w.log, w.kernel, step.refused, x);
    LogDropKeeps(LogDrop(w.log, w.kernel, step.refused), w.boot, step.refused, x);
  }

  lemma PlainStepConserves(w: World, step: Step, x: int)
    requires step.call.BeginAttempt? || step.call.Unwind?
    ensures Account(Next(w, step), x) == Account(w, x)
  {
    hide Count, Settled, HandedCount, Pieces, NextTables, DropAll;
    if step.call.Unwind? { DropAllConserves(w, step.refused, x); }
  }

  /** No step loses or duplicates an allocation. */
  lemma NextConserves(w: World, step: Step, x: int)
    requires w.handed == None || w.stage == Crossed
    ensures Account(Next(w, step), x) == Account(w, x)
  {
    hide Account, Next, NextTables;
    var c := step.call;
    if c.ReleaseKernel? || c.ReleaseBoot? || c.ReleaseStack? {
      ReleaseStepConserves(w, step, x);
    } else if c.WithKernel? || c.WithBootInformation? {
      FailedStepConserves(w, step, x);
    } else if c.BeginAttempt? || c.Unwind? {
      PlainStepConserves(w, step, x);
    } else {
      TablesStep(w, step);
      if w.tables.Some? && w.stage != Crossed { NextTablesConserves(w, w.tables.value, step, x); }
    }
  }

  // ---- what holds in every run

  /** Before the protocol starts: a complete verified hierarchy with these frames, nothing freed or handed over. */
  ghost predicate Begins(w: World, frames: seq<int>) {
    w.stage == BootServices && w.log == Log([], [], []) && w.handed == None && w.attempts == 0 && frames != [] &&
    w.tables.Some? && w.tables.value.stage == Verified && w.tables.value.planned == |frames| &&
    w.tables.value.owner == Owner(frames, true)
  }

  /** The hierarchy owns a prefix of its frames, and a disarmed one before the boundary owns nothing. */
  ghost predicate TablesSafe(w: World, frames: seq<int>) {
    w.tables.Some? ==>
      w.tables.value.planned == |frames| && w.tables.value.owner.pieces <= frames &&
      (w.stage != Crossed ==> w.tables.value.owner.armed || w.tables.value.owner.pieces == [])
  }

  /** Past the boundary no owner is armed, and the complete hierarchy has been handed over. */
  ghost predicate CrossedSafe(w: World, frames: seq<int>) {
    Pieces(w.kernel) == Pieces(w.boot) == Pieces(w.stack) == Pieces(TablesOwner(w.tables)) == [] &&
    w.handed.Some? && w.handed.value.tables == frames
  }

  ghost predicate Safe(w: World, frames: seq<int>) {
    frames != [] && TablesSafe(w, frames) && w.attempts <= 2 &&
    (w.stage == TablesReady ==>
      w.tables.Some? && w.tables.value.stage == Reserved && w.tables.value.owner.pieces == frames) &&
    (if w.stage == Crossed then CrossedSafe(w, frames) else w.handed == None && w.attempts == 0)
  }

  lemma CrossSafe(w: World, t: Tables, step: Step, frames: seq<int>)
    requires Safe(w, frames) && w.tables == Some(t) && w.stage == TablesReady && step.call.CrossBoundary?
    ensures Safe(NextTables(w, t, step), frames)
  {
  }

  lemma NextTablesSafe(w: World, t: Tables, step: Step, frames: seq<int>)
    requires Safe(w, frames) && w.tables == Some(t) && w.stage != Crossed && OnTables(step.call)
    ensures Safe(NextTables(w, t, step), frames)
  {
    hide LogDrop, LogRelease, CrossedSafe, Pieces;
    if step.call.CrossBoundary? {
      if w.stage == TablesReady { CrossSafe(w, t, step, frames); }
    } else if step.call.WithStackAndTables? && |t.owner.pieces| == t.planned {
      assert t.owner.pieces == frames;
    }
  }

  lemma CrossedKept(w: World, step: Step, frames: seq<int>)
    requires !OnTables(step.call) && w.stage == Crossed ==> CrossedSafe(w, frames)
    ensures !OnTables(step.call) && w.stage == Crossed ==> CrossedSafe(Next(w, step), frames)
  {
    hide NextTables, LogDrop;
  }

  lemma NextSafe(w: World, step: Step, frames: seq<int>)
    requires Safe(w, frames)
    ensures Safe(Next(w, step), frames)
  {
    hide LogDrop, LogRelease, NextTables, CrossedSafe;
    if OnTables(step.call) {
      TablesStep(w, step);
      if w.tables.Some? && w.stage != Crossed { NextTablesSafe(w, w.tables.value, step, frames); }
    } else {
      CrossedKept(w, step, frames);
    }
  }

  lemma {:induction false} RunSafe(w: World, steps: seq<Step>, frames: seq<int>)
    requires Safe(w, frames)
    ensures Safe(Run(w, steps), frames)
    decreases |steps|
  {
    if steps != [] {
      hide Safe, Next;
      NextSafe(w, steps[0], frames);
      RunSafe(Next(w, steps[0]), steps[1..], frames);
    }
  }

  lemma BeginsSafe(w: World, frames: seq<int>)
    requires Begins(w, frames)
    ensures Safe(w, frames)
  {
  }

  /** In every run, a hierarchy that reaches the handoff state, or is handed over at the boundary, has every
      one of its planned frames: a partial release can never get that far. */
  lemma HandoffHasAllFrames(w: World, steps: seq<Step>, frames: seq<int>)
    requires Begins(w, frames)
    ensures var v := Run(w, steps);
      (v.stage == TablesReady ==> v.tables.Some? && v.tables.value.owner.pieces == frames &&
                                  v.tables.value.planned == |frames|) &&
      (v.stage == Crossed ==> v.handed.Some? && v.handed.value.tables == frames) && v.attempts <= 2
  {
    hide Run;
    BeginsSafe(w, frames);
    RunSafe(w, steps, frames);
  }

  /** A hierarchy that has lost a frame, or is gone. */
  ghost predicate Lost(w: World) {
    w.stage != TablesReady && w.stage != Crossed &&
    (w.tables.Some? ==> |w.tables.value.owner.pieces| < w.tables.value.planned)
  }

  lemma NextLost(w: World, step: Step)
    requires Lost(w)
    ensures Lost(Next(w, step))
  {
    hide LogDrop, LogRelease;
  }

  /** Once frames are lost, no continuation reaches the handoff state or the boundary. */
  lemma {:induction false} LostNeverReady(w: World, steps: seq<Step>)
    requires Lost(w)
    ensures Run(w, steps).stage != TablesReady && Run(w, steps).stage != Crossed
    decreases |steps|
  {
    if steps != [] {
      hide Next;
      NextLost(w, steps[0]);
      LostNeverReady(Next(w, steps[0]), steps[1..]);
    }
  }

  /** Every run keeps count of every allocation: held, freed, leaked or handed over. */
  lemma {:induction false} RunConserves(w: World, steps: seq<Step>, frames: seq<int>, x: int)
    requires Safe(w, frames)
    ensures Account(Run(w, steps), x) == Account(w, x)
    decreases |steps|
  {
    if steps != [] {
      hide Account, Next;
      NextSafe(w, steps[0], frames);
      NextConserves(w, steps[0], x);
      RunConserves(Next(w, steps[0]), steps[1..], frames, x);
    }
  }

  /** An allocation that exists once is successfully freed at most once in the whole run, and never both freed
      and handed over. */
  lemma FreedAtMostOnce(w: World, steps: seq<Step>, frames: seq<int>, x: int)
    requires Safe(w, frames) && Account(w, x) <= 1
    ensures var v := Run(w, steps);
      Count(v.log.freed, x) + Count(v.log.leaked, x) + HandedCount(v.handed, x) <= 1
  {
    hide Run, Safe, Count, HandedCount;
    RunConserves(w, steps, frames, x);
  }

  lemma NextCrossed(w: World, step: Step, frames: seq<int>)
    requires Safe(w, frames) && w.stage == Crossed
    ensures Next(w, step).stage == Crossed && Next(w, step).log == w.log && Next(w, step).handed == w.handed
  {
    hide NextTables;
    NothingDropped(w.log, w.kernel, step.refused);
    NothingDropped(w.log, w.boot, step.refused);
    NothingDropped(w.log, w.stack, step.refused);
    NothingDropped(w.log, TablesOwner(w.tables), step.refused);
  }

  lemma NothingDropped(log: Log, o: Option<Owner>, refused: set<int>)
    requires Pieces(o) == []
    ensures LogDrop(log, o, refused) == log
  {
  }

  /** After the boundary no free is even attempted, whatever is dropped afterwards. */
  lemma {:induction false} NoFreeAfterBoundary(w: World, steps: seq<Step>, frames: seq<int>)
    requires Safe(w, frames) && w.stage == Crossed
    ensures Run(w, steps).log == w.log && Run(w, steps).handed == w.handed && Run(w, steps).stage == Crossed
    decreases |steps|
  {
    if steps != [] {
      hide Safe, Next;
      NextCrossed(w, steps[0], frames);
      NextSafe(w, steps[0], frames);
      NoFreeAfterBoundary(Next(w, steps[0]), steps[1..], frames);
    }
  }

  /** A failing step drops every owner it was given: afterwards they hold nothing, and by conservation their
      allocations have been freed or their free was refused. */
  lemma FailureDropsOwners(w: World, step: Step)
    requires w.stage != Failed && !step.call.Unwind? && Next(w, step).stage == Failed
    ensures var v := Next(w, step);
      v.kernel == None && (step.call.WithBootInformation? || step.call.WithStackAndTables? ==> v.boot == None) &&
      (step.call.WithStackAndTables? ==> v.stack == None && v.tables == None) &&
      (step.call.WithKernel? || step.call.WithBootInformation? || step.call.WithStackAndTables?)
  {
    hide LogDrop, LogRelease;
  }

  /** Unwinding before the boundary leaves nothing held: every allocation has been freed, or was refused by the
      firmware when its owner was dropped. With no refusal nothing new leaks. */
  lemma UnwindLetsAllGo(w: World, refused: set<int>, frames: seq<int>, x: int)
    requires Safe(w, frames) && w.stage != Crossed
    ensures var v := Next(w, Step(Unwind, refused));
      Account(w, x) == Count(v.log.freed, x) + Count(v.log.leaked, x) &&
      (x !in refused ==> Count(v.log.leaked, x) <= Count(w.log.leaked, x))
  {
    hide Count, LogDrop;
    DropAllConserves(w, refused, x);
    CountNone(x);
  }

  // ---- the owners whose checks see complete release only

  /** The three owners besides the hierarchy. */
  datatype Which = KernelImage | BootData | BootStack

  function OwnerAt(w: World, which: Which): Option<Owner> {
    match which
    case KernelImage => w.kernel
    case BootData => w.boot
    case BootStack => w.stack
  }

  function HandedAt(h: Handed, which: Which): seq<int> {
    match which
    case KernelImage => h.kernel
    case BootData => h.boot
    case BootStack => h.stack
  }

  /** The stages in which the caller still has the owner and may release it. */
  predicate Loose(stage: Stage, which: Which) {
    stage == BootServices || (stage == KernelOwned && which != KernelImage) ||
    (stage == ExitReady && which == BootStack)
  }

  /** The call is a release of this owner that frees something. */
  predicate FreesSome(c: Call, which: Which) {
    match which
    case KernelImage => c.ReleaseKernel? && c.frees > 0
    case BootData => c.ReleaseBoot? && c.frees > 0
    case BootStack => c.ReleaseStack? && c.frees > 0
  }

  /** Some step of the run releases part of the owner while the caller still has it. */
  predicate EverReleases(w: World, steps: seq<Step>, which: Which)
    decreases |steps|
  {
    steps != [] && ((Loose(w.stage, which) && FreesSome(steps[0].call, which)) ||
      EverReleases(Next(w, steps[0]), steps[1..], which))
  }

  predicate Lacks(pieces: seq<int>, all: seq<int>, lost: bool) {
    pieces <= all && (all != [] ==> (lost <==> pieces != all))
  }

  /** Up to the boundary the owner holds a prefix of what it started with, all of it exactly when nothing was
      released; a consumed owner is never empty; past the boundary the same is true of what was handed over. */
  ghost predicate Keeps(w: World, which: Which, all: seq<int>, lost: bool) {
    if w.stage == Failed then true
    else if w.stage == Crossed then
      w.handed.Some? && Lacks(HandedAt(w.handed.value, which), all, lost) && HandedAt(w.handed.value, which) != []
    else
      var o := OwnerAt(w, which);
      o.Some? && Lacks(o.value.pieces, all, lost) && (o.value.armed || o.value.pieces == []) &&
      (!Loose(w.stage, which) ==> o.value.pieces != [])
  }

  lemma ReleaseLacks(o: Owner, n: nat, all: seq<int>, lost: bool)
    requires Lacks(o.pieces, all, lost) && (o.armed || o.pieces == [])
    ensures Lacks(Release(o, n).pieces, all, lost || n > 0) && (Release(o, n).armed || Release(o, n).pieces == [])
  {
  }

  lemma KeepsRelease(w: World, step: Step, which: Which, all: seq<int>, lost: bool)
    requires Keeps(w, which, all, lost) &&
      (step.call.ReleaseKernel? || step.call.ReleaseBoot? || step.call.ReleaseStack?)
    ensures Keeps(Next(w, step), which, all, lost || (Loose(w.stage, which) && FreesSome(step.call, which)))
  {
    hide LogRelease, Release, Lacks, NextTables;
    if w.stage != Failed && w.stage != Crossed {
      ReleaseLacks(OwnerAt(w, which).value, step.call.frees, all, lost);
      NothingLost(OwnerAt(w, which).value.pieces, all, lost);
    }
  }

  lemma NothingLost(pieces: seq<int>, all: seq<int>, lost: bool)
    ensures Lacks(pieces, all, lost || false) == Lacks(pieces, all, lost)
  {
  }

  lemma KeepsTables(w: World, t: Tables, step: Step, which: Which, all: seq<int>, lost: bool)
    requires Keeps(w, which, all, lost) && OnTables(step.call) && w.tables == Some(t) && w.stage != Crossed
    ensures Keeps(NextTables(w, t, step), which, all, lost)
  {
    hide LogDrop, LogRelease, Lacks, Release;
  }

  lemma KeepsOther(w: World, step: Step, which: Which, all: seq<int>, lost: bool)
    requires Keeps(w, which, all, lost) && !OnTables(step.call)
    requires !step.call.ReleaseKernel? && !step.call.ReleaseBoot? && !step.call.ReleaseStack?
    ensures Keeps(Next(w, step), which, all, lost)
  {
    hide LogDrop, Lacks, NextTables;
  }

  lemma NextKeeps(w: World, step: Step, which: Which, all: seq<int>, lost: bool)
    requires Keeps(w, which, all, lost)
    ensures Keeps(Next(w, step), which, all, lost || (Loose(w.stage, which) && FreesSome(step.call, which)))
  {
    hide Keeps, Next, NextTables;
    if step.call.ReleaseKernel? || step.call.ReleaseBoot? || step.call.ReleaseStack? {
      KeepsRelease(w, step, which, all, lost);
    } else if OnTables(step.call) {
      TablesStep(w, step);
      if w.tables.Some? && w.stage != Crossed { KeepsTables(w, w.tables.value, step, which, all, lost); }
    } else {
      KeepsOther(w, step, which, all, lost);
    }
  }

  lemma {:induction false} RunKeeps(w: World, steps: seq<Step>, which: Which, all: seq<int>, lost: bool)
    requires Keeps(w, which, all, lost)
    ensures Keeps(Run(w, steps), which, all, lost || EverReleases(w, steps, which))
    decreases |steps|
  {
    if steps != [] {
      hide Keeps, Next, Loose, FreesSome;
      NextKeeps(w, steps[0], which, all, lost);
      RunKeeps(Next(w, steps[0]), steps[1..], which, all, lost ||
        (Loose(w.stage, which) && FreesSome(steps[0].call, which)));
    }
  }

  /** The kernel, boot-data and stack checks look for complete release only. So in every run that crosses the
      boundary something of the owner is handed over, in order from its first allocation, but all of it exactly
      when no release freed any of it while the caller still had it. */
  lemma HandedWholeExactly(w: World, steps: seq<Step>, which: Which, all: seq<int>)
    requires w.stage == BootServices && OwnerAt(w, which) == Some(Owner(all, true))
    ensures var v := Run(w, steps);
      v.stage == Crossed ==>
        v.handed.Some? && HandedAt(v.handed.value, which) != [] && HandedAt(v.handed.value, which) <= all &&
        (HandedAt(v.handed.value, which) == all <==> !EverReleases(w, steps, which))
  {
    hide Run, Next, EverReleases;
    RunKeeps(w, steps, which, all, false);
  }

  /** The stack is one allocation, so for it complete release is the only loss there is: every run that crosses
      hands it over. */
  lemma StackHandedWhole(w: World, steps: seq<Step>, x: int)
    requires w.stage == BootServices && w.stack == Some(Owner([x], true))
    ensures var v := Run(w, steps);
      v.stage == Crossed ==>
        v.handed.Some? && v.handed.value.stack == [x] && !EverReleases(w, steps, BootStack)
  {
    hide Run, EverReleases;
    HandedWholeExactly(w, steps, BootStack, [x]);
  }

  /** A run that frees `n` allocations of the kernel image and `b` of the boot data and then goes through. */
  function LossyRun(n: nat, b: nat, root: int, frames: seq<int>): seq<Step> {
    [Step(ReleaseKernel(n), {}), Step(ReleaseBoot(b), {}), Step(WithKernel(1), {}),
     Step(WithBootInformation(1, true), {}), Step(PrepareActivation(true, root), {}),
     Step(ConfirmReservation(|frames|, root, frames), {}), Step(WithStackAndTables, {}), Step(CrossBoundary, {})]
  }

  /** Kernel image and boot data can reach the boundary with any of their last allocations gone, as long as one is
      left: each such loss is handed over by some run. */
  lemma PartHandedOver(w: World, frames: seq<int>, k: seq<int>, d: seq<int>, s: seq<int>, n: nat, b: nat)
    requires Begins(w, frames) && w.kernel == Some(Owner(k, true)) && w.boot == Some(Owner(d, true))
    requires w.stack == Some(Owner(s, true)) && s != [] && n < |k| && b < |d|
    ensures var v := Run(w, LossyRun(n, b, w.tables.value.root, frames));
      v.stage == Crossed && v.handed == Some(Handed(k[..|k| - n], d[..|d| - b], s, frames)) &&
      v.log.freed == Released(Owner(k, true), n) + Released(Owner(d, true), b)
  {
    hide Run, Next, Released, Release, Holds;
    var run := LossyRun(n, b, w.tables.value.root, frames);
    var w2 := Next(Next(w, run[0]), run[1]);
    PartsReleased(w, k, d, n, b);
    PartHeld(k, n);
    PartHeld(d, b);
    PartHeld(s, 0);
    AcceptedAsOwned(w2, run[2], run[3]);
    var w4 := Next(Next(w2, run[2]), run[3]);
    TablesReserved(w4, run[4], run[5], frames);
    var w6 := Next(Next(w4, run[4]), run[5]);
    GoesThrough(w6, run[6], run[7], frames);
    RunEight(w, run);
  }

  lemma PartsReleased(w: World, k: seq<int>, d: seq<int>, n: nat, b: nat)
    requires w.stage == BootServices && w.kernel == Some(Owner(k, true)) && w.boot == Some(Owner(d, true))
    ensures var v := Next(Next(w, Step(ReleaseKernel(n), {})), Step(ReleaseBoot(b), {}));
      v.kernel == Some(Release(Owner(k, true), n)) && v.boot == Some(Release(Owner(d, true), b)) &&
      v == w.(kernel := v.kernel, boot := v.boot, log := v.log) &&
      v.log.freed == w.log.freed + Released(Owner(k, true), n) + Released(Owner(d, true), b)
  {
    hide Released, Release, ReleaseAttempts;
  }

  lemma AcceptedAsOwned(w: World, kernel: Step, boot: Step)
    requires w.stage == BootServices && !IsReleased(w.kernel) && !IsReleased(w.boot)
    requires kernel.call == WithKernel(1) && boot.call == WithBootInformation(1, true)
    ensures Next(Next(w, kernel), boot) == w.(stage := ExitReady)
  {
  }

  lemma TablesReserved(w: World, prepare: Step, confirm: Step, frames: seq<int>)
    requires w.stage == ExitReady && w.tables.Some? && w.tables.value.stage == Verified
    requires w.tables.value.owner.pieces == frames
    requires prepare.call == PrepareActivation(true, w.tables.value.root)
    requires confirm.call == ConfirmReservation(|frames|, w.tables.value.root, frames)
    ensures Next(Next(w, prepare), confirm) == w.(tables := Some(w.tables.value.(stage := Reserved)))
  {
  }

  lemma GoesThrough(w: World, hand: Step, cross: Step, frames: seq<int>)
    requires w.stage == ExitReady && !IsReleased(w.stack) && w.tables.Some? && w.tables.value.stage == Reserved
    requires frames != [] && w.tables.value.planned == |frames| && w.tables.value.owner == Owner(frames, true)
    requires hand.call == WithStackAndTables && cross.call == CrossBoundary
    ensures var v := Next(Next(w, hand), cross);
      v.stage == Crossed && v.log == w.log &&
      v.handed == Some(Handed(Pieces(w.kernel), Pieces(w.boot), Pieces(w.stack), frames))
  {
    hide DropAll;
  }

  lemma PartHeld(all: seq<int>, n: nat)
    requires n < |all|
    ensures Release(Owner(all, true), n) == Owner(all[..|all| - n], true) && all[..|all| - n] != []
    ensures Holds(Owner(all, true)) == all && Holds(Owner(all[..|all| - n], true)) == all[..|all| - n]
  {
  }

  lemma RunEight(w: World, r: seq<Step>)
    requires |r| == 8
    ensures Run(w, r) == Next(Next(Next(Next(Next(Next(Next(Next(w,
      r[0]), r[1]), r[2]), r[3]), r[4]), r[5]), r[6]), r[7])
  {
    hide Next;
    RunFour(w, r);
    var w4 := Next(Next(Next(Next(w, r[0]), r[1]), r[2]), r[3]);
    RunFour(w4, r[4..]);
    assert r[4..][4..] == [];
  }

  lemma RunFour(w: World, r: seq<Step>)
    requires |r| >= 4
    ensures Run(w, r) == Run(Next(Next(Next(Next(w, r[0]), r[1]), r[2]), r[3]), r[4..])
  {
    hide Next;
    var w1 := Next(w, r[0]);
    var w2 := Next(w1, r[1]);
    var w3 := Next(w2, r[2]);
    assert r[1..][1..] == r[2..] && r[2..][1..] == r[3..] && r[3..][1..] == r[4..];
    assert Run(w1, r[1..]) == Run(w2, r[2..]);
    assert Run(w2, r[2..]) == Run(w3, r[3..]);
  }

  /** The kernel check by itself: it accepts exactly an owner with something left, so a kernel with one of two
      segments freed passes. */
  lemma KernelCheckExact(w: World, segments: nat, refused: set<int>)
    requires w.stage == BootServices && w.kernel.Some?
    ensures Next(w, Step(WithKernel(segments), refused)).stage == KernelOwned <==>
      w.kernel.value.pieces != [] && segments > 0
    ensures w.kernel.value.armed && |w.kernel.value.pieces| >= 2 && segments > 0 ==>
      var v := Next(w, Step(ReleaseKernel(1), {}));
      v.log.freed != w.log.freed && Next(v, Step(WithKernel(segments), refused)).stage == KernelOwned
  {
    hide NextTables, LogDrop;
    if w.kernel.value.armed && |w.kernel.value.pieces| >= 2 { LastLetGo(w.kernel.value); }
  }

  /** The boot-information check likewise. */
  lemma BootCheckExact(w: World, descriptors: nat, wellFormed: bool, refused: set<int>)
    requires w.stage == KernelOwned && w.boot.Some?
    ensures Next(w, Step(WithBootInformation(descriptors, wellFormed), refused)).stage == ExitReady <==>
            w.boot.value.pieces != [] && descriptors > 0 && wellFormed
    ensures w.boot.value.armed && |w.boot.value.pieces| >= 2 && descriptors > 0 && wellFormed ==>
      var v := Next(w, Step(ReleaseBoot(1), {}));
      v.log.freed != w.log.freed && Next(v, Step(WithBootInformation(descriptors, wellFormed), refused)).stage ==
        ExitReady
  {
    hide NextTables, LogDrop;
    if w.boot.value.armed && |w.boot.value.pieces| >= 2 { LastLetGo(w.boot.value); }
  }

  lemma LastLetGo(o: Owner)
    requires o.armed && |o.pieces| >= 2
    ensures |Released(o, 1)| == 1
  {
  }

  // ---- exit attempts

  class ExitRetryPolicy {
    var attempts: nat

    constructor ()
      ensures attempts == 0
    {
      attempts := 0;
    }

    method BeginAttempt() returns (granted: bool)
      modifies this
      ensures granted == (old(attempts) != 2) && attempts == if granted then old(attempts) + 1 else old(attempts)
    {
      if attempts == 2 { return false; }
      attempts := attempts + 1;
      return true;
    }
  }

  /** However often an attempt is requested, at most two are granted. */
  method RequestAttempts(requests: nat) returns (granted: nat)
    ensures granted == Min(requests, 2)
  {
    var policy := new ExitRetryPolicy();
    granted := 0;
    for i := 0 to requests
      invariant policy.attempts == granted == Min(i, 2)
    {
      var ok := policy.BeginAttempt();
      if ok { granted := granted + 1; }
    }
  }
}
