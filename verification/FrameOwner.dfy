/** Rollback-safe ownership of page-table frames supplied by a backend that may fail at any call. */
module FrameOwner {
  import opened Prelude
  import opened Counting
  import opened PageTablePlan
  import opened MappingPages
  import opened Owners

  /** Allocates, zeroes and frees one frame at a time. `live` holds what has been allocated and not freed;
      freeing anything else is ruled out by the precondition of `FreeFrame`. */
  class FrameBackend {
    ghost var live: set<int>
    ghost var zeroed: set<int>
    ghost var freed: seq<int>
    ghost var attempts: seq<int>
    ghost var failures: nat

    method AllocateFrame() returns (r: Option<U64>)
      modifies this`live, this`zeroed
      ensures live == if r.Some? then old(live) + {r.value} else old(live)
      ensures zeroed == if r.Some? then old(zeroed) - {r.value} else old(zeroed)
    {
      var ok: bool := *;
      if !ok { return None; }
      var address: U64 := *;
      live, zeroed := live + {address}, zeroed - {address};
      return Some(address);
    }

    method ZeroFrame(frame: U64) returns (ok: bool)
      requires frame in live
      modifies this`zeroed
      ensures zeroed == if ok then old(zeroed) + {frame} else old(zeroed)
    {
      ok := *;
      if ok { zeroed := zeroed + {frame}; }
    }

    /** A free may fail; a successful one ends the life of the allocation. */
    method FreeFrame(address: U64) returns (ok: bool)
      requires address in live
      modifies this`live, this`freed, this`attempts, this`failures
      ensures attempts == old(attempts) + [address]
      ensures live == if ok then old(live) - {address} else old(live)
      ensures freed == if ok then old(freed) + [address] else old(freed)
      ensures failures == if ok then old(failures) else old(failures) + 1
    {
      ok := *;
      attempts := attempts + [address];
      if ok { live, freed := live - {address}, freed + [address]; } else { failures := failures + 1; }
    }
  }

  datatype Cause =
    | Allocation(slot: nat) | Zeroing(slot: nat) | InvalidFrame(slot: nat, error: PlanError)
    | DuplicateFrame(slot: nat, earlier: nat) | PlannedFrameCountExceedsCapacity

  /** What is tracked is exactly what is live. */
  ghost predicate Tracks(tracked: seq<int>, live: set<int>) { Distinct(tracked) && Elements(tracked) == live }

  lemma TracksMeans(tracked: seq<int>, live: set<int>)
    ensures Tracks(tracked, live) <==> Distinct(tracked) && Elements(tracked) == live
    ensures Elements(tracked[..0]) == {} && tracked[0..] == tracked == tracked[..|tracked|]
    ensures Reversed(tracked[|tracked|..]) == []
  {
  }

  lemma DropLast(tracked: seq<int>, live: set<int>)
    requires Tracks(tracked, live) && tracked != []
    ensures tracked[|tracked| - 1] in live
    ensures Tracks(tracked[..|tracked| - 1], live - {tracked[|tracked| - 1]})
  {
    var front, last := tracked[..|tracked| - 1], tracked[|tracked| - 1];
    assert tracked == front + [last];
  }

  lemma AddLast(tracked: seq<int>, live: set<int>, x: int)
    requires Tracks(tracked, live) && x !in tracked
    ensures Tracks(tracked + [x], live + {x})
  {
  }

  lemma LastOfPrefix(all: seq<int>, n: nat)
    requires 0 < n <= |all| && Distinct(all)
    ensures all[n - 1] in Elements(all[..n]) && Elements(all[..n - 1]) == Elements(all[..n]) - {all[n - 1]}
  {
    assert all[..n] == all[..n - 1] + [all[n - 1]];
    assert all[n - 1] !in all[..n - 1];
  }

  /** The release loop both owners run: frees from the last frame down and stops at the first failure. */
  method ReleaseFrames(backend: FrameBackend, frames: array<U64>, len: nat) returns (left: nat)
    requires len <= frames.Length && Tracks(frames[..len], backend.live)
    modifies backend`live, backend`freed, backend`attempts, backend`failures
    ensures left <= len && Tracks(frames[..left], backend.live)
    ensures backend.failures == old(backend.failures) + if left == 0 then 0 else 1
    ensures var o := Owner(frames[..len], true);
      Owner(frames[..left], left != 0) == Release(o, len - left) &&
      backend.freed == old(backend.freed) + Released(o, len - left) &&
      backend.attempts == old(backend.attempts) + ReleaseAttempts(o, len - left)
  {
    hide *;
    ghost var all: seq<int> := frames[..len];
    TracksMeans(all, backend.live);
    left := len;
    while left != 0
      invariant left <= len && Tracks(frames[..left], backend.live) && backend.failures == old(backend.failures)
      invariant backend.freed == old(backend.freed) + Reversed(all[left..])
      invariant backend.attempts == old(backend.attempts) + Reversed(all[left..])
    {
      assert frames[..left] == all[..left] && frames[..left][..left - 1] == frames[..left - 1];
      DropLast(frames[..left], backend.live);
      ReversedStep(all, left);
      var ok := backend.FreeFrame(frames[left - 1]);
      if !ok {
        ReleasedSo(all, left);
        return;
      }
      left := left - 1;
    }
    ReleasedSo(all, 0);
  }

  lemma ReleasedSo(all: seq<int>, left: nat)
    requires left <= |all|
    ensures var o := Owner(all, true); var n := |all| - left;
      Release(o, n) == Owner(all[..left], left != 0) && Released(o, n) == Reversed(all[left..]) &&
      ReleaseAttempts(o, n) == Reversed(all[left..]) + if left == 0 then [] else [all[left - 1]]
  {
    hide Reversed;
    if left == 0 { assert all[0..] == all && all[..0] == []; }
  }

  /** The drop loop both owners run: attempts every free once and remembers nothing. */
  method DropFrames(backend: FrameBackend, frames: array<U64>, len: nat) returns (ghost refused: set<int>)
    requires len <= frames.Length && Tracks(frames[..len], backend.live)
    modifies backend`live, backend`freed, backend`attempts, backend`failures
    ensures backend.live == refused <= old(backend.live) &&
      (backend.failures == old(backend.failures) <==> refused == {})
    ensures var o := Owner(frames[..len], true);
      backend.freed == old(backend.freed) + DropFreed(o, refused) &&
      backend.attempts == old(backend.attempts) + DropAttempts(o)
  {
    hide Tracks, Distinct, Elements, Reversed, Allowed;
    ghost var all: seq<int> := frames[..len];
    TracksMeans(all, backend.live);
    refused := {};
    DropStart(all);
    var left := len;
    while left != 0
      invariant left <= len && DropProgress(all, left, refused, backend.live)
      invariant backend.attempts == old(backend.attempts) + Reversed(all[left..])
      invariant backend.freed == old(backend.freed) + Allowed(Reversed(all[left..]), refused)
      invariant backend.failures >= old(backend.failures) &&
        (backend.failures == old(backend.failures) <==> refused == {})
    {
      DropNext(all, left, refused, backend.live);
      assert frames[left - 1] == all[left - 1];
      var ok := backend.FreeFrame(frames[left - 1]);
      if !ok { refused := refused + {all[left - 1]}; }
      left := left - 1;
    }
    DropEnd(all, refused, backend.live);
  }

  /** What is live: the frames still to be attempted and the refused ones among the rest. */
  ghost predicate DropProgress(all: seq<int>, left: nat, refused: set<int>, live: set<int>) {
    left <= |all| && Distinct(all) && refused <= Elements(all[left..]) && live == Elements(all[..left]) + refused
  }

  lemma DropStart(all: seq<int>)
    ensures Distinct(all) ==> DropProgress(all, |all|, {}, Elements(all))
    ensures Reversed(all[|all|..]) == [] && Allowed([], {}) == []
  {
    assert all[..|all|] == all;
  }

  lemma DropNext(all: seq<int>, left: nat, refused: set<int>, live: set<int>)
    requires DropProgress(all, left, refused, live) && left > 0
    ensures var x := all[left - 1];
      x in live && DropProgress(all, left - 1, refused, live - {x}) &&
      DropProgress(all, left - 1, refused + {x}, live) &&
      Reversed(all[left - 1..]) == Reversed(all[left..]) + [x] &&
      Allowed(Reversed(all[left - 1..]), refused) == Allowed(Reversed(all[left..]), refused) + [x] &&
      Allowed(Reversed(all[left - 1..]), refused + {x}) == Allowed(Reversed(all[left..]), refused)
  {
    hide Reversed, Allowed;
    var x := all[left - 1];
    LastOfPrefix(all, left);
    assert all[left - 1..] == [x] + all[left..];
    ReversedStep(all, left);
    ReversedMember(all[left..], x);
    assert x !in all[left..];
    AllowedSnoc(Reversed(all[left..]), x, refused);
    AllowedSnoc(Reversed(all[left..]), x, refused + {x});
    AllowedWithout(Reversed(all[left..]), refused, x);
  }

  lemma DropEnd(all: seq<int>, refused: set<int>, live: set<int>)
    requires DropProgress(all, 0, refused, live)
    ensures live == refused <= Elements(all) && all[0..] == all
  {
    assert Elements(all[..0]) == {};
  }

  class IncompleteFrameOwner {
    const backend: FrameBackend
    const frames: array<U64>
    var len: nat

    ghost predicate Valid()
      reads this, frames, backend
    {
      len <= frames.Length && Tracks(frames[..len], backend.live)
    }

    constructor (backend: FrameBackend, capacity: nat)
      requires backend.live == {}
      ensures Valid() && len == 0 && this.backend == backend && fresh(frames) && frames.Length == capacity
    {
      this.backend := backend;
      frames := new U64[capacity];
      len := 0;
    }

    ghost function View(): Owner
      requires len <= frames.Length
      reads this, frames
    {
      Owner(frames[..len], len != 0)
    }

    /** Frees from the last frame down; a failure stops it with the rest still tracked. */
    method TryRelease() returns (r: Result<(), nat>)
      requires Valid()
      modifies this`len, backend`live, backend`freed, backend`attempts, backend`failures
      ensures Valid() && len <= old(len)
      ensures var n := old(len) - len;
        View() == Release(old(View()), n) && backend.freed == old(backend.freed) + Released(old(View()), n) &&
        backend.attempts == old(backend.attempts) + ReleaseAttempts(old(View()), n)
      ensures r == if len == 0 then Ok(()) else Err(len)
      ensures backend.failures == old(backend.failures) + if r.Ok? then 0 else 1
    {
      hide Tracks;
      len := ReleaseFrames(backend, frames, len);
      return if len == 0 then Ok(()) else Err(len);
    }

    /** Going out of scope attempts every free once, from the last frame down, and keeps nothing tracked. */
    method Drop() returns (ghost refused: set<int>)
      requires Valid()
      modifies this`len, backend`live, backend`freed, backend`attempts, backend`failures
      ensures len == 0 && backend.live == refused <= old(backend.live)
      ensures backend.attempts == old(backend.attempts) + DropAttempts(old(View()))
      ensures backend.freed == old(backend.freed) + DropFreed(old(View()), refused)
      ensures backend.failures == old(backend.failures) <==> refused == {}
    {
      hide Tracks;
      refused := DropFrames(backend, frames, len);
      len := 0;
    }

    method Push(address: U64)
      requires len < frames.Length && Distinct(frames[..len]) && address !in frames[..len]
      requires backend.live == Elements(frames[..len]) + {address}
      modifies this`len, frames
      ensures Valid() && frames[..len] == old(frames[..len]) + [address]
    {
      ghost var all := frames[..len];
      AddLast(all, Elements(all), address);
      frames[len] := address;
      len := len + 1;
      assert frames[..len] == all + [address];
    }

    ghost predicate Ready()
      reads this, frames, backend
    {
      Valid() && forall i | 0 <= i < len :: NewFrame(frames[i]).Ok? && frames[i] in backend.zeroed
    }

    method FindEarlier(address: U64) returns (k: nat)
      requires len <= frames.Length
      ensures k <= len && address !in frames[..k] && (k < len ==> frames[k] == address)
    {
      k := 0;
      while k < len && frames[k] != address
        invariant k <= len && address !in frames[..k]
      {
        k := k + 1;
      }
    }

    /** Acquires one frame: allocated, not yet owned, valid and zeroed. Whatever happens, what is tracked
        is what is live. */
    method Acquire(slot: nat) returns (cause: Option<Cause>)
      requires Ready() && len < frames.Length
      modifies this`len, frames, backend`live, backend`zeroed
      ensures Valid() && old(len) <= len <= old(len) + 1
      ensures cause.None? ==> Ready() && len == old(len) + 1 && frames[..len] == old(frames[..len]) + [frames[len - 1]]
      ensures cause.Some? ==> !cause.value.PlannedFrameCountExceedsCapacity? && cause.value.slot == slot
    {
      ghost var all, live := frames[..len], backend.live;
      var address := backend.AllocateFrame();
      match address
      case None => return Some(Allocation(slot));
      case Some(a) =>
        var earlier := FindEarlier(a);
        if earlier < len {
          assert a in all && backend.live == live;
          return Some(DuplicateFrame(slot, earlier));
        }
        assert backend.live == Elements(all) + {a};
        match NewFrame(a)
        case Err(error) =>
          Push(a);
          return Some(InvalidFrame(slot, error));
        case Ok(frame) =>
          Push(a);
          var ok := backend.ZeroFrame(frame);
          if !ok { return Some(Zeroing(slot)); }
          forall i | 0 <= i < len ensures NewFrame(frames[i]).Ok? && frames[i] in backend.zeroed {
            assert frames[i] == (all + [a])[i];
            if i < |all| { assert all[i] in old(backend.zeroed); }
          }
          return None;
    }
  }

  datatype BuildError = BuildError(cause: Cause, owner: IncompleteFrameOwner)

  /** The frames of a complete hierarchy, one per table, the first being the root. */
  class PageTableFrameOwner {
    const backend: FrameBackend
    const frames: array<U64>
    const root: U64
    var len: nat
    var owned: bool

    ghost predicate Valid()
      reads this, frames, backend
    {
      len <= frames.Length && (owned ==> Tracks(frames[..len], backend.live)) &&
      (forall i | 0 <= i < len :: NewFrame(frames[i]).Ok?) && (len > 0 ==> frames[0] == root)
    }

    constructor (partial: IncompleteFrameOwner)
      requires partial.Ready() && partial.len > 0
      ensures Valid() && owned && backend == partial.backend && fresh(frames)
      ensures frames[..len] == partial.frames[..partial.len]
    {
      backend := partial.backend;
      var copy := new U64[partial.frames.Length](i requires 0 <= i < partial.frames.Length reads partial.frames =>
        partial.frames[i]);
      frames := copy;
      root := partial.frames[0];
      len := partial.len;
      owned := true;
      new;
      assert frames[..len] == partial.frames[..partial.len];
    }

    ghost predicate Complete(count: nat)
      reads this, frames, backend
    {
      Valid() && owned && len == count && forall i | 0 <= i < len :: frames[i] in backend.zeroed
    }

    /** Allocates one zeroed frame per planned table, or rolls back: every failure leaves an owner of
        exactly the allocations that are still live. */
    static method Allocate(count: nat, capacity: nat, backend: FrameBackend)
      returns (r: Result<PageTableFrameOwner, BuildError>)
      requires count > 0 && backend.live == {}
      modifies backend
      ensures r.Ok? ==> fresh(r.value) && r.value.Complete(count) && r.value.backend == backend &&
                        backend.failures == old(backend.failures)
      ensures r.Err? ==> fresh(r.error.owner) && r.error.owner.Valid() && r.error.owner.backend == backend
      ensures r.Err? && backend.failures == old(backend.failures) ==> backend.live == {}
      ensures count > capacity <==> r.Err? && r.error.cause == PlannedFrameCountExceedsCapacity
    {
      var partial := new IncompleteFrameOwner(backend, capacity);
      if count > capacity { return Err(BuildError(PlannedFrameCountExceedsCapacity, partial)); }
      for slot := 0 to count
        invariant partial.Ready() && partial.len == slot && backend.failures == old(backend.failures)
      {
        var cause := partial.Acquire(slot);
        match cause
        case None =>
        case Some(c) =>
          var _ := partial.TryRelease();
          return Err(BuildError(c, partial));
      }
      var owner := new PageTableFrameOwner(partial);
      partial.len := 0;
      return Ok(owner);
    }

    ghost function View(): Owner
      requires len <= frames.Length
      reads this, frames
    {
      Owner(frames[..len], owned)
    }

    /** Frees from the last frame down while owned; retrying after a failure continues where it stopped. */
    method TryRelease() returns (r: Result<(), nat>)
      requires Valid()
      modifies this, backend`live, backend`freed, backend`attempts, backend`failures
      ensures Valid() && len <= old(len)
      ensures var n := old(len) - len;
        View() == Release(old(View()), n) && backend.freed == old(backend.freed) + Released(old(View()), n) &&
        backend.attempts == old(backend.attempts) + ReleaseAttempts(old(View()), n)
      ensures r == if !old(owned) || len == 0 then Ok(()) else Err(len)
      ensures backend.failures == old(backend.failures) + if r.Ok? then 0 else 1
      ensures !old(owned) ==> len == old(len) && unchanged(backend)
    {
      hide Tracks, NewFrame, Reversed;
      if owned {
        len := ReleaseFrames(backend, frames, len);
        if len != 0 { return Err(len); }
      }
      if len == 0 { owned := false; }
      return Ok(());
    }

    /** Hands the frames over; from here on nothing is ever freed. */
    method Transfer() returns (transferred: seq<U64>, top: U64)
      requires Valid()
      modifies this`owned
      ensures Valid() && View() == old(View()).(armed := false) && transferred == frames[..len] && top == root
    {
      owned := false;
      return frames[..len], root;
    }

    /** Going out of scope attempts every free once, from the last frame down, and keeps nothing tracked. */
    method Drop() returns (ghost refused: set<int>)
      requires Valid()
      modifies this, backend`live, backend`freed, backend`attempts, backend`failures
      ensures !old(owned) ==> unchanged(backend) && len == old(len)
      ensures old(owned) ==> len == 0 && !owned && backend.live == refused <= old(backend.live)
      ensures backend.attempts == old(backend.attempts) + DropAttempts(old(View()))
      ensures backend.freed == old(backend.freed) + DropFreed(old(View()), refused)
      ensures backend.failures == old(backend.failures) <==> refused == {}
    {
      hide Tracks, NewFrame;
      refused := {};
      if !owned { return; }
      refused := DropFrames(backend, frames, len);
      len, owned := 0, false;
    }
  }
}
