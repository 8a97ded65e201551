/** Ownership of page ranges by flags: the kernel's segment targets and the boot-data allocations. */
module RangeOwner {
  import opened Prelude
  import opened Owners

  datatype PageRange = PageRange(start: U64, count: U64)

  datatype ReleaseError = ReleaseError(index: nat, remaining: nat)

  /** Allocates page ranges at given addresses; `live` holds what has been allocated and not freed, and
      nothing else may be freed. */
  class PageBackend {
    ghost var live: multiset<PageRange>
    ghost var freed: seq<PageRange>
    ghost var attempts: seq<PageRange>
    ghost var failures: nat

    method AllocateAt(range: PageRange) returns (ok: bool)
      modifies this`live
      ensures live == if ok then old(live) + multiset{range} else old(live)
    {
      ok := *;
      if ok { live := live + multiset{range}; }
    }

    method Free(range: PageRange) returns (ok: bool)
      requires range in live
      modifies this
      ensures attempts == old(attempts) + [range]
      ensures live == if ok then old(live) - multiset{range} else old(live)
      ensures freed == if ok then old(freed) + [range] else old(freed)
      ensures failures == if ok then old(failures) else old(failures) + 1
    {
      ok := *;
      attempts := attempts + [range];
      if ok { live, freed := live - multiset{range}, freed + [range]; } else { failures := failures + 1; }
    }
  }

  /** The ranges whose flag is set. */
  ghost function Held(items: seq<PageRange>, owned: seq<bool>): multiset<PageRange>
    requires |items| == |owned|
  {
    if items == [] then multiset{}
    else Held(items[1..], owned[1..]) + if owned[0] then multiset{items[0]} else multiset{}
  }

  /** The held ranges from index `n` on, last one first. */
  ghost function HeldFrom(items: seq<PageRange>, owned: seq<bool>, n: nat): seq<PageRange>
    requires n <= |items| == |owned|
    decreases |items| - n
  {
    if n == |items| then [] else HeldFrom(items, owned, n + 1) + if owned[n] then [items[n]] else []
  }

  /** The held indices below `n`, in ascending order. */
  ghost function HeldBelow(owned: seq<bool>, n: nat): (r: seq<int>)
    requires n <= |owned|
    ensures |r| <= n && forall k | 0 <= k < |r| :: 0 <= r[k] < n
  {
    if n == 0 then [] else HeldBelow(owned, n - 1) + if owned[n - 1] then [n - 1] else []
  }

  /** The owner as a value: its held indices, in order. */
  ghost function OwnerOf(owned: seq<bool>): Owner {
    var held := HeldBelow(owned, |owned|);
    Owner(held, held != [])
  }

  function CountOwned(owned: seq<bool>): nat {
    if owned == [] then 0 else CountOwned(owned[1..]) + if owned[0] then 1 else 0
  }

  lemma {:induction false} SetFlag(items: seq<PageRange>, owned: seq<bool>, i: nat)
    requires i < |items| == |owned| && !owned[i]
    ensures Held(items, owned[i := true]) == Held(items, owned) + multiset{items[i]}
  {
    var owned' := owned[i := true];
    if i == 0 {
      assert owned'[1..] == owned[1..];
    } else {
      SetFlag(items[1..], owned[1..], i - 1);
      assert owned'[1..] == owned[1..][i - 1 := true];
    }
  }

  lemma ClearFlag(items: seq<PageRange>, owned: seq<bool>, i: nat)
    requires i < |items| == |owned| && owned[i]
    ensures items[i] in Held(items, owned) && Held(items, owned[i := false]) == Held(items, owned) - multiset{items[i]}
  {
    SetFlag(items, owned[i := false], i);
    assert owned[i := false][i := true] == owned;
  }

  lemma {:induction false} NoneHeld(items: seq<PageRange>, owned: seq<bool>)
    requires |items| == |owned| && forall i | 0 <= i < |owned| :: !owned[i]
    ensures Held(items, owned) == multiset{} && CountOwned(owned) == 0
  {
    if items != [] { NoneHeld(items[1..], owned[1..]); }
  }

  lemma {:induction false} CountsHeld(items: seq<PageRange>, owned: seq<bool>)
    requires |items| == |owned|
    ensures |Held(items, owned)| == CountOwned(owned)
  {
    if items != [] { CountsHeld(items[1..], owned[1..]); }
  }

  class RangeOwner {
    const backend: PageBackend
    const items: seq<PageRange>
    const owned: array<bool>

    /** What is flagged is exactly what is live. */
    ghost predicate Valid()
      reads this, owned, backend
    {
      owned.Length == |items| && backend.live == Held(items, owned[..])
    }

    constructor (backend: PageBackend, items: seq<PageRange>)
      requires backend.live == multiset{}
      ensures Valid() && this.backend == backend && this.items == items && fresh(owned)
      ensures forall i | 0 <= i < owned.Length :: !owned[i]
    {
      this.backend := backend;
      this.items := items;
      var flags := new bool[|items|](_ => false);
      NoneHeld(items, flags[..]);
      owned := flags;
    }

    /** Allocates item `i` at its own address and flags it. */
    method Allocate(i: nat) returns (ok: bool)
      requires Valid() && i < |items| && !owned[i]
      modifies owned, backend`live
      ensures Valid() && owned[..] == if ok then old(owned[..])[i := true] else old(owned[..])
    {
      SetFlag(items, owned[..], i);
      ok := backend.AllocateAt(items[i]);
      if ok {
        owned[i] := true;
        assert owned[..] == old(owned[..])[i := true];
      }
    }

    method Remaining() returns (n: nat)
      requires Valid()
      ensures n == CountOwned(owned[..]) == |backend.live|
    {
      CountsHeld(items, owned[..]);
      return CountOwned(owned[..]);
    }

    /** Frees item `i` if it is held. */
    method ReleaseOne(i: nat) returns (ok: bool)
      requires Valid() && i < |items|
      modifies owned, backend
      ensures Valid() && owned[..] == if ok then old(owned[..])[i := false] else old(owned[..])
      ensures !ok ==> owned[i]
      ensures var held := if old(owned[i]) then [items[i]] else [];
        backend.attempts == old(backend.attempts) + held &&
        backend.freed == old(backend.freed) + if ok then held else []
      ensures backend.failures == if ok then old(backend.failures) else old(backend.failures) + 1
    {
      hide Held;
      if !owned[i] {
        assert owned[..] == owned[..][i := false];
        return true;
      }
      ClearFlag(items, owned[..], i);
      ok := backend.Free(items[i]);
      if ok {
        owned[i] := false;
        assert owned[..] == old(owned[..])[i := false];
      }
    }

    /** Frees flagged ranges from the last down; a failure stops it, flags untouched from there on. */
    method TryRelease() returns (r: Result<(), ReleaseError>)
      requires Valid()
      modifies owned, backend
      ensures Valid()
      ensures var stop := if r.Ok? then 0 else r.error.index + 1;
        stop <= |items| && backend.freed == old(backend.freed) + HeldFrom(items, old(owned[..]), stop) &&
        forall k | 0 <= k < |items| :: owned[k] == (k < stop && old(owned[k]))
      ensures Follows(items, old(owned[..]), owned[..], old(backend.freed), backend.freed, old(backend.attempts),
        backend.attempts)
      ensures r.Ok? ==> backend.live == multiset{} && backend.failures == old(backend.failures)
      ensures r.Err? ==> owned[r.error.index] && r.error.remaining == |backend.live| &&
                         backend.failures == old(backend.failures) + 1
    {
      hide Held, HeldFrom, CountOwned, Follows;
      ghost var was := owned[..];
      var n: nat := |items|;
      FromEnd(items, was);
      while n > 0
        invariant n <= |items| && Valid() && backend.failures == old(backend.failures)
        invariant backend.freed == old(backend.freed) + HeldFrom(items, was, n)
        invariant backend.attempts == old(backend.attempts) + HeldFrom(items, was, n)
        invariant forall k | 0 <= k < |items| :: owned[k] == (k < n && was[k])
      {
        FromStep(items, was, n);
        ghost var now := owned[..];
        var ok := ReleaseOne(n - 1);
        assert owned[..] == if ok then now[n - 1 := false] else now;
        if !ok {
          var left := Remaining();
          ReleaseFollows(items, was, owned[..], n, old(backend.freed), old(backend.attempts));
          return Err(ReleaseError(n - 1, left));
        }
        n := n - 1;
      }
      NoneHeld(items, owned[..]);
      ReleaseFollows(items, was, owned[..], 0, old(backend.freed), old(backend.attempts));
      return Ok(());
    }

    /** Going out of scope attempts every held range once, last first, and keeps a flag only where the
        free failed. */
    method Drop() returns (ghost refused: set<int>)
      requires Valid()
      modifies owned, backend
      ensures Valid()
      ensures forall k | 0 <= k < |items| :: owned[k] == (old(owned[k]) && k in refused)
      ensures backend.attempts == old(backend.attempts) + RangesOf(items, DropAttempts(OwnerOf(old(owned[..]))))
      ensures backend.freed == old(backend.freed) + RangesOf(items, DropFreed(OwnerOf(old(owned[..])), refused))
      ensures OwnerOf(owned[..]).pieces == Refused(OwnerOf(old(owned[..])).pieces, refused)
      ensures backend.failures == old(backend.failures) <==> refused == {}
      ensures refused == {} ==> backend.live == multiset{}
    {
      hide Held, HeldFrom, HeldBut, OwnerOf;
      ghost var was := owned[..];
      refused := {};
      var n: nat := |items|;
      FromEnd(items, was);
      while n > 0
        invariant n <= |items| && Valid() && backend.failures >= old(backend.failures)
        invariant backend.attempts == old(backend.attempts) + HeldFrom(items, was, n)
        invariant backend.freed == old(backend.freed) + HeldBut(items, was, refused, n)
        invariant forall k | k in refused :: n <= k < |items| && was[k]
        invariant forall k | 0 <= k < |items| :: owned[k] == (was[k] && (k < n || k in refused))
        invariant backend.failures == old(backend.failures) <==> refused == {}
      {
        FromStep(items, was, n);
        ButStep(items, was, refused, n);
        ghost var now := owned[..];
        var ok := ReleaseOne(n - 1);
        assert owned[..] == if ok then now[n - 1 := false] else now;
        if !ok { refused := refused + {n - 1}; }
        n := n - 1;
      }
      DropFollows(items, was, owned[..], refused);
      if refused == {} { NoneHeld(items, owned[..]); }
    }
  }

  // ---- the flags follow the steps on values

  /** The ranges at these indices, those out of bounds left out. */
  ghost function RangesOf(items: seq<PageRange>, indices: seq<int>): seq<PageRange> {
    if indices == [] then []
    else var front, i := indices[..|indices| - 1], indices[|indices| - 1];
      RangesOf(items, front) + if 0 <= i < |items| then [items[i]] else []
  }

  lemma RangesSnoc(items: seq<PageRange>, s: seq<int>, i: int)
    ensures RangesOf(items, s + [i]) == RangesOf(items, s) + if 0 <= i < |items| then [items[i]] else []
  {
    assert (s + [i])[..|s|] == s;
  }

  /** Some number of frees, taken from the end, explains the new flags and both logs. */
  ghost predicate Follows(items: seq<PageRange>, was: seq<bool>, now: seq<bool>, freed: seq<PageRange>,
                          freed': seq<PageRange>,
                          attempts: seq<PageRange>, attempts': seq<PageRange>) {
    exists n: nat ::
      OwnerOf(now) == Release(OwnerOf(was), n) && freed' == freed + RangesOf(items, Released(OwnerOf(was), n)) &&
      attempts' == attempts + RangesOf(items, ReleaseAttempts(OwnerOf(was), n))
  }

  /** The held ranges from index `n` on that were not refused, last one first. */
  ghost function HeldBut(items: seq<PageRange>, owned: seq<bool>, refused: set<int>, n: nat): seq<PageRange>
    requires n <= |items| == |owned|
    decreases |items| - n
  {
    if n == |items| then []
    else HeldBut(items, owned, refused, n + 1) + if owned[n] && n !in refused then [items[n]] else []
  }

  lemma {:induction false} ButWithout(items: seq<PageRange>, owned: seq<bool>, refused: set<int>, n: nat, x: int)
    requires x < n <= |items| == |owned|
    ensures HeldBut(items, owned, refused + {x}, n) == HeldBut(items, owned, refused, n)
    decreases |items| - n
  {
    if n < |items| { ButWithout(items, owned, refused, n + 1, x); }
  }

  lemma ButStep(items: seq<PageRange>, owned: seq<bool>, refused: set<int>, n: nat)
    requires 0 < n <= |items| == |owned| && n - 1 !in refused
    ensures HeldBut(items, owned, refused, n - 1) == HeldBut(items, owned, refused, n) +
      if owned[n - 1] then [items[n - 1]] else []
    ensures HeldBut(items, owned, refused + {n - 1}, n - 1) == HeldBut(items, owned, refused, n)
  {
    ButWithout(items, owned, refused, n, n - 1);
  }

  lemma {:induction false} HeldPrefix(owned: seq<bool>, n: nat, m: nat)
    requires n <= m <= |owned|
    ensures HeldBelow(owned, n) <= HeldBelow(owned, m)
  {
    if n < m { HeldPrefix(owned, n, m - 1); }
  }

  /** Where index `n` sits among the held ones. */
  lemma HeldAt(owned: seq<bool>, n: nat)
    requires n < |owned|
    ensures var all, k := HeldBelow(owned, |owned|), |HeldBelow(owned, n)|;
      k <= |all| && |HeldBelow(owned, n + 1)| == k + (if owned[n] then 1 else 0) &&
      (owned[n] ==> k < |all| && all[k] == n)
  {
    HeldPrefix(owned, n + 1, |owned|);
    HeldPrefix(owned, n, |owned|);
    if owned[n] { assert HeldBelow(owned, n + 1)[|HeldBelow(owned, n)|] == n; }
  }

  lemma {:induction false} FromIsReversed(items: seq<PageRange>, owned: seq<bool>, n: nat)
    requires n <= |items| == |owned|
    ensures |HeldBelow(owned, n)| <= |HeldBelow(owned, |owned|)|
    ensures HeldFrom(items, owned, n) == RangesOf(items, Reversed(HeldBelow(owned, |owned|)[|HeldBelow(owned, n)|..]))
    decreases |items| - n
  {
    hide RangesOf, Reversed, HeldBelow;
    if n < |items| {
      FromIsReversed(items, owned, n + 1);
      HeldAt(owned, n);
      if owned[n] { ReversedNext(items, HeldBelow(owned, |owned|), |HeldBelow(owned, n)|, n); }
    } else {
      NothingAt(items, HeldBelow(owned, |owned|), {});
    }
  }

  lemma NothingAt(items: seq<PageRange>, all: seq<int>, refused: set<int>)
    ensures RangesOf(items, Reversed(all[|all|..])) == [] &&
      RangesOf(items, Allowed(Reversed(all[|all|..]), refused)) == []
  {
  }

  lemma ReversedNext(items: seq<PageRange>, all: seq<int>, k: nat, n: nat)
    requires k < |all| && all[k] == n < |items|
    ensures RangesOf(items, Reversed(all[k..])) == RangesOf(items, Reversed(all[k + 1..])) + [items[n]]
  {
    hide RangesOf;
    ReversedStep(all, k + 1);
    RangesSnoc(items, Reversed(all[k + 1..]), n);
  }

  lemma {:induction false} MaskedHeld(was: seq<bool>, now: seq<bool>, stop: nat, n: nat)
    requires stop <= |was| == |now| && n <= |was| && forall k | 0 <= k < |was| :: now[k] == (k < stop && was[k])
    ensures HeldBelow(now, n) == HeldBelow(was, if n < stop then n else stop)
  {
    if n > 0 { MaskedHeld(was, now, stop, n - 1); }
  }

  lemma ReleaseFollows(items: seq<PageRange>, was: seq<bool>, now: seq<bool>, stop: nat, freed: seq<PageRange>,
                       attempts: seq<PageRange>)
    requires stop <= |items| == |was| == |now| && forall k | 0 <= k < |was| :: now[k] == (k < stop && was[k])
    requires stop > 0 ==> was[stop - 1]
    ensures stop == 0 ==> Follows(items, was, now, freed, freed + HeldFrom(items, was, 0), attempts,
      attempts + HeldFrom(items, was, 0))
    ensures stop > 0 ==> Follows(items, was, now, freed, freed + HeldFrom(items, was, stop), attempts,
                                 attempts + HeldFrom(items, was, stop) + [items[stop - 1]])
  {
    hide *;
    var all, kept := HeldBelow(was, |was|), HeldBelow(was, stop);
    OwnerKept(was, now, stop);
    FromIsReversed(items, was, stop);
    var n, o := |all| - |kept|, OwnerOf(was);
    ReleasedRanges(items, o, kept);
    if stop > 0 {
      LastHeld(items, was, stop, Released(o, n));
      assert attempts + HeldFrom(items, was, stop) + [items[stop - 1]] == attempts +
        RangesOf(items, ReleaseAttempts(o, n));
    } else {
      assert ReleaseAttempts(o, n) == Released(o, n);
    }
    var ranges := HeldFrom(items, was, stop);
    FollowsBy(items, was, now, freed, freed + ranges, attempts, attempts + RangesOf(items, ReleaseAttempts(o, n)), n);
  }

  lemma FollowsBy(items: seq<PageRange>, was: seq<bool>, now: seq<bool>, freed: seq<PageRange>, freed': seq<PageRange>,
                  attempts: seq<PageRange>, attempts': seq<PageRange>, n: nat)
    requires OwnerOf(now) == Release(OwnerOf(was), n) && freed' == freed + RangesOf(items, Released(OwnerOf(was), n))
    requires attempts' == attempts + RangesOf(items, ReleaseAttempts(OwnerOf(was), n))
    ensures Follows(items, was, now, freed, freed', attempts, attempts')
  {
    hide RangesOf, Release, Released, ReleaseAttempts, OwnerOf;
  }

  lemma OwnerKept(was: seq<bool>, now: seq<bool>, stop: nat)
    requires stop <= |was| == |now| && forall k | 0 <= k < |was| :: now[k] == (k < stop && was[k])
    ensures var all, kept := HeldBelow(was, |was|), HeldBelow(was, stop);
      OwnerOf(was) == Owner(all, all != []) && OwnerOf(now) == Owner(kept, kept != []) && kept <= all &&
      (stop == 0 ==> kept == [])
  {
    MaskedHeld(was, now, stop, |was|);
    HeldPrefix(was, stop, |was|);
  }

  lemma ReleasedRanges(items: seq<PageRange>, o: Owner, kept: seq<int>)
    requires kept <= o.pieces && o.armed == (o.pieces != [])
    ensures var n := |o.pieces| - |kept|;
      Released(o, n) == Reversed(o.pieces[|kept|..]) && Release(o, n) == Owner(kept, kept != []) &&
      ReleaseAttempts(o, n) == Released(o, n) + if kept == [] then [] else [kept[|kept| - 1]]
  {
    if kept == [] { assert o.pieces[0..] == o.pieces; }
  }

  lemma LastHeld(items: seq<PageRange>, was: seq<bool>, stop: nat, before: seq<int>)
    requires 0 < stop <= |items| == |was| && was[stop - 1]
    ensures var kept := HeldBelow(was, stop);
      kept != [] && RangesOf(items, before + [kept[|kept| - 1]]) == RangesOf(items, before) + [items[stop - 1]]
  {
    hide RangesOf;
    RangesSnoc(items, before, stop - 1);
  }

  lemma {:induction false} RefusedHeld(was: seq<bool>, now: seq<bool>, refused: set<int>, n: nat)
    requires n <= |was| == |now| && forall k | 0 <= k < |was| :: now[k] == (was[k] && k in refused)
    ensures HeldBelow(now, n) == Refused(HeldBelow(was, n), refused)
  {
    if n > 0 {
      RefusedHeld(was, now, refused, n - 1);
      AllowedSnoc(HeldBelow(was, n - 1), n - 1, refused);
      if !was[n - 1] { assert HeldBelow(was, n) == HeldBelow(was, n - 1); }
    }
  }

  lemma {:induction false} ButIsAllowed(items: seq<PageRange>, owned: seq<bool>, refused: set<int>, n: nat)
    requires n <= |items| == |owned|
    ensures |HeldBelow(owned, n)| <= |HeldBelow(owned, |owned|)|
    ensures HeldBut(items, owned, refused, n) ==
            RangesOf(items, Allowed(Reversed(HeldBelow(owned, |owned|)[|HeldBelow(owned, n)|..]), refused))
    decreases |items| - n
  {
    hide RangesOf, Reversed, HeldBelow, Allowed;
    if n < |items| {
      ButIsAllowed(items, owned, refused, n + 1);
      HeldAt(owned, n);
      if owned[n] { AllowedNext(items, HeldBelow(owned, |owned|), |HeldBelow(owned, n)|, n, refused); }
    } else {
      NothingAt(items, HeldBelow(owned, |owned|), refused);
    }
  }

  lemma AllowedNext(items: seq<PageRange>, all: seq<int>, k: nat, n: nat, refused: set<int>)
    requires k < |all| && all[k] == n < |items|
    ensures RangesOf(items, Allowed(Reversed(all[k..]), refused)) ==
            RangesOf(items, Allowed(Reversed(all[k + 1..]), refused)) + if n in refused then [] else [items[n]]
  {
    hide RangesOf, Allowed, Reversed;
    ReversedStep(all, k + 1);
    AllowedSnoc(Reversed(all[k + 1..]), n, refused);
    if n in refused {
      assert Allowed(Reversed(all[k..]), refused) == Allowed(Reversed(all[k + 1..]), refused);
    } else {
      RangesSnoc(items, Allowed(Reversed(all[k + 1..]), refused), n);
    }
  }

  lemma DropFollows(items: seq<PageRange>, was: seq<bool>, now: seq<bool>, refused: set<int>)
    requires |items| == |was| == |now| && forall k | 0 <= k < |was| :: now[k] == (was[k] && k in refused)
    ensures HeldFrom(items, was, 0) == RangesOf(items, DropAttempts(OwnerOf(was)))
    ensures HeldBut(items, was, refused, 0) == RangesOf(items, DropFreed(OwnerOf(was), refused))
    ensures OwnerOf(now).pieces == Refused(OwnerOf(was).pieces, refused)
  {
    hide RangesOf, Reversed, Allowed, HeldFrom, HeldBut;
    var all := HeldBelow(was, |was|);
    FromIsReversed(items, was, 0);
    ButIsAllowed(items, was, refused, 0);
    RefusedHeld(was, now, refused, |was|);
    assert all[0..] == all;
    assert HeldBelow(was, 0) == [];
    assert Holds(OwnerOf(was)) == all;
  }

  lemma FromEnd(items: seq<PageRange>, owned: seq<bool>)
    requires |items| == |owned|
    ensures HeldFrom(items, owned, |items|) == [] && HeldBut(items, owned, {}, |items|) == []
  {
  }

  lemma FromStep(items: seq<PageRange>, owned: seq<bool>, n: nat)
    requires 0 < n <= |items| == |owned|
    ensures HeldFrom(items, owned, n - 1) == HeldFrom(items, owned, n) + if owned[n - 1] then [items[n - 1]] else []
  {
  }
}
