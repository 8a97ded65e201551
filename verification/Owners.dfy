/** Ownership on values: what explicit release and going out of scope do to an owner of numbered allocations.
    The owner classes are proved to follow these steps, and the exit protocol is stated in them. */
module Owners {

  /** The allocations held, in order of acquisition. A disarmed owner frees nothing. */
  datatype Owner = Owner(pieces: seq<int>, armed: bool)

  function Reversed(s: seq<int>): (r: seq<int>)
    ensures |r| == |s| && multiset(r) == multiset(s)
  {
    if s == [] then [] else
      assert s == [s[0]] + s[1..];
      Reversed(s[1..]) + [s[0]]
  }

  function Holds(o: Owner): seq<int> { if o.armed then o.pieces else [] }

  // ---- explicit release

  /** Frees from the end; `frees` calls succeed before one fails or nothing is left. */
  function Release(o: Owner, frees: nat): Owner {
    if !o.armed then o
    else if frees >= |o.pieces| then Owner([], false)
    else o.(pieces := o.pieces[..|o.pieces| - frees])
  }

  /** The allocations those calls free, in order. */
  function Released(o: Owner, frees: nat): seq<int> {
    if !o.armed then []
    else if frees >= |o.pieces| then Reversed(o.pieces) else Reversed(o.pieces[|o.pieces| - frees..])
  }

  /** Every call made: the successful ones and the failing one that ends the release early. */
  function ReleaseAttempts(o: Owner, frees: nat): seq<int> {
    Released(o, frees) + if o.armed && frees < |o.pieces| then [o.pieces[|o.pieces| - frees - 1]] else []
  }

  // ---- going out of scope

  /** Every held allocation is attempted once, last one first. */
  function DropAttempts(o: Owner): seq<int> { Reversed(Holds(o)) }

  function Allowed(s: seq<int>, refused: set<int>): seq<int> {
    if s == [] then []
    else Allowed(s[..|s| - 1], refused) + if s[|s| - 1] in refused then [] else [s[|s| - 1]]
  }

  function Refused(s: seq<int>, refused: set<int>): seq<int> {
    if s == [] then []
    else Refused(s[..|s| - 1], refused) + if s[|s| - 1] in refused then [s[|s| - 1]] else []
  }

  /** What the drop frees when the firmware refuses the given allocations. */
  function DropFreed(o: Owner, refused: set<int>): seq<int> { Allowed(DropAttempts(o), refused) }

  /** What stays allocated without an owner. */
  function DropLeaked(o: Owner, refused: set<int>): seq<int> { Refused(DropAttempts(o), refused) }

  // ---- counting

  ghost function Count(s: seq<int>, x: int): nat { multiset(s)[x] }

  lemma CountConcat(a: seq<int>, b: seq<int>, x: int)
    ensures Count(a + b, x) == Count(a, x) + Count(b, x)
  {
  }

  lemma CountNone(x: int)
    ensures Count([], x) == 0
  {
  }

  lemma CountOne(v: int, x: int)
    ensures Count([v], x) == if v == x then 1 else 0
  {
  }

  lemma ReversedStep(all: seq<int>, n: nat)
    requires 0 < n <= |all|
    ensures Reversed(all[n - 1..]) == Reversed(all[n..]) + [all[n - 1]]
  {
    assert all[n - 1..][1..] == all[n..];
  }

  lemma ReversedMember(s: seq<int>, x: int)
    ensures x in Reversed(s) <==> x in s
  {
    assert x in Reversed(s) <==> x in multiset(Reversed(s));
    assert x in s <==> x in multiset(s);
  }

  /** A release neither loses nor duplicates an allocation. */
  lemma ReleaseKeeps(o: Owner, frees: nat, x: int)
    ensures Count(Holds(Release(o, frees)), x) + Count(Released(o, frees), x) == Count(Holds(o), x)
  {
    if o.armed && frees < |o.pieces| {
      var n := |o.pieces| - frees;
      assert o.pieces == o.pieces[..n] + o.pieces[n..];
    }
  }

  lemma {:induction false} SplitByRefusal(s: seq<int>, refused: set<int>, x: int)
    ensures Count(Allowed(s, refused), x) == (if x in refused then 0 else Count(s, x))
    ensures Count(Refused(s, refused), x) == (if x in refused then Count(s, x) else 0)
  {
    if s != [] {
      hide Count;
      var front, last := s[..|s| - 1], s[|s| - 1];
      SplitByRefusal(front, refused, x);
      assert s == front + [last];
      CountConcat(front, [last], x);
      CountOne(last, x);
      CountNone(x);
      CountConcat(Allowed(front, refused), if last in refused then [] else [last], x);
      CountConcat(Refused(front, refused), if last in refused then [last] else [], x);
    } else {
      CountNone(x);
    }
  }

  /** Nor does a drop: every held allocation is freed or leaked, according to the firmware's answer alone. */
  lemma DropKeeps(o: Owner, refused: set<int>, x: int)
    ensures Count(DropFreed(o, refused), x) == (if x in refused then 0 else Count(Holds(o), x))
    ensures Count(DropLeaked(o, refused), x) == (if x in refused then Count(Holds(o), x) else 0)
    ensures Count(DropAttempts(o), x) == Count(Holds(o), x)
  {
    SplitByRefusal(DropAttempts(o), refused, x);
  }

  /** Answers about allocations that are not attempted make no difference. */
  lemma {:induction false} AllowedWithout(s: seq<int>, refused: set<int>, x: int)
    requires x !in s
    ensures Allowed(s, refused + {x}) == Allowed(s, refused) && Refused(s, refused + {x}) == Refused(s, refused)
  {
    if s != [] { AllowedWithout(s[..|s| - 1], refused, x); }
  }

  lemma AllowedSnoc(s: seq<int>, x: int, refused: set<int>)
    ensures Allowed(s + [x], refused) == Allowed(s, refused) + if x in refused then [] else [x]
    ensures Refused(s + [x], refused) == Refused(s, refused) + if x in refused then [x] else []
  {
    assert (s + [x])[..|s|] == s;
  }
}
