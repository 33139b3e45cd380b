/** Lock-order tracking: a stack of held lock classes that only grows upwards. */
module Lockdep {

  const MAX_HELD := 16
  const TWO32 := 0x1_0000_0000

  type u32 = x: int | 0 <= x < 0x1_0000_0000

  datatype Code = Ok | EInval | EPerm | EDeadlk | EOverflow

  /** The held classes, bottom first. */
  type Stack = seq<u32>

  predicate Increasing(s: Stack) {
    forall i, j :: 0 <= i < j < |s| ==> s[i] < s[j]
  }

  function BeforeAcquire(s: Stack, c: u32): (r: (Code, Stack))
    ensures r.0 != Ok ==> r.1 == s
  {
    if c == 0 then (EInval, s)
    else if |s| >= MAX_HELD then (EOverflow, s)
    else if c in s then (EDeadlk, s)
    else if s != [] && c < s[|s| - 1] then (EDeadlk, s)
    else (Ok, s + [c])
  }

  function AfterRelease(s: Stack, c: u32): (r: (Code, Stack))
    ensures r.0 != Ok ==> r.1 == s
  {
    if c == 0 then (EInval, s)
    else if s == [] then (EPerm, s)
    else if s[|s| - 1] != c then (EDeadlk, s)
    else (Ok, s[..|s| - 1])
  }

  /** On an increasing stack a class is accepted exactly when it is valid, there is room, and it lies
      above everything held; it is pushed then, and the stack stays increasing. Otherwise the answer is EINVAL
      for class 0, EOVERFLOW for want of room and EDEADLK for the order, and nothing changes. */
  lemma AcceptedIff(s: Stack, c: u32)
    requires Increasing(s)
    ensures var (code, t) := BeforeAcquire(s, c);
            && (code == Ok <==> c != 0 && |s| < 16 && forall d :: d in s ==> d < c)
            && (code == EInval <==> c == 0) && (code == EOverflow <==> c != 0 && |s| >= 16) && code != EPerm
            && t == (if code == Ok then s + [c] else s) && Increasing(t)
  {
    if s != [] { assert s[|s| - 1] in s; }
  }

  /** Release undoes acquire, and only in last-in first-out order. */
  lemma ReleaseUndoesAcquire(s: Stack, c: u32, d: u32)
    requires Increasing(s) && BeforeAcquire(s, c).0 == Ok && d != 0
    ensures AfterRelease(BeforeAcquire(s, c).1, d) == if d == c then (Ok, s) else (EDeadlk, s + [c])
    ensures Increasing(AfterRelease(s, d).1)
    ensures AfterRelease(s, 0) == (EInval, s) && AfterRelease([], d) == (EPerm, [])
  {
    assert (s + [c])[..|s|] == s;
  }

  class LockdepState {
    var heldClass: array<u32>
    var depth: nat
    var violationCount: u32

    ghost predicate Valid()
      reads this, heldClass
    {
      heldClass.Length == MAX_HELD && depth <= MAX_HELD && Increasing(Held())
    }

    ghost function Held(): Stack
      requires depth <= heldClass.Length
      reads this, heldClass
    {
      heldClass[..depth]
    }

    constructor ()
      ensures Valid() && Held() == [] && violationCount == 0 && fresh(heldClass)
    {
      heldClass := new u32[MAX_HELD](_ => 0);
      depth, violationCount := 0, 0;
    }

    method Init()
      requires heldClass.Length == MAX_HELD
      modifies this`depth, this`violationCount, heldClass
      ensures Valid() && Held() == [] && violationCount == 0
      ensures forall i :: 0 <= i < MAX_HELD ==> heldClass[i] == 0
    {
      for i := 0 to MAX_HELD
        invariant forall j :: 0 <= j < i ==> heldClass[j] == 0
      {
        heldClass[i] := 0;
      }
      depth, violationCount := 0, 0;
    }

    /** The search loop over the held classes. */
    method OnStack(c: u32) returns (b: bool)
      requires Valid()
      ensures b <==> c in Held()
    {
      var i := 0;
      while i < depth
        invariant i <= depth && c !in Held()[..i]
      {
        if heldClass[i] == c {
          return true;
        }
        i := i + 1;
      }
      assert Held()[..i] == Held();
      return false;
    }

    method IsHeld(c: u32) returns (b: bool)
      requires Valid()
      ensures b <==> c != 0 && c in Held()
    {
      if c == 0 {
        return false;
      }
      b := OnStack(c);
    }

    method RecordViolation()
      modifies this`violationCount
      ensures violationCount == if old(violationCount) == TWO32 - 1 then 0 else old(violationCount) + 1
    {
      violationCount := if violationCount == TWO32 - 1 then 0 else violationCount + 1;
    }

    /** Pushes the class when it is in order; every refusal but a bad class id is counted. */
    method BeforeAcquireLock(c: u32) returns (code: Code)
      requires Valid()
      modifies this`depth, this`violationCount, heldClass
      ensures Valid() && (code, Held()) == BeforeAcquire(old(Held()), c)
      ensures code == Ok || code == EInval ==> violationCount == old(violationCount)
      ensures code == EDeadlk || code == EOverflow ==>
        violationCount == if old(violationCount) == TWO32 - 1 then 0 else old(violationCount) + 1
    {
      AcceptedIff(Held(), c);
      if c == 0 {
        return EInval;
      }
      if depth >= MAX_HELD {
        RecordViolation();
        return EOverflow;
      }
      ghost var before := Held();
      var held := OnStack(c);
      if held {
        RecordViolation();
        return EDeadlk;
      }
      if depth > 0 && c < heldClass[depth - 1] {
        RecordViolation();
        return EDeadlk;
      }
      heldClass[depth] := c;
      depth := depth + 1;
      assert Held() == before + [c];
      return Ok;
    }

    method AfterReleaseLock(c: u32) returns (code: Code)
      requires Valid()
      modifies this`depth, this`violationCount, heldClass
      ensures Valid() && (code, Held()) == AfterRelease(old(Held()), c)
      ensures code == Ok || code == EInval ==> violationCount == old(violationCount)
      ensures code == EDeadlk || code == EPerm ==>
        violationCount == if old(violationCount) == TWO32 - 1 then 0 else old(violationCount) + 1
    {
      if c == 0 {
        return EInval;
      }
      if depth == 0 {
        RecordViolation();
        return EPerm;
      }
      var index := depth - 1;
      if heldClass[index] != c {
        RecordViolation();
        return EDeadlk;
      }
      ghost var before := Held();
      heldClass[index] := 0;
      depth := depth - 1;
      assert Held() == before[..index];
      return Ok;
    }
  }
}
