/** Spinlocks bracketed by lock-order tracking, run by any number of threads, one class per lock, a
    thread stopping at the first refusal. Locks are named by their class. */
module Deadlock {
  import opened Lockdep

  type Tid = nat

  /** `Trying` is about to exchange the lock word, `Spinning` reads it until it looks free, `Releasing` has
      cleared it. `Refused` stopped at a refused acquire, `Misreleased` at a refused release. */
  datatype Phase =
    | Running
    | Trying(c: u32)
    | Spinning(c: u32)
    | Releasing(c: u32)
    | Refused
    | Misreleased(c: u32)

  datatype Thread = Thread(stack: Stack, phase: Phase)

  /** `holder` is history: which thread's exchange found each locked word free. */
  datatype State = State(threads: map<Tid, Thread>, locked: set<u32>, holder: map<u32, Tid>)

  datatype Action = Acquire(c: u32) | Release(c: u32) | Go

  function SetThread(s: State, t: Tid, stack: Stack, phase: Phase): State {
    s.(threads := s.threads[t := Thread(stack, phase)])
  }

  function Step(s: State, t: Tid, a: Action): State
    requires t in s.threads
  {
    var stack := s.threads[t].stack;
    match s.threads[t].phase
    case Running =>
      (match a
       case Go => s
       case Acquire(c) =>
         var (code, pushed) := BeforeAcquire(stack, c);
         SetThread(s, t, pushed, if code == Ok then Trying(c) else Refused)
       case Release(c) =>
         SetThread(s, t, stack, Releasing(c)).(locked := s.locked - {c}, holder := s.holder - {c}))
    case Trying(c) =>
      if c in s.locked then SetThread(s, t, stack, Spinning(c))
      else SetThread(s, t, stack, Running).(locked := s.locked + {c}, holder := s.holder[c := t])
    case Spinning(c) => if c in s.locked then s else SetThread(s, t, stack, Trying(c))
    case Releasing(c) =>
      var (code, popped) := AfterRelease(stack, c);
      SetThread(s, t, popped, if code == Ok then Running else Misreleased(c))
    case Refused => s
    case Misreleased(_) => s
  }

  // ---------- waiting ----------

  predicate Waits(s: State, t: Tid) {
    t in s.threads && (s.threads[t].phase.Trying? || s.threads[t].phase.Spinning?)
  }

  function Wanted(s: State, t: Tid): u32
    requires Waits(s, t)
  {
    s.threads[t].phase.c
  }

  predicate WaitsFor(s: State, t: Tid, u: Tid) {
    Waits(s, t) && Wanted(s, t) in s.holder && s.holder[Wanted(s, t)] == u
  }

  // ---------- invariant ----------

  /** The stack increases, it covers the locks held, and a waiting thread wants its top class. */
  ghost predicate ThreadInv(s: State, t: Tid) {
    t in s.threads ==>
      var th := s.threads[t];
      && Increasing(th.stack)
      && (Waits(s, t) ==> th.stack != [] && th.stack[|th.stack| - 1] == Wanted(s, t) && !HeldBy(s, Wanted(s, t), t))
      && (th.phase.Releasing? ==> !HeldBy(s, th.phase.c, t))
  }

  predicate HeldBy(s: State, c: u32, t: Tid) {
    c in s.holder && s.holder[c] == t
  }

  ghost predicate LockInv(s: State, c: u32) {
    (c in s.locked <==> c in s.holder) &&
    (c in s.holder ==> s.holder[c] in s.threads && c in s.threads[s.holder[c]].stack)
  }

  ghost predicate Inv(s: State) {
    (forall t: Tid :: ThreadInv(s, t)) && forall c: u32 :: LockInv(s, c)
  }

  lemma AcquireKeepsInv(s: State, t: Tid, c: u32)
    requires Inv(s) && t in s.threads && s.threads[t].phase.Running?
    ensures Inv(Step(s, t, Acquire(c)))
  {
    var r := Step(s, t, Acquire(c));
    var stack := s.threads[t].stack;
    assert ThreadInv(s, t) && LockInv(s, c);
    AcceptedIff(stack, c);
    forall u: Tid ensures ThreadInv(r, u) { assert ThreadInv(s, u); }
    forall d: u32 ensures LockInv(r, d) {
      assert LockInv(s, d);
      assert d in stack ==> d in r.threads[t].stack;
    }
  }

  lemma ReleaseKeepsInv(s: State, t: Tid, c: u32)
    requires Inv(s) && t in s.threads && s.threads[t].phase.Running?
    ensures Inv(Step(s, t, Release(c)))
  {
    var r := Step(s, t, Release(c));
    forall u: Tid ensures ThreadInv(r, u) { assert ThreadInv(s, u); }
    forall d: u32 ensures LockInv(r, d) { assert LockInv(s, d); }
  }

  lemma AfterReleaseKeepsInv(s: State, t: Tid)
    requires Inv(s) && t in s.threads && s.threads[t].phase.Releasing?
    ensures Inv(Step(s, t, Go))
  {
    var r := Step(s, t, Go);
    var stack := s.threads[t].stack;
    assert ThreadInv(s, t);
    forall u: Tid ensures ThreadInv(r, u) { assert ThreadInv(s, u); }
    forall d: u32 ensures LockInv(r, d) {
      assert LockInv(s, d);
      if HeldBy(s, d, t) {
        var i :| 0 <= i < |stack| && stack[i] == d;
        assert i < |stack| - 1 || r.threads[t].stack == stack;
        assert r.threads[t].stack[i] == d;
      }
    }
  }

  lemma SpinKeepsInv(s: State, t: Tid, a: Action)
    requires Inv(s) && Waits(s, t)
    ensures Inv(Step(s, t, a))
  {
    var r := Step(s, t, a);
    var stack := s.threads[t].stack;
    assert ThreadInv(s, t) && LockInv(s, Wanted(s, t));
    forall u: Tid ensures ThreadInv(r, u) { assert ThreadInv(s, u); }
    forall d: u32 ensures LockInv(r, d) {
      assert LockInv(s, d);
      assert stack[|stack| - 1] in stack;
    }
  }

  lemma StepKeepsInv(s: State, t: Tid, a: Action)
    requires Inv(s) && t in s.threads
    ensures Inv(Step(s, t, a)) && Step(s, t, a).threads.Keys == s.threads.Keys
  {
    match s.threads[t].phase {
      case Running =>
        match a {
          case Acquire(c) => AcquireKeepsInv(s, t, c);
          case Release(c) => ReleaseKeepsInv(s, t, c);
          case Go =>
        }
      case Trying(_) => SpinKeepsInv(s, t, a);
      case Spinning(_) => SpinKeepsInv(s, t, a);
      case Releasing(_) => AfterReleaseKeepsInv(s, t);
      case Refused =>
      case Misreleased(_) =>
    }
  }

  datatype Move = Move(t: Tid, a: Action)

  function Start(tids: set<Tid>): State {
    State(map t | t in tids :: Thread([], Running), {}, map[])
  }

  /** A run: any moves of any threads, one atomic step each. */
  function Run(tids: set<Tid>, moves: seq<Move>): State
  {
    if moves == [] then Start(tids)
    else
      var before := Run(tids, moves[..|moves| - 1]);
      var m := moves[|moves| - 1];
      if m.t in before.threads then Step(before, m.t, m.a) else before
  }

  lemma {:induction false} RunKeepsInv(tids: set<Tid>, moves: seq<Move>)
    ensures Inv(Run(tids, moves)) && Run(tids, moves).threads.Keys == tids
    decreases |moves|
  {
    if moves != [] {
      var k := |moves| - 1;
      RunKeepsInv(tids, moves[..k]);
      var before := Run(tids, moves[..k]);
      if moves[k].t in before.threads { StepKeepsInv(before, moves[k].t, moves[k].a); }
    }
  }

  // ---------- no deadlock ----------

  /** A thread waits only for classes above everything it holds. */
  lemma WaitsAbove(s: State, t: Tid, u: Tid)
    requires Inv(s) && WaitsFor(s, t, u) && Waits(s, u)
    ensures Wanted(s, t) < Wanted(s, u)
  {
    var c := Wanted(s, t);
    assert LockInv(s, c) && ThreadInv(s, u);
    var stack := s.threads[u].stack;
    var i :| 0 <= i < |stack| && stack[i] == c;
    assert c != Wanted(s, u);
    assert i < |stack| - 1;
  }

  ghost predicate WaitCycle(s: State, ts: seq<Tid>) {
    && ts != []
    && (forall i :: 0 <= i < |ts| - 1 ==> WaitsFor(s, ts[i], ts[i + 1]))
    && WaitsFor(s, ts[|ts| - 1], ts[0])
  }

  lemma {:induction false} WantedGrows(s: State, ts: seq<Tid>, i: nat)
    requires Inv(s) && WaitCycle(s, ts) && i < |ts|
    ensures Waits(s, ts[0]) && Waits(s, ts[i]) && Wanted(s, ts[0]) <= Wanted(s, ts[i])
  {
    if i == 0 {
      assert |ts| == 1 || WaitsFor(s, ts[0], ts[0 + 1]);
    } else {
      WantedGrows(s, ts, i - 1);
      assert WaitsFor(s, ts[i - 1], ts[i - 1 + 1]);
      assert i == |ts| - 1 || WaitsFor(s, ts[i], ts[i + 1]);
      WaitsAbove(s, ts[i - 1], ts[i]);
    }
  }

  /** No reachable state has a wait-for cycle, of any length. */
  lemma NoWaitCycle(tids: set<Tid>, moves: seq<Move>, ts: seq<Tid>)
    ensures !WaitCycle(Run(tids, moves), ts)
  {
    var s := Run(tids, moves);
    RunKeepsInv(tids, moves);
    if WaitCycle(s, ts) {
      WantedGrows(s, ts, |ts| - 1);
      WaitsAbove(s, ts[|ts| - 1], ts[0]);
      assert false;
    }
  }

  predicate Stopped(s: State, t: Tid) {
    t in s.threads && (s.threads[t].phase.Refused? || s.threads[t].phase.Misreleased?)
  }

  /** Can get on by itself: not stopped, and not waiting for a lock word that is set. */
  predicate Unblocked(s: State, t: Tid) {
    t in s.threads && !Stopped(s, t) && (Waits(s, t) ==> Wanted(s, t) !in s.locked)
  }

  /** Each thread waits for the next, and the last has stopped. */
  ghost predicate EndsStopped(s: State, ts: seq<Tid>) {
    && ts != [] && Stopped(s, ts[|ts| - 1])
    && forall i :: 0 <= i < |ts| - 1 ==> WaitsFor(s, ts[i], ts[i + 1])
  }

  lemma EndsStoppedMore(s: State, t: Tid, ts: seq<Tid>)
    requires EndsStopped(s, ts) && WaitsFor(s, t, ts[0])
    ensures EndsStopped(s, [t] + ts)
  {
    var us := [t] + ts;
    assert us[|us| - 1] == ts[|ts| - 1];
    forall i | 0 <= i < |us| - 1 ensures WaitsFor(s, us[i], us[i + 1]) {
      if i > 0 { assert WaitsFor(s, ts[i - 1], ts[i - 1 + 1]); }
    }
  }

  /** Following the holders from any thread leads to one that can get on or to one that has stopped. */
  lemma {:induction false} FollowWaits(s: State, t: Tid, left: set<Tid>) returns (ts: seq<Tid>)
    requires Inv(s) && t in s.threads && left <= s.threads.Keys
    requires Waits(s, t) ==> forall u :: u in s.threads && Waits(s, u) && Wanted(s, u) > Wanted(s, t) ==> u in left
    ensures (exists u :: Unblocked(s, u)) || (EndsStopped(s, ts) && ts[0] == t)
    decreases |left|
  {
    ts := [t];
    if Unblocked(s, t) || Stopped(s, t) {
      assert Unblocked(s, t) || EndsStopped(s, ts);
    } else {
      var c := Wanted(s, t);
      assert LockInv(s, c);
      var u := s.holder[c];
      if Waits(s, u) {
        WaitsAbove(s, t, u);
        var us := FollowWaits(s, u, left - {u});
        if !exists w :: Unblocked(s, w) {
          EndsStoppedMore(s, t, us);
          ts := [t] + us;
        }
      } else if Stopped(s, u) {
        EndsStoppedMore(s, t, [u]);
        ts := [t] + [u];
      } else {
        assert Unblocked(s, u);
      }
    }
  }

  /** No thread can get on. */
  ghost predicate Stuck(s: State) {
    forall t :: t in s.threads ==> !Unblocked(s, t)
  }

  /** The thread has stopped, or waits through a chain of holders for one that has. */
  ghost predicate Doomed(s: State, t: Tid) {
    exists ts :: EndsStopped(s, ts) && ts[0] == t
  }

  lemma DoomedIsBlocked(s: State, t: Tid)
    requires Inv(s) && Doomed(s, t)
    ensures !Unblocked(s, t)
  {
    var ts :| EndsStopped(s, ts) && ts[0] == t;
    if |ts| > 1 {
      assert WaitsFor(s, ts[0], ts[0 + 1]);
      assert LockInv(s, Wanted(s, t));
    }
  }

  lemma StuckIsDoomed(s: State, t: Tid)
    requires Inv(s) && Stuck(s) && t in s.threads
    ensures Doomed(s, t)
  {
    var ts := FollowWaits(s, t, s.threads.Keys);
    assert forall u :: Unblocked(s, u) ==> u in s.threads;
    assert EndsStopped(s, ts);
  }

  /** Exactly: a state is stuck iff every thread has stopped or waits, through a chain of holders, for one
      that has. */
  lemma StuckIff(s: State)
    requires Inv(s)
    ensures Stuck(s) <==> forall t :: t in s.threads ==> Doomed(s, t)
  {
    if Stuck(s) {
      forall t | t in s.threads ensures Doomed(s, t) { StuckIsDoomed(s, t); }
    }
    if forall t :: t in s.threads ==> Doomed(s, t) {
      forall t | t in s.threads ensures !Unblocked(s, t) { DoomedIsBlocked(s, t); }
    }
  }

  /** In every reachable state with no stopped thread, some thread can get on. */
  lemma AlwaysSomeoneUnblocked(tids: set<Tid>, moves: seq<Move>)
    requires tids != {} && forall t :: t in tids ==> !Stopped(Run(tids, moves), t)
    ensures exists u :: Unblocked(Run(tids, moves), u)
  {
    RunKeepsInv(tids, moves);
    var t :| t in tids;
    var ts := FollowWaits(Run(tids, moves), t, tids);
  }

  /** A step of a thread that cannot get on changes no lock and frees nobody, so a stuck state stays stuck. */
  lemma StuckStays(s: State, t: Tid, a: Action)
    requires Inv(s) && Stuck(s) && t in s.threads
    ensures Stuck(Step(s, t, a)) && Step(s, t, a).locked == s.locked
  {
    assert !Unblocked(s, t);
    var r := Step(s, t, a);
    forall u | u in r.threads ensures !Unblocked(r, u) { assert !Unblocked(s, u); }
  }

  lemma RunNext(tids: set<Tid>, moves: seq<Move>, m: Move)
    requires m.t in Run(tids, moves).threads
    ensures Run(tids, moves + [m]) == Step(Run(tids, moves), m.t, m.a)
  {
    assert (moves + [m])[..|moves|] == moves;
  }

  /** Why the stopped threads matter: 0 takes lock 5 and stops at a refused acquire of 3; 1 spins on 5 for
      ever. */
  lemma StoppedHolderSticks()
    ensures Stuck(Run({0, 1}, [Move(0, Acquire(5)), Move(0, Go), Move(0, Acquire(3)), Move(1, Acquire(5)),
                               Move(1, Go)]))
  {
    var a, b, c, d, e := Move(0, Acquire(5)), Move(0, Go), Move(0, Acquire(3)), Move(1, Acquire(5)), Move(1, Go);
    RunNext({0, 1}, [], a);
    RunNext({0, 1}, [a], b);
    assert [a] + [b] == [a, b];
    RunNext({0, 1}, [a, b], c);
    assert [a, b] + [c] == [a, b, c];
    RunNext({0, 1}, [a, b, c], d);
    assert [a, b, c] + [d] == [a, b, c, d];
    RunNext({0, 1}, [a, b, c, d], e);
    assert [a, b, c, d] + [e] == [a, b, c, d, e];
  }

  // ---------- mutual exclusion ----------

  /** Between taking lock `c` and giving it up: `c` is on the thread's own stack, and the thread is neither
      waiting for it nor past its release. */
  predicate Inside(s: State, t: Tid, c: u32) {
    t in s.threads && c in s.threads[t].stack && !(GivesUp(s.threads[t].phase) && s.threads[t].phase.c == c)
  }

  predicate GivesUp(p: Phase) {
    p.Trying? || p.Spinning? || p.Releasing? || p.Misreleased?
  }

  /** What callers owe: nobody releases a lock while another thread is inside it. */
  predicate Allowed(s: State, t: Tid, a: Action) {
    a.Release? && t in s.threads && s.threads[t].phase.Running? ==> Inside(s, t, a.c) || a.c !in s.locked
  }

  ghost predicate LegalRun(tids: set<Tid>, moves: seq<Move>)
    decreases |moves|
  {
    moves == [] ||
    var before, m := moves[..|moves| - 1], moves[|moves| - 1];
    LegalRun(tids, before) && Allowed(Run(tids, before), m.t, m.a)
  }

  /** The threads inside a lock are those whose exchange took its word. */
  ghost predicate Agree(s: State) {
    forall t: Tid, c: u32 :: Inside(s, t, c) <==> HeldBy(s, c, t)
  }

  lemma AcquireAgrees(s: State, t: Tid, c: u32)
    requires Inv(s) && Agree(s) && t in s.threads && s.threads[t].phase.Running?
    ensures Agree(Step(s, t, Acquire(c)))
  {
    var r := Step(s, t, Acquire(c));
    assert ThreadInv(s, t);
    AcceptedIff(s.threads[t].stack, c);
    forall u: Tid, d: u32 ensures Inside(r, u, d) <==> HeldBy(r, d, u) {
      assert Inside(s, u, d) <==> HeldBy(s, d, u);
      assert d in r.threads[t].stack <==> d in s.threads[t].stack || (d == c && r.threads[t].phase.Trying?);
    }
  }

  lemma SpinAgrees(s: State, t: Tid, a: Action)
    requires Inv(s) && Agree(s) && Waits(s, t)
    ensures Agree(Step(s, t, a))
  {
    var r, c := Step(s, t, a), Wanted(s, t);
    assert ThreadInv(s, t) && LockInv(s, c);
    forall u: Tid, d: u32 ensures Inside(r, u, d) <==> HeldBy(r, d, u) {
      assert Inside(s, u, d) <==> HeldBy(s, d, u);
    }
  }

  lemma AfterReleaseAgrees(s: State, t: Tid)
    requires Inv(s) && Agree(s) && t in s.threads && s.threads[t].phase.Releasing?
    ensures Agree(Step(s, t, Go))
  {
    var r, stack := Step(s, t, Go), s.threads[t].stack;
    assert ThreadInv(s, t);
    forall u: Tid, d: u32 ensures Inside(r, u, d) <==> HeldBy(r, d, u) {
      assert Inside(s, u, d) <==> HeldBy(s, d, u);
      if r.threads[t].stack != stack { PoppedMembers(stack, d); }
    }
  }

  lemma PoppedMembers(stack: Stack, d: u32)
    requires Increasing(stack) && stack != []
    ensures d in stack[..|stack| - 1] <==> d in stack && d != stack[|stack| - 1]
  {
    if d in stack && d != stack[|stack| - 1] {
      var i :| 0 <= i < |stack| && stack[i] == d;
      assert stack[..|stack| - 1][i] == d;
    }
  }

  /** Exactly: a release keeps the locks and the threads inside them in step iff no other thread is inside
      the lock. */
  lemma ReleaseAgreesIff(s: State, t: Tid, c: u32)
    requires Inv(s) && Agree(s) && t in s.threads && s.threads[t].phase.Running?
    ensures Agree(Step(s, t, Release(c))) <==> forall u :: Inside(s, u, c) ==> u == t
  {
    var r := Step(s, t, Release(c));
    assert LockInv(s, c);
    if forall u :: Inside(s, u, c) ==> u == t {
      forall u: Tid, d: u32 ensures Inside(r, u, d) <==> HeldBy(r, d, u) {
        assert Inside(s, u, d) <==> HeldBy(s, d, u);
      }
    }
    forall u | Inside(s, u, c) && u != t ensures Inside(r, u, c) && !HeldBy(r, c, u) { }
  }

  lemma StepAgrees(s: State, t: Tid, a: Action)
    requires Inv(s) && Agree(s) && t in s.threads && Allowed(s, t, a)
    ensures Agree(Step(s, t, a))
  {
    match s.threads[t].phase {
      case Running =>
        match a {
          case Acquire(c) => AcquireAgrees(s, t, c);
          case Release(c) =>
            forall u | Inside(s, u, c) ensures u == t { AllowedAlone(s, t, c, u); }
            ReleaseAgreesIff(s, t, c);
          case Go =>
        }
      case Trying(_) => SpinAgrees(s, t, a);
      case Spinning(_) => SpinAgrees(s, t, a);
      case Releasing(_) => AfterReleaseAgrees(s, t);
      case Refused =>
      case Misreleased(_) =>
    }
  }

  lemma AllowedAlone(s: State, t: Tid, c: u32, u: Tid)
    requires Inv(s) && Agree(s) && Inside(s, u, c) && (Inside(s, t, c) || c !in s.locked)
    ensures u == t
  {
    assert HeldBy(s, c, u) && LockInv(s, c);
    assert Inside(s, t, c) ==> HeldBy(s, c, t);
  }

  lemma {:induction false} RunAgrees(tids: set<Tid>, moves: seq<Move>)
    requires LegalRun(tids, moves)
    ensures Agree(Run(tids, moves))
    decreases |moves|
  {
    if moves != [] {
      var k := |moves| - 1;
      RunAgrees(tids, moves[..k]);
      RunKeepsInv(tids, moves[..k]);
      var before := Run(tids, moves[..k]);
      if moves[k].t in before.threads { StepAgrees(before, moves[k].t, moves[k].a); }
    }
  }

  /** Mutual exclusion: in every run whose callers never release a lock another thread is inside, at most
      one thread is inside each lock, and the lock's word is set exactly while one is. */
  lemma MutualExclusion(tids: set<Tid>, moves: seq<Move>, c: u32)
    requires LegalRun(tids, moves)
    ensures var s := Run(tids, moves);
            && (forall t, u :: Inside(s, t, c) && Inside(s, u, c) ==> t == u)
            && (c in s.locked <==> exists t :: Inside(s, t, c))
  {
    var s := Run(tids, moves);
    RunAgrees(tids, moves);
    RunKeepsInv(tids, moves);
    assert LockInv(s, c);
    if c in s.locked { assert HeldBy(s, c, s.holder[c]) && Inside(s, s.holder[c], c); }
    forall t, u | Inside(s, t, c) && Inside(s, u, c) ensures t == u {
      assert HeldBy(s, c, t) && HeldBy(s, c, u);
    }
  }

  /** Why callers owe it: 1 releases the lock 0 is inside, and 2 gets in beside 0. */
  lemma ForeignReleaseBreaks()
    ensures var s := Run({0, 1, 2}, [Move(0, Acquire(7)), Move(0, Go), Move(1, Release(7)), Move(2, Acquire(7)),
                                     Move(2, Go)]);
            Inside(s, 0, 7) && Inside(s, 2, 7)
  {
    var tids: set<Tid> := {0, 1, 2};
    var a, b, c, d, e := Move(0, Acquire(7)), Move(0, Go), Move(1, Release(7)), Move(2, Acquire(7)), Move(2, Go);
    RunNext(tids, [], a);
    RunNext(tids, [a], b);
    assert [a] + [b] == [a, b];
    RunNext(tids, [a, b], c);
    assert [a, b] + [c] == [a, b, c];
    RunNext(tids, [a, b, c], d);
    assert [a, b, c] + [d] == [a, b, c, d];
    RunNext(tids, [a, b, c, d], e);
    assert [a, b, c, d] + [e] == [a, b, c, d, e];
  }

  // ---------- every run can be wound up ----------

  /** Callers that bracket properly release only the top class they hold. */
  predicate Nested(s: State, t: Tid, a: Action) {
    a.Release? && t in s.threads && s.threads[t].phase.Running? ==> Tops(s.threads[t].stack, a.c)
  }

  predicate Tops(stack: Stack, c: u32) {
    stack != [] && stack[|stack| - 1] == c
  }

  ghost predicate NestedRun(tids: set<Tid>, moves: seq<Move>)
    decreases |moves|
  {
    moves == [] ||
    var before, m := moves[..|moves| - 1], moves[|moves| - 1];
    NestedRun(tids, before) && Nested(Run(tids, before), m.t, m.a)
  }

  /** Proper bracketing is legal. */
  lemma {:induction false} NestedIsLegal(tids: set<Tid>, moves: seq<Move>)
    requires NestedRun(tids, moves)
    ensures LegalRun(tids, moves)
    decreases |moves|
  {
    if moves != [] {
      var before, m := moves[..|moves| - 1], moves[|moves| - 1];
      NestedIsLegal(tids, before);
      var s := Run(tids, before);
      if m.a.Release? && m.t in s.threads && s.threads[m.t].phase.Running? {
        assert m.a.c in s.threads[m.t].stack;
      }
    }
  }

  /** Only valid classes are held, and a thread past its release still has that class on top. */
  ghost predicate Proper(s: State) {
    forall t :: t in s.threads ==>
      0 !in s.threads[t].stack && (s.threads[t].phase.Releasing? ==> Tops(s.threads[t].stack, s.threads[t].phase.c))
  }

  lemma StepProper(s: State, t: Tid, a: Action)
    requires Proper(s) && t in s.threads && Nested(s, t, a)
    ensures Proper(Step(s, t, a))
  {
    var r := Step(s, t, a);
    forall u | u in r.threads
      ensures 0 !in r.threads[u].stack
      ensures r.threads[u].phase.Releasing? ==> Tops(r.threads[u].stack, r.threads[u].phase.c)
    {
      assert u in s.threads && 0 !in s.threads[u].stack;
    }
  }

  lemma {:induction false} RunProper(tids: set<Tid>, moves: seq<Move>)
    requires NestedRun(tids, moves)
    ensures Proper(Run(tids, moves))
    decreases |moves|
  {
    if moves != [] {
      var k := |moves| - 1;
      RunProper(tids, moves[..k]);
      var before := Run(tids, moves[..k]);
      if moves[k].t in before.threads { StepProper(before, moves[k].t, moves[k].a); }
    }
  }

  /** Outside every lock. */
  predicate AtRest(s: State, t: Tid) {
    t in s.threads && s.threads[t] == Thread([], Running)
  }

  /** Every thread is outside every lock, and every lock word is clear. */
  ghost predicate WoundUp(s: State) {
    (forall t :: t in s.threads ==> AtRest(s, t)) && s.locked == {}
  }

  lemma RestIsWoundUp(s: State)
    requires Inv(s) && forall t :: t in s.threads ==> AtRest(s, t)
    ensures WoundUp(s)
  {
    forall c: u32 ensures c !in s.locked { assert LockInv(s, c); }
  }

  ghost predicate NoneStopped(s: State) {
    forall t :: t in s.threads ==> !Stopped(s, t)
  }

  /** From a thread that is not at rest, the holders lead to one that is not either and can get on. */
  lemma {:induction false} FindBusy(s: State, t: Tid, left: set<Tid>) returns (u: Tid)
    requires Inv(s) && NoneStopped(s) && t in s.threads && !AtRest(s, t) && left <= s.threads.Keys
    requires Waits(s, t) ==> forall w :: w in s.threads && Waits(s, w) && Wanted(s, w) > Wanted(s, t) ==> w in left
    ensures Unblocked(s, u) && !AtRest(s, u)
    decreases |left|
  {
    u := t;
    if !Unblocked(s, t) {
      var c := Wanted(s, t);
      assert LockInv(s, c);
      u := s.holder[c];
      if Waits(s, u) {
        WaitsAbove(s, t, u);
        u := FindBusy(s, u, left - {u});
      }
    }
  }

  /** What a thread has left to do: four steps a class, more while it waits, fewer once it has released. */
  function Work(s: State, t: Tid): nat {
    if t !in s.threads then 0
    else
      var th := s.threads[t];
      match th.phase
      case Trying(_) => 4 * |th.stack| + 1
      case Spinning(_) => 4 * |th.stack| + 2
      case Releasing(_) => if th.stack == [] then 0 else 4 * |th.stack| - 1
      case _ => 4 * |th.stack|
  }

  function WorkOf(s: State, ts: seq<Tid>): nat {
    if ts == [] then 0 else Work(s, ts[0]) + WorkOf(s, ts[1..])
  }

  lemma {:induction false} LessWork(s: State, r: State, ts: seq<Tid>, u: Tid)
    requires (forall t :: t != u ==> Work(r, t) == Work(s, t)) && Work(r, u) < Work(s, u)
    ensures WorkOf(r, ts) <= WorkOf(s, ts) && (u in ts ==> WorkOf(r, ts) < WorkOf(s, ts))
    decreases |ts|
  {
    if ts != [] { LessWork(s, r, ts[1..], u); }
  }

  /** The next step of a thread on its way out. */
  function WayOut(s: State, t: Tid): Action
    requires t in s.threads
  {
    var th := s.threads[t];
    if th.phase.Running? && th.stack != [] then Release(th.stack[|th.stack| - 1]) else Go
  }

  lemma WayOutWorks(s: State, u: Tid)
    requires Inv(s) && Proper(s) && NoneStopped(s) && Unblocked(s, u) && !AtRest(s, u)
    ensures var a := WayOut(s, u);
            && Nested(s, u, a) && NoneStopped(Step(s, u, a)) && Work(Step(s, u, a), u) < Work(s, u)
            && forall t :: t != u ==> Work(Step(s, u, a), t) == Work(s, t)
  {
    assert ThreadInv(s, u) && !Stopped(s, u);
    var stack := s.threads[u].stack;
    if stack != [] { assert stack[|stack| - 1] in stack; }
    var r := Step(s, u, WayOut(s, u));
    forall t | t in r.threads ensures !Stopped(r, t) { assert t in s.threads && !Stopped(s, t); }
  }

  lemma {:induction false} WindUp(tids: set<Tid>, moves: seq<Move>, ts: seq<Tid>) returns (more: seq<Move>)
    requires NestedRun(tids, moves) && NoneStopped(Run(tids, moves)) && forall t :: t in tids ==> t in ts
    ensures NestedRun(tids, moves + more) && WoundUp(Run(tids, moves + more))
    decreases WorkOf(Run(tids, moves), ts)
  {
    var s := Run(tids, moves);
    RunKeepsInv(tids, moves);
    more := [];
    assert moves + more == moves;
    if forall t :: t in s.threads ==> AtRest(s, t) {
      RestIsWoundUp(s);
    } else {
      var m := NextMove(tids, moves, ts);
      var rest := WindUp(tids, moves + [m], ts);
      more := [m] + rest;
      assert moves + more == moves + [m] + rest;
    }
  }

  lemma NextMove(tids: set<Tid>, moves: seq<Move>, ts: seq<Tid>) returns (m: Move)
    requires NestedRun(tids, moves) && NoneStopped(Run(tids, moves)) && forall t :: t in tids ==> t in ts
    requires exists t :: t in Run(tids, moves).threads && !AtRest(Run(tids, moves), t)
    ensures NestedRun(tids, moves + [m]) && NoneStopped(Run(tids, moves + [m]))
    ensures WorkOf(Run(tids, moves + [m]), ts) < WorkOf(Run(tids, moves), ts)
  {
    var s := Run(tids, moves);
    RunKeepsInv(tids, moves);
    RunProper(tids, moves);
    var t :| t in s.threads && !AtRest(s, t);
    var u := FindBusy(s, t, s.threads.Keys);
    m := Move(u, WayOut(s, u));
    WayOutWorks(s, u);
    RunNext(tids, moves, m);
    assert (moves + [m])[..|moves|] == moves;
    LessWork(s, Step(s, u, m.a), ts, u);
  }

  lemma {:induction false} Listed(tids: set<Tid>) returns (ts: seq<Tid>)
    ensures forall t :: t in tids ==> t in ts
    decreases |tids|
  {
    ts := [];
    if tids != {} {
      var t :| t in tids;
      var rest := Listed(tids - {t});
      ts := [t] + rest;
    }
  }

  lemma {:induction false} StoppedStays(tids: set<Tid>, moves: seq<Move>, more: seq<Move>, t: Tid)
    requires Stopped(Run(tids, moves), t)
    ensures Stopped(Run(tids, moves + more), t)
    decreases |more|
  {
    if more == [] {
      assert moves + more == moves;
    } else {
      var k := |more| - 1;
      StoppedStays(tids, moves, more[..k], t);
      assert (moves + more)[..|moves + more| - 1] == moves + more[..k];
    }
  }

  /** The run can go on, properly bracketed, until every thread is outside every lock and no word is set. */
  ghost predicate CanWindUp(tids: set<Tid>, moves: seq<Move>) {
    exists more :: NestedRun(tids, moves + more) && WoundUp(Run(tids, moves + more))
  }

  /** Exactly: a properly bracketed run can always be wound up unless a thread has stopped. */
  lemma WindUpIff(tids: set<Tid>, moves: seq<Move>)
    requires NestedRun(tids, moves)
    ensures CanWindUp(tids, moves) <==> NoneStopped(Run(tids, moves))
  {
    if NoneStopped(Run(tids, moves)) {
      var ts := Listed(tids);
      var more := WindUp(tids, moves, ts);
    } else {
      var t :| t in Run(tids, moves).threads && Stopped(Run(tids, moves), t);
      forall more ensures !WoundUp(Run(tids, moves + more)) {
        StoppedStays(tids, moves, more, t);
        assert !AtRest(Run(tids, moves + more), t);
      }
    }
  }
}
