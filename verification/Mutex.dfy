/** The owner-checked mutex as interleaved atomic steps of any number of threads. Lock and unlock take
    two steps each that change the mutex, so the owner field lags behind the lock bit. Atomics are
    sequentially consistent. */
module Mutex {

  /** A thread is its owner id; 0 is not a valid one. */
  type Tid = nat

  datatype Code = Ok | EInval | EBusy | EPerm | EDeadlk

  /** What a thread does next. `held` records whether it held the mutex when it made the call. */
  datatype Pc =
    | Outside
    | TryCas(held: bool)
    | LoadAfterCas(held: bool)
    | StoreOwner
    | LoadForUnlock(held: bool)
    | ClearOwner
    | ClearLocked

  /** `holders` is history: threads whose compare-and-swap won and that have not reset the lock bit. */
  datatype State = State(locked: bool, owner: Tid, pc: map<Tid, Pc>, result: map<Tid, Code>, holders: set<Tid>)

  datatype Action = CallTryLock | CallUnlock | Go

  function PcOf(s: State, t: Tid): Pc {
    if t in s.pc then s.pc[t] else Outside
  }

  function Initial(): State {
    State(false, 0, map[], map[], {})
  }

  function Return(s: State, t: Tid, code: Code): State {
    s.(pc := s.pc[t := Outside], result := s.result[t := code])
  }

  /** One atomic step of thread `t`. A thread inside a call only goes on; one outside only calls. */
  function Step(s: State, t: Tid, a: Action): State {
    match PcOf(s, t)
    case Outside =>
      (match a
       case Go => s
       case CallTryLock => if t == 0 then Return(s, t, EInval) else s.(pc := s.pc[t := TryCas(t in s.holders)])
       case CallUnlock => if t == 0 then Return(s, t, EInval) else s.(pc := s.pc[t := LoadForUnlock(t in s.holders)]))
    case TryCas(held) =>
      if s.locked then s.(pc := s.pc[t := LoadAfterCas(held)])
      else s.(locked := true, pc := s.pc[t := StoreOwner], holders := s.holders + {t})
    case LoadAfterCas(_) => Return(s, t, if s.owner == t then EDeadlk else EBusy)
    case StoreOwner => Return(s.(owner := t), t, Ok)
    case LoadForUnlock(_) =>
      if s.owner != t then Return(s, t, EPerm) else s.(pc := s.pc[t := ClearOwner])
    case ClearOwner => s.(owner := 0, pc := s.pc[t := ClearLocked])
    case ClearLocked => Return(s.(locked := false, holders := s.holders - {t}), t, Ok)
  }

  /** What is true of each thread: where the owner field stands with respect to it. */
  ghost predicate ThreadInv(s: State, t: Tid) {
    match PcOf(s, t)
    case Outside => t in s.holders ==> s.owner == t
    case TryCas(held) => t != 0 && held == (t in s.holders) && (held ==> s.owner == t)
    case LoadAfterCas(held) => t != 0 && held == (t in s.holders) && (held ==> s.owner == t)
    case StoreOwner => t != 0 && t in s.holders && s.owner == 0
    case LoadForUnlock(held) => t != 0 && held == (t in s.holders) && (held ==> s.owner == t)
    case ClearOwner => t != 0 && t in s.holders && s.owner == t
    case ClearLocked => t != 0 && t in s.holders && s.owner == 0
  }

  /** At most one holder, the lock bit tells whether there is one, a set owner field names it. */
  ghost predicate Inv(s: State) {
    && (forall a, b :: a in s.holders && b in s.holders ==> a == b)
    && (s.locked <==> s.holders != {}) && 0 !in s.holders
    && (s.owner != 0 ==> s.owner in s.holders)
    && (forall t: Tid :: ThreadInv(s, t))
  }

  lemma StepKeepsInv(s: State, t: Tid, a: Action)
    requires Inv(s)
    ensures Inv(Step(s, t, a))
  {
    var r := Step(s, t, a);
    assert ThreadInv(s, t);
    forall u: Tid ensures ThreadInv(r, u) { assert ThreadInv(s, u); }
  }

  datatype Move = Move(t: Tid, a: Action)

  /** Under every interleaving: at most one thread holds the mutex, and a non-zero owner field is the
      true holder's id with the lock bit set. */
  function Run(moves: seq<Move>): (s: State)
    ensures Inv(s)
    ensures |s.holders| <= 1 && (s.owner != 0 ==> s.locked && s.holders == {s.owner})
  {
    if moves == [] then Initial()
    else
      var before := Run(moves[..|moves| - 1]);
      var m := moves[|moves| - 1];
      StepKeepsInv(before, m.t, m.a);
      AtMostOne(Step(before, m.t, m.a));
      Step(before, m.t, m.a)
  }

  lemma AtMostOne(s: State)
    requires Inv(s)
    ensures |s.holders| <= 1 && (s.owner != 0 ==> s.locked && s.holders == {s.owner})
  {
    if s.holders != {} {
      var h :| h in s.holders;
      assert s.holders == {h};
    }
  }

  /** A finished call and its outcome. */
  predicate Returns(s: State, t: Tid, code: Code) {
    PcOf(s, t) != Outside && var r := Step(s, t, Go); PcOf(r, t) == Outside && r.result[t] == code
  }

  /** Try-lock answers EDEADLK exactly to a thread that held the mutex when it called, never OK to such
      a thread; EBUSY and OK go only to threads that did not hold it. */
  lemma TryLockOutcome(s: State, t: Tid)
    requires Inv(s) && PcOf(s, t).LoadAfterCas?
    ensures Returns(s, t, EDeadlk) <==> PcOf(s, t).held
    ensures Returns(s, t, EBusy) <==> !PcOf(s, t).held
  {
    assert ThreadInv(s, t);
  }

  lemma TryLockWins(s: State, t: Tid)
    requires Inv(s) && PcOf(s, t).TryCas?
    ensures var r := Step(s, t, Go);
            if s.locked then PcOf(r, t) == LoadAfterCas(PcOf(s, t).held)
            else !PcOf(s, t).held && PcOf(r, t) == StoreOwner && r.holders == {t} && Returns(r, t, Ok)
  {
    assert ThreadInv(s, t);
    if !s.locked { assert Step(s, t, Go).holders == {t}; }
  }

  /** An unlock by a thread that does not hold the mutex answers EPERM and changes nothing but its own
      call; one by the holder goes on to release. */
  lemma UnlockOutcome(s: State, t: Tid)
    requires Inv(s) && PcOf(s, t).LoadForUnlock?
    ensures var r := Step(s, t, Go);
            if PcOf(s, t).held then PcOf(r, t) == ClearOwner && r.locked && r.holders == {t}
            else && Returns(s, t, EPerm)
                 && r.locked == s.locked && r.owner == s.owner && r.holders == s.holders
                 && forall u: Tid :: u != t ==> PcOf(r, u) == PcOf(s, u)
  {
    assert ThreadInv(s, t);
    AtMostOne(s);
  }

  /** The holder's release, however interleaved, frees the mutex: after its two stores nobody holds it. */
  lemma ReleaseFrees(s: State, t: Tid)
    requires Inv(s) && PcOf(s, t) == ClearLocked
    ensures var r := Step(s, t, Go);
            r.holders == {} && !r.locked && r.owner == 0 && r.result[t] == Ok
  {
    assert ThreadInv(s, t);
    AtMostOne(s);
    assert s.holders == {t} by { var h :| h in s.holders; assert h == t; }
  }

  // ---------- whole calls ----------

  datatype Call = TryLock | Unlock

  /** A thread's latest call, as seen from outside: which one, whether the thread held the mutex when it made
      it, whether another thread did at one of its steps, whether one of them changed the mutex, how many. */
  datatype Record = Record(call: Call, held: bool, contended: bool, touched: bool, steps: nat)

  predicate InCall(s: State, t: Tid) { PcOf(s, t) != Outside }

  function Noted(note: Record, s: State, t: Tid, r: State): Record {
    note.(contended := note.contended || s.holders - {t} != {},
    touched := note.touched || r.locked != s.locked || r.owner != s.owner || r.holders != s.holders,
    steps := note.steps + 1)
  }

  /** The step of `t` from `s` to `r` begins a call, continues one or does nothing. */
  function Log(log: map<Tid, Record>, s: State, m: Move, r: State): map<Tid, Record> {
    if InCall(s, m.t) then
      if m.t in log then log[m.t := Noted(log[m.t], s, m.t, r)] else log
    else match m.a
         case Go => log
         case CallTryLock => log[m.t := Noted(Record(TryLock, m.t in s.holders, false, false, 0), s, m.t, r)]
         case CallUnlock => log[m.t := Noted(Record(Unlock, m.t in s.holders, false, false, 0), s, m.t, r)]
  }

  function Calls(moves: seq<Move>): map<Tid, Record> {
    if moves == [] then map[]
    else
      var init := moves[..|moves| - 1];
      Log(Calls(init), Run(init), moves[|moves| - 1], Run(moves))
  }

  /** What a call in progress has done so far. */
  ghost predicate LogInv(s: State, log: map<Tid, Record>, t: Tid) {
    InCall(s, t) ==>
      && t in log && var n := log[t];
      match PcOf(s, t)
      case TryCas(held) => n.call == TryLock && n.held == held && !n.touched && n.steps <= 1
      case LoadAfterCas(held) =>
        n.call == TryLock && n.held == held && !n.touched && (held || n.contended) && n.steps <= 2
      case StoreOwner => n.call == TryLock && !n.held && n.steps <= 2
      case LoadForUnlock(held) => n.call == Unlock && n.held == held && !n.touched && n.steps <= 1
      case ClearOwner => n.call == Unlock && n.held && n.steps <= 2
      case ClearLocked => n.call == Unlock && n.held && n.steps <= 3
  }

  lemma OwnLogKeepsInv(s: State, log: map<Tid, Record>, m: Move)
    requires ThreadInv(s, m.t) && (s.locked <==> s.holders != {}) && (s.owner != 0 ==> s.owner in s.holders)
    requires LogInv(s, log, m.t)
    ensures LogInv(Step(s, m.t, m.a), Log(log, s, m, Step(s, m.t, m.a)), m.t)
  {
    if s.locked && m.t !in s.holders { assert s.holders - {m.t} == s.holders; }
  }

  lemma OtherLogKeepsInv(s: State, log: map<Tid, Record>, m: Move, t: Tid)
    requires LogInv(s, log, t) && t != m.t
    ensures LogInv(Step(s, m.t, m.a), Log(log, s, m, Step(s, m.t, m.a)), t)
  {
    var r := Step(s, m.t, m.a);
    var after := Log(log, s, m, r);
    assert PcOf(r, t) == PcOf(s, t);
    assert t in log ==> t in after && after[t] == log[t];
  }

  lemma {:induction false} CallsInv(moves: seq<Move>, t: Tid)
    ensures LogInv(Run(moves), Calls(moves), t)
  {
    if moves != [] {
      var init, m := moves[..|moves| - 1], moves[|moves| - 1];
      CallsInv(init, t);
      CallsInv(init, m.t);
      assert ThreadInv(Run(init), m.t);
      if t == m.t {
        OwnLogKeepsInv(Run(init), Calls(init), m);
      } else {
        OtherLogKeepsInv(Run(init), Calls(init), m, t);
      }
    }
  }

  /** What the answer to a call promises its caller, in the state in which it returns. */
  ghost predicate GoodAnswer(s: State, t: Tid, n: Record) {
    && t in s.result && var code := s.result[t];
    && (code == EInval <==> t == 0)
    && (code != Ok ==> !n.touched)
    && match n.call
       case TryLock =>
         && code != EPerm && (code == EDeadlk <==> n.held) && (code == EBusy ==> !n.held && n.contended)
         && (code == Ok ==> s.locked && s.owner == t)
         && (t in s.holders <==> code == Ok || code == EDeadlk)
       case Unlock =>
         && (code == Ok <==> n.held) && (code == EPerm <==> !n.held && t != 0)
         && (code == Ok ==> !s.locked && s.owner == 0 && s.holders == {})
         && t !in s.holders
  }

  lemma CallAnswers(s: State, log: map<Tid, Record>, m: Move)
    requires Inv(s) && !InCall(s, m.t) && m.a != Go && !InCall(Step(s, m.t, m.a), m.t)
    ensures var r := Step(s, m.t, m.a);
            var after := Log(log, s, m, r);
            m.t in after && GoodAnswer(r, m.t, after[m.t])
  {
  }

  lemma GoAnswers(s: State, log: map<Tid, Record>, m: Move)
    requires Inv(s) && LogInv(s, log, m.t) && InCall(s, m.t) && !InCall(Step(s, m.t, m.a), m.t)
    ensures var r := Step(s, m.t, m.a);
            var after := Log(log, s, m, r);
            m.t in after && GoodAnswer(r, m.t, after[m.t])
  {
    assert ThreadInv(s, m.t);
    AtMostOne(s);
    if PcOf(s, m.t) == ClearLocked { ReleaseFrees(s, m.t); }
  }

  lemma StepAnswers(s: State, log: map<Tid, Record>, m: Move)
    requires Inv(s) && LogInv(s, log, m.t) && (InCall(s, m.t) || m.a != Go) && !InCall(Step(s, m.t, m.a), m.t)
    ensures var r := Step(s, m.t, m.a);
            var after := Log(log, s, m, r);
            m.t in after && GoodAnswer(r, m.t, after[m.t])
  {
    if InCall(s, m.t) { GoAnswers(s, log, m); } else { CallAnswers(s, log, m); }
  }

  /** Every call, in every interleaving, in terms of the call made and its answer. EINVAL goes exactly to
      thread id 0, and only a call answered OK has changed the mutex. A try-lock answers EDEADLK exactly to a
      thread that held the mutex when it called, OK leaves it the holder and recorded owner, and EBUSY means
      that another thread held the mutex during the call. An unlock answers OK exactly to a thread that held
      the mutex when it called, and then nobody holds it; any other valid caller gets EPERM. */
  lemma WholeCall(moves: seq<Move>, m: Move)
    requires InCall(Run(moves), m.t) || m.a != Go
    requires !InCall(Run(moves + [m]), m.t)
    ensures m.t in Calls(moves + [m]) && GoodAnswer(Run(moves + [m]), m.t, Calls(moves + [m])[m.t])
  {
    CallsInv(moves, m.t);
    assert (moves + [m])[..|moves|] == moves;
    StepAnswers(Run(moves), Calls(moves), m);
  }

  /** A holder stays the holder until its own unlock answers OK. */
  lemma HeldUntilUnlocked(moves: seq<Move>, m: Move, t: Tid)
    requires t in Run(moves).holders && t !in Run(moves + [m]).holders
    ensures m.t == t && !InCall(Run(moves + [m]), t) && t in Run(moves + [m]).result && t in Calls(moves + [m])
    ensures Calls(moves + [m])[t].call == Unlock && Run(moves + [m]).result[t] == Ok
  {
    CallsInv(moves, m.t);
    assert (moves + [m])[..|moves|] == moves;
    OnlyReleaseDrops(Run(moves), Calls(moves), m, t);
  }

  lemma OnlyReleaseDrops(s: State, log: map<Tid, Record>, m: Move, t: Tid)
    requires LogInv(s, log, m.t) && t in s.holders && t !in Step(s, m.t, m.a).holders
    ensures var r := Step(s, m.t, m.a);
            var after := Log(log, s, m, r);
            && m.t == t && !InCall(r, t) && t in after && after[t].call == Unlock
            && t in r.result && r.result[t] == Ok
  {
    assert PcOf(s, m.t) == ClearLocked;
  }

  /** A call never takes more than four steps of its thread, whatever the others do. */
  lemma CallEnds(moves: seq<Move>, t: Tid)
    requires InCall(Run(moves), t)
    ensures t in Calls(moves) && Calls(moves)[t].steps <= 3
  {
    CallsInv(moves, t);
  }
}
