/** The cooperative scheduler as a value: who runs, who waits in what order, and the switch counts.
    `T` stands for thread objects. */
module SchedModel {
  import opened Words

  datatype State = New | Ready | Running | Blocked | Zombie
  datatype Code = Ok | EInval | EState | ECorrupt

  datatype Sched<T> = Sched(
    threads: seq<T>,
    current: T,
    idle: T,
    queue: seq<T>,
    state: map<T, State>,
    switches: map<T, u64>,
    contextSwitches: u64)

  ghost predicate Differ<T>(s: seq<T>, i: int, j: int) {
    0 <= i < |s| && 0 <= j < |s| && i != j ==> s[i] != s[j]
  }

  ghost predicate NoDup<T>(s: seq<T>) {
    forall i, j :: Differ(s, i, j)
  }

  function Members<T(==)>(s: seq<T>): set<T> {
    set t | t in s
  }

  /** Where a thread is: queued exactly when ready, running exactly when current (idle always runs). */
  ghost predicate Placed<T>(s: Sched<T>, t: T) {
    && t in s.state && s.state[t] != Zombie
    && (t in s.queue <==> s.state[t] == Ready)
    && (if t == s.idle then s.state[t] == Running else t == s.current <==> s.state[t] == Running)
  }

  /** Each thread other than idle is exactly one of current, queued, blocked or new: the current one
      is the only one running, the queued ones are the ready ones. Idle runs always, is never queued. */
  ghost predicate Inv<T>(s: Sched<T>) {
    && NoDup(s.threads) && NoDup(s.queue)
    && s.current in s.threads && s.idle in s.threads
    && s.state.Keys == Members(s.threads) && s.switches.Keys == Members(s.threads)
    && (forall t {:trigger t in s.queue} :: t in s.queue ==> t in s.threads)
    && (forall t {:trigger Placed(s, t)} :: t in s.threads ==> Placed(s, t))
  }

  /** A fresh scheduler: the boot thread runs and is also idle. */
  function Booted<T(==)>(t: T): (s: Sched<T>)
    ensures Inv(s) && Balanced(s) && Exact(s)
  {
    Sched([t], t, t, [], map[t := Running], map[t := 0], 0)
  }

  // ---------- operations ----------

  /** Appends a thread that is not queued; a queued one is the caller's mistake. */
  function Enqueue<T(==)>(s: Sched<T>, t: T): (Code, Sched<T>)
    requires t in s.state
  {
    if s.state[t] == Running || s.state[t] == Zombie then (EState, s)
    else (Ok, s.(state := s.state[t := Ready], queue := s.queue + [t]))
  }

  function Bump<T(==)>(m: map<T, u64>, t: T): map<T, u64>
    requires t in m
  {
    m[t := Inc64(m[t])]
  }

  function Switch<T(==)>(s: Sched<T>, next: T): Sched<T>
    requires s.current in s.switches && next in s.switches
  {
    s.(current := next,
       state := s.state[next := Running],
       switches := Bump(Bump(s.switches, s.current), next),
       contextSwitches := Inc64(s.contextSwitches))
  }

  /** Every thread the fields mention has a state and a switch count. */
  ghost predicate Shape<T>(s: Sched<T>) {
    && s.current in s.state && s.idle in s.state
    && (forall t {:trigger t in s.queue} :: t in s.queue ==> t in s.state) && s.switches.Keys == s.state.Keys
  }

  function NextUp<T(==)>(s: Sched<T>): T {
    if s.queue == [] then s.idle else s.queue[0]
  }

  function Popped<T(==)>(s: Sched<T>): Sched<T> {
    if s.queue == [] then s else s.(queue := s.queue[1..])
  }

  /** A current thread that is still running goes to the tail; a blocked one and idle do not. */
  function Requeued<T(==)>(s: Sched<T>): Sched<T>
    requires s.current in s.state
  {
    if s.state[s.current] == Running && s.current != s.idle
    then s.(state := s.state[s.current := Ready], queue := s.queue + [s.current])
    else s
  }

  /** Hands the processor to the head of the queue, or to idle. */
  function Yield<T(==)>(s: Sched<T>): Sched<T>
    requires Shape(s)
  {
    assert s.queue != [] ==> s.queue[0] in s.queue;
    if NextUp(s) == s.current then Popped(s).(state := s.state[s.current := Running])
    else Switch(Requeued(Popped(s)), NextUp(s))
  }

  /** Marks the current thread blocked and yields; idle may not block. */
  function Block<T(==)>(s: Sched<T>): (Code, Sched<T>)
    requires Shape(s)
  {
    if s.current == s.idle then (EState, s) else (Ok, Yield(s.(state := s.state[s.current := Blocked])))
  }

  function MarkReady<T(==)>(s: Sched<T>, t: T): (Code, Sched<T>)
    requires t in s.state
  {
    if s.state[t] != Blocked then (EState, s) else Enqueue(s, t)
  }

  /** A thread object the scheduler has not seen is prepared. */
  function Prepare<T(==)>(s: Sched<T>, t: T): Sched<T> {
    s.(threads := s.threads + [t], state := s.state[t := New], switches := s.switches[t := 0])
  }

  // ---------- runs ----------

  datatype Op<T> = DoEnqueue(t: T) | DoYield | DoBlock | DoMarkReady(t: T) | DoTick | DoPrepare(t: T)

  /** What callers owe: known threads, not yet queued when enqueued, not prepared twice. */
  predicate Legal<T(==)>(s: Sched<T>, op: Op<T>) {
    match op
    case DoEnqueue(t) => t in s.threads && t !in s.queue
    case DoMarkReady(t) => t in s.threads
    case DoPrepare(t) => t !in s.threads
    case _ => true
  }

  function Step<T(==)>(s: Sched<T>, op: Op<T>): Sched<T>
    requires Shape(s) && Members(s.threads) <= s.state.Keys && Legal(s, op)
  {
    match op
    case DoEnqueue(t) => Enqueue(s, t).1
    case DoYield => Yield(s)
    case DoBlock => Block(s).1
    case DoMarkReady(t) => MarkReady(s, t).1
    case DoTick => s
    case DoPrepare(t) => Prepare(s, t)
  }

  lemma EnqueueKeepsInv<T>(s: Sched<T>, t: T)
    requires Inv(s) && t in s.threads && t !in s.queue
    ensures Inv(Enqueue(s, t).1)
  {
    var r := Enqueue(s, t).1;
    assert Placed(s, t);
    forall x | x in r.threads ensures Placed(r, x) { assert Placed(s, x); }
    if r.queue != s.queue { AppendNoDup(s.queue, t); }
  }

  lemma AppendNoDup<T>(q: seq<T>, t: T)
    requires NoDup(q) && t !in q
    ensures NoDup(q + [t])
  {
    forall i, j ensures Differ(q + [t], i, j) { assert Differ(q, i, j); }
  }

  lemma PoppedQueue<T>(q: seq<T>)
    requires q != [] && NoDup(q)
    ensures q[0] in q && q[0] !in q[1..] && NoDup(q[1..])
    ensures forall t :: t in q <==> t == q[0] || t in q[1..]
  {
    forall i, j ensures Differ(q[1..], i, j) { assert Differ(q, i + 1, j + 1); }
    forall i | 1 <= i < |q| ensures q[0] != q[i] { assert Differ(q, 0, i); }
  }

  /** The thread that comes next is known, and is not the current one unless both are idle. */
  lemma NextKnown<T>(s: Sched<T>)
    requires Inv(s)
    ensures Shape(s) && NextUp(s) in s.threads && s.current !in s.queue && s.idle !in s.queue
    ensures NextUp(s) == s.current ==> s.queue == [] && s.current == s.idle
  {
    assert Placed(s, s.current) && Placed(s, s.idle);
    if s.queue != [] { assert s.queue[0] in s.queue; }
  }

  lemma YieldThreads<T>(s: Sched<T>)
    requires Shape(s)
    ensures Yield(s).threads == s.threads
  {
  }

  /** Where a thread other than the next one is once the current thread is put away: ready at the tail,
      blocked, or idle. */
  ghost predicate Away<T>(b: Sched<T>, t: T) {
    && t in b.state && b.state[t] != Zombie
    && (t in b.queue <==> b.state[t] == Ready) && (t == b.idle <==> b.state[t] == Running)
  }

  /** The common core of yield and block. */
  lemma SwitchKeepsInv<T>(s: Sched<T>, b: Sched<T>, next: T)
    requires Inv(s) && next in s.threads && next !in b.queue
    requires b.threads == s.threads && b.current == s.current && b.idle == s.idle
    requires b.switches == s.switches && b.state.Keys == s.state.Keys && NoDup(b.queue)
    requires forall t {:trigger t in b.queue} :: t in b.queue ==> t in b.threads
    requires forall t {:trigger Away(b, t)} :: t in b.threads && t != next ==> Away(b, t)
    ensures Inv(Switch(b, next))
  {
    var r := Switch(b, next);
    forall t | t in r.threads ensures Placed(r, t) {
      if t != next { assert Away(b, t); }
    }
  }

  lemma YieldKeepsInv<T>(s: Sched<T>)
    requires Inv(s)
    ensures Shape(s) && Inv(Yield(s))
  {
    NextKnown(s);
    var next := NextUp(s);
    if next != s.current {
      var p := Popped(s);
      var b := Requeued(p);
      if s.queue != [] { PoppedQueue(s.queue); }
      assert Placed(s, s.current) && Placed(s, s.idle);
      if b.queue != p.queue { AppendNoDup(p.queue, s.current); }
      forall t | t in b.threads && t != next ensures Away(b, t) { assert Placed(s, t); }
      SwitchKeepsInv(s, b, next);
    } else {
      forall t | t in s.threads ensures Placed(Yield(s), t) { assert Placed(s, t); }
    }
  }

  lemma BlockKeepsInv<T>(s: Sched<T>)
    requires Inv(s)
    ensures Shape(s) && Inv(Block(s).1)
  {
    NextKnown(s);
    if s.current != s.idle {
      var next := NextUp(s);
      var b := Popped(s.(state := s.state[s.current := Blocked]));
      if s.queue != [] { PoppedQueue(s.queue); }
      assert Placed(s, s.current) && Placed(s, s.idle);
      forall t | t in b.threads && t != next ensures Away(b, t) { assert Placed(s, t); }
      assert Requeued(b) == b;
      SwitchKeepsInv(s, b, next);
    }
  }

  /** Every legal operation keeps the partition of threads. */
  lemma StepKeepsInv<T>(s: Sched<T>, op: Op<T>)
    requires Inv(s) && Legal(s, op)
    ensures Shape(s) && Members(s.threads) <= s.state.Keys && Inv(Step(s, op))
  {
    NextKnown(s);
    match op
    case DoEnqueue(t) => EnqueueKeepsInv(s, t);
    case DoYield => YieldKeepsInv(s);
    case DoBlock => BlockKeepsInv(s);
    case DoMarkReady(t) =>
      assert Placed(s, t);
      if s.state[t] == Blocked { EnqueueKeepsInv(s, t); }
    case DoTick =>
    case DoPrepare(t) => PrepareKeepsInv(s, t);
  }

  lemma PrepareKeepsInv<T>(s: Sched<T>, t: T)
    requires Inv(s) && t !in s.threads
    ensures Inv(Prepare(s, t))
  {
    var r := Prepare(s, t);
    AppendNoDup(s.threads, t);
    assert s.current in s.threads && s.idle in s.threads;
    forall x | x in r.threads ensures Placed(r, x) {
      if x != t { assert Placed(s, x); } else { assert t !in s.queue; }
    }
  }

  ghost predicate LegalRun<T>(s: Sched<T>, ops: seq<Op<T>>)
    requires Inv(s)
    decreases |ops|
  {
    ops == [] || (Legal(s, ops[0]) && (StepKeepsInv(s, ops[0]); LegalRun(Step(s, ops[0]), ops[1..])))
  }

  /** In every legal run the threads stay partitioned. */
  ghost function Run<T>(s: Sched<T>, ops: seq<Op<T>>): (r: Sched<T>)
    requires Inv(s) && LegalRun(s, ops)
    ensures Inv(r)
    decreases |ops|
  {
    if ops == [] then s else StepKeepsInv(s, ops[0]); Run(Step(s, ops[0]), ops[1..])
  }

  // ---------- switch accounting ----------

  function Sum<T(==)>(threads: seq<T>, m: map<T, u64>): nat
    requires forall t :: t in threads ==> t in m
  {
    if threads == [] then 0
    else
      assert threads[|threads| - 1] in threads;
      Sum(threads[..|threads| - 1], m) + m[threads[|threads| - 1]]
  }

  lemma {:induction false} SumBump<T>(threads: seq<T>, m: map<T, u64>, t: T)
    requires (forall x :: x in threads ==> x in m) && NoDup(threads) && t in m
    ensures Sum(threads, Bump(m, t)) ==
            Sum(threads, m) + if t in threads then Inc64(m[t]) - m[t] else 0
    decreases |threads|
  {
    if threads != [] {
      var k := |threads| - 1;
      var before := threads[..k];
      forall i, j ensures Differ(before, i, j) { assert Differ(threads, i, j); }
      forall i | 0 <= i < k ensures threads[i] != threads[k] { assert Differ(threads, i, k); }
      SumBump(before, m, t);
      assert t in threads <==> t in before || t == threads[k];
    }
  }

  lemma {:induction false} SumAdd<T>(threads: seq<T>, m: map<T, u64>, t: T)
    requires (forall x :: x in threads ==> x in m) && t !in threads
    ensures Sum(threads, m[t := 0]) == Sum(threads, m)
    decreases |threads|
  {
    if threads != [] {
      assert threads[|threads| - 1] in threads;
      SumAdd(threads[..|threads| - 1], m, t);
    }
  }

  /** Every context switch is counted once by the scheduler and once by each of the two threads; in
      64-bit arithmetic, so a wrapped counter still fits. */
  ghost predicate Balanced<T>(s: Sched<T>)
    requires Inv(s)
  {
    (Sum(s.threads, s.switches) - 2 * s.contextSwitches) % TWO64 == 0
  }

  lemma SwitchBalanced<T>(s: Sched<T>, t: Sched<T>, next: T)
    requires Inv(s) && Inv(t) && Balanced(s) && next in s.threads && next != s.current
    requires t.threads == s.threads && t.contextSwitches == Inc64(s.contextSwitches)
    requires t.switches == Bump(Bump(s.switches, s.current), next)
    ensures Balanced(t)
  {
    SumBump(s.threads, s.switches, s.current);
    SumBump(s.threads, Bump(s.switches, s.current), next);
    var k := Wraps(s.contextSwitches) * 2 - Wraps(s.switches[s.current]) - Wraps(s.switches[next]);
    WholeTurns(Sum(s.threads, s.switches) - 2 * s.contextSwitches, k);
  }

  function Wraps(x: u64): int {
    if x == TWO64 - 1 then 1 else 0
  }

  lemma WholeTurns(a: int, k: int)
    requires a % TWO64 == 0 && -2 <= k <= 2
    ensures (a + k * TWO64) % TWO64 == 0
  {
  }

  lemma YieldBalanced<T>(s: Sched<T>)
    requires Inv(s) && Balanced(s)
    ensures Shape(s) && Inv(Yield(s)) && Balanced(Yield(s))
  {
    YieldKeepsInv(s);
    NextKnown(s);
    if NextUp(s) != s.current { SwitchBalanced(s, Yield(s), NextUp(s)); }
  }

  lemma BlockBalanced<T>(s: Sched<T>)
    requires Inv(s) && Balanced(s)
    ensures Shape(s) && Inv(Block(s).1) && Balanced(Block(s).1)
  {
    BlockKeepsInv(s);
    NextKnown(s);
    if s.current != s.idle { SwitchBalanced(s, Block(s).1, NextUp(s)); }
  }

  lemma StepBalanced<T>(s: Sched<T>, op: Op<T>)
    requires Inv(s) && Legal(s, op) && Balanced(s)
    ensures Shape(s) && Members(s.threads) <= s.state.Keys && Inv(Step(s, op)) && Balanced(Step(s, op))
  {
    StepKeepsInv(s, op);
    match op
    case DoYield => YieldBalanced(s);
    case DoBlock => BlockBalanced(s);
    case DoPrepare(x) =>
      SumAdd(s.threads, s.switches, x);
      assert (s.threads + [x])[..|s.threads|] == s.threads;
    case _ =>
  }

  /** In every run the threads' switch counts add up to twice the scheduler's (modulo 2^64). */
  lemma {:induction false} RunBalanced<T>(s: Sched<T>, ops: seq<Op<T>>)
    requires Inv(s) && Balanced(s) && LegalRun(s, ops)
    ensures Balanced(Run(s, ops))
    decreases |ops|
  {
    if ops != [] {
      StepBalanced(s, ops[0]);
      RunBalanced(Step(s, ops[0]), ops[1..]);
    }
  }

  /** The same over the integers: no counter has wrapped, and no thread switched more often than the
      scheduler did. */
  ghost predicate Exact<T>(s: Sched<T>)
    requires Inv(s)
  {
    && Sum(s.threads, s.switches) == 2 * s.contextSwitches
    && forall t :: t in s.switches ==> s.switches[t] <= s.contextSwitches
  }

  lemma SwitchExact<T>(s: Sched<T>, t: Sched<T>, next: T)
    requires Inv(s) && Inv(t) && Exact(s) && next in s.threads && next != s.current
    requires s.contextSwitches < TWO64 - 1
    requires t.threads == s.threads && t.contextSwitches == Inc64(s.contextSwitches)
    requires t.switches == Bump(Bump(s.switches, s.current), next)
    ensures Exact(t)
  {
    SumBump(s.threads, s.switches, s.current);
    SumBump(s.threads, Bump(s.switches, s.current), next);
  }

  lemma YieldExact<T>(s: Sched<T>)
    requires Inv(s) && Exact(s) && s.contextSwitches < TWO64 - 1
    ensures Shape(s) && Inv(Yield(s)) && Exact(Yield(s)) && Yield(s).contextSwitches <= s.contextSwitches + 1
  {
    YieldKeepsInv(s);
    NextKnown(s);
    if NextUp(s) != s.current { SwitchExact(s, Yield(s), NextUp(s)); }
  }

  lemma BlockExact<T>(s: Sched<T>)
    requires Inv(s) && Exact(s) && s.contextSwitches < TWO64 - 1
    ensures Shape(s) && Inv(Block(s).1) && Exact(Block(s).1) && Block(s).1.contextSwitches <= s.contextSwitches + 1
  {
    BlockKeepsInv(s);
    NextKnown(s);
    if s.current != s.idle { SwitchExact(s, Block(s).1, NextUp(s)); }
  }

  lemma PrepareExact<T>(s: Sched<T>, x: T)
    requires Inv(s) && Exact(s) && x !in s.threads
    ensures Inv(Prepare(s, x)) && Exact(Prepare(s, x))
  {
    PrepareKeepsInv(s, x);
    SumAdd(s.threads, s.switches, x);
    assert (s.threads + [x])[..|s.threads|] == s.threads;
  }

  lemma StepExact<T>(s: Sched<T>, op: Op<T>)
    requires Inv(s) && Legal(s, op) && Exact(s) && s.contextSwitches < TWO64 - 1
    ensures Shape(s) && Members(s.threads) <= s.state.Keys && Inv(Step(s, op)) && Exact(Step(s, op))
    ensures Step(s, op).contextSwitches <= s.contextSwitches + 1
  {
    StepKeepsInv(s, op);
    match op
    case DoYield => YieldExact(s);
    case DoBlock => BlockExact(s);
    case DoPrepare(x) => PrepareExact(s, x);
    case _ =>
  }

  /** A run too short to wrap the counter keeps the accounting exact: the switch counts of the threads add
      up to twice `context_switches`. */
  lemma {:induction false} RunExact<T>(s: Sched<T>, ops: seq<Op<T>>)
    requires Inv(s) && Exact(s) && LegalRun(s, ops) && s.contextSwitches + |ops| < TWO64
    ensures Exact(Run(s, ops))
    decreases |ops|
  {
    if ops != [] {
      StepExact(s, ops[0]);
      RunExact(Step(s, ops[0]), ops[1..]);
    }
  }

  // ---------- what each operation does ----------

  /** One switch, counted by the scheduler and by both threads in 64 bits, exactly when the current thread
      changes. */
  ghost predicate Counted<T>(s: Sched<T>, r: Sched<T>) {
    && r.contextSwitches == (if r.current != s.current then (s.contextSwitches + 1) % TWO64 else s.contextSwitches)
    && r.switches.Keys == s.switches.Keys
    && forall t :: t in s.switches ==>
         r.switches[t] == if r.current != s.current && (t == s.current || t == r.current)
                          then (s.switches[t] + 1) % TWO64 else s.switches[t]
  }

  lemma SwitchCounted<T>(s: Sched<T>, b: Sched<T>, next: T)
    requires s.current in s.switches && next in s.switches && next != s.current
    requires b.switches == s.switches && b.contextSwitches == s.contextSwitches && b.current == s.current
    ensures Counted(s, Switch(b, next))
  {
  }

  /** Who runs and what every thread's state is after a switch away from a thread left in state `st`. */
  ghost predicate Handed<T>(s: Sched<T>, r: Sched<T>, st: State) {
    && r.threads == s.threads && r.idle == s.idle && r.state.Keys == s.state.Keys
    && (s.queue == [] ==> r.current == s.idle)
    && (s.queue != [] ==> r.current == s.queue[0])
    && forall t :: t in s.state ==>
         r.state[t] == if t == r.current || t == s.idle then Running else if t == s.current then st else s.state[t]
  }

  lemma YieldHands<T>(s: Sched<T>)
    requires Inv(s)
    ensures Shape(s) && Handed(s, Yield(s), Ready)
  {
    NextKnown(s);
    assert Placed(s, s.current) && Placed(s, s.idle);
  }

  lemma BlockHands<T>(s: Sched<T>)
    requires Inv(s) && s.current != s.idle
    ensures Shape(s) && Handed(s, Block(s).1, Blocked)
  {
    NextKnown(s);
    assert Placed(s, s.current) && Placed(s, s.idle);
  }

  /** A yield runs the head of the queue, or idle when nobody waits. The thread that ran, unless it is
      idle, becomes ready and goes last; nobody else moves. */
  lemma YieldEffect<T>(s: Sched<T>)
    requires Inv(s)
    ensures Shape(s) && Members(s.threads) <= s.state.Keys
    ensures var r := Step(s, DoYield);
            && Handed(s, r, Ready) && Counted(s, r)
            && (s.current == s.idle ==> r.queue == s.queue[Min(1, |s.queue|)..])
            && (s.current != s.idle ==> r.queue == s.queue[Min(1, |s.queue|)..] + [s.current])
  {
    NextKnown(s);
    YieldHands(s);
    assert Placed(s, s.current);
    if NextUp(s) == s.current {
      assert s.queue[0..] == s.queue;
    } else {
      SwitchCounted(s, Requeued(Popped(s)), NextUp(s));
    }
  }

  /** Idle may not block: nothing changes. Another thread that blocks leaves the processor to the head of
      the queue, or to idle, and is nowhere queued. */
  lemma BlockEffect<T>(s: Sched<T>)
    requires Inv(s)
    ensures Shape(s) && Members(s.threads) <= s.state.Keys
    ensures Block(s).0 == if s.current == s.idle then EState else Ok
    ensures s.current == s.idle ==> Step(s, DoBlock) == s
    ensures var r := Step(s, DoBlock);
            s.current != s.idle ==>
              && Handed(s, r, Blocked) && Counted(s, r)
              && r.current != s.current && r.queue == s.queue[Min(1, |s.queue|)..]
  {
    NextKnown(s);
    if s.current != s.idle {
      BlockHands(s);
      assert s.queue == [] ==> s.queue[0..] == s.queue;
      SwitchCounted(s, Popped(s.(state := s.state[s.current := Blocked])), NextUp(s));
    }
  }

  /** Enqueueing puts a new or blocked thread last and makes it ready; marking ready does so to a blocked
      thread only. Otherwise the answer is ESTATE and nothing changes. */
  lemma WakeEffect<T>(s: Sched<T>, t: T)
    requires Inv(s) && t in s.threads && t !in s.queue
    ensures t in s.state
    ensures Enqueue(s, t).0 == if s.state[t] == New || s.state[t] == Blocked then Ok else EState
    ensures MarkReady(s, t).0 == if s.state[t] == Blocked then Ok else EState
    ensures forall op :: op == DoEnqueue(t) || op == DoMarkReady(t) ==>
              && Shape(s) && Members(s.threads) <= s.state.Keys
              && var r := Step(s, op);
              if s.state[t] == Blocked || (s.state[t] == New && op == DoEnqueue(t))
              then r == s.(queue := s.queue + [t], state := s.state[t := Ready])
              else r == s
  {
    NextKnown(s);
    assert Placed(s, t);
  }

  /** A prepared thread has run nowhere and waits nowhere: it can be enqueued, and not be marked ready. */
  lemma PreparedEffect<T>(s: Sched<T>, t: T)
    requires Inv(s) && t !in s.threads
    ensures Shape(s) && Members(s.threads) <= s.state.Keys
    ensures var r := Step(s, DoPrepare(t));
            && Inv(r) && r.queue == s.queue && r.current == s.current && r.contextSwitches == s.contextSwitches
            && t in r.threads && t !in r.queue && t in r.state && t in r.switches && r.switches[t] == 0
            && Enqueue(r, t).0 == Ok && MarkReady(r, t).0 == EState
            && forall x :: x in s.state ==>
                 x in r.state && r.state[x] == s.state[x] && x in r.switches && r.switches[x] == s.switches[x]
  {
    StepKeepsInv(s, DoPrepare(t));
    assert (s.threads + [t])[|s.threads|] == t;
    WakeEffect(Prepare(s, t), t);
  }

  // ---------- bounded waiting ----------

  /** A yield or block that picks the next thread. */
  predicate Dispatches<T(==)>(s: Sched<T>, op: Op<T>) {
    op.DoYield? || (op.DoBlock? && s.current != s.idle)
  }

  ghost function DispatchCount<T>(s: Sched<T>, ops: seq<Op<T>>): nat
    requires Inv(s) && LegalRun(s, ops)
    decreases |ops|
  {
    if ops == [] then 0
    else
      StepKeepsInv(s, ops[0]);
      (if Dispatches(s, ops[0]) then 1 else 0) + DispatchCount(Step(s, ops[0]), ops[1..])
  }

  /** One step: a dispatch moves every waiting thread up by one, anything else leaves it in place. */
  lemma StepMovesUp<T>(s: Sched<T>, op: Op<T>, k: nat)
    requires Inv(s) && Legal(s, op) && k < |s.queue|
    ensures Shape(s) && s.current != s.queue[k]
    ensures var r := Step(s, op);
            if Dispatches(s, op) then
              if k == 0 then r.current == s.queue[0] else k - 1 < |r.queue| && r.queue[k - 1] == s.queue[k]
            else k < |r.queue| && r.queue[k] == s.queue[k] && r.current == s.current
  {
    NextKnown(s);
    assert s.queue[k] in s.queue;
  }

  /** Bounded waiting: the thread at position `k` stays queued through the first `k` dispatches, each
      moving it up by one, whatever happens in between. */
  lemma {:induction false} BoundedWaiting<T>(s: Sched<T>, ops: seq<Op<T>>, k: nat)
    requires Inv(s) && LegalRun(s, ops) && k < |s.queue|
    ensures var m, r := DispatchCount(s, ops), Run(s, ops);
            m <= k ==> k - m < |r.queue| && r.queue[k - m] == s.queue[k] && r.current != s.queue[k]
    decreases |ops|
  {
    if ops == [] {
      StepMovesUp(s, DoTick, k);
    } else {
      StepKeepsInv(s, ops[0]);
      StepMovesUp(s, ops[0], k);
      var r := Step(s, ops[0]);
      if !Dispatches(s, ops[0]) {
        BoundedWaiting(r, ops[1..], k);
      } else if k > 0 {
        BoundedWaiting(r, ops[1..], k - 1);
      }
    }
  }

  /** ... and the dispatch after those makes it current. */
  lemma DispatchedAtLast<T>(s: Sched<T>, ops: seq<Op<T>>, op: Op<T>, k: nat)
    requires Inv(s) && LegalRun(s, ops) && k < |s.queue| && DispatchCount(s, ops) == k
    requires Dispatches(Run(s, ops), op)
    ensures Shape(Run(s, ops)) && Step(Run(s, ops), op).current == s.queue[k]
  {
    BoundedWaiting(s, ops, k);
    StepMovesUp(Run(s, ops), op, 0);
  }
}
