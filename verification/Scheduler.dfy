/** The scheduler over thread objects: an intrusive singly linked ready queue whose links live in the
    threads themselves. The context switch itself is machine code and is not represented. */
module Scheduler {
  import opened Words
  import opened SchedModel

  const THREAD_MAGIC: u64 := 0x4d43_534f_5354_4852

  class Thread {
    var magic: u64
    var id: u64
    var state: State
    var next: Thread?
    var switches: u64
    var ticks: u64

    constructor () {
      magic, id, state, next, switches, ticks := 0, 0, New, null, 0, 0;
    }
  }

  /** The nodes `p` are linked in order, each to the next. */
  ghost predicate LinkedFrom(head: Thread?, p: seq<Thread>)
    reads p`next
  {
    (p != [] ==> head == p[0]) && forall i :: 0 <= i < |p| - 1 ==> p[i].next == p[i + 1]
  }

  /** Where a walk over `p` stands. */
  ghost function After(head: Thread?, p: seq<Thread>): Thread?
    reads p`next
  {
    if p == [] then head else p[|p| - 1].next
  }

  /** `q` is the whole null-terminated list at `head`. */
  ghost predicate IsList(head: Thread?, q: seq<Thread>)
    reads q`next
  {
    LinkedFrom(head, q) && After(head, q) == null
  }

  /** The list at `head` is determined: any linked walk is a prefix of it. */
  lemma {:induction false} ListForced(head: Thread?, q: seq<Thread>, p: seq<Thread>)
    requires IsList(head, q) && LinkedFrom(head, p)
    ensures |p| <= |q| && q[..|p|] == p
    ensures |p| == |q| <==> After(head, p) == null
    ensures |p| < |q| ==> q[|p|] == After(head, p)
    decreases |p|
  {
    if p != [] {
      var k := |p| - 1;
      ListForced(head, q, p[..k]);
      if k > 0 { assert p[k - 1].next == p[k]; }
      if k + 1 < |q| { assert q[k].next == q[k + 1]; }
    }
  }

  /** A null-terminated list visits no node twice. */
  lemma ListNoDup(head: Thread?, q: seq<Thread>)
    requires IsList(head, q)
    ensures NoDup(q)
  {
    forall i, j ensures Differ(q, i, j) {
      if 0 <= i < j < |q| { NodesDiffer(head, q, i, j); }
      if 0 <= j < i < |q| { NodesDiffer(head, q, j, i); }
    }
  }

  lemma {:induction false} NodesDiffer(head: Thread?, q: seq<Thread>, i: nat, j: nat)
    requires IsList(head, q) && i < j < |q|
    ensures q[i] != q[j]
    decreases |q| - j
  {
    assert q[i].next == q[i + 1];
    if j + 1 < |q| {
      assert q[j].next == q[j + 1];
      NodesDiffer(head, q, i + 1, j + 1);
    }
  }

  class SchedulerState {
    var current: Thread?
    var idle: Thread?
    var readyHead: Thread?
    var readyTail: Thread?
    var nextId: u64
    var runnableCount: u64
    var contextSwitches: u64
    var ticks: u64
    var initialized: bool
    ghost var model: Sched<Thread>  // the scheduler as a value

    /** The linked list at `readyHead` is the model's queue. */
    ghost predicate Queued()
      reads this`readyHead, this`readyTail, this`runnableCount, this`model, model.queue`next
    {
      && IsList(readyHead, model.queue) && runnableCount == |model.queue|
      && readyTail == if model.queue == [] then null else model.queue[|model.queue| - 1]
    }

    /** The fields of the scheduler and of its threads are those of the model. */
    ghost predicate Mirrors()
      reads this`current, this`idle, this`contextSwitches, this`model
      reads model.state.Keys`state, model.switches.Keys`switches
    {
      && current == model.current && idle == model.idle && contextSwitches == model.contextSwitches
      && (forall t :: t in model.state ==> t.state == model.state[t])
      && (forall t :: t in model.switches ==> t.switches == model.switches[t])
    }

    /** Thread objects are distinct 64-bit addresses, so there are fewer than 2^64 - 1 of them. */
    ghost predicate Sound()
      reads this`model, model.threads`magic
    {
      |model.threads| < TWO64 - 1 && forall t {:trigger t.magic} :: t in model.threads ==> t.magic == THREAD_MAGIC
    }

    ghost predicate Valid()
      reads this, model.state.Keys, model.switches.Keys, model.queue, model.threads
    {
      Mirrors() && Queued() && Sound() && Inv(model)
    }

    /** `mcsos_scheduler_init`: the boot thread runs and is also the idle thread. */
    constructor (boot: Thread)
      modifies boot
      ensures Valid() && initialized
      ensures model == Booted<Thread>(boot)
    {
      current, idle, readyHead, readyTail := boot, boot, null, null;
      nextId, runnableCount, contextSwitches, ticks, initialized := 1, 0, 0, 0, true;
      model := Booted<Thread>(boot);
      new;
      boot.magic, boot.id, boot.state, boot.next := THREAD_MAGIC, 0, Running, null;
      boot.switches, boot.ticks := 0, 0;
    }

    ghost function Tail(): set<Thread>
      reads this`readyTail
    {
      if readyTail == null then {} else {readyTail}
    }

    lemma TailKnown()
      requires Queued() && Shape(model)
      ensures forall t :: t in Tail() ==> t in model.queue && t in model.state
    {
      if model.queue != [] { assert model.queue[|model.queue| - 1] in model.queue; }
    }

    /** `mcsos_sched_enqueue` with no assumption on the list: what it writes, and nothing more. */
    method Append(thread: Thread) returns (code: Code)
      modifies this`readyHead, this`readyTail, this`runnableCount, thread`state, thread`next, Tail()`next
      ensures code == if !initialized || thread.magic != THREAD_MAGIC then EInval
                      else if old(thread.state) == Running || old(thread.state) == Zombie then EState else Ok
      ensures code != Ok ==> unchanged(this) && unchanged(thread) && unchanged(old(Tail()))
      ensures code == Ok ==>
        && thread.state == Ready && readyTail == thread && runnableCount == Inc64(old(runnableCount))
        && readyHead == (if old(readyTail) == null then thread else old(readyHead))
        && (forall t :: t in old(Tail()) ==> t.next == thread)
        && (thread !in old(Tail()) ==> thread.next == null)
    {
      if !initialized || thread.magic != THREAD_MAGIC {
        return EInval;
      }
      if thread.state != New && thread.state != Ready && thread.state != Blocked {
        return EState;
      }
      thread.state := Ready;
      thread.next := null;
      if readyTail == null {
        readyHead, readyTail := thread, thread;
      } else {
        readyTail.next := thread;
        readyTail := thread;
      }
      runnableCount := Inc64(runnableCount);
      return Ok;
    }

    /** A thread that is not in the list becomes its last node. */
    method AppendTail(thread: Thread) returns (code: Code)
      requires Queued() && |model.queue| < TWO64 - 1 && thread !in model.queue
      modifies this`readyHead, this`readyTail, this`runnableCount, this`model
      modifies thread`state, thread`next, Tail()`next
      ensures code == if !initialized || thread.magic != THREAD_MAGIC then EInval
                      else if old(thread.state) == Running || old(thread.state) == Zombie then EState else Ok
      ensures code != Ok ==> thread.state == old(thread.state) && model == old(model)
      ensures code == Ok ==> thread.state == Ready && model == old(model).(queue := old(model).queue + [thread])
      ensures Queued()
    {
      ghost var q := model.queue;
      assert forall t :: t in Tail() ==> t in q;
      code := Append(thread);
      if code == Ok {
        model := model.(queue := q + [thread]);
        assert LinkedFrom(readyHead, q + [thread]);
      }
    }

    method AppendNew(thread: Thread) returns (code: Code)
      requires Queued() && Mirrors() && Shape(model) && |model.queue| < TWO64 - 1
      requires thread in model.state && thread !in model.queue
      modifies this`readyHead, this`readyTail, this`runnableCount, this`model
      modifies thread`state, thread`next, Tail()`next
      ensures initialized && thread.magic == THREAD_MAGIC ==>
                (code, model) == SchedModel.Enqueue(old(model), thread)
      ensures !initialized || thread.magic != THREAD_MAGIC ==> code == EInval && model == old(model)
      ensures Queued() && Mirrors()
    {
      code := AppendTail(thread);
      if code == Ok {
        model := model.(state := model.state[thread := Ready]);
      }
    }

    /** Enqueueing a known thread that is not queued appends it. */
    method Enqueue(thread: Thread?) returns (code: Code)
      requires Valid()
      requires thread != null ==> thread in model.threads && thread !in model.queue
      modifies this`readyHead, this`readyTail, this`runnableCount, this`model
      modifies model.state.Keys`state, model.state.Keys`next
      ensures Valid()
      ensures !initialized || thread == null ==> code == EInval && model == old(model)
      ensures initialized && thread != null ==> (code, model) == SchedModel.Enqueue(old(model), thread)
    {
      if thread == null {
        return EInval;
      }
      SubsetShorter(model.queue, model.threads);
      EnqueueKeepsInv(model, thread);
      TailKnown();
      code := AppendNew(thread);
    }

    /** Unlinks the head of the queue, or offers idle when the queue is empty. */
    method PickNext() returns (next: Thread?)
      requires Queued() && Mirrors() && Shape(model) && NoDup(model.queue)
      modifies this`readyHead, this`readyTail, this`runnableCount, this`model, model.state.Keys`next
      ensures Queued() && Mirrors()
      ensures !initialized ==> next == null && model == old(model)
      ensures initialized ==> next == NextUp(old(model)) && model == Popped(old(model))
    {
      if !initialized {
        return null;
      }
      var t := readyHead;
      if t == null {
        return idle;
      }
      ghost var q := model.queue;
      PoppedQueue(q);
      assert |q| > 1 ==> q[0].next == q[1];
      readyHead := t.next;
      if readyHead == null {
        readyTail := null;
      }
      t.next := null;
      if runnableCount > 0 {
        runnableCount := runnableCount - 1;
      }
      model := model.(queue := q[1..]);
      assert LinkedFrom(readyHead, q[1..]) by {
        forall i | 0 <= i < |q| - 2 ensures q[1..][i].next == q[1..][i + 1] { assert q[i + 1].next == q[i + 2]; }
      }
      return t;
    }

    /** What `mcsos_sched_yield` needs of the list; the current thread may be running or blocked. */
    ghost predicate Yieldable()
      reads this, model.state.Keys, model.switches.Keys, model.queue
    {
      && Mirrors() && Queued() && Shape(model) && NoDup(model.queue) && |model.queue| < TWO64 - 1
      && model.current !in model.queue && model.idle !in model.queue
    }

    method SetState(t: Thread, state: State)
      requires Mirrors() && Queued() && t in model.state
      modifies this`model, t`state
      ensures model == old(model).(state := old(model).state[t := state]) && Mirrors() && Queued()
    {
      t.state := state;
      model := model.(state := model.state[t := state]);
    }

    /** Puts a current thread that is still running at the tail. */
    method Requeue(previous: Thread) returns (code: Code)
      requires Yieldable() && previous == current && initialized && previous.magic == THREAD_MAGIC
      modifies this`readyHead, this`readyTail, this`runnableCount, this`model
      modifies previous`state, previous`next, Tail()`next
      ensures code == Ok && model == Requeued(old(model)) && Mirrors() && Queued()
    {
      code := Ok;
      if previous.state == Running && previous != idle {
        SetState(previous, Ready);
        code := AppendNew(previous);
      }
    }

    method YieldCore() returns (code: Code)
      requires Yieldable()
      modifies this`readyHead, this`readyTail, this`runnableCount, this`current, this`contextSwitches, this`model
      modifies model.state.Keys`state, model.state.Keys`next, model.state.Keys`switches
      ensures Mirrors() && Queued()
      ensures code == Ok || code == EInval || code == ECorrupt
      ensures code == EInval ==> (!initialized || current.magic != THREAD_MAGIC) && model == old(model)
      ensures code == ECorrupt ==> NextUp(old(model)).magic != THREAD_MAGIC && model == Popped(old(model))
      ensures code == Ok ==> initialized && model == SchedModel.Yield(old(model)) &&
                             NextUp(old(model)).magic == THREAD_MAGIC
    {
      if !initialized || current == null || current.magic != THREAD_MAGIC {
        return EInval;
      }
      var previous := current;
      PoppedStays(model);
      var next := PickNext();
      if next == null || next.magic != THREAD_MAGIC {
        return ECorrupt;
      }
      if next == previous {
        SetState(previous, Running);
        return Ok;
      }
      code := SwitchTo(previous, next);
    }

    /** The switch itself, with the next thread already unlinked. */
    method SwitchTo(previous: Thread, next: Thread) returns (code: Code)
      requires Yieldable() && previous == current && initialized && previous.magic == THREAD_MAGIC
      requires next != previous && next in model.state
      modifies this`readyHead, this`readyTail, this`runnableCount, this`current, this`contextSwitches, this`model
      modifies model.state.Keys`state, model.state.Keys`next, model.state.Keys`switches
      ensures Mirrors() && Queued() && code == Ok && model == Switch(Requeued(old(model)), next)
    {
      TailKnown();
      code := Requeue(previous);
      if code == Ok {
        HandOver(previous, next);
      }
    }

    method HandOver(previous: Thread, next: Thread)
      requires Mirrors() && Queued() && previous == current && next != previous && next in model.state && Shape(model)
      modifies this`current, this`contextSwitches, this`model
      modifies previous`switches, next`switches, next`state
      ensures Mirrors() && Queued() && model == Switch(old(model), next)
    {
      next.state := Running;
      current := next;
      previous.switches := Inc64(previous.switches);
      next.switches := Inc64(next.switches);
      contextSwitches := Inc64(contextSwitches);
      model := Switch(model, next);
    }

    /** A yield among intact threads: it succeeds. */
    method YieldIntact() returns (code: Code)
      requires Yieldable() && Sound() && initialized
      requires model.current in model.threads && NextUp(model) in model.threads
      modifies this`readyHead, this`readyTail, this`runnableCount, this`current, this`contextSwitches, this`model
      modifies model.state.Keys`state, model.state.Keys`next, model.state.Keys`switches
      ensures code == Ok && model == SchedModel.Yield(old(model))
      ensures Mirrors() && Queued() && Sound()
    {
      YieldThreads(model);
      assert model.current.magic == THREAD_MAGIC && NextUp(model).magic == THREAD_MAGIC;
      code := YieldCore();
    }

    /** `mcsos_sched_yield` on a valid scheduler. */
    method Yield() returns (code: Code)
      requires Valid()
      modifies this`readyHead, this`readyTail, this`runnableCount, this`current, this`contextSwitches, this`model
      modifies model.state.Keys`state, model.state.Keys`next, model.state.Keys`switches
      ensures Valid()
      ensures code == if initialized then Ok else EInval
      ensures model == if initialized then SchedModel.Yield(old(model)) else old(model)
    {
      if !initialized {
        return EInval;
      }
      SubsetShorter(model.queue, model.threads);
      YieldKeepsInv(model);
      NextKnown(model);
      code := YieldIntact();
    }

    /** Blocks the current thread and yields; refused for idle. */
    method BlockCurrent() returns (code: Code)
      requires Valid()
      modifies this`readyHead, this`readyTail, this`runnableCount, this`current, this`contextSwitches, this`model
      modifies model.state.Keys`state, model.state.Keys`next, model.state.Keys`switches
      ensures Valid()
      ensures !initialized ==> code == EInval && model == old(model)
      ensures initialized ==> (code, model) == SchedModel.Block(old(model))
    {
      if !initialized || current == null || current.magic != THREAD_MAGIC {
        return EInval;
      }
      if current == idle {
        return EState;
      }
      code := BlockAndYield();
    }

    method BlockAndYield() returns (code: Code)
      requires Valid() && initialized && model.current != model.idle
      modifies this`readyHead, this`readyTail, this`runnableCount, this`current, this`contextSwitches, this`model
      modifies model.state.Keys`state, model.state.Keys`next, model.state.Keys`switches
      ensures (code, model) == SchedModel.Block(old(model)) && Valid()
    {
      SubsetShorter(model.queue, model.threads);
      BlockKeepsInv(model);
      NextKnown(model);
      MarkBlocked();
      code := YieldIntact();
    }

    method MarkBlocked()
      requires Yieldable() && Sound() && current != null
      modifies this`model, current`state
      ensures Yieldable() && Sound() && model == old(model).(state := old(model).state[old(model).current := Blocked])
    {
      SetState(current, Blocked);
    }

    method MarkReady(thread: Thread?) returns (code: Code)
      requires Valid()
      requires thread != null ==> thread in model.threads
      modifies this`readyHead, this`readyTail, this`runnableCount, this`model
      modifies model.state.Keys`state, model.state.Keys`next
      ensures Valid()
      ensures thread == null ==> code == EInval && model == old(model)
      ensures thread != null && old(thread.state) != Blocked ==> code == EState && model == old(model)
      ensures thread != null && old(thread.state) == Blocked ==>
        if initialized then (code, model) == SchedModel.MarkReady(old(model), thread)
        else code == EInval && model == old(model)
    {
      if thread == null || thread.magic != THREAD_MAGIC {
        return EInval;
      }
      if thread.state != Blocked {
        return EState;
      }
      assert Placed(model, thread);
      code := Enqueue(thread);
    }

    /** A thread object the scheduler does not know is prepared: new, unlinked, counted from zero. */
    method Prepare(thread: Thread, id: u64)
      requires Valid() && thread !in model.threads && |model.threads| + 1 < TWO64 - 1
      modifies this`model, thread
      ensures Valid() && model == SchedModel.Prepare(old(model), thread)
    {
      PrepareKeepsInv(model, thread);
      assert thread !in model.state && thread !in model.switches && thread !in model.queue;
      WriteThread(thread, id);
      model := SchedModel.Prepare(model, thread);
    }

    method WriteThread(thread: Thread, id: u64)
      requires Mirrors() && Queued() && Sound() && |model.threads| + 1 < TWO64 - 1
      requires thread !in model.state && thread !in model.switches && thread !in model.queue && thread !in model.threads
      modifies thread
      ensures Mirrors() && Queued() && Sound()
      ensures thread.magic == THREAD_MAGIC && thread.id == id && thread.state == New && thread.next == null
      ensures thread.switches == 0 && thread.ticks == 0
    {
      thread.magic, thread.id, thread.state, thread.next := THREAD_MAGIC, id, New, null;
      thread.switches, thread.ticks := 0, 0;
    }

    /** A timer tick counts and schedules nothing. */
    method Tick() returns (code: Code)
      requires Valid()
      modifies this`ticks, current`ticks
      ensures Valid() && model == old(model)
      ensures code == if initialized then Ok else EInval
      ensures code == Ok ==> ticks == Inc64(old(ticks)) && current.ticks == Inc64(old(current.ticks))
      ensures code != Ok ==> unchanged(this) && unchanged(current)
    {
      if !initialized || current == null || current.magic != THREAD_MAGIC {
        return EInval;
      }
      ticks := Inc64(ticks);
      current.ticks := Inc64(current.ticks);
      return Ok;
    }

    /** Counts the list; only a null-terminated one ends. */
    method ReadyCount() returns (n: nat)
      requires Queued()
      ensures n == if initialized then |model.queue| else 0
    {
      n := 0;
      if !initialized {
        return;
      }
      var c := readyHead;
      while c != null
        invariant n <= |model.queue| && c == if n == |model.queue| then null else model.queue[n]
        decreases |model.queue| - n
      {
        c, n := c.next, n + 1;
      }
    }

    // ---------- the validator, on any heap ----------

    /** The ready list is the finite list `q` of ready, intact threads that excludes the current one,
        ends at the tail and has the recorded length. */
    ghost predicate GoodList(q: seq<Thread>)
      reads this, q
    {
      && IsList(readyHead, q) && |q| == runnableCount && runnableCount < TWO64 - 1
      && readyTail == (if q == [] then null else q[|q| - 1])
      && (forall i :: 0 <= i < |q| ==> GoodNode(q[i]))
    }

    ghost predicate GoodNode(t: Thread)
      reads this`current, t`magic, t`state
    {
      t.magic == THREAD_MAGIC && t.state == Ready && t != current
    }

    /** Terminates on every heap, cyclic lists included, and accepts exactly the good lists. */
    method Validate() returns (code: Code)
      ensures code == EInval <==> !initialized || current == null || current.magic != THREAD_MAGIC
      ensures code == EInval || code == ECorrupt || code == Ok
      ensures code != EInval ==> (code == Ok <==> exists q :: GoodList(q))
    {
      if !initialized || current == null || current.magic != THREAD_MAGIC {
        return EInval;
      }
      var count: nat := 0;
      var cursor := readyHead;
      var last: Thread? := null;
      ghost var p: seq<Thread> := [];
      while cursor != null
        invariant LinkedFrom(readyHead, p) && cursor == After(readyHead, p)
        invariant count == |p| && (forall i :: 0 <= i < |p| ==> GoodNode(p[i]))
        invariant last == if p == [] then null else p[|p| - 1]
        invariant count <= Inc64(runnableCount)
        decreases TWO64 - count
      {
        forall q | GoodList(q) ensures |p| < |q| && q[|p|] == cursor && GoodNode(cursor) {
          ListForced(readyHead, q, p);
        }
        if cursor.magic != THREAD_MAGIC || cursor.state != Ready {
          return ECorrupt;
        }
        if cursor == current {
          return ECorrupt;
        }
        last := cursor;
        p := p + [cursor];
        cursor := cursor.next;
        count := count + 1;
        if count > Inc64(runnableCount) {
          ghost var head := readyHead;
          assert forall q :: GoodList(q) ==> !(|p| <= |q|);
          forall q | IsList(head, q) ensures |p| <= |q| { ListForced(head, q, p); }
          return ECorrupt;
        }
      }
      forall q | GoodList(q) ensures q == p { ListForced(readyHead, q, p); }
      if last != readyTail || count != runnableCount {
        return ECorrupt;
      }
      assert GoodList(p);
      return Ok;
    }

    /** Every valid scheduler is accepted. */
    lemma ValidIsAccepted()
      requires Valid() && initialized
      ensures GoodList(model.queue) && current != null && current.magic == THREAD_MAGIC
      ensures NoDup(model.queue)
    {
      SubsetShorter(model.queue, model.threads);
      NextKnown(model);
      forall i | 0 <= i < |model.queue| ensures GoodNode(model.queue[i]) {
        assert model.queue[i] in model.queue;
        assert Placed(model, model.queue[i]);
      }
    }

    method AppendQueued(thread: Thread, ghost k: nat) returns (code: Code)
      requires Valid() && initialized && k < |model.queue| && model.queue[k] == thread
      modifies this`readyHead, this`readyTail, this`runnableCount
      modifies model.state.Keys`state, model.state.Keys`next
      ensures code == Ok && runnableCount == |model.queue| + 1 && readyHead == model.queue[0]
      ensures var q := model.queue;
              (forall i :: 0 <= i < |q| - 1 && i != k ==> q[i].next == q[i + 1]) &&
              if k == |q| - 1 then q[k].next == q[k] else q[k].next == null
    {
      ghost var q := model.queue;
      SubsetShorter(q, model.threads);
      assert thread in q && Placed(model, thread);
      assert readyTail == q[|q| - 1] && Differ(q, k, |q| - 1) && q[|q| - 1] in q;
      code := Append(thread);
      forall i | 0 <= i < |q| - 1 && i != k ensures q[i].next == q[i + 1] {
        assert Differ(q, i, k) && Differ(q, i, |q| - 1);
      }
    }

    /** Why a queued thread must not be enqueued again: the call succeeds and leaves a list the validator
        rejects, whatever the queue and whichever of its threads. */
    method EnqueueQueued(thread: Thread) returns (code: Code, verdict: Code)
      requires Valid() && initialized && thread in model.queue
      modifies this`readyHead, this`readyTail, this`runnableCount
      modifies model.state.Keys`state, model.state.Keys`next
      ensures code == Ok && verdict == ECorrupt
    {
      ghost var q := model.queue;
      ghost var k :| 0 <= k < |q| && q[k] == thread;
      assert current == model.current && current.magic == THREAD_MAGIC;
      code := AppendQueued(thread, k);
      verdict := Validate();
      forall r | IsList(readyHead, r) ensures |r| != |q| + 1 { QueuedTwice(readyHead, q, k, r); }
      assert forall r :: GoodList(r) ==> IsList(readyHead, r) && |r| == |q| + 1;
    }
  }

  /** After `q[k]` is enqueued again the list stops at `q[k]` or loops there. */
  lemma QueuedTwice(head: Thread?, q: seq<Thread>, k: nat, r: seq<Thread>)
    requires k < |q| && NoDup(q) && head == q[0]
    requires forall i :: 0 <= i < |q| - 1 && i != k ==> q[i].next == q[i + 1]
    requires if k == |q| - 1 then q[k].next == q[k] else q[k].next == null
    requires IsList(head, r)
    ensures |r| != |q| + 1
  {
    var p := q[..k + 1];
    assert LinkedFrom(head, p);
    ListForced(head, r, p);
    if k == |q| - 1 {
      ListNoDup(head, r);
      assert Differ(r, k, k + 1);
    }
  }

  lemma PoppedStays<T>(s: Sched<T>)
    requires Shape(s) && NoDup(s.queue)
    ensures var p := Popped(s);
            Shape(p) && NoDup(p.queue) && |p.queue| <= |s.queue| && NextUp(s) in s.state &&
            forall t :: t in p.queue ==> t in s.queue
  {
    if s.queue != [] { PoppedQueue(s.queue); }
  }

  lemma {:induction false} SubsetShorter<T>(q: seq<T>, all: seq<T>)
    requires NoDup(q) && forall t :: t in q ==> t in all
    ensures |q| <= |all|
  {
    CountMembers(q);
    AtMostLength(all);
    assert Members(q) <= Members(all);
    SubsetSize(Members(q), Members(all));
  }

  lemma {:induction false} CountMembers<T>(q: seq<T>)
    requires NoDup(q)
    ensures |Members(q)| == |q|
  {
    if q != [] {
      var k := |q| - 1;
      forall i, j ensures Differ(q[..k], i, j) { assert Differ(q, i, j); }
      forall i | 0 <= i < k ensures q[i] != q[k] { assert Differ(q, i, k); }
      CountMembers(q[..k]);
      assert Members(q) == Members(q[..k]) + {q[k]};
    }
  }

  lemma {:induction false} AtMostLength<T>(q: seq<T>)
    ensures |Members(q)| <= |q|
  {
    if q != [] {
      var k := |q| - 1;
      AtMostLength(q[..k]);
      assert Members(q) == Members(q[..k]) + {q[k]};
    }
  }

  lemma SubsetSize<T>(a: set<T>, b: set<T>)
    requires a <= b
    ensures |a| <= |b|
  {
    assert b == a + (b - a);
  }
}
