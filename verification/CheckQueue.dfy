/** CCheckQueue: a master and its workers as atomic steps, one for each critical section and each batch executed. */
module CheckQueue {
  import Powers

  /** A verification and what it will answer. */
  datatype Check = Check(id: nat, ok: bool)

  predicate AllOk(checks: seq<Check>) {
    forall c :: c in checks ==> c.ok
  }

  // ---------------------------------------------------------------------------
  // The shared fields, and the parts of a critical section
  // ---------------------------------------------------------------------------

  /** The fields under the mutex; fQuit is never set. */
  datatype Core = Core(queue: seq<Check>, nIdle: int, nTotal: int, fAllOk: bool, nTodo: int)

  /** How a critical section ends for its thread. */
  datatype Outcome = Took(batch: seq<Check>, fOk: bool) | Slept | Left(result: bool)

  /** How many checks to take from a queue that is not empty: at least one, and no more than there are, nor more than
      `nBatchSize` unless that is 0. Beyond one, it is the largest number up to `nBatchSize` that would leave as many
      for every thread, with the idle ones counted twice and one more to come. */
  function BatchSize(nBatchSize: nat, size: nat, nTotal: nat, nIdle: nat): (n: nat)
    ensures n >= 1 && (size > 0 ==> n <= size) && (nBatchSize > 0 ==> n <= nBatchSize)
    ensures n == 1 || (n <= nBatchSize && n * (nTotal + nIdle + 1) <= size)
    ensures n >= nBatchSize || (n + 1) * (nTotal + nIdle + 1) > size
  {
    var share := size / (nTotal + nIdle + 1);
    ShareBound(size, nTotal + nIdle + 1, share, nBatchSize);
    var n := if nBatchSize < share then nBatchSize else share;
    if n < 1 then 1 else n
  }

  lemma {:induction false} ShareBound(size: nat, k: nat, share: nat, n: nat)
    requires k > 0 && share == size / k
    ensures share <= size && share * k <= size < (share + 1) * k
    ensures n <= share ==> n * k <= size
    ensures share < 1 ==> 2 * k > size
  {
    assert size == share * k + size % k;
    Powers.MulLeft(1, k, share);
    if n <= share { Powers.MulLeft(n, share, k); }
  }

  /** The last `n` checks, last first. */
  function LastOf(queue: seq<Check>, n: nat): (batch: seq<Check>)
    requires n <= |queue|
    ensures |batch| == n
  {
    seq(n, i requires 0 <= i < n => queue[|queue| - 1 - i])
  }

  /** From the test of the inner while loop on: takes a batch, leaves, or goes to sleep. */
  function TryWork(c: Core, nBatchSize: nat, fMaster: bool): (Core, Outcome)
    requires c.nTotal >= 0 && c.nIdle >= 0
  {
    if c.queue != [] then
      var nNow := BatchSize(nBatchSize, |c.queue|, c.nTotal, c.nIdle);
      (c.(queue := c.queue[..|c.queue| - nNow]), Took(LastOf(c.queue, nNow), c.fAllOk))
    else if fMaster && c.nTodo == 0 then
      (c.(nTotal := c.nTotal - 1, fAllOk := true), Left(c.fAllOk))
    else
      (c.(nIdle := c.nIdle + 1), Slept)
  }

  /** The clean-up after a batch of `nNow` checks. */
  function CleanUp(c: Core, nNow: nat, fOk: bool): Core {
    c.(fAllOk := c.fAllOk && fOk, nTodo := c.nTodo - nNow)
  }

  /** Which waiting workers new checks wake. */
  datatype Notify = NoOne | One | All

  function NotifyFor(count: nat): Notify {
    if count == 0 then NoOne else if count == 1 then One else All
  }

  class Queue {
    var queue: seq<Check>
    var nIdle: int
    var nTotal: int
    var fAllOk: bool
    var nTodo: int
    const nBatchSize: nat

    function Fields(): Core
      reads this
    {
      Core(queue, nIdle, nTotal, fAllOk, nTodo)
    }

    constructor (nBatchSizeIn: nat)
      ensures Fields() == Core([], 0, 0, true, 0) && nBatchSize == nBatchSizeIn
    {
      queue, nIdle, nTotal, fAllOk, nTodo := [], 0, 0, true, 0;
      nBatchSize := nBatchSizeIn;
    }

    /** The critical section of Loop, up to its end or to the wait; `nNow` is 0 in the first iteration. */
    method Section(fMaster: bool, nNow: nat, fOk: bool) returns (notifyMaster: bool, out: Outcome)
      requires nTotal >= 0 && nIdle >= 0
      modifies this
      ensures var c := if nNow > 0 then CleanUp(old(Fields()), nNow, fOk)
                       else old(Fields()).(nTotal := old(nTotal) + 1);
              (Fields(), out) == TryWork(c, nBatchSize, fMaster)
      ensures notifyMaster == (nNow > 0 && old(nTodo) == nNow && !fMaster)
    {
      notifyMaster := false;
      if nNow > 0 {
        fAllOk := fAllOk && fOk;
        nTodo := nTodo - nNow;
        if nTodo == 0 && !fMaster {
          notifyMaster := true;
        }
      } else {
        nTotal := nTotal + 1;
      }
      out := WorkOrWait(fMaster);
    }

    /** The critical section after a wait. */
    method Awake(fMaster: bool) returns (out: Outcome)
      requires nTotal >= 0 && nIdle > 0
      modifies this
      ensures (Fields(), out) == TryWork(old(Fields()).(nIdle := old(nIdle) - 1), nBatchSize, fMaster)
    {
      nIdle := nIdle - 1;
      out := WorkOrWait(fMaster);
    }

    method WorkOrWait(fMaster: bool) returns (out: Outcome)
      requires nTotal >= 0 && nIdle >= 0
      modifies this
      ensures (Fields(), out) == TryWork(old(Fields()), nBatchSize, fMaster)
    {
      if queue == [] {
        if fMaster && nTodo == 0 {
          nTotal := nTotal - 1;
          var fRet := fAllOk;
          fAllOk := true;
          return Left(fRet);
        }
        nIdle := nIdle + 1;
        return Slept;
      }
      var nNow := BatchSize(nBatchSize, |queue|, nTotal, nIdle);
      var vChecks := [];
      ghost var before := queue;
      for i := 0 to nNow
        invariant Fields() == old(Fields()).(queue := queue)
        invariant queue == before[..|before| - i] && vChecks == LastOf(before, i)
      {
        vChecks := vChecks + [queue[|queue| - 1]];
        queue := queue[..|queue| - 1];
      }
      assert Fields() == old(Fields()).(queue := before[..|before| - nNow]);
      return Took(vChecks, fAllOk);
    }

    method Add(vChecks: seq<Check>) returns (notify: Notify)
      modifies this
      ensures notify == if |vChecks| == 0 then NoOne else if |vChecks| == 1 then One else All
      ensures Fields() == old(Fields()).(queue := old(queue) + vChecks, nTodo := old(nTodo) + |vChecks|)
    {
      for i := 0 to |vChecks|
        invariant Fields() == old(Fields()).(queue := old(queue) + vChecks[..i])
      {
        queue := queue + [vChecks[i]];
        assert vChecks[..i + 1] == vChecks[..i] + [vChecks[i]];
      }
      assert vChecks[..|vChecks|] == vChecks;
      nTodo := nTodo + |vChecks|;
      if |vChecks| == 1 {
        return One;
      } else if |vChecks| > 1 {
        return All;
      }
      return NoOne;
    }

    method IsIdle() returns (idle: bool)
      ensures idle == Idle(Fields())
    {
      return nTotal == nIdle && nTodo == 0 && fAllOk == true;
    }
  }

  predicate Idle(c: Core) {
    c.nTotal == c.nIdle && c.nTodo == 0 && c.fAllOk
  }

  /** The execution of a batch: checks after a failed one are skipped. */
  method Execute(vChecks: seq<Check>, fOk0: bool) returns (fOk: bool)
    ensures fOk == (fOk0 && AllOk(vChecks))
  {
    fOk := fOk0;
    for i := 0 to |vChecks|
      invariant fOk == (fOk0 && AllOk(vChecks[..i]))
    {
      assert vChecks[..i + 1] == vChecks[..i] + [vChecks[i]];
      if fOk {
        fOk := vChecks[i].ok;
      }
    }
    assert vChecks[..|vChecks|] == vChecks;
  }

  // ---------------------------------------------------------------------------
  // Threads and steps
  // ---------------------------------------------------------------------------

  /** Where a thread is between steps. */
  datatype Thread =
    | Out
    | Waiting(signalled: bool)
    | Running(batch: seq<Check>, fOk: bool)
    | Finished(nNow: nat, fOk: bool)

  /** What a Wait returned, and the checks added since the one before. */
  datatype Answer = Answer(ok: bool, checks: seq<Check>)

  /** All threads, the master first; `added` are the checks since the last Wait. */
  datatype State = State(core: Core, nBatchSize: nat, threads: seq<Thread>, added: seq<Check>, answers: seq<Answer>)

  /** A step of thread `t`, or of the master for Add; `woken` is the worker that notify_one picks. */
  datatype Step =
    | Add(checks: seq<Check>, woken: nat)
    | Enter(t: nat)
    | Run(t: nat)
    | Finish(t: nat)
    | Wake(t: nat)

  function Start(nBatchSize: nat, n: nat): State {
    State(Core([], 0, 0, true, 0), nBatchSize, seq(n, _ => Out), [], [])
  }

  predicate Enabled(s: State, step: Step) {
    match step
    case Add(_, _) => |s.threads| > 0 && s.threads[0].Out?
    case Enter(t) => t < |s.threads| && s.threads[t].Out?
    case Run(t) => t < |s.threads| && s.threads[t].Running?
    case Finish(t) => t < |s.threads| && s.threads[t].Finished?
    case Wake(t) => t < |s.threads| && s.threads[t].Waiting?
  }

  function Signal(th: Thread): Thread {
    if th.Waiting? then Waiting(true) else th
  }

  /** A worker that waits and has not been signalled. */
  predicate Sleeps(threads: seq<Thread>, i: nat) {
    0 < i < |threads| && threads[i] == Waiting(false)
  }

  /** The first worker asleep from `i` on, if there is one. */
  function FirstAsleep(threads: seq<Thread>, i: nat): nat
    decreases |threads| - i
  {
    if i >= |threads| || Sleeps(threads, i) then i else FirstAsleep(threads, i + 1)
  }

  /** The worker that notify_one wakes: the one that is picked if that is asleep, or else another that is. */
  function Picked(threads: seq<Thread>, woken: nat): nat {
    if Sleeps(threads, woken) then woken else FirstAsleep(threads, 1)
  }

  /** Wakes one worker, or all of them, when checks arrive. */
  function Notified(threads: seq<Thread>, notify: Notify, woken: nat): (r: seq<Thread>)
    ensures |r| == |threads|
  {
    seq(|threads|, i requires 0 <= i < |threads| =>
      if i > 0 && (notify.All? || (notify.One? && i == Picked(threads, woken))) then Signal(threads[i])
      else threads[i])
  }

  lemma {:induction false} FirstAsleepIs(threads: seq<Thread>, i: nat)
    ensures forall j :: i <= j && Sleeps(threads, j) ==> Sleeps(threads, FirstAsleep(threads, i))
    decreases |threads| - i
  {
    if i < |threads| && !Sleeps(threads, i) { FirstAsleepIs(threads, i + 1); }
  }

  /** New checks wake as many sleeping workers as there are checks: none for none, one for one if there is one, and all
      of them for more. No other thread is touched. */
  lemma {:induction false} AddWakes(s: State, checks: seq<Check>, woken: nat) returns (one: nat)
    requires s.core.nTotal >= 0 && s.core.nIdle >= 0 && Enabled(s, Add(checks, woken))
    ensures var threads := Next(s, Add(checks, woken)).threads;
            && |threads| == |s.threads|
            && (forall i :: 0 <= i < |threads| && threads[i] != s.threads[i] ==>
                  Sleeps(s.threads, i) && threads[i] == Waiting(true))
            && (|checks| == 0 ==> threads == s.threads)
            && (|checks| > 1 ==> forall i :: !Sleeps(threads, i))
            && (|checks| == 1 ==> forall i :: Sleeps(threads, i) <==> Sleeps(s.threads, i) && i != one)
            && (|checks| == 1 && (exists i :: Sleeps(s.threads, i)) ==> Sleeps(s.threads, one))
            && (Sleeps(s.threads, woken) ==> one == woken)
  {
    one := Picked(s.threads, woken);
    FirstAsleepIs(s.threads, 1);
    var threads := Next(s, Add(checks, woken)).threads;
    if |checks| == 0 { assert threads == s.threads; }
  }

  /** The end of a critical section of thread `t`. */
  function Settle(s: State, t: nat, r: (Core, Outcome)): State
    requires t < |s.threads|
  {
    match r.1
    case Took(batch, fOk) => s.(core := r.0, threads := s.threads[t := Running(batch, fOk)])
    case Slept => s.(core := r.0, threads := s.threads[t := Waiting(false)])
    case Left(result) =>
      s.(core := r.0, threads := s.threads[t := Out], added := [], answers := s.answers + [Answer(result, s.added)])
  }

  function Next(s: State, step: Step): State
    requires Enabled(s, step) && s.core.nTotal >= 0 && s.core.nIdle >= 0
    requires step.Wake? ==> s.core.nIdle > 0
  {
    var c := s.core;
    match step
    case Add(checks, woken) =>
      s.(core := c.(queue := c.queue + checks, nTodo := c.nTodo + |checks|),
         threads := Notified(s.threads, NotifyFor(|checks|), woken), added := s.added + checks)
    case Enter(t) => Settle(s, t, TryWork(c.(nTotal := c.nTotal + 1), s.nBatchSize, t == 0))
    case Run(t) =>
      var th := s.threads[t];
      s.(threads := s.threads[t := Finished(|th.batch|, th.fOk && AllOk(th.batch))])
    case Finish(t) =>
      var th := s.threads[t];
      var c1 := CleanUp(c, th.nNow, th.fOk);
      var s1 := if c1.nTodo == 0 && t != 0 then s.(threads := s.threads[0 := Signal(s.threads[0])]) else s;
      Settle(s1, t, TryWork(c1, s.nBatchSize, t == 0))
    case Wake(t) => Settle(s, t, TryWork(c.(nIdle := c.nIdle - 1), s.nBatchSize, t == 0))
  }

  // ---------------------------------------------------------------------------
  // Counting over threads
  // ---------------------------------------------------------------------------

  function Held(th: Thread): nat {
    match th case Running(batch, _) => |batch| case Finished(nNow, _) => nNow case _ => 0
  }

  function InLoop(th: Thread): nat { if th.Out? then 0 else 1 }

  function Asleep(th: Thread): nat { if th.Waiting? then 1 else 0 }

  function Sum(f: Thread -> nat, threads: seq<Thread>, n: nat): nat
    requires n <= |threads|
  {
    if n == 0 then 0 else Sum(f, threads, n - 1) + f(threads[n - 1])
  }

  lemma {:induction false} SumUpdate(f: Thread -> nat, threads: seq<Thread>, t: nat, th: Thread, n: nat)
    requires t < |threads| && n <= |threads|
    ensures Sum(f, threads[t := th], n) == Sum(f, threads, n) + if t < n then f(th) - f(threads[t]) else 0
  {
    if n > 0 { SumUpdate(f, threads, t, th, n - 1); }
  }

  lemma {:induction false} SumSame(f: Thread -> nat, a: seq<Thread>, b: seq<Thread>, n: nat)
    requires n <= |a| == |b| && forall i :: 0 <= i < n ==> f(a[i]) == f(b[i])
    ensures Sum(f, a, n) == Sum(f, b, n)
  {
    if n > 0 { SumSame(f, a, b, n - 1); }
  }

  lemma {:induction false} SumAtLeast(f: Thread -> nat, threads: seq<Thread>, t: nat, n: nat)
    requires t < n <= |threads|
    ensures Sum(f, threads, n) >= f(threads[t])
  {
    if t < n - 1 { SumAtLeast(f, threads, t, n - 1); }
  }

  lemma {:induction false} SumPositive(f: Thread -> nat, threads: seq<Thread>, n: nat) returns (t: nat)
    requires n <= |threads| && Sum(f, threads, n) > 0
    ensures t < n && f(threads[t]) > 0
  {
    if f(threads[n - 1]) > 0 { t := n - 1; } else { t := SumPositive(f, threads, n - 1); }
  }

  // ---------------------------------------------------------------------------
  // The invariant
  // ---------------------------------------------------------------------------

  const held: Thread -> nat := th => Held(th)
  const inLoop: Thread -> nat := th => InLoop(th)
  const asleep: Thread -> nat := th => Asleep(th)

  /** Whether what a thread still has to report is good. */
  predicate Good(th: Thread) {
    match th case Running(batch, _) => AllOk(batch) case Finished(_, fOk) => fOk case _ => true
  }

  /** A batch is not empty; it is skipped only after a failure; and workers do not sleep out of the count. */
  predicate ThreadOk(th: Thread, fAllOk: bool) {
    match th
    case Running(batch, fOk) => batch != [] && (!fOk ==> !fAllOk)
    case Finished(nNow, _) => nNow > 0
    case _ => true
  }

  ghost predicate CountsOk(c: Core, threads: seq<Thread>, added: seq<Check>) {
    && c.nTodo == |c.queue| + Sum(held, threads, |threads|)
    && c.nTotal == Sum(inLoop, threads, |threads|)
    && c.nIdle == Sum(asleep, threads, |threads|)
    && c.nTodo <= |added|
  }

  /** Everything added is good exactly when no failure is recorded, and the queue and all batches out are good. */
  ghost predicate ResultOk(c: Core, threads: seq<Thread>, added: seq<Check>) {
    AllOk(added) <==> c.fAllOk && AllOk(c.queue) && forall t :: 0 <= t < |threads| ==> Good(threads[t])
  }

  ghost predicate ThreadsOk(c: Core, threads: seq<Thread>) {
    forall t :: 0 <= t < |threads| ==> ThreadOk(threads[t], c.fAllOk)
  }

  /** A master that sleeps without a signal has something to wait for, which is not in the queue. */
  ghost predicate MasterOk(c: Core, threads: seq<Thread>) {
    |threads| > 0 && (threads[0] == Waiting(false) ==> c.queue == [] && c.nTodo > 0)
  }

  ghost predicate Inv(s: State) {
    && CountsOk(s.core, s.threads, s.added)
    && ResultOk(s.core, s.threads, s.added)
    && ThreadsOk(s.core, s.threads)
    && MasterOk(s.core, s.threads)
    && forall i :: 0 <= i < |s.answers| ==> s.answers[i].ok == AllOk(s.answers[i].checks)
  }

  /** A thread inside its critical section: in the loop, awake, with nothing in hand. */
  const busy: Thread := Running([], true)

  /** The invariant inside the critical section of thread `t`. */
  ghost predicate Mid(c: Core, threads: seq<Thread>, t: nat, added: seq<Check>) {
    && t < |threads| && threads[t] == busy
    && CountsOk(c, threads, added)
    && ResultOk(c, threads, added)
    && (forall i :: 0 <= i < |threads| && i != t ==> ThreadOk(threads[i], c.fAllOk))
    && (t != 0 ==> MasterOk(c, threads))
  }

  /** The counts after thread `t` changes. */
  lemma {:induction false} CountsAfter(c: Core, threads: seq<Thread>, added: seq<Check>, t: nat, th: Thread, c': Core)
    requires CountsOk(c, threads, added) && t < |threads|
    requires c'.nTodo - |c'.queue| == c.nTodo - |c.queue| + Held(th) - Held(threads[t])
    requires c'.nTotal == c.nTotal + InLoop(th) - InLoop(threads[t])
    requires c'.nIdle == c.nIdle + Asleep(th) - Asleep(threads[t])
    requires c'.nTodo <= |added|
    ensures CountsOk(c', threads[t := th], added)
  {
    SumUpdate(held, threads, t, th, |threads|);
    SumUpdate(inLoop, threads, t, th, |threads|);
    SumUpdate(asleep, threads, t, th, |threads|);
  }

  lemma {:induction false} TookKeeps(c: Core, threads: seq<Thread>, t: nat, added: seq<Check>, nBatchSize: nat)
    requires Mid(c, threads, t, added) && c.queue != [] && c.nTotal >= 0 && c.nIdle >= 0
    ensures var (c', out) := TryWork(c, nBatchSize, t == 0);
            out.Took? && (var after := threads[t := Running(out.batch, out.fOk)];
            CountsOk(c', after, added) && ResultOk(c', after, added) && ThreadsOk(c', after) && MasterOk(c', after))
  {
    var (c', out) := TryWork(c, nBatchSize, t == 0);
    var th := Running(out.batch, out.fOk);
    CountsAfter(c, threads, added, t, th, c');
    QueueSplit(c.queue, |out.batch|);
    assert Good(busy) && Good(th) == AllOk(out.batch);
    assert threads[t := th][t] == th;
    assert forall i :: 0 <= i < |threads| && i != t ==> threads[t := th][i] == threads[i];
  }

  lemma {:induction false} QueueSplit(queue: seq<Check>, n: nat)
    requires n <= |queue|
    ensures AllOk(queue) <==> AllOk(queue[..|queue| - n]) && AllOk(LastOf(queue, n))
  {
    var low, top := queue[..|queue| - n], LastOf(queue, n);
    assert queue == low + queue[|queue| - n..];
    forall c ensures c in queue <==> c in low || c in top {
      if c in queue {
        var i :| 0 <= i < |queue| && queue[i] == c;
        if i < |low| {
          assert low[i] == c;
        } else {
          assert top[|queue| - 1 - i] == c;
        }
      }
    }
  }

  lemma {:induction false} SleptKeeps(c: Core, threads: seq<Thread>, t: nat, added: seq<Check>)
    requires Mid(c, threads, t, added) && c.queue == [] && (t == 0 ==> c.nTodo > 0)
    ensures var c', after := c.(nIdle := c.nIdle + 1), threads[t := Waiting(false)];
            CountsOk(c', after, added) && ResultOk(c', after, added) && ThreadsOk(c', after) && MasterOk(c', after)
  {
    CountsAfter(c, threads, added, t, Waiting(false), c.(nIdle := c.nIdle + 1));
    assert forall i :: 0 <= i < |threads| && i != t ==> threads[t := Waiting(false)][i] == threads[i];
    assert Good(threads[t]);
  }

  /** When the master leaves, its answer is right, and the state is fresh. */
  lemma {:induction false} LeftKeeps(c: Core, threads: seq<Thread>, added: seq<Check>)
    requires Mid(c, threads, 0, added) && c.queue == [] && c.nTodo == 0
    ensures c.fAllOk == AllOk(added)
    ensures var c', after := c.(nTotal := c.nTotal - 1, fAllOk := true), threads[0 := Out];
            CountsOk(c', after, []) && ResultOk(c', after, []) && ThreadsOk(c', after) && MasterOk(c', after)
  {
    var c', after := c.(nTotal := c.nTotal - 1, fAllOk := true), threads[0 := Out];
    CountsAfter(c, threads, added, 0, Out, c');
    forall i | 0 <= i < |threads| ensures Held(threads[i]) == 0 && Good(threads[i]) && ThreadOk(after[i], true) {
      SumAtLeast(held, threads, i, |threads|);
      assert held(threads[i]) == Held(threads[i]);
    }
    assert forall i :: 0 <= i < |threads| ==> Good(after[i]);
  }

  lemma {:induction false} SettleKeeps(s: State, t: nat, c: Core)
    requires t < |s.threads| && Mid(c, s.threads[t := busy], t, s.added) && c.nTotal >= 0 && c.nIdle >= 0
    requires forall i :: 0 <= i < |s.answers| ==> s.answers[i].ok == AllOk(s.answers[i].checks)
    ensures Inv(Settle(s, t, TryWork(c, s.nBatchSize, t == 0)))
  {
    var threads := s.threads[t := busy];
    if c.queue != [] {
      var out := TryWork(c, s.nBatchSize, t == 0).1;
      assert threads[t := Running(out.batch, out.fOk)] == s.threads[t := Running(out.batch, out.fOk)];
      TookKeeps(c, threads, t, s.added, s.nBatchSize);
    } else if t == 0 && c.nTodo == 0 {
      assert threads[t := Out] == s.threads[t := Out];
      LeftKeeps(c, threads, s.added);
    } else {
      assert threads[t := Waiting(false)] == s.threads[t := Waiting(false)];
      assert c.nTodo == Sum(held, threads, |threads|);
      SleptKeeps(c, threads, t, s.added);
    }
  }

  // ---------------------------------------------------------------------------
  // Every step keeps the invariant
  // ---------------------------------------------------------------------------

  lemma {:induction false} EnterMid(s: State, t: nat)
    requires Inv(s) && t < |s.threads| && s.threads[t].Out?
    ensures Mid(s.core.(nTotal := s.core.nTotal + 1), s.threads[t := busy], t, s.added)
  {
    CountsAfter(s.core, s.threads, s.added, t, busy, s.core.(nTotal := s.core.nTotal + 1));
    assert forall i :: 0 <= i < |s.threads| && i != t ==> s.threads[t := busy][i] == s.threads[i];
    assert Good(s.threads[t]) && Good(busy);
  }

  lemma {:induction false} WakeMid(s: State, t: nat)
    requires Inv(s) && t < |s.threads| && s.threads[t].Waiting?
    ensures s.core.nIdle > 0
    ensures Mid(s.core.(nIdle := s.core.nIdle - 1), s.threads[t := busy], t, s.added)
  {
    SumAtLeast(asleep, s.threads, t, |s.threads|);
    assert asleep(s.threads[t]) == 1;
    CountsAfter(s.core, s.threads, s.added, t, busy, s.core.(nIdle := s.core.nIdle - 1));
    assert forall i :: 0 <= i < |s.threads| && i != t ==> s.threads[t := busy][i] == s.threads[i];
    assert Good(s.threads[t]) && Good(busy);
  }

  lemma {:induction false} SignalMaster(c: Core, threads: seq<Thread>, added: seq<Check>)
    requires |threads| > 0 && CountsOk(c, threads, added)
    ensures CountsOk(c, threads[0 := Signal(threads[0])], added)
  {
    CountsAfter(c, threads, added, 0, Signal(threads[0]), c);
  }

  lemma {:induction false} FinishMid(s: State, t: nat, threads: seq<Thread>)
    requires Inv(s) && t < |s.threads| && s.threads[t].Finished?
    requires var nTodo := s.core.nTodo - s.threads[t].nNow;
             threads == if nTodo == 0 && t != 0 then s.threads[0 := Signal(s.threads[0])] else s.threads
    ensures Mid(CleanUp(s.core, s.threads[t].nNow, s.threads[t].fOk), threads[t := busy], t, s.added)
  {
    var th := s.threads[t];
    var c := CleanUp(s.core, th.nNow, th.fOk);
    if c.nTodo == 0 && t != 0 { SignalMaster(s.core, s.threads, s.added); }
    CountsAfter(s.core, threads, s.added, t, busy, c);
    assert forall i :: 0 <= i < |threads| && i != t ==>
             threads[t := busy][i] == s.threads[i] || threads[t := busy][i] == Signal(s.threads[i]);
    assert forall i :: 0 <= i < |threads| && i != t ==> (Good(threads[t := busy][i]) <==> Good(s.threads[i]));
    assert Good(th) == th.fOk;
  }

  lemma {:induction false} RunKeeps(s: State, t: nat)
    requires Inv(s) && t < |s.threads| && s.threads[t].Running?
    ensures var th := s.threads[t];
            Inv(s.(threads := s.threads[t := Finished(|th.batch|, th.fOk && AllOk(th.batch))]))
  {
    var th := s.threads[t];
    var th' := Finished(|th.batch|, th.fOk && AllOk(th.batch));
    CountsAfter(s.core, s.threads, s.added, t, th', s.core);
    assert ThreadOk(th, s.core.fAllOk);
    assert forall i :: 0 <= i < |s.threads| && i != t ==> s.threads[t := th'][i] == s.threads[i];
    assert Good(th) == AllOk(th.batch) && Good(th') == (th.fOk && AllOk(th.batch));
    assert s.threads[t := th'][t] == th';
  }

  lemma {:induction false} AddKeeps(s: State, checks: seq<Check>, woken: nat)
    requires Inv(s) && s.threads[0].Out?
    ensures var threads := Notified(s.threads, NotifyFor(|checks|), woken);
            Inv(s.(core := s.core.(queue := s.core.queue + checks, nTodo := s.core.nTodo + |checks|),
                   threads := threads, added := s.added + checks))
  {
    var threads := Notified(s.threads, NotifyFor(|checks|), woken);
    SumSame(held, s.threads, threads, |threads|);
    SumSame(inLoop, s.threads, threads, |threads|);
    SumSame(asleep, s.threads, threads, |threads|);
    assert forall i :: 0 <= i < |threads| ==> (Good(threads[i]) <==> Good(s.threads[i]));
    AllOkSum(s.core.queue, checks);
    AllOkSum(s.added, checks);
  }

  lemma {:induction false} AllOkSum(a: seq<Check>, b: seq<Check>)
    ensures AllOk(a + b) <==> AllOk(a) && AllOk(b)
  {
    assert forall c :: c in a + b <==> c in a || c in b;
  }

  lemma {:induction false} CountsNatural(s: State)
    requires Inv(s)
    ensures s.core.nTotal >= 0 && s.core.nIdle >= 0 && s.core.nTodo >= |s.core.queue|
  {
  }

  /** Every step of every thread keeps the invariant. */
  lemma {:induction false} StepKeeps(s: State, step: Step)
    requires Inv(s) && Enabled(s, step)
    ensures s.core.nTotal >= 0 && s.core.nIdle >= 0 && (step.Wake? ==> s.core.nIdle > 0)
    ensures Inv(Next(s, step))
  {
    match step
    case Add(checks, woken) =>
      AddKeeps(s, checks, woken);
    case Enter(t) =>
      EnterMid(s, t);
      SettleKeeps(s, t, s.core.(nTotal := s.core.nTotal + 1));
    case Run(t) =>
      RunKeeps(s, t);
    case Finish(t) =>
      var th := s.threads[t];
      var c := CleanUp(s.core, th.nNow, th.fOk);
      var s1 := if c.nTodo == 0 && t != 0 then s.(threads := s.threads[0 := Signal(s.threads[0])]) else s;
      FinishMid(s, t, s1.threads);
      SettleKeeps(s1, t, c);
    case Wake(t) =>
      WakeMid(s, t);
      SettleKeeps(s, t, s.core.(nIdle := s.core.nIdle - 1));
  }

  // ---------------------------------------------------------------------------
  // Whole runs
  // ---------------------------------------------------------------------------

  /** A run in any interleaving; a step that is not enabled is skipped. */
  function RunAll(s: State, steps: seq<Step>): State {
    if steps == [] then s
    else
      var s1 := RunAll(s, steps[..|steps| - 1]);
      var step := steps[|steps| - 1];
      if Enabled(s1, step) && s1.core.nTotal >= 0 && s1.core.nIdle >= 0 && (step.Wake? ==> s1.core.nIdle > 0)
      then Next(s1, step) else s1
  }

  lemma {:induction false} StartInv(nBatchSize: nat, n: nat)
    requires n > 0
    ensures Inv(Start(nBatchSize, n))
  {
    NoneInLoop(Start(nBatchSize, n).threads, n);
  }

  lemma {:induction false} NoneInLoop(threads: seq<Thread>, n: nat)
    requires n <= |threads| && forall i :: 0 <= i < n ==> threads[i].Out?
    ensures Sum(held, threads, n) == 0 && Sum(inLoop, threads, n) == 0 && Sum(asleep, threads, n) == 0
  {
    if n > 0 { NoneInLoop(threads, n - 1); }
  }

  lemma {:induction false} RunKeepsInv(s: State, steps: seq<Step>)
    requires Inv(s)
    ensures Inv(RunAll(s, steps))
  {
    if steps != [] {
      var s1, step := RunAll(s, steps[..|steps| - 1]), steps[|steps| - 1];
      RunKeepsInv(s, steps[..|steps| - 1]);
      if Enabled(s1, step) { StepKeeps(s1, step); }
    }
  }

  /** In every interleaving, every Wait answers whether all checks added since the Wait before it are good. */
  lemma {:induction false} WaitAnswers(nBatchSize: nat, n: nat, steps: seq<Step>, i: nat)
    requires n > 0 && i < |RunAll(Start(nBatchSize, n), steps).answers|
    ensures var answer := RunAll(Start(nBatchSize, n), steps).answers[i];
            answer.ok <==> forall c :: c in answer.checks ==> c.ok
  {
    StartInv(nBatchSize, n);
    RunKeepsInv(Start(nBatchSize, n), steps);
  }

  function Answered(answers: seq<Answer>): seq<Check> {
    if answers == [] then [] else Answered(answers[..|answers| - 1]) + answers[|answers| - 1].checks
  }

  /** The checks of the Add steps that a run makes. */
  function AddedIn(s: State, steps: seq<Step>): seq<Check> {
    if steps == [] then []
    else
      var s1, step := RunAll(s, steps[..|steps| - 1]), steps[|steps| - 1];
      AddedIn(s, steps[..|steps| - 1])
      + if step.Add? && Enabled(s1, step) && s1.core.nTotal >= 0 && s1.core.nIdle >= 0 then step.checks else []
  }

  /** Every check added is answered for by exactly one Wait, in order, or still open. */
  lemma {:induction false} AllAnswered(nBatchSize: nat, n: nat, steps: seq<Step>)
    requires n > 0
    ensures var s := RunAll(Start(nBatchSize, n), steps);
            Answered(s.answers) + s.added == AddedIn(Start(nBatchSize, n), steps)
  {
    if steps != [] {
      var s0 := Start(nBatchSize, n);
      var s1, step := RunAll(s0, steps[..|steps| - 1]), steps[|steps| - 1];
      AllAnswered(nBatchSize, n, steps[..|steps| - 1]);
      StartInv(nBatchSize, n);
      RunKeepsInv(s0, steps[..|steps| - 1]);
      if Enabled(s1, step) { StepAnswers(s1, step); }
    }
  }

  lemma {:induction false} StepAnswers(s: State, step: Step)
    requires Inv(s) && Enabled(s, step)
    ensures s.core.nTotal >= 0 && s.core.nIdle >= 0 && (step.Wake? ==> s.core.nIdle > 0)
    ensures var s' := Next(s, step);
            Answered(s'.answers) + s'.added == Answered(s.answers) + s.added + if step.Add? then step.checks else []
  {
    StepKeeps(s, step);
    match step
    case Add(_, _) =>
    case Enter(t) =>
      var r := TryWork(s.core.(nTotal := s.core.nTotal + 1), s.nBatchSize, t == 0);
      SettleAnswers(s, t, r);
    case Run(_) =>
    case Finish(t) =>
      var th := s.threads[t];
      var c1 := CleanUp(s.core, th.nNow, th.fOk);
      var s1 := if c1.nTodo == 0 && t != 0 then s.(threads := s.threads[0 := Signal(s.threads[0])]) else s;
      SettleAnswers(s1, t, TryWork(c1, s.nBatchSize, t == 0));
    case Wake(t) => SettleAnswers(s, t, TryWork(s.core.(nIdle := s.core.nIdle - 1), s.nBatchSize, t == 0));
  }

  /** What leaves the open checks is what the answer is about. */
  lemma {:induction false} SettleAnswers(s: State, t: nat, r: (Core, Outcome))
    requires t < |s.threads|
    ensures var s' := Settle(s, t, r); Answered(s'.answers) + s'.added == Answered(s.answers) + s.added
  {
    if r.1.Left? {
      var answers := s.answers + [Answer(r.1.result, s.added)];
      assert answers[..|answers| - 1] == s.answers;
    }
  }

  // ---------------------------------------------------------------------------
  // Idleness and progress
  // ---------------------------------------------------------------------------

  function Holding(th: Thread): nat { if Held(th) > 0 then 1 else 0 }

  const holding: Thread -> nat := th => Holding(th)

  lemma {:induction false} SumSplit(c: Core, threads: seq<Thread>, n: nat)
    requires n <= |threads| && ThreadsOk(c, threads)
    ensures Sum(inLoop, threads, n) == Sum(asleep, threads, n) + Sum(holding, threads, n)
  {
    if n > 0 {
      SumSplit(c, threads, n - 1);
      assert ThreadOk(threads[n - 1], c.fAllOk);
    }
  }

  lemma {:induction false} HoldersHold(threads: seq<Thread>, n: nat)
    requires n <= |threads|
    ensures Sum(held, threads, n) >= Sum(holding, threads, n)
  {
    if n > 0 { HoldersHold(threads, n - 1); }
  }

  /** Between critical sections, in every interleaving, the threads in the loop that are not idle are those that hold a
      batch. */
  lemma {:induction false} HoldersCounted(nBatchSize: nat, n: nat, steps: seq<Step>)
    requires n > 0
    ensures var s := RunAll(Start(nBatchSize, n), steps);
            s.core.nTotal - s.core.nIdle == Sum(holding, s.threads, |s.threads|)
  {
    StartInv(nBatchSize, n);
    RunKeepsInv(Start(nBatchSize, n), steps);
    var s := RunAll(Start(nBatchSize, n), steps);
    SumSplit(s.core, s.threads, |s.threads|);
  }

  predicate MasterOut(s: State) {
    |s.threads| > 0 && s.threads[0].Out?
  }

  lemma {:induction false} IdleState(s: State)
    requires Inv(s) && MasterOut(s) && s.added == []
    ensures Idle(s.core)
  {
    SumSplit(s.core, s.threads, |s.threads|);
    HoldersHold(s.threads, |s.threads|);
    assert AllOk(s.added);
  }

  /** In every interleaving, the queue is idle whenever the master is out of Wait and has added nothing since. */
  lemma {:induction false} IdleAfterWait(nBatchSize: nat, n: nat, steps: seq<Step>)
    requires n > 0 && RunAll(Start(nBatchSize, n), steps).added == []
    requires MasterOut(RunAll(Start(nBatchSize, n), steps))
    ensures Idle(RunAll(Start(nBatchSize, n), steps).core)
  {
    StartInv(nBatchSize, n);
    RunKeepsInv(Start(nBatchSize, n), steps);
    IdleState(RunAll(Start(nBatchSize, n), steps));
  }

  lemma {:induction false} SomeoneHolds(s: State) returns (t: nat)
    requires Inv(s) && s.threads[0] == Waiting(false)
    ensures 0 < t < |s.threads| && (s.threads[t].Running? || s.threads[t].Finished?) && Held(s.threads[t]) > 0
  {
    t := SumPositive(held, s.threads, |s.threads|);
  }

  predicate MasterAsleep(s: State) {
    |s.threads| > 0 && s.threads[0] == Waiting(false)
  }

  /** In every interleaving, a master that sleeps without a signal waits for a worker that still has a batch to
      report. */
  lemma {:induction false} SleepingMasterAwaits(nBatchSize: nat, n: nat, steps: seq<Step>) returns (t: nat)
    requires n > 0 && MasterAsleep(RunAll(Start(nBatchSize, n), steps))
    ensures var threads := RunAll(Start(nBatchSize, n), steps).threads;
            0 < t < |threads| && (threads[t].Running? || threads[t].Finished?) && Held(threads[t]) > 0
  {
    StartInv(nBatchSize, n);
    RunKeepsInv(Start(nBatchSize, n), steps);
    var s := RunAll(Start(nBatchSize, n), steps);
    t := SomeoneHolds(s);
  }

  /** A step that does work: not a new arrival, nor a wake-up without a signal. */
  predicate Useful(s: State, step: Step) {
    && Enabled(s, step)
    && (step.Run? || step.Finish? || (step.Wake? && s.threads[step.t].signalled))
  }

  lemma {:induction false} SomeStepUseful(s: State) returns (step: Step)
    requires Inv(s) && !MasterOut(s)
    ensures Useful(s, step)
  {
    var t := 0;
    if s.threads[0] == Waiting(false) { t := SomeoneHolds(s); }
    match s.threads[t]
    case Running(_, _) => step := Run(t);
    case Finished(_, _) => step := Finish(t);
    case Waiting(_) => step := Wake(t);
  }

  /** In every interleaving, while the master is in Wait, some thread can do something useful. */
  lemma {:induction false} NeverStuck(nBatchSize: nat, n: nat, steps: seq<Step>) returns (step: Step)
    requires n > 0 && !MasterOut(RunAll(Start(nBatchSize, n), steps))
    ensures Useful(RunAll(Start(nBatchSize, n), steps), step)
  {
    StartInv(nBatchSize, n);
    RunKeepsInv(Start(nBatchSize, n), steps);
    step := SomeStepUseful(RunAll(Start(nBatchSize, n), steps));
  }

  function Work(th: Thread): nat {
    match th case Running(_, _) => 3 case Finished(_, _) => 2 case Waiting(signalled) => if signalled then 1 else 0
    case Out => 0
  }

  const work: Thread -> nat := th => Work(th)

  /** How much work is left. */
  function Measure(s: State): nat {
    4 * |s.core.queue| + Sum(work, s.threads, |s.threads|)
  }

  lemma {:induction false} SettleLess(s: State, t: nat, c: Core, spent: nat)
    requires t < |s.threads| && c.nTotal >= 0 && c.nIdle >= 0 && c.queue == s.core.queue
    requires Work(s.threads[t]) > spent
    ensures Measure(Settle(s, t, TryWork(c, s.nBatchSize, t == 0))) + spent < Measure(s)
  {
    var r := TryWork(c, s.nBatchSize, t == 0);
    var s' := Settle(s, t, r);
    SumUpdate(work, s.threads, t, s'.threads[t], |s.threads|);
    assert s'.threads == s.threads[t := s'.threads[t]];
  }

  /** Every useful step leaves less work. */
  lemma {:induction false} UsefulLess(s: State, step: Step)
    requires Inv(s) && Useful(s, step)
    ensures s.core.nTotal >= 0 && s.core.nIdle >= 0 && (step.Wake? ==> s.core.nIdle > 0)
    ensures Inv(Next(s, step)) && Measure(Next(s, step)) < Measure(s)
  {
    StepKeeps(s, step);
    match step
    case Run(t) =>
      SumUpdate(work, s.threads, t, Finished(|s.threads[t].batch|, s.threads[t].fOk && AllOk(s.threads[t].batch)),
                |s.threads|);
    case Wake(t) =>
      SettleLess(s, t, s.core.(nIdle := s.core.nIdle - 1), 0);
    case Finish(t) =>
      var th := s.threads[t];
      var c := CleanUp(s.core, th.nNow, th.fOk);
      var s1 := if c.nTodo == 0 && t != 0 then s.(threads := s.threads[0 := Signal(s.threads[0])]) else s;
      SumUpdate(work, s.threads, 0, s1.threads[0], |s.threads|);
      assert s1.threads == s.threads[0 := s1.threads[0]];
      SettleLess(s1, t, c, 1);
  }

  /** A thread that comes or wakes up without work leaves no more work than there was. */
  lemma {:induction false} SettleNoMore(s: State, t: nat, c: Core)
    requires t < |s.threads| && c.nTotal >= 0 && c.nIdle >= 0 && c.queue == s.core.queue
    ensures Measure(Settle(s, t, TryWork(c, s.nBatchSize, t == 0))) <= Measure(s)
  {
    var s' := Settle(s, t, TryWork(c, s.nBatchSize, t == 0));
    SumUpdate(work, s.threads, t, s'.threads[t], |s.threads|);
    assert s'.threads == s.threads[t := s'.threads[t]];
  }

  /** No step but Add leaves more work. */
  lemma {:induction false} OtherNoMore(s: State, step: Step)
    requires Inv(s) && Enabled(s, step) && !step.Add? && !Useful(s, step)
    ensures s.core.nTotal >= 0 && s.core.nIdle >= 0 && (step.Wake? ==> s.core.nIdle > 0)
    ensures Measure(Next(s, step)) <= Measure(s)
  {
    StepKeeps(s, step);
    match step
    case Enter(t) => SettleNoMore(s, t, s.core.(nTotal := s.core.nTotal + 1));
    case Wake(t) => SettleNoMore(s, t, s.core.(nIdle := s.core.nIdle - 1));
  }

  /** How many useful steps a run makes. */
  function UsefulSteps(s: State, steps: seq<Step>): nat {
    if steps == [] then 0
    else
      UsefulSteps(s, steps[..|steps| - 1])
      + if Useful(RunAll(s, steps[..|steps| - 1]), steps[|steps| - 1]) then 1 else 0
  }

  lemma {:induction false} UsefulBounded(s: State, steps: seq<Step>)
    requires Inv(s) && forall i :: 0 <= i < |steps| ==> !steps[i].Add?
    ensures UsefulSteps(s, steps) + Measure(RunAll(s, steps)) <= Measure(s)
  {
    if steps != [] {
      var before, step := steps[..|steps| - 1], steps[|steps| - 1];
      UsefulBounded(s, before);
      RunKeepsInv(s, before);
      var s1 := RunAll(s, before);
      if Enabled(s1, step) {
        if Useful(s1, step) { UsefulLess(s1, step); } else { OtherNoMore(s1, step); }
      }
    }
  }

  /** While nothing is added, whatever other steps come between, only so many useful steps can be made; and when none is
      left, the master has returned from Wait. */
  lemma {:induction false} WaitReturns(nBatchSize: nat, n: nat, first: seq<Step>, steps: seq<Step>)
    requires n > 0 && forall i :: 0 <= i < |steps| ==> !steps[i].Add?
    ensures var s := RunAll(Start(nBatchSize, n), first);
            && UsefulSteps(s, steps) <= Measure(s)
            && ((forall step :: !Useful(RunAll(s, steps), step)) ==> MasterOut(RunAll(s, steps)))
  {
    var s := RunAll(Start(nBatchSize, n), first);
    StartInv(nBatchSize, n);
    RunKeepsInv(Start(nBatchSize, n), first);
    UsefulBounded(s, steps);
    RunKeepsInv(s, steps);
    if !MasterOut(RunAll(s, steps)) { var step := SomeStepUseful(RunAll(s, steps)); }
  }

  // ---------------------------------------------------------------------------
  // The class takes these steps
  // ---------------------------------------------------------------------------

  method TakeAdd(q: Queue, s: State, checks: seq<Check>, woken: nat) returns (next: State)
    requires Inv(s) && Enabled(s, Add(checks, woken)) && q.Fields() == s.core
    modifies q
    ensures next == Next(s, Add(checks, woken)) && q.Fields() == next.core
  {
    var notify := q.Add(checks);
    next := s.(core := q.Fields(), threads := Notified(s.threads, notify, woken), added := s.added + checks);
  }

  method TakeFinish(q: Queue, s: State, t: nat) returns (next: State)
    requires Inv(s) && Enabled(s, Finish(t)) && q.Fields() == s.core && q.nBatchSize == s.nBatchSize
    modifies q
    ensures next == Next(s, Finish(t)) && q.Fields() == next.core
  {
    assert ThreadOk(s.threads[t], s.core.fAllOk);
    var notifyMaster, out := q.Section(t == 0, s.threads[t].nNow, s.threads[t].fOk);
    var s1 := if notifyMaster then s.(threads := s.threads[0 := Signal(s.threads[0])]) else s;
    next := Settle(s1, t, (q.Fields(), out));
  }

  /** One step taken with the methods of the queue: its fields and its notifications are those of the transition. */
  method TakeStep(q: Queue, s: State, step: Step) returns (next: State)
    requires Inv(s) && Enabled(s, step) && q.Fields() == s.core && q.nBatchSize == s.nBatchSize
    modifies q
    ensures s.core.nTotal >= 0 && s.core.nIdle >= 0 && (step.Wake? ==> s.core.nIdle > 0)
    ensures next == Next(s, step) && q.Fields() == next.core
  {
    StepKeeps(s, step);
    match step
    case Add(checks, woken) => next := TakeAdd(q, s, checks, woken);
    case Enter(t) =>
      var _, out := q.Section(t == 0, 0, true);
      next := Settle(s, t, (q.Fields(), out));
    case Run(t) =>
      var fOk := Execute(s.threads[t].batch, s.threads[t].fOk);
      next := s.(threads := s.threads[t := Finished(|s.threads[t].batch|, fOk)]);
    case Finish(t) => next := TakeFinish(q, s, t);
    case Wake(t) =>
      var out := q.Awake(t == 0);
      next := Settle(s, t, (q.Fields(), out));
  }

  /** A whole run on one queue. */
  method RunOn(nBatchSize: nat, n: nat, steps: seq<Step>) returns (q: Queue, s: State)
    requires n > 0
    ensures fresh(q) && s == RunAll(Start(nBatchSize, n), steps) && q.Fields() == s.core
  {
    q := new Queue(nBatchSize);
    s := Start(nBatchSize, n);
    StartInv(nBatchSize, n);
    for i := 0 to |steps|
      invariant fresh(q) && Inv(s) && s == RunAll(Start(nBatchSize, n), steps[..i])
      invariant q.Fields() == s.core && q.nBatchSize == s.nBatchSize
    {
      assert steps[..i + 1][..i] == steps[..i] && steps[..i + 1][i] == steps[i];
      RunKeepsInv(Start(nBatchSize, n), steps[..i + 1]);
      if Enabled(s, steps[i]) {
        s := TakeStep(q, s, steps[i]);
      }
    }
    assert steps[..|steps|] == steps;
  }
}
