/**
 The script check queue of src/checkqueue.h as an interleaving of steps: thread 0
 is the master, the others are workers. A step is one critical section under
 m_mutex, the evaluation of one check outside it, or the return from a wait on a
 condition variable, notified or spurious. No stop is requested.
 */
module CheckQueue {
  import opened Basics

  type Check = nat

  /** Where a thread is: not in Loop, about to lock, waiting, or evaluating its batch without the lock. */
  datatype Pc = Outside | Locking | Sleeping(notified: bool) | Working

  /** The locals of Loop. `batch` is history: the checks taken and not yet reported under the lock. */
  datatype Thread = Thread(pc: Pc, vChecks: seq<Check>, next: nat, nNow: nat, fOk: bool, batch: seq<Check>)

  /** `added` and `finished` are history: the checks added, and those reported, since the last Wait returned. */
  datatype State = State(
    queue: seq<Check>, nIdle: int, nTotal: int, fAllOk: bool, nTodo: int,
    threads: seq<Thread>,
    added: seq<Check>, finished: multiset<Check>,
    returned: Option<(bool, seq<Check>)>)

  const IDLE_THREAD: Thread := Thread(Outside, [], 0, 0, true, [])

  datatype Action =
    | Add(checks: seq<Check>, woken: nat)   // by the master; `woken` receives notify_one
    | Start(t: nat)                         // Wait by the master, thread start for a worker
    | Lock(t: nat)                          // lock, report the previous batch, then the waiting loop
    | Wake(t: nat)                          // return from the wait, then the waiting loop again
    | Eval(t: nat)                          // one turn of the loop over vChecks
    | Clear(t: nat)                         // vChecks.clear()

  // ---------------------------------------------------------------- the protocol

  function SetThread(s: State, t: nat, th: Thread): State
    requires t < |s.threads|
  {
    s.(threads := s.threads[t := th])
  }

  function Notified(th: Thread): Thread {
    if th.pc.Sleeping? then th.(pc := Sleeping(true)) else th
  }

  function NotifyAll(threads: seq<Thread>): (r: seq<Thread>)
    ensures |r| == |threads|
  {
    seq(|threads|, i requires 0 <= i < |threads| => if i == 0 then threads[i] else Notified(threads[i]))
  }

  /** The last n elements, last one first: what n times back() and pop_back() move out. */
  function PopBack(q: seq<Check>, n: nat): (r: seq<Check>)
    requires n <= |q|
    ensures |r| == n
  {
    seq(n, i requires 0 <= i < n => q[|q| - 1 - i])
  }

  function Min(a: int, b: int): int { if a < b then a else b }

  function BatchSize(nBatchSize: nat, queued: nat, nTotal: int, nIdle: int): (n: nat)
    requires 0 < queued && 0 <= nTotal && 0 <= nIdle
    ensures 1 <= n <= queued
  {
    Quotient(queued, nTotal + nIdle + 1);
    Max(1, Min(nBatchSize, queued / (nTotal + nIdle + 1)))
  }

  /**
   The batch is the largest that stays within nBatchSize and leaves as much to each of
   the threads that are inside, asleep or still to come; it is never empty.
   */
  lemma FairShare(nBatchSize: nat, queued: nat, nTotal: int, nIdle: int)
    requires 0 < queued && 0 <= nTotal && 0 <= nIdle
    ensures var n, d := BatchSize(nBatchSize, queued, nTotal, nIdle), nTotal + nIdle + 1;
      && (n == 1 || (n <= nBatchSize && d * n <= queued))
      && (n >= nBatchSize || queued < d * (n + 1))
  {
    var d := nTotal + nIdle + 1;
    var q := queued / d;
    var n := BatchSize(nBatchSize, queued, nTotal, nIdle);
    DivMod(queued, d);
    MulNext(d, q);
    if q < n { MulNext(d, n); } else if n < q { MulUpTo(d, n, q); }
    if q < n { MulUpTo(d, q, n); }
  }

  lemma MulNext(d: nat, q: nat)
    ensures d * (q + 1) == d * q + d
  {}

  lemma MulUpTo(d: nat, m: nat, n: nat)
    requires m <= n
    ensures d * m <= d * n
  {}

  lemma DivMod(q: nat, d: nat)
    requires 0 < d
    ensures q == d * (q / d) + q % d && 0 <= q % d && 0 <= q / d
  {}

  lemma AtLeast(d: nat, k: nat)
    requires 0 < d
    ensures k <= d * k
  {}

  lemma Quotient(q: nat, d: nat)
    requires 0 < d
    ensures 0 <= q / d <= q
  {
    DivMod(q, d);
    AtLeast(d, q / d);
  }

  /** From the head of `while (queue.empty())` to the next release of the lock. */
  function Proceed(nBatchSize: nat, s: State, t: nat): State
    requires t < |s.threads| && 0 <= s.nTotal && 0 <= s.nIdle
  {
    var th := s.threads[t];
    if s.queue == [] then
      if t == 0 && s.nTodo == 0 then
        SetThread(s, t, IDLE_THREAD).(
          nTotal := s.nTotal - 1, fAllOk := true,
          returned := Some((s.fAllOk, s.added)), added := [], finished := multiset{})
      else
        SetThread(s, t, th.(pc := Sleeping(false))).(nIdle := s.nIdle + 1)
    else
      var n := BatchSize(nBatchSize, |s.queue|, s.nTotal, s.nIdle);
      var taken := PopBack(s.queue, n);
      SetThread(s, t, Thread(Working, taken, 0, n, s.fAllOk, taken)).(queue := s.queue[..|s.queue| - n])
  }

  /** Handing in a batch, before any notification. */
  function HandIn(s: State, t: nat): State
    requires t < |s.threads|
  {
    var th := s.threads[t];
    SetThread(s, t, th.(batch := [])).(
      fAllOk := s.fAllOk && th.fOk, nTodo := s.nTodo - th.nNow, finished := s.finished + multiset(th.batch))
  }

  /** The clean-up of the previous turn, under the lock. */
  function Report(s: State, t: nat): State
    requires t < |s.threads|
  {
    if s.threads[t].nNow != 0 then
      var s1 := HandIn(s, t);
      if s1.nTodo == 0 && t != 0 then s1.(threads := s1.threads[0 := Notified(s1.threads[0])]) else s1
    else s.(nTotal := s.nTotal + 1)
  }

  predicate Enabled(s: State, a: Action) {
    match a
    case Add(checks, woken) =>
      && 0 < |s.threads| && s.threads[0].pc == Outside
      && (|checks| == 1 ==>
            (exists w | 0 < w < |s.threads| :: s.threads[w].pc == Sleeping(false)) ==>
              0 < woken < |s.threads| && s.threads[woken].pc == Sleeping(false))
    case Start(t) => t < |s.threads| && s.threads[t].pc == Outside
    case Lock(t) => t < |s.threads| && s.threads[t].pc == Locking
    case Wake(t) => t < |s.threads| && s.threads[t].pc.Sleeping?
    case Eval(t) => t < |s.threads| && s.threads[t].pc == Working && s.threads[t].next < |s.threads[t].vChecks|
    case Clear(t) => t < |s.threads| && s.threads[t].pc == Working && s.threads[t].next == |s.threads[t].vChecks|
  }

  function AddChecks(s: State, checks: seq<Check>, woken: nat): State {
    var threads :=
      if |checks| == 1 && 0 < woken < |s.threads| then s.threads[woken := Notified(s.threads[woken])]
      else if |checks| > 1 then NotifyAll(s.threads)
      else s.threads;
    s.(queue := s.queue + checks, nTodo := s.nTodo + |checks|, threads := threads, added := s.added + checks)
  }

  function EvalOne(ok: Check -> bool, th: Thread): Thread
    requires th.next < |th.vChecks|
  {
    th.(fOk := th.fOk && ok(th.vChecks[th.next]), next := th.next + 1)
  }

  /** The counters that the batch size is computed from are not negative. */
  predicate Defined(s: State, a: Action)
    requires Enabled(s, a)
  {
    match a
    case Lock(t) => 0 <= Report(s, t).nIdle && 0 <= Report(s, t).nTotal
    case Wake(t) => 0 <= s.nIdle - 1 && 0 <= s.nTotal
    case _ => true
  }

  /** One step of the system. */
  function Next(nBatchSize: nat, ok: Check -> bool, s: State, a: Action): State
    requires Enabled(s, a) && Defined(s, a)
  {
    match a
    case Add(checks, woken) => AddChecks(s, checks, woken)
    case Start(t) => SetThread(s, t, IDLE_THREAD.(pc := Locking))
    case Lock(t) => Proceed(nBatchSize, Report(s, t), t)
    case Wake(t) => Proceed(nBatchSize, s.(nIdle := s.nIdle - 1), t)
    case Eval(t) => SetThread(s, t, EvalOne(ok, s.threads[t]))
    case Clear(t) => SetThread(s, t, s.threads[t].(pc := Locking, vChecks := []))
  }

  /** The master is in Wait. */
  predicate InWait(s: State) { 0 < |s.threads| && s.threads[0].pc != Outside }

  // ------------------------------------------------------------------- invariant

  ghost predicate AllOk(ok: Check -> bool, cs: seq<Check>) { forall c | c in cs :: ok(c) }

  /** The checks that threads hold and have not reported yet. */
  ghost function Held(threads: seq<Thread>): multiset<Check> {
    if threads == [] then multiset{} else multiset(threads[0].batch) + Held(threads[1..])
  }

  function Inside(th: Thread): bool { th.pc.Sleeping? || th.pc == Working || (th.pc == Locking && th.nNow != 0) }
  function Asleep(th: Thread): bool { th.pc.Sleeping? }

  ghost function Tally(threads: seq<Thread>, p: Thread -> bool): nat {
    if threads == [] then 0 else (if p(threads[0]) then 1 else 0) + Tally(threads[1..], p)
  }

  ghost predicate ThreadOk(ok: Check -> bool, added: seq<Check>, th: Thread) {
    && (th.pc == Outside || th.pc.Sleeping? ==> th.batch == [])
    && (th.pc == Locking ==> |th.batch| == th.nNow && th.next == th.nNow)
    && (th.pc == Working ==> |th.batch| == th.nNow && 0 < th.nNow && th.vChecks == th.batch && th.next <= |th.batch|)
    && (th.batch != [] ==> if th.fOk then AllOk(ok, th.batch[..th.next]) else !AllOk(ok, added))
    && (th.batch != [] ==> th.next <= |th.batch|)
  }

  ghost predicate ThreadsOk(ok: Check -> bool, added: seq<Check>, threads: seq<Thread>, except: int) {
    forall i | 0 <= i < |threads| && i != except :: ThreadOk(ok, added, threads[i])
  }

  /** Conservation: every added check is in exactly one of the queue, some batch, and the finished ones. */
  ghost predicate Balanced(queue: seq<Check>, held: multiset<Check>, finished: multiset<Check>, added: seq<Check>,
      nTodo: int) {
    && nTodo == |queue| + |held|
    && multiset(added) == multiset(queue) + held + finished
  }

  ghost predicate SoFar(ok: Check -> bool, fAllOk: bool, finished: multiset<Check>, added: seq<Check>) {
    if fAllOk then forall c | c in finished :: ok(c) else !AllOk(ok, added)
  }

  ghost predicate Truthful(ok: Check -> bool, returned: Option<(bool, seq<Check>)>) {
    returned.Some? ==> returned.value.0 == AllOk(ok, returned.value.1)
  }

  ghost predicate Inv(ok: Check -> bool, s: State) {
    && 0 < |s.threads|
    && ThreadsOk(ok, s.added, s.threads, -1)
    && Balanced(s.queue, Held(s.threads), s.finished, s.added, s.nTodo)
    && SoFar(ok, s.fAllOk, s.finished, s.added)
    && (s.threads[0].pc == Sleeping(false) ==> s.queue == [] && 0 < s.nTodo)
    && s.nIdle == Tally(s.threads, Asleep) && s.nTotal == Tally(s.threads, Inside)
    && Truthful(ok, s.returned)
  }

  lemma {:induction false} HeldSet(threads: seq<Thread>, i: nat, th: Thread)
    requires i < |threads|
    ensures Held(threads[i := th]) + multiset(threads[i].batch) == Held(threads) + multiset(th.batch)
  {
    if i == 0 {
      assert threads[0 := th][1..] == threads[1..];
    } else {
      HeldSet(threads[1..], i - 1, th);
      assert threads[i := th][1..] == threads[1..][i - 1 := th];
      var first, rest := multiset(threads[0].batch), Held(threads[1..]);
      assert Held(threads[i := th]) == first + Held(threads[1..][i - 1 := th]);
      assert Held(threads) == first + rest;
      var x, b, c := Held(threads[1..][i - 1 := th]), multiset(threads[i].batch), multiset(th.batch);
      assert (first + x) + b == first + (x + b) == first + (rest + c) == (first + rest) + c;
    }
  }

  lemma {:induction false} TallySet(threads: seq<Thread>, i: nat, th: Thread, p: Thread -> bool)
    requires i < |threads|
    ensures Tally(threads[i := th], p) + (if p(threads[i]) then 1 else 0) ==
        Tally(threads, p) + (if p(th) then 1 else 0)
  {
    if i == 0 {
      assert threads[0 := th][1..] == threads[1..];
    } else {
      TallySet(threads[1..], i - 1, th, p);
      assert threads[i := th][1..] == threads[1..][i - 1 := th];
    }
  }

  lemma {:induction false} HeldSame(threads: seq<Thread>, others: seq<Thread>)
    requires |threads| == |others| && forall i | 0 <= i < |threads| :: threads[i].batch == others[i].batch
    ensures Held(threads) == Held(others)
  {
    if threads != [] { HeldSame(threads[1..], others[1..]); }
  }

  lemma {:induction false} TallySame(threads: seq<Thread>, others: seq<Thread>, p: Thread -> bool)
    requires |threads| == |others| && forall i | 0 <= i < |threads| :: p(threads[i]) == p(others[i])
    ensures Tally(threads, p) == Tally(others, p)
  {
    if threads != [] { TallySame(threads[1..], others[1..], p); }
  }

  lemma {:induction false} PopBackMultiset(q: seq<Check>, n: nat)
    requires n <= |q|
    ensures multiset(q) == multiset(q[..|q| - n]) + multiset(PopBack(q, n))
  {
    if n == 0 {
      assert q[..|q|] == q;
    } else {
      PopBackMultiset(q, n - 1);
      var k := |q| - n;
      assert q[..k + 1] == q[..k] + [q[k]];
      assert PopBack(q, n) == PopBack(q, n - 1) + [q[k]];
    }
  }

  /**
   The invariant while thread t is in the critical section with nothing left to report,
   but for the master's sleep.
   */
  ghost predicate HandedIn(ok: Check -> bool, s: State, t: nat) {
    && t < |s.threads| && s.threads[t].batch == []
    && ThreadsOk(ok, s.added, s.threads, t)
    && Balanced(s.queue, Held(s.threads), s.finished, s.added, s.nTodo)
    && SoFar(ok, s.fAllOk, s.finished, s.added)
    && s.nIdle == Tally(s.threads[t := IDLE_THREAD], Asleep)
         && s.nTotal == Tally(s.threads[t := IDLE_THREAD], Inside) + 1
    && Truthful(ok, s.returned)
  }

  ghost predicate Mid(ok: Check -> bool, s: State, t: nat) {
    && HandedIn(ok, s, t)
    && (t != 0 && s.threads[0].pc == Sleeping(false) ==> s.queue == [] && 0 < s.nTodo)
  }

  lemma SetAgain(threads: seq<Thread>, t: nat, a: Thread, b: Thread)
    requires t < |threads|
    ensures threads[t := a][t := b] == threads[t := b]
  {}

  /** Tallies after thread t, counted as outside so far, becomes `th`. */
  lemma TallyFrom(threads: seq<Thread>, t: nat, th: Thread, p: Thread -> bool)
    requires t < |threads| && !p(IDLE_THREAD)
    ensures Tally(threads[t := th], p) == Tally(threads[t := IDLE_THREAD], p) + (if p(th) then 1 else 0)
  {
    TallySet(threads[t := IDLE_THREAD], t, th, p);
    SetAgain(threads, t, IDLE_THREAD, th);
  }

  /** What the threads hold after thread t, empty-handed so far, becomes `th`. */
  lemma HeldFrom(threads: seq<Thread>, t: nat, th: Thread)
    requires t < |threads| && threads[t].batch == []
    ensures Held(threads[t := th]) == Held(threads) + multiset(th.batch)
  {
    hide Held;
    HeldSet(threads, t, th);
    assert Held(threads[t := th]) + multiset{} == Held(threads[t := th]);
  }

  /** What the threads hold after thread t puts its batch down. */
  lemma HeldWithout(threads: seq<Thread>, t: nat, th: Thread)
    requires t < |threads| && th.batch == []
    ensures Held(threads) == Held(threads[t := th]) + multiset(threads[t].batch)
  {
    hide Held;
    HeldSet(threads, t, th);
    assert Held(threads) + multiset{} == Held(threads);
  }

  lemma ThreadsSet(ok: Check -> bool, added: seq<Check>, threads: seq<Thread>, t: nat, th: Thread)
    requires t < |threads| && ThreadsOk(ok, added, threads, t) && ThreadOk(ok, added, th)
    ensures ThreadsOk(ok, added, threads[t := th], -1)
  {
    hide ThreadOk;
  }

  lemma NobodyHolds(threads: seq<Thread>, i: nat)
    requires |Held(threads)| == 0 && i < |threads|
    ensures threads[i].batch == []
  {
    HeldWithout(threads, i, IDLE_THREAD);
    assert |multiset(threads[i].batch)| == |threads[i].batch|;
  }

  /** With an empty queue and nothing held, the finished checks are the added ones. */
  lemma FinishedIsAll(ok: Check -> bool, s: State)
    requires Balanced(s.queue, Held(s.threads), s.finished, s.added, s.nTodo)
    requires SoFar(ok, s.fAllOk, s.finished, s.added)
    requires s.nTodo == 0
    ensures s.queue == [] && Held(s.threads) == multiset{} && s.fAllOk == AllOk(ok, s.added)
  {
    hide Held;
    forall c ensures c in s.added <==> c in s.finished {
      assert c in s.added <==> c in multiset(s.added);
    }
  }

  lemma ProceedReturn(nBatchSize: nat, ok: Check -> bool, s: State)
    requires Mid(ok, s, 0) && s.queue == [] && s.nTodo == 0
    ensures 0 <= s.nIdle && 0 <= s.nTotal && Inv(ok, Proceed(nBatchSize, s, 0))
    ensures Proceed(nBatchSize, s, 0).returned == Some((AllOk(ok, s.added), s.added))
  {
    hide Held, Tally;
    FinishedIsAll(ok, s);
    HeldFrom(s.threads, 0, IDLE_THREAD);
    forall i | 0 <= i < |s.threads| ensures s.threads[i].batch == [] { NobodyHolds(s.threads, i); }
    TallyFrom(s.threads, 0, IDLE_THREAD, Asleep);
  }

  lemma ProceedSleep(nBatchSize: nat, ok: Check -> bool, s: State, t: nat)
    requires Mid(ok, s, t) && s.queue == [] && !(t == 0 && s.nTodo == 0)
    ensures 0 <= s.nIdle && 0 <= s.nTotal && Inv(ok, Proceed(nBatchSize, s, t))
  {
    hide Held, Tally, ThreadsOk, SoFar, Truthful;
    var th := s.threads[t].(pc := Sleeping(false));
    ThreadsSet(ok, s.added, s.threads, t, th);
    HeldFrom(s.threads, t, th);
    assert Held(s.threads) + multiset{} == Held(s.threads);
    TallyFrom(s.threads, t, th, Asleep);
    TallyFrom(s.threads, t, th, Inside);
  }

  /** Moving the end of the queue into a batch conserves the checks. */
  lemma TakeConserves(queue: seq<Check>, n: nat, held: multiset<Check>, finished: multiset<Check>, added: seq<Check>,
      nTodo: int)
    requires n <= |queue| && Balanced(queue, held, finished, added, nTodo)
    ensures Balanced(queue[..|queue| - n], held + multiset(PopBack(queue, n)), finished, added, nTodo)
  {
    hide PopBack;
    PopBackMultiset(queue, n);
    var a, b := multiset(queue[..|queue| - n]), multiset(PopBack(queue, n));
    assert (a + b) + held == a + (held + b);
  }

  lemma ProceedTake(nBatchSize: nat, ok: Check -> bool, s: State, t: nat)
    requires Mid(ok, s, t) && s.queue != []
    ensures 0 <= s.nIdle && 0 <= s.nTotal && Inv(ok, Proceed(nBatchSize, s, t))
  {
    hide Held, Tally, BatchSize, PopBack, Balanced, ThreadsOk, Truthful;
    var n := BatchSize(nBatchSize, |s.queue|, s.nTotal, s.nIdle);
    var taken := PopBack(s.queue, n);
    var th := Thread(Working, taken, 0, n, s.fAllOk, taken);
    ThreadsSet(ok, s.added, s.threads, t, th);
    HeldFrom(s.threads, t, th);
    TakeConserves(s.queue, n, Held(s.threads), s.finished, s.added, s.nTodo);
    TallyFrom(s.threads, t, th, Asleep);
    TallyFrom(s.threads, t, th, Inside);
  }

  lemma ProceedKeeps(nBatchSize: nat, ok: Check -> bool, s: State, t: nat)
    requires Mid(ok, s, t)
    ensures 0 <= s.nIdle && 0 <= s.nTotal && Inv(ok, Proceed(nBatchSize, s, t))
  {
    hide Inv, Proceed, ThreadOk, AllOk, Held, Tally;
    if s.queue != [] { ProceedTake(nBatchSize, ok, s, t); }
    else if t == 0 && s.nTodo == 0 { ProceedReturn(nBatchSize, ok, s); }
    else { ProceedSleep(nBatchSize, ok, s, t); }
  }

  // --------------------------------------------------------------- reporting

  lemma ReportFirst(ok: Check -> bool, s: State, t: nat)
    requires Inv(ok, s) && t < |s.threads| && s.threads[t].pc == Locking && s.threads[t].nNow == 0
    ensures Mid(ok, Report(s, t), t)
  {
    hide Held, Tally, Balanced, SoFar, Truthful;
    TallyFrom(s.threads, t, s.threads[t], Asleep);
    TallyFrom(s.threads, t, s.threads[t], Inside);
    assert s.threads[t := s.threads[t]] == s.threads;
  }

  /** Handing in a batch conserves the checks. */
  lemma ReportConserves(queue: seq<Check>, held: multiset<Check>, batch: seq<Check>, finished: multiset<Check>,
      added: seq<Check>, nTodo: int)
    requires Balanced(queue, held + multiset(batch), finished, added, nTodo)
    ensures Balanced(queue, held, finished + multiset(batch), added, nTodo - |batch|)
  {
    var q, b := multiset(queue), multiset(batch);
    assert (q + (held + b)) + finished == (q + held) + (finished + b);
  }

  lemma ReportVerdict(ok: Check -> bool, fAllOk: bool, th: Thread, finished: multiset<Check>, added: seq<Check>)
    requires SoFar(ok, fAllOk, finished, added) && ThreadOk(ok, added, th) && th.pc == Locking && th.nNow != 0
    ensures SoFar(ok, fAllOk && th.fOk, finished + multiset(th.batch), added)
  {
    assert th.batch[..th.next] == th.batch;
    forall c | c in finished + multiset(th.batch) ensures c in finished || c in th.batch {}
  }

  /** A worker that brings nTodo to zero wakes the master, and no other report does. */
  lemma ReportNotifies(s: State, t: nat)
    requires t < |s.threads| && s.threads[0].pc == Sleeping(false)
    ensures Report(s, t).threads[0].pc == Sleeping(true) <==>
        t != 0 && s.threads[t].nNow != 0 && s.nTodo == s.threads[t].nNow
    ensures Report(s, t).threads[0].pc.Sleeping?
  {}

  /** The master can always add checks while it is not in Wait. */
  lemma AddPossible(s: State, checks: seq<Check>) returns (woken: nat)
    requires 0 < |s.threads| && s.threads[0].pc == Outside
    ensures Enabled(s, Add(checks, woken))
  {
    woken := 0;
    if w: nat :| 0 < w < |s.threads| && s.threads[w].pc == Sleeping(false) { woken := w; }
  }

  /** Some sleeping threads of `before` have been notified. */
  ghost predicate Nudged(before: seq<Thread>, after: seq<Thread>) {
    && |before| == |after|
    && forall i | 0 <= i < |before| :: after[i] == before[i] || after[i] == Notified(before[i])
  }

  lemma NudgedKeeps(ok: Check -> bool, added: seq<Check>, before: seq<Thread>, after: seq<Thread>, except: int)
    requires Nudged(before, after)
    ensures Held(after) == Held(before)
    ensures Tally(after, Asleep) == Tally(before, Asleep) && Tally(after, Inside) == Tally(before, Inside)
    ensures ThreadsOk(ok, added, before, except) ==> ThreadsOk(ok, added, after, except)
  {
    HeldSame(before, after);
    TallySame(before, after, Asleep);
    TallySame(before, after, Inside);
  }

  lemma HandInKeeps(ok: Check -> bool, s: State, t: nat)
    requires Inv(ok, s) && t < |s.threads| && s.threads[t].pc == Locking && s.threads[t].nNow != 0
    ensures HandedIn(ok, HandIn(s, t), t)
  {
    hide Held, Tally, Balanced, SoFar, Truthful;
    var th := s.threads[t];
    HeldWithout(s.threads, t, th.(batch := []));
    ReportConserves(s.queue, Held(s.threads[t := th.(batch := [])]), th.batch, s.finished, s.added, s.nTodo);
    ReportVerdict(ok, s.fAllOk, th, s.finished, s.added);
    TallyFrom(s.threads, t, th, Asleep);
    TallyFrom(s.threads, t, th, Inside);
    assert s.threads[t := th] == s.threads;
    SetAgain(s.threads, t, th.(batch := []), IDLE_THREAD);
  }

  lemma BalancedNat(queue: seq<Check>, held: multiset<Check>, finished: multiset<Check>, added: seq<Check>, nTodo: int)
    requires Balanced(queue, held, finished, added, nTodo)
    ensures |queue| <= nTodo
  {}

  lemma ReportBatch(ok: Check -> bool, s: State, t: nat)
    requires Inv(ok, s) && t < |s.threads| && s.threads[t].pc == Locking && s.threads[t].nNow != 0
    ensures Mid(ok, Report(s, t), t)
  {
    hide Held, Tally, Balanced, SoFar, Truthful, ThreadsOk;
    HandInKeeps(ok, s, t);
    var s1 := HandIn(s, t);
    BalancedNat(s1.queue, Held(s1.threads), s1.finished, s1.added, s1.nTodo);
    var after := s1.threads[0 := Notified(s1.threads[0])];
    NudgedKeeps(ok, s.added, s1.threads, after, t);
    NudgedKeeps(ok, s.added, s1.threads[t := IDLE_THREAD], after[t := IDLE_THREAD], t);
  }

  lemma ReportKeeps(ok: Check -> bool, s: State, t: nat)
    requires Inv(ok, s) && t < |s.threads| && s.threads[t].pc == Locking
    ensures Mid(ok, Report(s, t), t)
  {
    hide Inv, Mid, Report;
    if s.threads[t].nNow == 0 { ReportFirst(ok, s, t); } else { ReportBatch(ok, s, t); }
  }

  lemma WakeKeeps(ok: Check -> bool, s: State, t: nat)
    requires Inv(ok, s) && t < |s.threads| && s.threads[t].pc.Sleeping?
    ensures Mid(ok, s.(nIdle := s.nIdle - 1), t)
  {
    hide Held, Tally, Balanced, SoFar, Truthful;
    TallyFrom(s.threads, t, s.threads[t], Asleep);
    TallyFrom(s.threads, t, s.threads[t], Inside);
    assert s.threads[t := s.threads[t]] == s.threads;
  }

  // --------------------------------------------- steps outside the waiting loop

  lemma AddConserves(queue: seq<Check>, held: multiset<Check>, finished: multiset<Check>, added: seq<Check>, nTodo: int,
      checks: seq<Check>)
    requires Balanced(queue, held, finished, added, nTodo)
    ensures Balanced(queue + checks, held, finished, added + checks, nTodo + |checks|)
  {
    var q, c := multiset(queue), multiset(checks);
    assert ((q + c) + held) + finished == (q + held + finished) + c;
  }

  lemma AddVerdict(ok: Check -> bool, added: seq<Check>, checks: seq<Check>)
    ensures AllOk(ok, added + checks) ==> AllOk(ok, added)
  {
    if AllOk(ok, added + checks) {
      forall c | c in added ensures ok(c) { assert c in added + checks; }
    }
  }

  lemma AddKeeps(ok: Check -> bool, s: State, checks: seq<Check>, woken: nat)
    requires Inv(ok, s) && Enabled(s, Add(checks, woken))
    ensures Inv(ok, AddChecks(s, checks, woken))
  {
    hide Held, Tally, Balanced, AllOk, Truthful;
    var after := AddChecks(s, checks, woken).threads;
    NudgedKeeps(ok, s.added, s.threads, after, -1);
    AddConserves(s.queue, Held(s.threads), s.finished, s.added, s.nTodo, checks);
    AddVerdict(ok, s.added, checks);
  }

  /** A thread that keeps its batch and its standing in the two tallies. */
  lemma StepKeeps(ok: Check -> bool, s: State, t: nat, th: Thread)
    requires Inv(ok, s) && t < |s.threads| && ThreadOk(ok, s.added, th) && th.batch == s.threads[t].batch
    requires !th.pc.Sleeping? && !s.threads[t].pc.Sleeping? && Inside(th) == Inside(s.threads[t])
    ensures Inv(ok, SetThread(s, t, th))
  {
    hide Held, Tally, Balanced, SoFar, Truthful;
    var after := s.threads[t := th];
    HeldSame(s.threads, after);
    TallySame(s.threads, after, Asleep);
    TallySame(s.threads, after, Inside);
  }

  lemma EvalKeeps(ok: Check -> bool, s: State, t: nat)
    requires Inv(ok, s) && Enabled(s, Eval(t))
    ensures Inv(ok, SetThread(s, t, EvalOne(ok, s.threads[t])))
  {
    hide Held, Tally, Balanced, SoFar, Truthful;
    var th := s.threads[t];
    assert ThreadOk(ok, s.added, th);
    assert th.batch[..th.next + 1] == th.batch[..th.next] + [th.batch[th.next]];
    HeldWithin(s, t, th.batch[th.next]);
    StepKeeps(ok, s, t, EvalOne(ok, th));
  }

  /** A check in a batch is one of the added ones. */
  lemma HeldWithin(s: State, t: nat, c: Check)
    requires Balanced(s.queue, Held(s.threads), s.finished, s.added, s.nTodo)
    requires t < |s.threads| && c in s.threads[t].batch
    ensures c in s.added
  {
    HeldWithout(s.threads, t, IDLE_THREAD);
    assert c in multiset(s.threads[t].batch);
    assert c in multiset(s.added);
  }

  // ------------------------------------------------------------------- runs

  lemma NextKeeps(nBatchSize: nat, ok: Check -> bool, s: State, a: Action)
    requires Inv(ok, s) && Enabled(s, a)
    ensures Defined(s, a) && Inv(ok, Next(nBatchSize, ok, s, a))
  {
    hide Proceed, Report, Held, Tally, Balanced, SoFar, Truthful, AddChecks, EvalOne;
    match a
    case Add(checks, woken) => AddKeeps(ok, s, checks, woken);
    case Start(t) => StepKeeps(ok, s, t, IDLE_THREAD.(pc := Locking));
    case Lock(t) => ReportKeeps(ok, s, t); ProceedKeeps(nBatchSize, ok, Report(s, t), t);
    case Wake(t) => WakeKeeps(ok, s, t); ProceedKeeps(nBatchSize, ok, s.(nIdle := s.nIdle - 1), t);
    case Eval(t) => EvalKeeps(ok, s, t);
    case Clear(t) => StepKeeps(ok, s, t, s.threads[t].(pc := Locking, vChecks := []));
  }

  function Initial(n: nat): State {
    State([], 0, 0, true, 0, seq(n + 1, i => IDLE_THREAD), [], multiset{}, None)
  }

  lemma {:induction false} IdleThreads(threads: seq<Thread>)
    requires forall i | 0 <= i < |threads| :: threads[i] == IDLE_THREAD
    ensures Held(threads) == multiset{} && Tally(threads, Asleep) == 0 && Tally(threads, Inside) == 0
  {
    if threads != [] { IdleThreads(threads[1..]); }
  }

  lemma InitialInv(ok: Check -> bool, n: nat)
    ensures Inv(ok, Initial(n)) && |Initial(n).threads| == n + 1
  {
    IdleThreads(Initial(n).threads);
  }

  /** `states` is a run of the system under the steps `acts`. */
  ghost predicate IsRun(nBatchSize: nat, ok: Check -> bool, states: seq<State>, acts: seq<Action>) {
    && |states| == |acts| + 1
    && forall i | 0 <= i < |acts| ::
      && Enabled(states[i], acts[i])
      && (Defined(states[i], acts[i]) ==> states[i + 1] == Next(nBatchSize, ok, states[i], acts[i]))
  }

  /** Every interleaving of a master and n workers keeps the invariant, and every step of it is defined. */
  lemma {:induction false} RunKeeps(nBatchSize: nat, ok: Check -> bool, n: nat, states: seq<State>, acts: seq<Action>,
      k: nat)
    requires IsRun(nBatchSize, ok, states, acts) && states[0] == Initial(n) && k <= |acts|
    ensures Inv(ok, states[k]) && (k < |acts| ==> Defined(states[k], acts[k]))
  {
    hide Inv, Next, Enabled, Defined;
    if k == 0 {
      InitialInv(ok, n);
    } else {
      RunKeeps(nBatchSize, ok, n, states, acts, k - 1);
      NextKeeps(nBatchSize, ok, states[k - 1], acts[k - 1]);
    }
    if k < |acts| { NextKeeps(nBatchSize, ok, states[k], acts[k]); }
  }

  /** Wait has just returned: nothing is outstanding, and the answer is the conjunction of the added checks. */
  ghost predicate JustReturned(ok: Check -> bool, added: seq<Check>, r: State) {
    && r.returned == Some((AllOk(ok, added), added))
    && r.added == [] && r.queue == [] && r.nTodo == 0 && r.fAllOk
    && forall i | 0 <= i < |r.threads| :: r.threads[i].batch == []
  }

  lemma ProceedLeaves(nBatchSize: nat, ok: Check -> bool, s: State, t: nat)
    requires Mid(ok, s, t) && 0 <= s.nTotal && 0 <= s.nIdle
    requires InWait(s) && !InWait(Proceed(nBatchSize, s, t))
    ensures JustReturned(ok, s.added, Proceed(nBatchSize, s, t))
  {
    hide Held, Tally, SoFar, ThreadsOk, Truthful, AllOk;
    FinishedIsAll(ok, s);
    forall i | 0 <= i < |s.threads| ensures s.threads[i].batch == [] { NobodyHolds(s.threads, i); }
  }

  /**
   Wait returns only when nothing is outstanding, with the conjunction of all checks
   added since the previous return.
   */
  lemma WaitReturns(nBatchSize: nat, ok: Check -> bool, s: State, a: Action)
    requires Inv(ok, s) && Enabled(s, a) && Defined(s, a)
    requires InWait(s) && !InWait(Next(nBatchSize, ok, s, a))
    ensures JustReturned(ok, s.added, Next(nBatchSize, ok, s, a))
  {
    hide Proceed, Inv, Mid, Held, Tally, JustReturned;
    match a
    case Lock(t) =>
      ReportKeeps(ok, s, t);
      ProceedLeaves(nBatchSize, ok, Report(s, t), t);
    case Wake(t) =>
      WakeKeeps(ok, s, t);
      ProceedLeaves(nBatchSize, ok, s.(nIdle := s.nIdle - 1), t);
    case _ =>
  }

  /** The checks that the steps add, in order. */
  function AddedBy(acts: seq<Action>): seq<Check> {
    if acts == [] then [] else (if acts[0].Add? then acts[0].checks else []) + AddedBy(acts[1..])
  }

  ghost predicate NoReturn(states: seq<State>) {
    forall i | 0 <= i < |states| - 1 :: InWait(states[i]) ==> InWait(states[i + 1])
  }

  lemma StepAdded(nBatchSize: nat, ok: Check -> bool, s: State, a: Action)
    requires Enabled(s, a) && Defined(s, a)
    requires InWait(s) ==> InWait(Next(nBatchSize, ok, s, a))
    ensures Next(nBatchSize, ok, s, a).added == s.added + (if a.Add? then a.checks else [])
  {
    hide BatchSize, PopBack, NotifyAll, Notified, EvalOne, Proceed;
    match a
    case Lock(t) => ProceedAdded(nBatchSize, Report(s, t), t);
    case Wake(t) => ProceedAdded(nBatchSize, s.(nIdle := s.nIdle - 1), t);
    case _ =>
  }

  lemma ProceedAdded(nBatchSize: nat, s: State, t: nat)
    requires t < |s.threads| && 0 <= s.nTotal && 0 <= s.nIdle
    requires t == 0 ==> InWait(Proceed(nBatchSize, s, t))
    ensures Proceed(nBatchSize, s, t).added == s.added
  {
    hide BatchSize, PopBack;
  }

  lemma {:induction false} AddedInRun(nBatchSize: nat, ok: Check -> bool, states: seq<State>, acts: seq<Action>)
    requires IsRun(nBatchSize, ok, states, acts) && Inv(ok, states[0]) && NoReturn(states)
    ensures Inv(ok, states[|acts|]) && states[|acts|].added == states[0].added + AddedBy(acts)
  {
    hide Inv, Next, Enabled, Defined;
    if acts != [] {
      NextKeeps(nBatchSize, ok, states[0], acts[0]);
      assert states[1] == Next(nBatchSize, ok, states[0], acts[0]);
      assert InWait(states[0]) ==> InWait(states[0 + 1]);
      StepAdded(nBatchSize, ok, states[0], acts[0]);
      AddedInRun(nBatchSize, ok, states[1..], acts[1..]);
    }
  }

  /** From one return of Wait to the next, the answer is true exactly when every check added in between succeeds. */
  lemma WaitAnswers(nBatchSize: nat, ok: Check -> bool, states: seq<State>, acts: seq<Action>, last: Action)
    requires IsRun(nBatchSize, ok, states, acts) && Inv(ok, states[0]) && NoReturn(states) && states[0].added == []
    requires var s := states[|acts|];
      Enabled(s, last) && Defined(s, last) && InWait(s) && !InWait(Next(nBatchSize, ok, s, last))
    ensures JustReturned(ok, AddedBy(acts), Next(nBatchSize, ok, states[|acts|], last))
  {
    hide Inv, Next, Enabled, Defined, JustReturned;
    AddedInRun(nBatchSize, ok, states, acts);
    assert [] + AddedBy(acts) == AddedBy(acts);
    WaitReturns(nBatchSize, ok, states[|acts|], last);
  }

  // ---------------------------------------------------------------- wake-ups

  lemma {:induction false} SomebodyHolds(threads: seq<Thread>) returns (w: nat)
    requires 0 < |Held(threads)|
    ensures w < |threads| && threads[w].batch != []
  {
    if threads[0].batch != [] { w := 0; } else { w := SomebodyHolds(threads[1..]); w := w + 1; }
  }

  /** No wake-up is lost: while the master sleeps unnotified, some worker still has checks to hand in. */
  lemma NoLostWakeup(ok: Check -> bool, s: State) returns (w: nat)
    requires Inv(ok, s) && s.threads[0].pc == Sleeping(false)
    ensures s.queue == [] && 0 < s.nTodo
    ensures 0 < w < |s.threads| && s.threads[w].batch != []
    ensures (s.threads[w].pc == Working || s.threads[w].pc == Locking)
  {
    hide Held, Tally;
    w := SomebodyHolds(s.threads);
  }

  /** A step that is not the return from a wait without a notification. */
  predicate Genuine(s: State, a: Action) {
    match a
    case Add(_, _) => false
    case Start(_) => false
    case Wake(t) => t < |s.threads| && s.threads[t].pc == Sleeping(true)
    case _ => true
  }

  lemma BatchGoesOn(ok: Check -> bool, s: State, w: nat) returns (a: Action)
    requires Inv(ok, s) && w < |s.threads| && (s.threads[w].pc == Working || s.threads[w].pc == Locking)
    ensures Enabled(s, a) && Genuine(s, a)
  {
    hide Held, Tally;
    var th := s.threads[w];
    a := if th.pc == Locking then Lock(w) else if th.next < |th.vChecks| then Eval(w) else Clear(w);
  }

  /** No deadlock: while the master is in Wait, some thread can go on without a spurious wake-up. */
  lemma NoDeadlock(ok: Check -> bool, s: State) returns (a: Action)
    requires Inv(ok, s) && InWait(s)
    ensures Enabled(s, a) && Genuine(s, a)
  {
    hide Held, Tally;
    var pc := s.threads[0].pc;
    if pc == Sleeping(true) {
      a := Wake(0);
    } else if pc == Sleeping(false) {
      var w := NoLostWakeup(ok, s);
      a := BatchGoesOn(ok, s, w);
    } else {
      a := BatchGoesOn(ok, s, 0);
    }
  }

  // ------------------------------------------------------------- waking the workers

  function Unnotified(th: Thread): bool { th.pc == Sleeping(false) }

  /** Work in the queue, with at least one worker in the system, has a worker to come for it. */
  ghost predicate Attended(s: State) {
    1 < |s.threads| && s.queue != [] ==> exists w | 0 < w < |s.threads| :: !Unnotified(s.threads[w])
  }

  lemma ProceedAttended(nBatchSize: nat, s: State, t: nat)
    requires t < |s.threads| && 0 <= s.nTotal && 0 <= s.nIdle && Attended(s)
    ensures Attended(Proceed(nBatchSize, s, t))
  {
    hide BatchSize, PopBack;
    var r := Proceed(nBatchSize, s, t);
    if 1 < |s.threads| && r.queue != [] {
      var w :| 0 < w < |s.threads| && !Unnotified(s.threads[w]);
      assert !Unnotified(r.threads[w]);
    }
  }

  lemma ReportAttended(s: State, t: nat)
    requires t < |s.threads| && Attended(s)
    ensures Attended(Report(s, t)) && |Report(s, t).threads| == |s.threads|
  {
    var r := Report(s, t);
    if 1 < |s.threads| && s.queue != [] {
      var w :| 0 < w < |s.threads| && !Unnotified(s.threads[w]);
      assert !Unnotified(r.threads[w]);
    }
  }

  /** Add wakes every sleeping worker for several checks, and one of them for one check. */
  lemma AddWakes(s: State, checks: seq<Check>, woken: nat)
    requires Enabled(s, Add(checks, woken))
    ensures var r := AddChecks(s, checks, woken);
      && |r.threads| == |s.threads|
      && (2 <= |checks| ==> Tally(r.threads[1..], Unnotified) == 0)
      && (|checks| == 1 ==>
            var sleeping := Tally(s.threads[1..], Unnotified);
            Tally(r.threads[1..], Unnotified) == if sleeping == 0 then 0 else sleeping - 1)
      && (checks == [] ==> r.threads == s.threads)
  {
    var r := AddChecks(s, checks, woken);
    var rest := s.threads[1..];
    if 2 <= |checks| {
      NoneTallied(r.threads[1..], Unnotified);
    } else if |checks| == 1 {
      if exists w | 0 < w < |s.threads| :: s.threads[w].pc == Sleeping(false) {
        TallySet(rest, woken - 1, Notified(s.threads[woken]), Unnotified);
        assert r.threads[1..] == rest[woken - 1 := Notified(s.threads[woken])];
        SomeTallied(rest, woken - 1, Unnotified);
      } else {
        forall i | 0 <= i < |rest| ensures !Unnotified(rest[i]) { assert rest[i] == s.threads[i + 1]; }
        NoneTallied(rest, Unnotified);
        NoneTallied(r.threads[1..], Unnotified);
      }
    }
  }

  lemma {:induction false} NoneTallied(threads: seq<Thread>, p: Thread -> bool)
    requires forall i | 0 <= i < |threads| :: !p(threads[i])
    ensures Tally(threads, p) == 0
  {
    if threads != [] { NoneTallied(threads[1..], p); }
  }

  lemma {:induction false} SomeTallied(threads: seq<Thread>, i: nat, p: Thread -> bool)
    requires i < |threads| && p(threads[i])
    ensures 0 < Tally(threads, p)
  {
    if i > 0 { SomeTallied(threads[1..], i - 1, p); }
  }

  lemma {:induction false} TalliedWitness(threads: seq<Thread>, p: Thread -> bool) returns (w: nat)
    requires Tally(threads, p) < |threads|
    ensures w < |threads| && !p(threads[w])
  {
    if p(threads[0]) {
      w := TalliedWitness(threads[1..], p);
      w := w + 1;
    } else {
      w := 0;
    }
  }

  lemma AddAttended(s: State, checks: seq<Check>, woken: nat)
    requires Enabled(s, Add(checks, woken)) && Attended(s)
    ensures Attended(AddChecks(s, checks, woken))
  {
    hide Tally, AddChecks;
    var r := AddChecks(s, checks, woken);
    AddWakes(s, checks, woken);
    TallyBound(s.threads[1..], Unnotified);
    AddQueue(s, checks, woken);
    if 1 < |s.threads| && r.queue != [] {
      if checks == [] {
        var w :| 0 < w < |s.threads| && !Unnotified(s.threads[w]);
        assert !Unnotified(r.threads[w]);
      } else {
        var w := TalliedWitness(r.threads[1..], Unnotified);
        assert !Unnotified(r.threads[w + 1]);
      }
    }
  }

  lemma AddQueue(s: State, checks: seq<Check>, woken: nat)
    ensures AddChecks(s, checks, woken).queue == s.queue + checks
  {}

  lemma {:induction false} TallyBound(threads: seq<Thread>, p: Thread -> bool)
    ensures Tally(threads, p) <= |threads|
  {
    if threads != [] { TallyBound(threads[1..], p); }
  }

  lemma NextAttended(nBatchSize: nat, ok: Check -> bool, s: State, a: Action)
    requires Enabled(s, a) && Defined(s, a) && Attended(s)
    ensures Attended(Next(nBatchSize, ok, s, a))
  {
    hide Proceed, Report, AddChecks;
    match a
    case Add(checks, woken) => AddAttended(s, checks, woken);
    case Lock(t) => ReportAttended(s, t); ProceedAttended(nBatchSize, Report(s, t), t);
    case Wake(t) => ProceedAttended(nBatchSize, s.(nIdle := s.nIdle - 1), t);
    case Start(t) => RunningAttended(s, t, IDLE_THREAD.(pc := Locking));
    case Eval(t) => RunningAttended(s, t, EvalOne(ok, s.threads[t]));
    case Clear(t) => RunningAttended(s, t, s.threads[t].(pc := Locking, vChecks := []));
  }

  lemma RunningAttended(s: State, t: nat, th: Thread)
    requires Attended(s) && t < |s.threads| && !Unnotified(th)
    ensures Attended(SetThread(s, t, th))
  {
    var r := SetThread(s, t, th);
    if 1 < |s.threads| && s.queue != [] {
      var w :| 0 < w < |s.threads| && !Unnotified(s.threads[w]);
      assert !Unnotified(r.threads[w]);
    }
  }

  /** In every run: while the queue is not empty, some worker is on its way to it. */
  lemma {:induction false} WorkersAttend(nBatchSize: nat, ok: Check -> bool, n: nat, states: seq<State>,
      acts: seq<Action>, k: nat)
    requires IsRun(nBatchSize, ok, states, acts) && states[0] == Initial(n) && k <= |acts|
    ensures Attended(states[k])
  {
    hide Inv, Next, Enabled, Defined, Attended;
    if k == 0 {
      NothingQueued(n);
    } else {
      WorkersAttend(nBatchSize, ok, n, states, acts, k - 1);
      RunKeeps(nBatchSize, ok, n, states, acts, k - 1);
      NextAttended(nBatchSize, ok, states[k - 1], acts[k - 1]);
    }
  }

  lemma NothingQueued(n: nat)
    ensures Attended(Initial(n))
  {}

  // ------------------------------------------------------------- Wait terminates

  /** How many genuine steps a thread can still take by itself. */
  function Weight(th: Thread): nat {
    match th.pc
    case Outside => 3
    case Locking => 2
    case Sleeping(notified) => if notified then 1 else 0
    case Working => 3 + |th.vChecks| - (if th.next <= |th.vChecks| then th.next else |th.vChecks|)
  }

  ghost function Weights(threads: seq<Thread>): nat {
    if threads == [] then 0 else Weight(threads[0]) + Weights(threads[1..])
  }

  ghost function Potential(s: State): nat { 5 * |s.queue| + Weights(s.threads) }

  lemma {:induction false} WeightsSet(threads: seq<Thread>, i: nat, th: Thread)
    requires i < |threads|
    ensures Weights(threads[i := th]) + Weight(threads[i]) == Weights(threads) + Weight(th)
  {
    if i == 0 {
      assert threads[0 := th][1..] == threads[1..];
    } else {
      WeightsSet(threads[1..], i - 1, th);
      assert threads[i := th][1..] == threads[1..][i - 1 := th];
    }
  }

  /** The waiting loop costs the thread its weight; what it takes from the queue pays for the new batch. */
  lemma ProceedPotential(nBatchSize: nat, s: State, t: nat)
    requires t < |s.threads| && 0 <= s.nTotal && 0 <= s.nIdle
    requires InWait(s) && InWait(Proceed(nBatchSize, s, t))
    ensures Potential(Proceed(nBatchSize, s, t)) + Weight(s.threads[t]) <= Potential(s)
  {
    hide Weights, BatchSize, PopBack;
    WeightsSet(s.threads, t, Proceed(nBatchSize, s, t).threads[t]);
  }

  lemma ReportPotential(s: State, t: nat)
    requires t < |s.threads| && s.threads[t].pc == Locking
    ensures |Report(s, t).threads| == |s.threads| && Report(s, t).threads[t].pc == Locking
    ensures Potential(Report(s, t)) <= Potential(s) + 1
    ensures InWait(Report(s, t)) <==> InWait(s)
  {
    hide Weights;
    var th := s.threads[t].(batch := []);
    WeightsSet(s.threads, t, th);
    var threads := s.threads[t := th];
    WeightsSet(threads, 0, Notified(threads[0]));
  }

  /** Within one Wait every step lowers the potential or keeps it, and every genuine step lowers it. */
  lemma PotentialFalls(nBatchSize: nat, ok: Check -> bool, s: State, a: Action)
    requires Enabled(s, a) && Defined(s, a) && !a.Add?
    requires InWait(s) && InWait(Next(nBatchSize, ok, s, a))
    ensures Potential(Next(nBatchSize, ok, s, a)) <= Potential(s)
    ensures Genuine(s, a) ==> Potential(Next(nBatchSize, ok, s, a)) < Potential(s)
  {
    hide Proceed, Report, Weights;
    match a
    case Lock(t) =>
      ReportPotential(s, t);
      ProceedPotential(nBatchSize, Report(s, t), t);
    case Wake(t) => ProceedPotential(nBatchSize, s.(nIdle := s.nIdle - 1), t);
    case Start(t) => SetPotential(s, t, Next(nBatchSize, ok, s, a).threads[t]);
    case Eval(t) => SetPotential(s, t, Next(nBatchSize, ok, s, a).threads[t]);
    case Clear(t) => SetPotential(s, t, Next(nBatchSize, ok, s, a).threads[t]);
  }

  lemma SetPotential(s: State, t: nat, th: Thread)
    requires t < |s.threads|
    ensures Potential(SetThread(s, t, th)) + Weight(s.threads[t]) == Potential(s) + Weight(th)
  {
    WeightsSet(s.threads, t, th);
  }

  ghost function GenuineSteps(states: seq<State>, acts: seq<Action>): nat
    requires |acts| < |states|
  {
    if acts == [] then 0 else (if Genuine(states[0], acts[0]) then 1 else 0) + GenuineSteps(states[1..], acts[1..])
  }

  /** Wait terminates: a run inside it takes at most Potential genuine steps, however the threads interleave. */
  lemma {:induction false} WaitTerminates(nBatchSize: nat, ok: Check -> bool, states: seq<State>, acts: seq<Action>)
    requires IsRun(nBatchSize, ok, states, acts) && Inv(ok, states[0])
    requires forall i | 0 <= i < |states| :: InWait(states[i])
    ensures GenuineSteps(states, acts) <= Potential(states[0])
  {
    hide Inv, Next, Enabled, Defined, Potential, Genuine;
    if acts != [] {
      NextKeeps(nBatchSize, ok, states[0], acts[0]);
      MasterAddsOutside(states[0], acts[0]);
      assert InWait(states[1]) && states[1] == Next(nBatchSize, ok, states[0], acts[0]);
      PotentialFalls(nBatchSize, ok, states[0], acts[0]);
      WaitTerminates(nBatchSize, ok, states[1..], acts[1..]);
    }
  }

  /** The master does not add checks while it is in Wait. */
  lemma MasterAddsOutside(s: State, a: Action)
    requires Enabled(s, a) && InWait(s)
    ensures !a.Add?
  {}
}
