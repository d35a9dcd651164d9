/**
 The parallel check queue (src/checkqueue.h): one master adds batches of checks and then joins
 any number of workers until all of them are done.

 Everything done under the mutex is one atomic step, and so is the execution of one check.
 Thread 0 is the master.  The lock order, the outcome of each check, the sleeper picked by
 `notify_one` and spurious wake-ups are arbitrary.
 */
module CheckQueue {
  import opened Arithmetic

  type Job = nat

  datatype Outcome = Passed | Failed | Skipped

  /** Where a thread is in `Loop`. */
  datatype Mode =
    | Outside                                          // not in Loop
    | Entering                                         // in Loop, about to lock for the first time
    | Asleep                                           // in cond.wait
    | Awake                                            // out of cond.wait, about to lock again
    | Deciding                                         // holds the mutex, at the top of the inner loop
    | Working(nNow: nat, todo: seq<Job>, fOk: bool)    // holds a batch; locks again when todo is empty

  /** What one call of Wait was about: the checks added since the last one, what became of each,
      and the value returned. */
  datatype Round = Round(added: multiset<Job>, log: seq<(Job, Outcome)>, result: bool)

  datatype State = State(
    queue: seq<Job>,
    nIdle: int,
    nTotal: int,
    fAllOk: bool,
    nTodo: int,
    nBatchSize: nat,
    threads: seq<Mode>,
    // history, for the specification
    added: multiset<Job>,
    log: seq<(Job, Outcome)>,
    rounds: seq<Round>)

  datatype Action =
    | CallAdd(jobs: seq<Job>, sleeper: nat)   // the master's Add; `sleeper` is who notify_one picks
    | CallWait                                // the master enters Loop
    | Start(t: nat)                           // a worker thread enters Loop
    | Lock(t: nat)                            // a critical section of Loop, up to its end or its wait
    | Run(t: nat, passed: bool)               // the next check of t's batch, outside the mutex
    | Spurious(t: nat)                        // a wake-up without notification

  function Reverse(s: seq<Job>): (r: seq<Job>)
    ensures |r| == |s| && multiset(r) == multiset(s)
  {
    if s == [] then []
    else
      assert s == s[..|s| - 1] + [s[|s| - 1]];
      [s[|s| - 1]] + Reverse(s[..|s| - 1])
  }

  // ----- Steps -----

  function Init(workers: nat, nBatchSize: nat): State {
    State([], 0, 0, true, 0, nBatchSize, seq(workers + 1, _ => Outside), multiset{}, [], [])
  }

  /** Which sleepers notify_one on condWorker may pick. */
  predicate Sleeper(ts: seq<Mode>, w: nat) {
    0 < w < |ts| && ts[w].Asleep?
  }

  predicate NoSleeper(ts: seq<Mode>) {
    forall w :: 0 < w < |ts| ==> !ts[w].Asleep?
  }

  predicate Enabled(s: State, a: Action) {
    |s.threads| > 0 &&
    match a
    case CallAdd(jobs, w) =>
      s.threads[0].Outside? && (|jobs| == 1 ==> Sleeper(s.threads, w) || NoSleeper(s.threads))
    case CallWait => s.threads[0].Outside?
    case Start(t) => 0 < t < |s.threads| && s.threads[t].Outside?
    case Lock(t) => t < |s.threads| && AtLock(s.threads[t])
    case Run(t, _) => t < |s.threads| && s.threads[t].Working? && s.threads[t].todo != []
    case Spurious(t) => t < |s.threads| && s.threads[t].Asleep?
  }

  predicate AtLock(m: Mode) {
    m.Entering? || m.Awake? || (m.Working? && m.todo == [])
  }

  function WakeWorkers(ts: seq<Mode>): (r: seq<Mode>)
    ensures |r| == |ts|
  {
    seq(|ts|, i requires 0 <= i < |ts| => if i > 0 && ts[i].Asleep? then Awake else ts[i])
  }

  function Put(s: State, t: nat, m: Mode): State
    requires t < |s.threads|
  {
    s.(threads := s.threads[t := m])
  }

  function Add(s: State, jobs: seq<Job>, w: nat): State {
    s.(queue := s.queue + jobs,
       nTodo := s.nTodo + |jobs|,
       threads := if |jobs| == 1 then (if Sleeper(s.threads, w) then s.threads[w := Awake] else s.threads)
                  else if |jobs| > 1 then WakeWorkers(s.threads)
                  else s.threads,
       added := s.added + multiset(jobs))
  }

  /** The first thing done after locking: account for the finished batch, or enter, or wake up. */
  function CleanUp(s: State, t: nat): (c: State)
    requires t < |s.threads| && AtLock(s.threads[t])
    ensures |c.threads| == |s.threads| && c.threads[t].Deciding? && c.rounds == s.rounds
    ensures c.threads[0].Outside? ==> s.threads[0].Outside?
  {
    match s.threads[t]
    case Working(_, _, _) =>
      var c := Account(s, t);
      if c.nTodo == 0 && t != 0 && c.threads[0].Asleep? then Put(c, 0, Awake) else c
    case Awake => Put(s, t, Deciding).(nIdle := s.nIdle - 1)
    case _ => Put(s, t, Deciding).(nTotal := s.nTotal + 1)
  }

  function Account(s: State, t: nat): State
    requires t < |s.threads| && s.threads[t].Working?
  {
    var m := s.threads[t];
    Put(s, t, Deciding).(fAllOk := s.fAllOk && m.fOk, nTodo := s.nTodo - m.nNow)
  }

  function Max(a: int, b: int): int { if a < b then b else a }
  function Min(a: int, b: int): int { if a < b then a else b }

  /** How many checks to take; the divisor counts the threads in Loop and, again, the idle ones. */
  function BatchLength(s: State): (n: nat)
    requires s.nTotal >= 0 && s.nIdle >= 0 && s.queue != []
    ensures 1 <= n <= |s.queue|
  {
    var d := s.nTotal + s.nIdle + 1;
    assert |s.queue| / d <= |s.queue|;
    Max(1, Min(s.nBatchSize, |s.queue| / d))
  }

  /** The rest of the critical section: return, go to sleep, or take a batch. */
  function LoopTop(s: State, t: nat): (r: State)
    requires t < |s.threads| && s.nTotal >= 0 && s.nIdle >= 0
    ensures |r.threads| == |s.threads|
  {
    if s.queue != [] then Take(s, t, |s.queue| - BatchLength(s))
    else if t == 0 && s.nTodo == 0 then Return(s)
    else Put(s, t, Asleep).(nIdle := s.nIdle + 1)
  }

  /** The jobs from position k on are popped off the back of the queue. */
  function Take(s: State, t: nat, k: nat): State
    requires t < |s.threads| && k < |s.queue|
  {
    Put(s, t, Working(|s.queue| - k, Reverse(s.queue[k..]), s.fAllOk)).(queue := s.queue[..k])
  }

  function Return(s: State): State
    requires |s.threads| > 0
  {
    Put(s, 0, Outside).(nTotal := s.nTotal - 1, fAllOk := true, added := multiset{}, log := [],
                        rounds := s.rounds + [Round(s.added, s.log, s.fAllOk)])
  }

  function RunOne(s: State, t: nat, passed: bool): State
    requires t < |s.threads| && s.threads[t].Working? && s.threads[t].todo != []
  {
    var m := s.threads[t];
    var outcome := if !m.fOk then Skipped else if passed then Passed else Failed;
    Put(s, t, m.(todo := m.todo[1..], fOk := m.fOk && passed)).(log := s.log + [(m.todo[0], outcome)])
  }

  // ----- What single steps do -----

  lemma {:induction false} ReverseAt(s: seq<Job>, i: nat)
    requires i < |s|
    ensures Reverse(s)[i] == s[|s| - 1 - i]
  {
    if i > 0 {
      ReverseAt(s[..|s| - 1], i - 1);
    }
  }

  /** A batch is as large as it may be without exceeding the limit, or its share of the queue if every thread
      in Loop, the idle ones twice, and one more took the same; but at least one check. */
  lemma BatchExactly(s: State, m: nat)
    requires s.nTotal >= 0 && s.nIdle >= 0 && s.queue != []
    ensures var n, d := BatchLength(s), s.nTotal + s.nIdle + 1;
      && (n == 1 || (n <= s.nBatchSize && n * d <= |s.queue|))
      && (m <= s.nBatchSize && m * d <= |s.queue| ==> m <= n)
  {
    Share(|s.queue|, s.nTotal + s.nIdle + 1, m);
  }

  lemma Share(length: nat, d: nat, m: nat)
    requires d > 0
    ensures length / d * d <= length && (m * d <= length ==> m <= length / d)
  {
    QuotientRemainder(length, d);
    if m > length / d {
      Above(length / d, m, d);
    }
  }

  /** A thread at the top of its loop takes checks from the back of the queue, the last one first, and takes
      over whether everything passed so far. */
  lemma TakesFromBack(s: State, t: nat)
    requires t < |s.threads| && s.nTotal >= 0 && s.nIdle >= 0 && s.queue != []
    ensures var r, n := LoopTop(s, t), BatchLength(s);
      && r.threads[t].Working? && r.threads[t].nNow == |r.threads[t].todo| == n && r.threads[t].fOk == s.fAllOk
      && (forall i :: 0 <= i < n ==> r.threads[t].todo[i] == s.queue[|s.queue| - 1 - i])
      && r.queue == s.queue[..|s.queue| - n]
  {
    var k := |s.queue| - BatchLength(s);
    forall i | 0 <= i < BatchLength(s) ensures Reverse(s.queue[k..])[i] == s.queue[|s.queue| - 1 - i] {
      ReverseAt(s.queue[k..], i);
    }
  }

  /** A check is run only while all others that the thread knows of passed; after that it is skipped. */
  lemma RunsUntilFailure(s: State, t: nat, passed: bool)
    requires t < |s.threads| && s.threads[t].Working? && s.threads[t].todo != []
    ensures var r, m := RunOne(s, t, passed), s.threads[t];
      && |r.log| == |s.log| + 1 && r.log[..|s.log|] == s.log && r.log[|s.log|].0 == m.todo[0]
      && (!m.fOk ==> r.log[|s.log|].1 == Skipped && !r.threads[t].fOk)
      && (m.fOk ==> r.log[|s.log|].1 == (if passed then Passed else Failed) && r.threads[t].fOk == passed)
      && r.threads[t].todo == m.todo[1..] && r.threads[t].nNow == m.nNow
  {
  }

  /** A finished batch is taken off the checks to do, its verdict is added, and the master is woken exactly by
      the worker that finishes the last one. */
  lemma AccountsBatch(s: State, t: nat)
    requires t < |s.threads| && s.threads[t].Working? && s.threads[t].todo == []
    ensures var c, m := CleanUp(s, t), s.threads[t];
      && c.nTodo == s.nTodo - m.nNow && c.fAllOk == (s.fAllOk && m.fOk) && c.queue == s.queue && c.log == s.log
      && c.nIdle == s.nIdle && c.nTotal == s.nTotal
      && (forall i :: 0 < i < |s.threads| && i != t ==> c.threads[i] == s.threads[i])
      && (t > 0 ==> c.threads[0] == if c.nTodo == 0 && s.threads[0].Asleep? then Awake else s.threads[0])
  {
  }

  /** New checks go to the end of the queue.  One wakes a sleeping worker, if there is any; more wake them
      all; none wakes nobody; and the master is never woken. */
  lemma AddWakes(s: State, jobs: seq<Job>, w: nat)
    requires Enabled(s, CallAdd(jobs, w))
    ensures var r := Add(s, jobs, w);
      && r.queue == s.queue + jobs && r.nTodo == s.nTodo + |jobs| && r.threads[0] == s.threads[0]
      && (jobs == [] ==> r.threads == s.threads)
      && (|jobs| == 1 && r.threads == s.threads ==>
            forall i :: 0 < i < |s.threads| ==> !s.threads[i].Asleep?)
      && (|jobs| == 1 && r.threads != s.threads ==>
            0 < w < |s.threads| && s.threads[w].Asleep? && r.threads == s.threads[w := Awake])
      && (|jobs| > 1 ==> forall i :: 0 < i < |s.threads| ==> !r.threads[i].Asleep?)
      && forall i :: 0 <= i < |s.threads| ==>
           r.threads[i] == s.threads[i] || (i > 0 && s.threads[i].Asleep? && r.threads[i].Awake?)
  {
  }

  /** Any sleeping worker may be the one that a single check wakes. */
  lemma AnySleeperWakes(s: State, job: Job, w: nat)
    requires 0 < w < |s.threads| && s.threads[w].Asleep? && s.threads[0].Outside?
    ensures Enabled(s, CallAdd([job], w)) && Add(s, [job], w).threads[w].Awake?
  {
  }

  // ----- Sums over the threads -----

  function Sum(f: Mode -> int, ts: seq<Mode>): int {
    if ts == [] then 0 else f(ts[0]) + Sum(f, ts[1..])
  }

  lemma {:induction false} SumPut(f: Mode -> int, ts: seq<Mode>, i: nat, m: Mode)
    requires i < |ts|
    ensures Sum(f, ts[i := m]) == Sum(f, ts) - f(ts[i]) + f(m)
  {
    if i == 0 {
      assert ts[i := m][1..] == ts[1..];
    } else {
      assert ts[i := m][1..] == ts[1..][i - 1 := m];
      SumPut(f, ts[1..], i - 1, m);
    }
  }

  lemma {:induction false} SumSame(f: Mode -> int, ts: seq<Mode>, us: seq<Mode>)
    requires |ts| == |us| && forall i :: 0 <= i < |ts| ==> f(ts[i]) == f(us[i])
    ensures Sum(f, ts) == Sum(f, us)
  {
    if ts != [] {
      SumSame(f, ts[1..], us[1..]);
    }
  }

  lemma {:induction false} SumAtLeast(f: Mode -> int, ts: seq<Mode>, i: nat)
    requires i < |ts| && forall m :: f(m) >= 0
    ensures Sum(f, ts) >= f(ts[i]) >= 0
  {
    if i == 0 {
      SumNonNegative(f, ts[1..]);
    } else {
      SumAtLeast(f, ts[1..], i - 1);
    }
  }

  lemma {:induction false} SumNonNegative(f: Mode -> int, ts: seq<Mode>)
    requires forall m :: f(m) >= 0
    ensures Sum(f, ts) >= 0
  {
    if ts != [] {
      SumNonNegative(f, ts[1..]);
    }
  }

  lemma {:induction false} SumPositive(f: Mode -> int, ts: seq<Mode>) returns (i: nat)
    requires Sum(f, ts) > 0
    ensures i < |ts| && f(ts[i]) > 0
  {
    if f(ts[0]) > 0 {
      i := 0;
    } else {
      i := SumPositive(f, ts[1..]);
      i := i + 1;
    }
  }

  /** Checks taken but not yet accounted for. */
  function Pending(m: Mode): int { if m.Working? then m.nNow else 0 }
  function InLoop(m: Mode): int { if m.Outside? || m.Entering? then 0 else 1 }
  function Idle(m: Mode): int { if m.Asleep? || m.Awake? then 1 else 0 }

  /** How often a thread's batch still holds the check j. */
  function Holds(j: Job): Mode -> int {
    (m: Mode) => if m.Working? then multiset(m.todo)[j] else 0
  }

  lemma {:induction false} SumZero(f: Mode -> int, ts: seq<Mode>)
    requires forall i :: 0 <= i < |ts| ==> f(ts[i]) == 0
    ensures Sum(f, ts) == 0
  {
    if ts != [] {
      SumZero(f, ts[1..]);
    }
  }

  // ----- A step of the whole system -----

  /** nTotal counts the threads in Loop and nIdle those in cond.wait. */
  predicate Counted(s: State) {
    s.nTotal == Sum(InLoop, s.threads) && s.nIdle == Sum(Idle, s.threads)
  }

  lemma CountedPut(s: State, t: nat, m: Mode, nTotal: int, nIdle: int)
    requires Counted(s) && t < |s.threads|
    requires nTotal == s.nTotal - InLoop(s.threads[t]) + InLoop(m)
    requires nIdle == s.nIdle - Idle(s.threads[t]) + Idle(m)
    ensures Counted(Put(s, t, m).(nTotal := nTotal, nIdle := nIdle))
  {
    SumPut(InLoop, s.threads, t, m);
    SumPut(Idle, s.threads, t, m);
  }

  lemma CountedCleanUp(s: State, t: nat)
    requires Counted(s) && t < |s.threads| && AtLock(s.threads[t])
    ensures Counted(CleanUp(s, t))
    ensures CleanUp(s, t).nTotal >= 0 && CleanUp(s, t).nIdle >= 0
  {
    var c := CleanUp(s, t);
    SumPut(InLoop, s.threads, t, Deciding);
    SumPut(Idle, s.threads, t, Deciding);
    var ts := s.threads[t := Deciding];
    if c.threads != ts {
      SumPut(InLoop, ts, 0, Awake);
      SumPut(Idle, ts, 0, Awake);
    }
    SumNonNegative(InLoop, c.threads);
    SumNonNegative(Idle, c.threads);
  }

  function Next(s: State, a: Action): (r: State)
    requires Enabled(s, a) && Counted(s)
    ensures |r.threads| == |s.threads|
  {
    match a
    case CallAdd(jobs, w) => Add(s, jobs, w)
    case CallWait => Put(s, 0, Entering)
    case Start(t) => Put(s, t, Entering)
    case Lock(t) => CountedCleanUp(s, t); LoopTop(CleanUp(s, t), t)
    case Run(t, passed) => RunOne(s, t, passed)
    case Spurious(t) => Put(s, t, Awake)
  }

  // ----- The invariant -----

  ghost predicate AllPassed(log: seq<(Job, Outcome)>) {
    forall i :: 0 <= i < |log| ==> log[i].1.Passed?
  }

  ghost predicate SomeFailed(log: seq<(Job, Outcome)>) {
    exists i :: 0 <= i < |log| && log[i].1.Failed?
  }

  /** The checks a log speaks of, each as often as it was handled. */
  ghost function Jobs(log: seq<(Job, Outcome)>): multiset<Job> {
    if log == [] then multiset{} else Jobs(log[..|log| - 1]) + multiset{log[|log| - 1].0}
  }

  /** What a call of Wait promises: every check added was handled exactly once, and the result is
      true exactly when each of them ran and passed, false only when one of them ran and failed. */
  ghost predicate RoundOk(r: Round) {
    && Jobs(r.log) == r.added
    && (r.result <==> AllPassed(r.log))
    && (!r.result ==> SomeFailed(r.log))
  }

  ghost predicate BatchesOk(ts: seq<Mode>) {
    forall t :: 0 <= t < |ts| && ts[t].Working? ==> 1 <= ts[t].nNow && |ts[t].todo| <= ts[t].nNow
  }

  ghost predicate NoneBad(ts: seq<Mode>) {
    forall t :: 0 <= t < |ts| && ts[t].Working? ==> ts[t].fOk
  }

  ghost predicate TodoOk(s: State) {
    s.nTodo == |s.queue| + Sum(Pending, s.threads)
  }

  /** Each addition of j since the last Wait is queued, held or handled, exactly once. */
  ghost predicate Conserved(s: State, j: Job) {
    s.added[j] == multiset(s.queue)[j] + Sum(Holds(j), s.threads) + Jobs(s.log)[j]
  }

  ghost predicate VerdictOk(s: State) {
    && (AllPassed(s.log) <==> s.fAllOk && NoneBad(s.threads))
    && (!AllPassed(s.log) ==> SomeFailed(s.log))
  }

  ghost predicate Inv(s: State) {
    && |s.threads| > 0
    && Counted(s)
    && BatchesOk(s.threads)
    && TodoOk(s)
    && (forall j :: Conserved(s, j))
    && VerdictOk(s)
    && (s.threads[0].Asleep? ==> s.queue == [] && s.nTodo > 0)
    && (forall i :: 0 <= i < |s.rounds| ==> RoundOk(s.rounds[i]))
  }

  lemma InitInv(workers: nat, nBatchSize: nat)
    ensures Inv(Init(workers, nBatchSize))
  {
    var ts := Init(workers, nBatchSize).threads;
    SumZero(InLoop, ts);
    SumZero(Idle, ts);
    SumZero(Pending, ts);
    forall j ensures Conserved(Init(workers, nBatchSize), j) {
      SumZero(Holds(j), ts);
    }
  }

  lemma KeepBatches(ts: seq<Mode>, t: nat, m: Mode)
    requires t < |ts| && BatchesOk(ts) && !m.Working?
    ensures BatchesOk(ts[t := m])
    ensures NoneBad(ts[t := m]) && (ts[t].Working? ==> ts[t].fOk) <==> NoneBad(ts)
  {
    assert forall i :: 0 <= i < |ts| && i != t ==> ts[t := m][i] == ts[i];
  }

  /** Moving a thread between modes that hold no batch. */
  lemma InvMove(s: State, t: nat, m: Mode, nTotal: int, nIdle: int)
    requires Inv(s) && t < |s.threads| && !s.threads[t].Working? && !m.Working?
    requires nTotal == s.nTotal - InLoop(s.threads[t]) + InLoop(m)
    requires nIdle == s.nIdle - Idle(s.threads[t]) + Idle(m)
    requires t == 0 && m.Asleep? ==> s.queue == [] && s.nTodo > 0
    ensures Inv(Put(s, t, m).(nTotal := nTotal, nIdle := nIdle))
  {
    CountedPut(s, t, m, nTotal, nIdle);
    SumPut(Pending, s.threads, t, m);
    KeepBatches(s.threads, t, m);
    var r := Put(s, t, m).(nTotal := nTotal, nIdle := nIdle);
    forall j ensures Conserved(r, j) {
      assert Conserved(s, j);
      SumPut(Holds(j), s.threads, t, m);
    }
  }

  /** Waking sleepers changes nothing that is counted. */
  lemma SameCounts(ts: seq<Mode>, us: seq<Mode>)
    requires |ts| == |us| && forall t :: 0 <= t < |ts| ==> us[t] == ts[t] || (ts[t].Asleep? && us[t].Awake?)
    ensures Sum(InLoop, us) == Sum(InLoop, ts) && Sum(Idle, us) == Sum(Idle, ts) && Sum(Pending, us) == Sum(Pending, ts)
    ensures forall j :: Sum(Holds(j), us) == Sum(Holds(j), ts)
    ensures (NoneBad(us) <==> NoneBad(ts)) && (BatchesOk(us) <==> BatchesOk(ts))
  {
    SumSame(InLoop, ts, us);
    SumSame(Idle, ts, us);
    SumSame(Pending, ts, us);
    forall j ensures Sum(Holds(j), us) == Sum(Holds(j), ts) {
      SumSame(Holds(j), ts, us);
    }
    forall t | 0 <= t < |ts| ensures us[t].Working? || ts[t].Working? ==> us[t] == ts[t] {}
  }

  lemma InvAdd(s: State, jobs: seq<Job>, w: nat)
    requires Inv(s) && Enabled(s, CallAdd(jobs, w))
    ensures Inv(Add(s, jobs, w))
  {
    var r := Add(s, jobs, w);
    SameCounts(s.threads, r.threads);
    forall j ensures Conserved(r, j) {
      assert Conserved(s, j);
    }
  }

  lemma InvCleanUp(s: State, t: nat)
    requires Inv(s) && t < |s.threads| && AtLock(s.threads[t])
    ensures Inv(CleanUp(s, t))
  {
    if s.threads[t].Working? {
      InvCleanUpBatch(s, t);
    } else {
      var wake := if s.threads[t].Awake? then 1 else 0;
      InvMove(s, t, Deciding, s.nTotal + 1 - wake, s.nIdle - wake);
      assert CleanUp(s, t) == Put(s, t, Deciding).(nTotal := s.nTotal + 1 - wake, nIdle := s.nIdle - wake);
    }
  }

  lemma InvCleanUpBatch(s: State, t: nat)
    requires Inv(s) && t < |s.threads| && AtLock(s.threads[t]) && s.threads[t].Working?
    ensures Inv(CleanUp(s, t))
  {
    InvAccount(s, t);
    var c := Account(s, t);
    if c.nTodo == 0 && t != 0 && c.threads[0].Asleep? {
      AlmostMove(c);
    }
  }

  /** Everything but the master's reason to sleep. */
  ghost predicate AlmostInv(s: State) {
    && |s.threads| > 0
    && Counted(s)
    && BatchesOk(s.threads)
    && TodoOk(s)
    && (forall j :: Conserved(s, j))
    && VerdictOk(s)
    && (s.threads[0].Asleep? ==> s.queue == [])
    && (forall i :: 0 <= i < |s.rounds| ==> RoundOk(s.rounds[i]))
  }

  lemma InvAccount(s: State, t: nat)
    requires Inv(s) && t < |s.threads| && s.threads[t].Working? && s.threads[t].todo == []
    ensures AlmostInv(Account(s, t)) && Account(s, t).nTodo >= 0
  {
    CountedPut(s, t, Deciding, s.nTotal, s.nIdle);
    SumPut(Pending, s.threads, t, Deciding);
    SumAtLeast(Pending, s.threads, t);
    KeepBatches(s.threads, t, Deciding);
    forall j ensures Conserved(Account(s, t), j) {
      assert Conserved(s, j);
      SumPut(Holds(j), s.threads, t, Deciding);
    }
  }

  lemma AlmostMove(s: State)
    requires AlmostInv(s) && s.threads[0].Asleep?
    ensures Inv(Put(s, 0, Awake))
  {
    CountedPut(s, 0, Awake, s.nTotal, s.nIdle);
    SumPut(Pending, s.threads, 0, Awake);
    KeepBatches(s.threads, 0, Awake);
    forall j ensures Conserved(Put(s, 0, Awake), j) {
      assert Conserved(s, j);
      SumPut(Holds(j), s.threads, 0, Awake);
    }
  }

  /** When nothing is left to do, no thread holds a batch. */
  lemma AllAccounted(s: State)
    requires Inv(s) && s.nTodo == 0
    ensures s.queue == [] && Jobs(s.log) == s.added
    ensures forall t :: 0 <= t < |s.threads| ==> !s.threads[t].Working?
  {
    SumNonNegative(Pending, s.threads);
    forall t | 0 <= t < |s.threads| ensures !s.threads[t].Working? {
      SumAtLeast(Pending, s.threads, t);
    }
    forall j ensures Jobs(s.log)[j] == s.added[j] {
      assert Conserved(s, j);
      SumZero(Holds(j), s.threads);
    }
  }

  lemma InvReturn(s: State)
    requires Inv(s) && s.threads[0].Deciding? && s.nTodo == 0
    ensures Inv(Return(s))
  {
    AllAccounted(s);
    InvMove(s, 0, Outside, s.nTotal - 1, s.nIdle);
    assert RoundOk(Round(s.added, s.log, s.fAllOk));
    forall j ensures Conserved(Return(s), j) {
      SumZero(Holds(j), s.threads[0 := Outside]);
    }
  }

  lemma InvTake(s: State, t: nat, k: nat)
    requires Inv(s) && t < |s.threads| && s.threads[t].Deciding? && k < |s.queue|
    ensures Inv(Take(s, t, k))
  {
    var m := Take(s, t, k).threads[t];
    CountedPut(s, t, m, s.nTotal, s.nIdle);
    SumPut(Pending, s.threads, t, m);
    TakeBatch(s.threads, t, m);
    hide Counted, BatchesOk, RoundOk, Sum;
    forall j ensures Conserved(Take(s, t, k), j) {
      TakeConserves(s, t, k, j);
    }
  }

  lemma TakeConserves(s: State, t: nat, k: nat, j: Job)
    requires t < |s.threads| && s.threads[t].Deciding? && k < |s.queue| && Conserved(s, j)
    ensures Conserved(Take(s, t, k), j)
  {
    hide Sum;
    SumPut(Holds(j), s.threads, t, Take(s, t, k).threads[t]);
    assert s.queue == s.queue[..k] + s.queue[k..];
  }

  lemma TakeBatch(ts: seq<Mode>, t: nat, m: Mode)
    requires t < |ts| && !ts[t].Working? && m.Working? && BatchesOk(ts) && 1 <= m.nNow && |m.todo| <= m.nNow
    ensures BatchesOk(ts[t := m])
    ensures NoneBad(ts[t := m]) <==> NoneBad(ts) && m.fOk
  {
    assert ts[t := m][t] == m;
    assert forall i :: 0 <= i < |ts| && i != t ==> ts[t := m][i] == ts[i];
  }

  lemma InvLoopTop(s: State, t: nat)
    requires Inv(s) && t < |s.threads| && s.threads[t].Deciding? && s.nTotal >= 0 && s.nIdle >= 0
    ensures Inv(LoopTop(s, t))
  {
    SumNonNegative(Pending, s.threads);
    if s.queue != [] {
      InvTake(s, t, |s.queue| - BatchLength(s));
    } else if t == 0 && s.nTodo == 0 {
      InvReturn(s);
    } else {
      InvMove(s, t, Asleep, s.nTotal, s.nIdle + 1);
    }
  }

  lemma InvRunOne(s: State, t: nat, passed: bool)
    requires Inv(s) && Enabled(s, Run(t, passed))
    ensures Inv(RunOne(s, t, passed))
  {
    var m := s.threads[t];
    var m' := RunOne(s, t, passed).threads[t];
    CountedPut(s, t, m', s.nTotal, s.nIdle);
    SumPut(Pending, s.threads, t, m');
    forall j ensures Conserved(RunOne(s, t, passed), j) {
      assert Conserved(s, j);
      RunConserves(s, t, passed, j);
    }
    RunVerdict(s, t, passed);
  }

  lemma RunConserves(s: State, t: nat, passed: bool, j: Job)
    requires Conserved(s, j) && Enabled(s, Run(t, passed))
    ensures Conserved(RunOne(s, t, passed), j)
  {
    var todo := s.threads[t].todo;
    var r := RunOne(s, t, passed);
    SumPut(Holds(j), s.threads, t, r.threads[t]);
    assert todo == [todo[0]] + todo[1..];
    assert r.log[..|r.log| - 1] == s.log;
  }

  lemma RunVerdict(s: State, t: nat, passed: bool)
    requires Inv(s) && Enabled(s, Run(t, passed))
    ensures VerdictOk(RunOne(s, t, passed)) && BatchesOk(RunOne(s, t, passed).threads)
  {
    var r := RunOne(s, t, passed);
    var n := |s.log|;
    RunBatch(s.threads, t, r.threads[t]);
    assert forall i :: 0 <= i < n ==> r.log[i] == s.log[i];
    assert r.log[n].1.Passed? <==> s.threads[t].fOk && passed;
    assert AllPassed(r.log) <==> AllPassed(s.log) && r.log[n].1.Passed?;
    if SomeFailed(s.log) {
      var i :| 0 <= i < n && s.log[i].1.Failed?;
      assert r.log[i].1.Failed?;
    }
  }

  lemma RunBatch(ts: seq<Mode>, t: nat, m: Mode)
    requires t < |ts| && ts[t].Working? && m.Working? && BatchesOk(ts)
    requires m.nNow == ts[t].nNow && |m.todo| <= |ts[t].todo| && (m.fOk ==> ts[t].fOk)
    ensures BatchesOk(ts[t := m])
    ensures NoneBad(ts[t := m]) <==> NoneBad(ts) && m.fOk
  {
    assert ts[t := m][t] == m;
    assert forall i :: 0 <= i < |ts| && i != t ==> ts[t := m][i] == ts[i];
  }

  lemma InvNext(s: State, a: Action)
    requires Inv(s) && Enabled(s, a)
    ensures Inv(Next(s, a))
  {
    match a
    case CallAdd(jobs, w) => InvAdd(s, jobs, w);
    case CallWait => InvMove(s, 0, Entering, s.nTotal, s.nIdle);
    case Start(t) => InvMove(s, t, Entering, s.nTotal, s.nIdle);
    case Lock(t) =>
      CountedCleanUp(s, t);
      InvCleanUp(s, t);
      InvLoopTop(CleanUp(s, t), t);
    case Run(t, passed) => InvRunOne(s, t, passed);
    case Spurious(t) => InvMove(s, t, Awake, s.nTotal, s.nIdle);
  }

  // ----- Whole runs -----

  ghost predicate Step(s: State, a: Action, n: State) {
    Counted(s) && Enabled(s, a) && n == Next(s, a)
  }

  /** The states passed through when taking the actions of `run` one by one. */
  ghost predicate IsRun(states: seq<State>, run: seq<Action>) {
    |states| == |run| + 1 && forall i :: 0 <= i < |run| ==> Step(states[i], run[i], states[i + 1])
  }

  lemma InvStep(s: State, a: Action, n: State)
    requires Inv(s) && Step(s, a, n)
    ensures Inv(n)
  {
    InvNext(s, a);
  }

  lemma {:induction false} InvRun(states: seq<State>, run: seq<Action>, i: nat)
    requires IsRun(states, run) && Inv(states[0]) && i < |states|
    ensures Inv(states[i])
  {
    if i > 0 {
      InvRun(states, run, i - 1);
      InvStep(states[i - 1], run[i - 1], states[i]);
    }
  }

  /** On every interleaving, every call of Wait that has returned kept its promise, the
      accounting is exact, and a sleeping master has a worker that still holds a batch. */
  lemma EveryRun(workers: nat, nBatchSize: nat, states: seq<State>, run: seq<Action>, i: nat)
    requires IsRun(states, run) && states[0] == Init(workers, nBatchSize) && i < |states|
    ensures var s := states[i];
      && (forall r :: 0 <= r < |s.rounds| ==> RoundOk(s.rounds[r]))
      && s.nTodo == |s.queue| + Sum(Pending, s.threads)
      && (forall j :: Conserved(s, j))
      && |s.threads| > 0
      && (s.threads[0].Asleep? ==> exists t :: 0 < t < |s.threads| && s.threads[t].Working?)
  {
    InitInv(workers, nBatchSize);
    InvRun(states, run, i);
    if states[i].threads[0].Asleep? {
      var t := SleepingMasterHasWorker(states[i]);
    }
  }

  lemma SleepingMasterHasWorker(s: State) returns (t: nat)
    requires Inv(s) && s.threads[0].Asleep?
    ensures 0 < t < |s.threads| && s.threads[t].Working?
  {
    t := SumPositive(Pending, s.threads);
  }

  // ----- Wait always returns -----

  /** Work still to be done by the threads, in steps. */
  function Rank(m: Mode): int {
    match m
    case Outside => 2
    case Entering => 1
    case Asleep => 0
    case Awake => 1
    case Deciding => 1
    case Working(_, todo, _) => |todo| + 2
  }

  function Measure(s: State): int {
    3 * |s.queue| + Sum(Rank, s.threads)
  }

  /** The master, which is thread 0, has called Wait and not returned. */
  ghost predicate InWait(s: State) {
    |s.threads| > 0 && !s.threads[0].Outside?
  }

  /** Between two steps no thread is inside a critical section. */
  ghost predicate Unlocked(s: State) {
    forall t :: 0 <= t < |s.threads| ==> !s.threads[t].Deciding?
  }

  lemma UnlockedLock(s: State, t: nat)
    requires Unlocked(s) && Counted(s) && Enabled(s, Lock(t))
    ensures Unlocked(Next(s, Lock(t)))
  {
    CountedCleanUp(s, t);
    var c := CleanUp(s, t);
    CleanUpOthers(s, t);
    hide CleanUp, Counted;
    LoopTopUnlocks(c, t);
  }

  lemma CleanUpOthers(s: State, t: nat)
    requires t < |s.threads| && AtLock(s.threads[t])
    ensures var c := CleanUp(s, t); forall u :: 0 <= u < |s.threads| && u != t ==>
      c.threads[u] == s.threads[u] || c.threads[u].Awake?
  {
  }

  lemma LoopTopUnlocks(s: State, t: nat)
    requires t < |s.threads| && s.nTotal >= 0 && s.nIdle >= 0 && s.threads[t].Deciding?
    requires forall u :: 0 <= u < |s.threads| && u != t ==> !s.threads[u].Deciding?
    ensures Unlocked(LoopTop(s, t))
  {
    hide Reverse;
    var m := LoopTop(s, t).threads[t];
    assert LoopTop(s, t).threads == s.threads[t := m];
  }

  lemma UnlockedStep(s: State, a: Action, n: State)
    requires Unlocked(s) && Step(s, a, n)
    ensures Unlocked(n)
  {
    if a.Lock? {
      UnlockedLock(s, a.t);
    }
  }

  lemma {:induction false} UnlockedRun(states: seq<State>, run: seq<Action>, i: nat)
    requires IsRun(states, run) && Unlocked(states[0]) && i < |states|
    ensures Unlocked(states[i])
  {
    if i > 0 {
      UnlockedRun(states, run, i - 1);
      assert Step(states[i - 1], run[i - 1], states[i]);
      UnlockedStep(states[i - 1], run[i - 1], states[i]);
    }
  }

  /** On every interleaving, while the master is in Wait, some thread in Loop can take its mutex or run a
      check... */
  lemma NeverStuck(workers: nat, nBatchSize: nat, states: seq<State>, run: seq<Action>, i: nat) returns (a: Action)
    requires IsRun(states, run) && states[0] == Init(workers, nBatchSize) && i < |states|
    requires InWait(states[i])
    ensures Enabled(states[i], a) && (a.Lock? || a.Run?)
  {
    InitInv(workers, nBatchSize);
    InvRun(states, run, i);
    UnlockedRun(states, run, i);
    var t := 0;
    if states[i].threads[0].Asleep? {
      t := SleepingMasterHasWorker(states[i]);
    }
    a := if AtLock(states[i].threads[t]) then Lock(t) else Run(t, true);
  }

  /** ... and every such step brings the return nearer, whatever the schedule. */
  lemma Progress(s: State, a: Action, n: State)
    requires Step(s, a, n) && !a.Spurious? && !s.threads[0].Outside?
    ensures n.threads[0].Outside? || Measure(n) < Measure(s)
  {
    match a
    case Start(t) => SumPut(Rank, s.threads, t, Entering);
    case Run(t, passed) => RankRun(s, t, passed);
    case Lock(t) => RankLock(s, t);
  }

  lemma RankRun(s: State, t: nat, passed: bool)
    requires t < |s.threads| && s.threads[t].Working? && s.threads[t].todo != []
    ensures Measure(RunOne(s, t, passed)) < Measure(s)
  {
    SumPut(Rank, s.threads, t, RunOne(s, t, passed).threads[t]);
  }

  lemma RankLock(s: State, t: nat)
    requires Counted(s) && Enabled(s, Lock(t))
    ensures Next(s, Lock(t)).threads[0].Outside? || Measure(Next(s, Lock(t))) < Measure(s)
  {
    CountedCleanUp(s, t);
    RankCleanUp(s, t);
    RankLoopTop(CleanUp(s, t), t);
  }

  lemma RankCleanUp(s: State, t: nat)
    requires t < |s.threads| && AtLock(s.threads[t])
    ensures Measure(CleanUp(s, t)) <= Measure(s)
  {
    SumPut(Rank, s.threads, t, Deciding);
    if s.threads[t].Working? {
      SumPut(Rank, Account(s, t).threads, 0, Awake);
    }
  }

  lemma RankLoopTop(s: State, t: nat)
    requires t < |s.threads| && s.threads[t].Deciding? && s.nTotal >= 0 && s.nIdle >= 0
    ensures LoopTop(s, t).threads[0].Outside? || Measure(LoopTop(s, t)) < Measure(s)
  {
    SumPut(Rank, s.threads, t, LoopTop(s, t).threads[t]);
  }

  lemma StepRounds(s: State, a: Action, n: State)
    requires Step(s, a, n)
    ensures |s.rounds| <= |n.rounds|
    ensures !s.threads[0].Outside? && n.threads[0].Outside? ==> |n.rounds| > |s.rounds|
  {
    if a.Lock? {
      LockRounds(s, a.t);
    }
  }

  lemma LockRounds(s: State, t: nat)
    requires Counted(s) && Enabled(s, Lock(t))
    ensures |s.rounds| <= |Next(s, Lock(t)).rounds|
    ensures !s.threads[0].Outside? && Next(s, Lock(t)).threads[0].Outside? ==> |Next(s, Lock(t)).rounds| > |s.rounds|
  {
    CountedCleanUp(s, t);
    LoopTopRounds(CleanUp(s, t), t);
  }

  lemma LoopTopRounds(s: State, t: nat)
    requires t < |s.threads| && s.threads[t].Deciding? && s.nTotal >= 0 && s.nIdle >= 0
    ensures |s.rounds| <= |LoopTop(s, t).rounds|
    ensures !s.threads[0].Outside? && LoopTop(s, t).threads[0].Outside? ==> |LoopTop(s, t).rounds| > |s.rounds|
  {
  }

  /** A spurious wake-up costs one step more. */
  lemma SpuriousCost(s: State, t: nat)
    requires Counted(s) && Enabled(s, Spurious(t))
    ensures Measure(Next(s, Spurious(t))) == Measure(s) + 1
    ensures Next(s, Spurious(t)).threads[0].Outside? == s.threads[0].Outside?
  {
    SumPut(Rank, s.threads, t, Awake);
  }

  function SpuriousCount(run: seq<Action>, i: nat): nat
    requires i <= |run|
  {
    if i == 0 then 0 else SpuriousCount(run, i - 1) + if run[i - 1].Spurious? then 1 else 0
  }

  lemma {:induction false} SpuriousCountIs(run: seq<Action>, i: nat)
    requires i <= |run|
    ensures SpuriousCount(run, i) == |SpuriousSteps(run, i)|
  {
    if i > 0 {
      SpuriousCountIs(run, i - 1);
      if run[i - 1].Spurious? {
        assert SpuriousSteps(run, i) == SpuriousSteps(run, i - 1) + {i - 1};
      } else {
        assert SpuriousSteps(run, i) == SpuriousSteps(run, i - 1);
      }
    }
  }

  ghost function SpuriousSteps(run: seq<Action>, i: nat): set<nat>
    requires i <= |run|
  {
    set j: nat | j < i && run[j].Spurious?
  }

  lemma MeasureNonNegative(s: State)
    ensures Measure(s) >= 0
  {
    SumNonNegative(Rank, s.threads);
  }

  /** A step ends the round, or costs one unit of the measure, or gives one back when it is a spurious wake-up. */
  lemma StepCost(s: State, a: Action, n: State)
    requires Step(s, a, n)
    ensures |s.threads| > 0 && |n.threads| > 0 && |s.rounds| <= |n.rounds|
    ensures !s.threads[0].Outside? ==>
      || |n.rounds| > |s.rounds|
      || (!n.threads[0].Outside? && Measure(n) <= Measure(s) - 1 + if a.Spurious? then 2 else 0)
  {
    hide Measure;
    StepRounds(s, a, n);
    if !s.threads[0].Outside? {
      if a.Spurious? {
        SpuriousCost(s, a.t);
      } else {
        Progress(s, a, n);
      }
    }
  }

  /** In every schedule, a Wait that has been called returns before the steps of the whole system that are not
      spurious wake-ups outnumber Measure(s) and the spurious wake-ups. */
  lemma {:induction false} WaitReturns(states: seq<State>, run: seq<Action>, i: nat)
    requires IsRun(states, run) && |states[0].threads| > 0 && !states[0].threads[0].Outside?
    requires i < |states|
    ensures |states[i].threads| > 0
    ensures |states[i].rounds| >= |states[0].rounds|
    ensures |states[i].rounds| > |states[0].rounds|
         || (!states[i].threads[0].Outside? && i - 2 * SpuriousCount(run, i) <= Measure(states[0]) - Measure(states[i]))
    ensures i - SpuriousCount(run, i) > Measure(states[0]) + SpuriousCount(run, i) ==>
      |states[i].rounds| > |states[0].rounds|
  {
    hide Next, Enabled, Counted, Measure;
    MeasureNonNegative(states[i]);
    if i > 0 {
      WaitReturns(states, run, i - 1);
      assert Step(states[i - 1], run[i - 1], states[i]);
      StepCost(states[i - 1], run[i - 1], states[i]);
    }
  }
}
