/**
 HostReductionPool (src/score_cmd.cc:921-1050) as a state machine. One step is one critical section of
 the mutex, one atomic claim of a row, or one access to the shared spans outside the mutex, so every
 interleaving of the program's threads is a run. Thread 0 is the caller of Reduce; the others are workers.
 */
module ReductionPool {
  import opened Wrappers

  /** std::size_t arithmetic wraps here. */
  const WORD: nat := 0x1_0000_0000_0000_0000

  datatype Pc =
      // a worker between tasks: about to test the wait condition, or blocked on task_ready_
    | Checking
    | Asleep
      // inside ReduceRows, on any thread
    | Claiming
    | Bounding(index: nat)
    | Scoring(index: nat)
    | Failing(index: nat)
      // a worker about to decrement workers_pending_, or gone
    | Finishing
    | Exited
      // the caller: outside Reduce, about to notify, testing or blocked on task_done_
    | Idle
    | Notifying
    | AwaitCheck
    | AwaitAsleep
      // the caller in StopWorkers
    | StopNotifying
    | Joining
    | Destroyed

  /** What has become of a row of the current task, for the proof only. */
  datatype Mark = Free | Held(holder: nat) | Scored | Lost

  datatype Pool = Pool(
    threads: seq<Pc>,
    observed: seq<nat>,        // observed_generation of each worker
    generation: nat,
    pending: nat,              // workers_pending_
    nextRow: nat,
    rows: nat,                 // scores_.size(): zero once the spans are cleared
    error: bool,               // worker_error_ is set
    stopping: bool,
    returned: Option<bool>,    // the last Reduce returned, and whether with an error
    // history, read by no step
    epoch: nat,                // calls of Reduce so far
    marks: seq<Mark>,
    writes: seq<nat>,          // assignments to each row of scores_ in this task
    served: seq<seq<nat>>)     // the calls each worker has taken part in

  predicate Shaped(s: Pool) {
    |s.threads| > 0 && |s.observed| == |s.threads| == |s.served|
  }

  type State = s: Pool | Shaped(s)
    witness Pool([Idle], [0], 0, 0, 0, 0, false, false, None, 0, [], [], [[]])

  predicate IsWorker(s: State, t: nat) {
    0 < t < |s.threads|
  }

  function Zeros(n: nat): (z: seq<nat>)
    ensures |z| == n && forall r :: 0 <= r < n ==> z[r] == 0
  {
    seq(n, r => 0)
  }

  predicate Init(s: State) {
    && s.threads[0] == Idle
    && (forall t :: 0 < t < |s.threads| ==> s.threads[t] == Checking)
    && s.observed == Zeros(|s.threads|)
    && s.generation == s.pending == s.nextRow == s.rows == s.epoch == 0
    && !s.error && !s.stopping && s.returned == None
    && s.marks == [] && s.writes == []
    && s.served == seq(|s.threads|, t => [])
  }

  datatype Step =
    | Publish(n: nat)
    | NotifyWorkers
    | ClaimRow(t: nat)
    | TestBound(t: nat)
    | ScoreRow(t: nat, throws: bool)
    | RecordError(t: nat)
    | TestDone
    | WakeCaller
    | TestTask(t: nat)
    | WakeWorker(t: nat)
    | FinishTask(t: nat)
    | Stop
    | NotifyStop
    | Join

  predicate Enabled(s: State, step: Step)
  {
    match step
    case Publish(n) => s.threads[0] == Idle
    case NotifyWorkers => s.threads[0] == Notifying
    case ClaimRow(t) => t < |s.threads| && s.threads[t] == Claiming
    case TestBound(t) => t < |s.threads| && s.threads[t].Bounding?
    case ScoreRow(t, throws) => t < |s.threads| && s.threads[t].Scoring? && s.threads[t].index < |s.writes| == |s.marks|
    case RecordError(t) => t < |s.threads| && s.threads[t].Failing?
    case TestDone => s.threads[0] == AwaitCheck
    case WakeCaller => s.threads[0] == AwaitAsleep
    case TestTask(t) => IsWorker(s, t) && s.threads[t] == Checking
    case WakeWorker(t) => IsWorker(s, t) && s.threads[t] == Asleep
    case FinishTask(t) => IsWorker(s, t) && s.threads[t] == Finishing && s.pending > 0
    case Stop => s.threads[0] == Idle
    case NotifyStop => s.threads[0] == StopNotifying
    case Join => s.threads[0] == Joining && forall t :: 0 < t < |s.threads| ==> s.threads[t] == Exited
  }

  /** notify_all on task_ready_. */
  function Roused(threads: seq<Pc>): (woken: seq<Pc>)
    ensures |woken| == |threads|
    ensures forall t :: 0 <= t < |threads| ==> woken[t] == if threads[t] == Asleep then Checking else threads[t]
  {
    seq(|threads|, t requires 0 <= t < |threads| => if threads[t] == Asleep then Checking else threads[t])
  }

  /** Where ReduceRows returns to. */
  function AfterRows(t: nat): Pc {
    if t == 0 then AwaitCheck else Finishing
  }

  function After(s: State, step: Step): State
    requires Enabled(s, step)
  {
    match step
    case Publish(n) =>
      s.(threads := s.threads[0 := Notifying], rows := n, error := false, pending := |s.threads| - 1, nextRow := 0,
         generation := (s.generation + 1) % WORD, returned := None,
         epoch := s.epoch + 1, marks := seq(n, r => Free), writes := Zeros(n))
    case NotifyWorkers =>
      s.(threads := Roused(s.threads)[0 := Claiming])
    case ClaimRow(t) =>
      s.(threads := s.threads[t := Bounding(s.nextRow)], nextRow := s.nextRow + 1,
         marks := if s.nextRow < |s.marks| then s.marks[s.nextRow := Held(t)] else s.marks)
    case TestBound(t) =>
      var index := s.threads[t].index;
      s.(threads := s.threads[t := if index >= s.rows then AfterRows(t) else Scoring(index)])
    case ScoreRow(t, throws) =>
      var index := s.threads[t].index;
      if throws then
        s.(threads := s.threads[t := Failing(index)], marks := s.marks[index := Lost])
      else
        s.(threads := s.threads[t := Claiming], marks := s.marks[index := Scored],
           writes := s.writes[index := s.writes[index] + 1])
    case RecordError(t) =>
      s.(threads := s.threads[t := AfterRows(t)], error := true)
    case TestDone =>
      if s.pending == 0 then
        s.(threads := s.threads[0 := Idle], rows := 0, returned := Some(s.error))
      else
        s.(threads := s.threads[0 := AwaitAsleep])
    case WakeCaller =>
      s.(threads := s.threads[0 := AwaitCheck])
    case TestTask(t) =>
      if s.stopping then s.(threads := s.threads[t := Exited])
      else if s.generation != s.observed[t] then
        s.(threads := s.threads[t := Claiming], observed := s.observed[t := s.generation],
           served := s.served[t := s.served[t] + [s.epoch]])
      else s.(threads := s.threads[t := Asleep])
    case WakeWorker(t) =>
      s.(threads := s.threads[t := Checking])
    case FinishTask(t) =>
      var threads := s.threads[t := Checking];
      s.(pending := s.pending - 1,
         threads := if s.pending == 1 && threads[0] == AwaitAsleep then threads[0 := AwaitCheck] else threads)
    case Stop =>
      s.(threads := s.threads[0 := StopNotifying], stopping := true)
    case NotifyStop =>
      s.(threads := Roused(s.threads)[0 := Joining])
    case Join =>
      s.(threads := s.threads[0 := Destroyed])
  }

  // ----- The invariant

  predicate InRows(pc: Pc) {
    pc.Claiming? || pc.Bounding? || pc.Scoring? || pc.Failing?
  }

  /** A call of Reduce is under way, so the spans are set. */
  predicate Active(s: State)
  {
    InRows(s.threads[0]) || s.threads[0] in {Notifying, AwaitCheck, AwaitAsleep}
  }

  /** A worker whose decrement of workers_pending_ for this call is still to come. */
  predicate Outstanding(s: State, t: nat)
    requires t < |s.threads|
  {
    t > 0 && (s.observed[t] != s.generation || InRows(s.threads[t]) || s.threads[t] == Finishing)
  }

  function Outstandings(s: State): (b: seq<bool>)
    ensures |b| == |s.threads|
  {
    seq(|s.threads|, t requires 0 <= t < |s.threads| => Outstanding(s, t))
  }

  function Count(b: seq<bool>): nat {
    if b == [] then 0 else Count(b[..|b| - 1]) + if b[|b| - 1] then 1 else 0
  }

  /** 1, 2, ..., k. */
  function Calls(k: nat): seq<nat> {
    seq(k, i => i + 1)
  }

  predicate CallerOk(s: State)
  {
    var pc := s.threads[0];
    && (pc.Idle? || Active(s) || pc in {StopNotifying, Joining, Destroyed})
    && s.rows == (if Active(s) then |s.writes| else 0)
    && (s.stopping <==> pc in {StopNotifying, Joining, Destroyed})
    && (pc in {AwaitCheck, AwaitAsleep} ==> s.nextRow >= |s.writes| || s.error)
    && (pc.AwaitAsleep? ==> s.pending > 0)
    && (s.returned.Some? ==> !Active(s))
  }

  predicate WorkerOk(s: State, t: nat)
    requires IsWorker(s, t)
  {
    var pc := s.threads[t];
    && s.observed[t] < WORD
    && (InRows(pc) || pc in {Checking, Asleep, Finishing, Exited})
    && (pc.Exited? ==> s.stopping)
    && (!Active(s) ==> s.observed[t] == s.generation && pc in {Checking, Asleep, Exited})
    // a worker lags by at most one call, and never inside ReduceRows
    && (s.observed[t] != s.generation ==>
          s.epoch > 0 && s.generation == (s.observed[t] + 1) % WORD && pc in {Checking, Asleep})
    && s.served[t] == Calls(if s.observed[t] == s.generation then s.epoch else s.epoch - 1)
    // no wake-up is lost: whoever sleeps through news is about to be notified
    && (pc.Asleep? && s.observed[t] != s.generation ==> s.threads[0] == Notifying)
    && (pc.Asleep? && s.stopping ==> s.threads[0] == StopNotifying)
  }

  predicate ThreadRowsOk(s: State, t: nat)
    requires t < |s.threads|
  {
    match s.threads[t]
    case Bounding(i) => i < s.nextRow && (i < |s.marks| ==> s.marks[i] == Held(t))
    case Scoring(i) => i < |s.marks| && i < s.nextRow && s.marks[i] == Held(t)
    case Failing(i) => i < |s.marks| && s.marks[i] == Lost
    case _ => true
  }

  predicate Holds(pc: Pc, r: nat) {
    (pc.Bounding? || pc.Scoring?) && pc.index == r
  }

  predicate RowOk(s: State, r: nat)
    requires r < |s.marks| == |s.writes|
  {
    && (s.marks[r].Free? <==> r >= s.nextRow)
    && (s.marks[r].Held? ==> s.marks[r].holder < |s.threads| && Holds(s.threads[s.marks[r].holder], r))
    && s.writes[r] == (if s.marks[r].Scored? then 1 else 0)
  }

  /** An error was recorded, or the thread that lost the row is about to record one. */
  ghost predicate LossOk(s: State, r: nat)
    requires r < |s.marks|
  {
    s.marks[r].Lost? ==> s.error || exists t :: 0 <= t < |s.threads| && s.threads[t].Failing?
  }

  ghost predicate Inv(s: State) {
    && |s.marks| == |s.writes|
    && s.generation == s.epoch % WORD
    && CallerOk(s)
    && (forall t :: 0 < t < |s.threads| ==> WorkerOk(s, t))
    && s.pending == Count(Outstandings(s))
    && (forall t :: 0 <= t < |s.threads| ==> ThreadRowsOk(s, t))
    && (forall r :: 0 <= r < |s.marks| ==> RowOk(s, r))
    && (forall r :: 0 <= r < |s.marks| ==> LossOk(s, r))
    && (s.error ==> exists r :: 0 <= r < |s.marks| && s.marks[r].Lost?)
  }

  // ----- Counting

  lemma {:induction false} CountUpdate(b: seq<bool>, i: nat, v: bool)
    requires i < |b|
    ensures Count(b[i := v]) == Count(b) - (if b[i] then 1 else 0) + if v then 1 else 0
  {
    var last := |b| - 1;
    if i < last {
      assert b[i := v][..last] == b[..last][i := v];
      CountUpdate(b[..last], i, v);
    } else {
      assert b[i := v][..last] == b[..last];
    }
  }

  lemma {:induction false} CountNone(b: seq<bool>)
    ensures Count(b) == 0 <==> forall i :: 0 <= i < |b| ==> !b[i]
  {
    if b != [] {
      var last := |b| - 1;
      CountNone(b[..last]);
      assert forall i :: 0 <= i < last ==> b[..last][i] == b[i];
    }
  }

  lemma {:induction false} CountAllButFirst(b: seq<bool>)
    requires b != [] && !b[0] && forall i :: 0 < i < |b| ==> b[i]
    ensures Count(b) == |b| - 1
  {
    if |b| > 1 {
      CountAllButFirst(b[..|b| - 1]);
    } else {
      assert b[..0] == [];
    }
  }

  lemma CallsGrow(k: nat)
    ensures Calls(k) + [k + 1] == Calls(k + 1)
  {
  }

  // ----- Every step keeps the invariant

  lemma InitInv(s: State)
    requires Init(s)
    ensures Inv(s)
  {
    CountNone(Outstandings(s));
  }

  lemma NextGeneration(epoch: nat)
    ensures (epoch % WORD + 1) % WORD == (epoch + 1) % WORD
    ensures (epoch % WORD + 1) % WORD != epoch % WORD
  {
  }

  lemma PublishWorkers(s: State, n: nat)
    requires Inv(s) && Enabled(s, Publish(n))
    ensures var s' := After(s, Publish(n));
            (forall t :: 0 < t < |s.threads| ==> WorkerOk(s', t)) && s'.pending == Count(Outstandings(s'))
  {
    var s' := After(s, Publish(n));
    NextGeneration(s.epoch);
    forall t | 0 < t < |s.threads| ensures WorkerOk(s', t) && Outstandings(s')[t] {
      assert WorkerOk(s, t);
    }
    CountAllButFirst(Outstandings(s'));
  }

  lemma KeepsPublish(s: State, n: nat)
    requires Inv(s) && Enabled(s, Publish(n))
    ensures Inv(After(s, Publish(n)))
  {
    var s' := After(s, Publish(n));
    NextGeneration(s.epoch);
    PublishWorkers(s, n);
    forall t | 0 <= t < |s.threads| ensures ThreadRowsOk(s', t) {
      assert t > 0 ==> WorkerOk(s, t);
    }
  }

  lemma KeepsNotifyWorkers(s: State)
    requires Inv(s) && Enabled(s, NotifyWorkers)
    ensures Inv(After(s, NotifyWorkers))
  {
    var s' := After(s, NotifyWorkers);
    forall t | 0 < t < |s.threads| ensures WorkerOk(s', t) {
      assert WorkerOk(s, t);
    }
    assert Outstandings(s') == Outstandings(s);
    forall t | 0 <= t < |s.threads| ensures ThreadRowsOk(s', t) {
      assert ThreadRowsOk(s, t);
    }
    forall r | 0 <= r < |s.marks| ensures RowOk(s', r) && LossOk(s', r) {
      assert RowOk(s, r) && LossOk(s, r);
      if t :| 0 <= t < |s.threads| && s.threads[t].Failing? {
        assert s'.threads[t].Failing?;
      }
    }
  }

  lemma KeepsClaimRow(s: State, t: nat)
    requires Inv(s) && Enabled(s, ClaimRow(t))
    ensures Inv(After(s, ClaimRow(t)))
  {
    var s' := After(s, ClaimRow(t));
    assert s.nextRow < |s.marks| ==> RowOk(s, s.nextRow) && s.marks[s.nextRow].Free?;
    forall u | 0 < u < |s.threads| ensures WorkerOk(s', u) {
      assert WorkerOk(s, u);
    }
    assert Outstandings(s') == Outstandings(s);
    ClaimRowKeepsRows(s, t);
  }

  lemma ClaimRowKeepsRows(s: State, t: nat)
    requires Inv(s) && Enabled(s, ClaimRow(t))
    ensures var s' := After(s, ClaimRow(t));
            && (forall u :: 0 <= u < |s'.threads| ==> ThreadRowsOk(s', u))
            && (forall r :: 0 <= r < |s'.marks| ==> RowOk(s', r) && LossOk(s', r))
            && (s'.error ==> exists r :: 0 <= r < |s'.marks| && s'.marks[r].Lost?)
  {
    var s' := After(s, ClaimRow(t));
    assert s.nextRow < |s.marks| ==> RowOk(s, s.nextRow) && s.marks[s.nextRow].Free?;
    forall u | 0 <= u < |s.threads| ensures ThreadRowsOk(s', u) {
      assert ThreadRowsOk(s, u);
    }
    forall r | 0 <= r < |s.marks| ensures RowOk(s', r) && LossOk(s', r) {
      assert RowOk(s, r) && LossOk(s, r);
      if u :| 0 <= u < |s.threads| && s.threads[u].Failing? {
        assert s'.threads[u].Failing?;
      }
    }
    if s.error {
      var r :| 0 <= r < |s.marks| && s.marks[r].Lost?;
      assert s'.marks[r].Lost?;
    }
  }

  lemma KeepsTestBound(s: State, t: nat)
    requires Inv(s) && Enabled(s, TestBound(t))
    ensures Inv(After(s, TestBound(t)))
  {
    var s' := After(s, TestBound(t));
    assert ThreadRowsOk(s, t);
    assert t > 0 ==> WorkerOk(s, t);
    assert Active(s);
    forall u | 0 < u < |s.threads| ensures WorkerOk(s', u) {
      assert WorkerOk(s, u);
    }
    assert Outstandings(s') == Outstandings(s);
    forall u | 0 <= u < |s.threads| ensures ThreadRowsOk(s', u) {
      assert ThreadRowsOk(s, u);
    }
    forall r | 0 <= r < |s.marks| ensures RowOk(s', r) && LossOk(s', r) {
      assert RowOk(s, r) && LossOk(s, r);
      if u :| 0 <= u < |s.threads| && s.threads[u].Failing? {
        assert s'.threads[u].Failing?;
      }
    }
  }

  lemma KeepsScoreRow(s: State, t: nat, throws: bool)
    requires Inv(s) && Enabled(s, ScoreRow(t, throws))
    ensures Inv(After(s, ScoreRow(t, throws)))
  {
    var s' := After(s, ScoreRow(t, throws));
    var index := s.threads[t].index;
    assert ThreadRowsOk(s, t) && RowOk(s, index);
    forall u | 0 < u < |s.threads| ensures WorkerOk(s', u) {
      assert WorkerOk(s, u);
    }
    assert Outstandings(s') == Outstandings(s);
    ScoreRowKeepsRows(s, t, throws);
  }

  lemma ScoreRowKeepsRows(s: State, t: nat, throws: bool)
    requires Inv(s) && Enabled(s, ScoreRow(t, throws))
    ensures var s' := After(s, ScoreRow(t, throws));
            && (forall u :: 0 <= u < |s'.threads| ==> ThreadRowsOk(s', u))
            && (forall r :: 0 <= r < |s'.marks| ==> RowOk(s', r) && LossOk(s', r))
            && (s'.error ==> exists r :: 0 <= r < |s'.marks| && s'.marks[r].Lost?)
  {
    var s' := After(s, ScoreRow(t, throws));
    var index := s.threads[t].index;
    assert ThreadRowsOk(s, t) && RowOk(s, index);
    forall u | 0 <= u < |s.threads| ensures ThreadRowsOk(s', u) {
      assert ThreadRowsOk(s, u);
    }
    forall r | 0 <= r < |s.marks| ensures RowOk(s', r) && LossOk(s', r) {
      assert RowOk(s, r) && LossOk(s, r);
      if throws {
        assert s'.threads[t].Failing?;
      } else if u :| 0 <= u < |s.threads| && s.threads[u].Failing? {
        assert s'.threads[u].Failing?;
      }
    }
    if s.error {
      var r :| 0 <= r < |s.marks| && s.marks[r].Lost?;
      assert s'.marks[r].Lost?;
    }
  }

  lemma KeepsRecordError(s: State, t: nat)
    requires Inv(s) && Enabled(s, RecordError(t))
    ensures Inv(After(s, RecordError(t)))
  {
    var s' := After(s, RecordError(t));
    assert ThreadRowsOk(s, t);
    forall u | 0 < u < |s.threads| ensures WorkerOk(s', u) {
      assert WorkerOk(s, u);
    }
    assert Outstandings(s') == Outstandings(s);
    forall u | 0 <= u < |s.threads| ensures ThreadRowsOk(s', u) {
      assert ThreadRowsOk(s, u);
    }
    forall r | 0 <= r < |s.marks| ensures RowOk(s', r) {
      assert RowOk(s, r);
    }
    assert s'.marks[s.threads[t].index].Lost?;
  }

  /** A step that only moves one thread between points outside ReduceRows, leaving who is outstanding alone. */
  lemma KeepsRows(s: State, s': State, t: nat)
    requires Inv(s) && t < |s.threads| && !InRows(s.threads[t])
    requires |s'.threads| == |s.threads| && s'.threads == s.threads[t := s'.threads[t]]
    requires !s'.threads[t].Bounding? && !s'.threads[t].Scoring? && !s'.threads[t].Failing?
    requires s'.marks == s.marks && s'.writes == s.writes && s'.nextRow == s.nextRow && s'.error == s.error
    ensures forall u :: 0 <= u < |s'.threads| ==> ThreadRowsOk(s', u)
    ensures forall r :: 0 <= r < |s'.marks| ==> RowOk(s', r) && LossOk(s', r)
  {
    forall u | 0 <= u < |s.threads| ensures ThreadRowsOk(s', u) {
      assert ThreadRowsOk(s, u);
    }
    forall r | 0 <= r < |s.marks| ensures RowOk(s', r) && LossOk(s', r) {
      assert RowOk(s, r) && LossOk(s, r);
      if u :| 0 <= u < |s.threads| && s.threads[u].Failing? {
        assert s'.threads[u].Failing?;
      }
    }
  }

  /** Once no decrement is outstanding every worker is between tasks. */
  lemma NoneOutstanding(s: State)
    requires Inv(s) && s.pending == 0
    ensures forall t :: 0 < t < |s.threads| ==>
              s.observed[t] == s.generation && s.threads[t] in {Checking, Asleep, Exited}
  {
    CountNone(Outstandings(s));
    forall t | 0 < t < |s.threads|
      ensures s.observed[t] == s.generation && s.threads[t] in {Checking, Asleep, Exited}
    {
      assert WorkerOk(s, t) && !Outstandings(s)[t];
    }
  }

  lemma KeepsTestDone(s: State)
    requires Inv(s) && Enabled(s, TestDone)
    ensures Inv(After(s, TestDone))
  {
    var s' := After(s, TestDone);
    KeepsRows(s, s', 0);
    if s.pending == 0 {
      NoneOutstanding(s);
    }
    forall u | 0 < u < |s.threads| ensures WorkerOk(s', u) {
      assert WorkerOk(s, u);
    }
    assert Outstandings(s') == Outstandings(s);
  }

  lemma KeepsWakeCaller(s: State)
    requires Inv(s) && Enabled(s, WakeCaller)
    ensures Inv(After(s, WakeCaller))
  {
    var s' := After(s, WakeCaller);
    KeepsRows(s, s', 0);
    forall u | 0 < u < |s.threads| ensures WorkerOk(s', u) {
      assert WorkerOk(s, u);
    }
    assert Outstandings(s') == Outstandings(s);
  }

  lemma KeepsTestTask(s: State, t: nat)
    requires Inv(s) && Enabled(s, TestTask(t))
    ensures Inv(After(s, TestTask(t)))
  {
    var s' := After(s, TestTask(t));
    assert WorkerOk(s, t);
    KeepsRows(s, s', t);
    forall u | 0 < u < |s.threads| ensures WorkerOk(s', u) {
      TestTaskWorker(s, t, u);
    }
    assert Outstandings(s') == Outstandings(s);
  }

  lemma TestTaskWorker(s: State, t: nat, u: nat)
    requires Inv(s) && Enabled(s, TestTask(t)) && IsWorker(s, u)
    ensures WorkerOk(After(s, TestTask(t)), u)
  {
    assert WorkerOk(s, t) && WorkerOk(s, u);
    CallsGrow(if s.epoch > 0 then s.epoch - 1 else 0);
  }

  lemma KeepsWakeWorker(s: State, t: nat)
    requires Inv(s) && Enabled(s, WakeWorker(t))
    ensures Inv(After(s, WakeWorker(t)))
  {
    var s' := After(s, WakeWorker(t));
    KeepsRows(s, s', t);
    forall u | 0 < u < |s.threads| ensures WorkerOk(s', u) {
      assert WorkerOk(s, u);
    }
    assert Outstandings(s') == Outstandings(s);
  }

  lemma FinishTaskRows(s: State, t: nat)
    requires Inv(s) && Enabled(s, FinishTask(t))
    ensures var s' := After(s, FinishTask(t));
            && (forall u :: 0 <= u < |s.threads| ==> ThreadRowsOk(s', u))
            && (forall r :: 0 <= r < |s.marks| ==> RowOk(s', r) && LossOk(s', r))
  {
    var s' := After(s, FinishTask(t));
    forall u | 0 <= u < |s.threads| ensures ThreadRowsOk(s', u) {
      assert ThreadRowsOk(s, u);
    }
    forall r | 0 <= r < |s.marks| ensures RowOk(s', r) && LossOk(s', r) {
      assert RowOk(s, r) && LossOk(s, r);
      if u :| 0 <= u < |s.threads| && s.threads[u].Failing? {
        assert s'.threads[u].Failing?;
      }
    }
  }

  lemma KeepsFinishTask(s: State, t: nat)
    requires Inv(s) && Enabled(s, FinishTask(t))
    ensures Inv(After(s, FinishTask(t)))
  {
    var s' := After(s, FinishTask(t));
    FinishTaskRows(s, t);
    assert WorkerOk(s, t);
    forall u | 0 < u < |s.threads| ensures WorkerOk(s', u) {
      assert WorkerOk(s, u);
    }
    CountUpdate(Outstandings(s), t, false);
    assert Outstandings(s') == Outstandings(s)[t := false];
  }

  lemma KeepsStop(s: State)
    requires Inv(s) && Enabled(s, Stop)
    ensures Inv(After(s, Stop))
  {
    var s' := After(s, Stop);
    KeepsRows(s, s', 0);
    forall u | 0 < u < |s.threads| ensures WorkerOk(s', u) {
      assert WorkerOk(s, u);
    }
    assert Outstandings(s') == Outstandings(s);
  }

  lemma KeepsNotifyStop(s: State)
    requires Inv(s) && Enabled(s, NotifyStop)
    ensures Inv(After(s, NotifyStop))
  {
    var s' := After(s, NotifyStop);
    forall t | 0 < t < |s.threads| ensures WorkerOk(s', t) {
      assert WorkerOk(s, t);
    }
    assert Outstandings(s') == Outstandings(s);
    forall t | 0 <= t < |s.threads| ensures ThreadRowsOk(s', t) {
      assert ThreadRowsOk(s, t);
    }
    forall r | 0 <= r < |s.marks| ensures RowOk(s', r) && LossOk(s', r) {
      assert RowOk(s, r) && LossOk(s, r);
      if t :| 0 <= t < |s.threads| && s.threads[t].Failing? {
        assert s'.threads[t].Failing?;
      }
    }
  }

  lemma KeepsJoin(s: State)
    requires Inv(s) && Enabled(s, Join)
    ensures Inv(After(s, Join))
  {
    var s' := After(s, Join);
    KeepsRows(s, s', 0);
    forall u | 0 < u < |s.threads| ensures WorkerOk(s', u) {
      assert WorkerOk(s, u);
    }
    assert Outstandings(s') == Outstandings(s);
  }

  lemma Keeps(s: State, step: Step)
    requires Inv(s) && Enabled(s, step)
    ensures Inv(After(s, step))
  {
    match step
    case Publish(n) => KeepsPublish(s, n);
    case NotifyWorkers => KeepsNotifyWorkers(s);
    case ClaimRow(t) => KeepsClaimRow(s, t);
    case TestBound(t) => KeepsTestBound(s, t);
    case ScoreRow(t, throws) => KeepsScoreRow(s, t, throws);
    case RecordError(t) => KeepsRecordError(s, t);
    case TestDone => KeepsTestDone(s);
    case WakeCaller => KeepsWakeCaller(s);
    case TestTask(t) => KeepsTestTask(s, t);
    case WakeWorker(t) => KeepsWakeWorker(s, t);
    case FinishTask(t) => KeepsFinishTask(s, t);
    case Stop => KeepsStop(s);
    case NotifyStop => KeepsNotifyStop(s);
    case Join => KeepsJoin(s);
  }

  // ----- Runs

  /** The states of a run: it starts fresh, and each state follows from the one before by some step. */
  ghost predicate Run(states: seq<State>, steps: seq<Step>) {
    && |states| == |steps| + 1 && Init(states[0])
    && forall i :: 0 <= i < |steps| ==> StepsTo(states[i], steps[i], states[i + 1])
  }

  ghost predicate StepsTo(s: State, step: Step, s': State) {
    Enabled(s, step) && s' == After(s, step)
  }

  lemma {:induction false} RunInv(states: seq<State>, steps: seq<Step>, i: nat)
    requires Run(states, steps) && i < |states|
    ensures Inv(states[i])
  {
    if i == 0 {
      InitInv(states[0]);
    } else {
      RunInv(states, steps, i - 1);
      StepKeeps(states[i - 1], steps[i - 1], states[i]);
    }
  }

  lemma StepKeeps(s: State, step: Step, s': State)
    requires Inv(s) && StepsTo(s, step, s')
    ensures Inv(s')
  {
    Keeps(s, step);
  }

  /** The step by which Reduce returns. */
  predicate Returns(s: State, step: Step) {
    step == TestDone && s.pending == 0
  }

  /** Step j is the last call of Reduce before state i, on n rows. */
  ghost predicate CalledAt(steps: seq<Step>, j: nat, n: nat, i: nat) {
    j < i <= |steps| && steps[j] == Publish(n) && forall k :: j < k < i ==> !steps[k].Publish?
  }

  lemma KeepsRowCount(s: State, step: Step)
    requires Enabled(s, step) && !step.Publish?
    ensures |After(s, step).writes| == |s.writes|
    ensures Active(After(s, step)) ==> Active(s)
  {
  }

  /** A call's task has the rows it was called on until the next call. */
  lemma {:induction false} TaskHasRows(states: seq<State>, steps: seq<Step>, j: nat, n: nat, i: nat)
    requires Run(states, steps) && CalledAt(steps, j, n, i)
    ensures |states[i].writes| == n
    decreases i
  {
    assert StepsTo(states[i - 1], steps[i - 1], states[i]);
    if j < i - 1 {
      TaskHasRows(states, steps, j, n, i - 1);
      KeepsRowCount(states[i - 1], steps[i - 1]);
    }
  }

  /** While Reduce is under way, and so when it returns, there is the call of it. */
  lemma {:induction false} CallOf(states: seq<State>, steps: seq<Step>, i: nat) returns (j: nat, n: nat)
    requires Run(states, steps) && i < |states| && Active(states[i])
    ensures CalledAt(steps, j, n, i)
    decreases i
  {
    ActiveBefore(states, steps, i);
    if steps[i - 1].Publish? {
      j, n := i - 1, steps[i - 1].n;
    } else {
      j, n := CallOf(states, steps, i - 1);
    }
  }

  lemma ActiveBefore(states: seq<State>, steps: seq<Step>, i: nat)
    requires Run(states, steps) && i < |states| && Active(states[i])
    ensures i > 0 && (steps[i - 1].Publish? || Active(states[i - 1]))
  {
    if i > 0 && !steps[i - 1].Publish? {
      assert StepsTo(states[i - 1], steps[i - 1], states[i]);
      KeepsRowCount(states[i - 1], steps[i - 1]);
    }
  }

  /**
   In every run, a Reduce on n rows that returns without error has had each of rows 0 to n - 1 assigned exactly once,
   and one that returns with an error has left some row unassigned; no row is ever assigned twice.
   */
  lemma ReduceScoresEachRowOnce(states: seq<State>, steps: seq<Step>, j: nat, n: nat, i: nat)
    requires Run(states, steps) && i < |steps| && CalledAt(steps, j, n, i) && Returns(states[i], steps[i])
    ensures |states[i].writes| == n
    ensures states[i + 1].returned == Some(states[i].error)
    ensures !states[i].error <==> forall r :: 0 <= r < n ==> states[i].writes[r] == 1
    ensures forall r :: 0 <= r < n ==> states[i].writes[r] <= 1
    ensures Enabled(states[i + 1], Stop) && forall m :: Enabled(states[i + 1], Publish(m))
  {
    TaskHasRows(states, steps, j, n, i);
    RunInv(states, steps, i);
    assert StepsTo(states[i], steps[i], states[i + 1]);
    var s := states[i];
    NoneOutstanding(s);
    forall r | 0 <= r < |s.writes|
      ensures s.writes[r] == if s.marks[r].Scored? then 1 else 0
      ensures !s.error ==> s.marks[r].Scored?
    {
      assert RowOk(s, r) && LossOk(s, r);
      assert !s.marks[r].Held?;
    }
    if s.error {
      var r :| 0 <= r < |s.marks| && s.marks[r].Lost?;
      assert s.writes[r] == 0;
    }
  }

  /** Whenever the spans are cleared, no worker is inside ReduceRows, where they are read and written. */
  lemma NoWorkerTouchesClearedSpans(states: seq<State>, steps: seq<Step>, i: nat, t: nat)
    requires Run(states, steps) && i < |states| && IsWorker(states[i], t)
    requires !Active(states[i])
    ensures !InRows(states[i].threads[t])
  {
    RunInv(states, steps, i);
    assert WorkerOk(states[i], t);
  }

  /** The row a thread assigns lies inside the spans published for this very call. */
  lemma AssignsInsideSpans(states: seq<State>, steps: seq<Step>, i: nat)
    requires Run(states, steps) && i < |steps| && steps[i].ScoreRow?
    requires StepsTo(states[i], steps[i], states[i + 1])
    ensures var s, t := states[i], steps[i].t;
            && s.threads[t].index < s.rows == |s.writes|
            && (t > 0 ==> s.observed[t] == s.generation)
            && forall u :: 0 <= u < |s.threads| && u != t ==> !Holds(s.threads[u], s.threads[t].index)
  {
    RunInv(states, steps, i);
    var s, t := states[i], steps[i].t;
    assert ThreadRowsOk(s, t);
    assert t > 0 ==> WorkerOk(s, t);
    forall u | 0 <= u < |s.threads| && u != t ensures !Holds(s.threads[u], s.threads[t].index) {
      assert ThreadRowsOk(s, u);
    }
  }

  /** The calls of Reduce among the first i steps. */
  function CallCount(steps: seq<Step>, i: nat): nat
    requires i <= |steps|
  {
    if i == 0 then 0 else CallCount(steps, i - 1) + if steps[i - 1].Publish? then 1 else 0
  }

  lemma CallsCounted(states: seq<State>, steps: seq<Step>, i: nat)
    requires Run(states, steps) && i < |states|
    ensures states[i].epoch == CallCount(steps, i)
  {
    forall k | 0 < k < |states| ensures EpochFollows(states, steps, k) {
      KeepsEpoch(states, steps, k);
    }
    EpochsCount(states, steps, i);
  }

  predicate EpochFollows(states: seq<State>, steps: seq<Step>, i: nat)
    requires 0 < i < |states| <= |steps| + 1
  {
    states[i].epoch == states[i - 1].epoch + if steps[i - 1].Publish? then 1 else 0
  }

  lemma {:induction false} EpochsCount(states: seq<State>, steps: seq<Step>, i: nat)
    requires i < |states| <= |steps| + 1 && states[0].epoch == 0
    requires forall k :: 0 < k < |states| ==> EpochFollows(states, steps, k)
    ensures states[i].epoch == CallCount(steps, i)
  {
    if i > 0 {
      EpochsCount(states, steps, i - 1);
      assert EpochFollows(states, steps, i);
    }
  }

  lemma KeepsEpoch(states: seq<State>, steps: seq<Step>, i: nat)
    requires Run(states, steps) && 0 < i < |states|
    ensures EpochFollows(states, steps, i)
  {
    assert StepsTo(states[i - 1], steps[i - 1], states[i]);
  }

  /** When Reduce returns, every worker has taken part in calls 1, 2, ..., up to this one, each exactly once. */
  lemma EveryWorkerServesEveryCall(states: seq<State>, steps: seq<Step>, i: nat, t: nat)
    requires Run(states, steps) && i < |steps| && Returns(states[i], steps[i]) && IsWorker(states[i], t)
    ensures states[i].served[t] == Calls(CallCount(steps, i))
  {
    RunInv(states, steps, i);
    CallsCounted(states, steps, i);
    NoneOutstanding(states[i]);
    assert WorkerOk(states[i], t);
  }

  // ----- Progress

  /** The caller can only wait for the workers. */
  predicate Waiting(s: State)
  {
    s.threads[0] in {AwaitCheck, AwaitAsleep} && s.pending > 0
  }

  /** The call still needs the thread: a worker is outstanding, or the caller is not yet waiting. */
  predicate Needed(s: State, t: nat)
    requires t < |s.threads|
  {
    if t == 0 then s.threads[0].Notifying? || InRows(s.threads[0]) else Outstanding(s, t)
  }

  /** How far a thread is from its decrement or from waiting, counting one row at most. */
  function Distance(s: State, t: nat): nat
    requires t < |s.threads|
  {
    if !Needed(s, t) then 0
    else match s.threads[t]
      case Finishing => 1
      case Failing(_) => 2
      case Bounding(i) => if i >= s.rows then 2 else 5
      case Claiming => 3
      case Scoring(_) => 4
      case Asleep => 7
      case _ => 6
  }

  function Distances(s: State): (d: seq<nat>)
    ensures |d| == |s.threads|
  {
    seq(|s.threads|, t requires 0 <= t < |s.threads| => Distance(s, t))
  }

  function Sum(d: seq<nat>): nat {
    if d == [] then 0 else Sum(d[..|d| - 1]) + d[|d| - 1]
  }

  lemma {:induction false} SumUpdate(d: seq<nat>, i: nat, v: nat)
    requires i < |d|
    ensures Sum(d[i := v]) == Sum(d) - d[i] + v
  {
    var last := |d| - 1;
    if i < last {
      assert d[i := v][..last] == d[..last][i := v];
      SumUpdate(d[..last], i, v);
    } else {
      assert d[i := v][..last] == d[..last];
    }
  }

  /** The work left before Reduce can return: unclaimed rows, and the threads' distances. */
  function Work(s: State): nat
  {
    3 * (if s.nextRow < s.rows then s.rows - s.nextRow else 0) + Sum(Distances(s))
  }

  /** The step a needed thread takes next. */
  function NextStep(s: State, t: nat): Step
    requires t < |s.threads|
  {
    match s.threads[t]
    case Claiming => ClaimRow(t)
    case Bounding(_) => TestBound(t)
    case Scoring(_) => ScoreRow(t, false)
    case Failing(_) => RecordError(t)
    case Finishing => FinishTask(t)
    case Notifying => NotifyWorkers
    case _ => TestTask(t)
  }

  function Actor(step: Step): nat {
    match step
    case ClaimRow(t) => t
    case TestBound(t) => t
    case ScoreRow(t, _) => t
    case RecordError(t) => t
    case TestTask(t) => t
    case WakeWorker(t) => t
    case FinishTask(t) => t
    case _ => 0
  }

  /** While Reduce waits, some worker is outstanding, and every outstanding worker can take a step. */
  lemma SomeWorkerCanMove(s: State)
    requires Inv(s) && Waiting(s)
    ensures exists t :: 0 < t < |s.threads| && Outstanding(s, t)
    ensures forall t :: 0 < t < |s.threads| && Outstanding(s, t) ==> Enabled(s, NextStep(s, t))
  {
    CountNone(Outstandings(s));
    var t :| 0 <= t < |s.threads| && Outstandings(s)[t];
    assert 0 < t && Outstanding(s, t);
    forall u | 0 < u < |s.threads| && Outstanding(s, u) ensures Enabled(s, NextStep(s, u)) {
      assert WorkerOk(s, u) && ThreadRowsOk(s, u);
    }
  }

  /**
   While Reduce is under way, it returns with the next step or some thread that it needs can take its next step: no
   interleaving leaves it stuck.
   */
  lemma NeverStuck(s: State)
    requires Inv(s) && Active(s)
    ensures || (s.threads[0] == AwaitCheck && s.pending == 0)
            || exists t :: 0 <= t < |s.threads| && Needed(s, t) && Enabled(s, NextStep(s, t))
  {
    assert ThreadRowsOk(s, 0);
    if Waiting(s) {
      SomeWorkerCanMove(s);
      var t :| 0 < t < |s.threads| && Outstanding(s, t);
      assert Needed(s, t);
    } else if Needed(s, 0) {
      assert Enabled(s, NextStep(s, 0));
    }
  }

  /** A worker's step changes no distance but its own, and that pays for the row it claims. */
  lemma WorkerStep(s: State, step: Step)
    requires Inv(s) && Active(s) && Enabled(s, step) && Actor(step) > 0
    ensures var s', t := After(s, step), Actor(step);
            && t < |s.threads|
            && Distances(s') == Distances(s)[t := Distance(s', t)]
            && s'.rows == s.rows
            && var claimed := s'.nextRow - s.nextRow;
              && 0 <= claimed <= 1 && (claimed == 1 ==> s.nextRow < s.rows || Distance(s', t) < Distance(s, t))
              && (Needed(s, t) ==>
                    Distance(s', t) < Distance(s, t) + if claimed == 1 && s.nextRow < s.rows then 3 else 0)
              && (!Needed(s, t) ==> claimed == 0 && Distance(s', t) == 0)
  {
    var s', t := After(s, step), Actor(step);
    assert WorkerOk(s, t) && ThreadRowsOk(s, t);
    OthersStay(s, step);
  }

  lemma OthersStay(s: State, step: Step)
    requires Inv(s) && Active(s) && Enabled(s, step) && Actor(step) > 0
    ensures forall u :: 0 <= u < |s.threads| && u != Actor(step) ==> Distance(After(s, step), u) == Distance(s, u)
  {
  }

  /**
   While Reduce is under way, each step of a thread that it needs brings the return closer, whatever row it claims and
   whether or not the row throws, and nobody else's step moves it away.
   */
  lemma StepsMakeProgress(s: State, step: Step)
    requires Inv(s) && Active(s) && Enabled(s, step) && !Returns(s, step)
    ensures Work(After(s, step)) <= Work(s)
    ensures Needed(s, Actor(step)) ==> Work(After(s, step)) < Work(s)
  {
    var s', t := After(s, step), Actor(step);
    if step == NotifyWorkers {
      NotifyStep(s);
    } else if t == 0 {
      CallerStep(s, step);
      SumUpdate(Distances(s), 0, Distance(s', 0));
    } else {
      WorkerStep(s, step);
      SumUpdate(Distances(s), t, Distance(s', t));
    }
  }

  lemma CallerStep(s: State, step: Step)
    requires Inv(s) && Active(s) && Enabled(s, step) && Actor(step) == 0 && !Returns(s, step) && step != NotifyWorkers
    ensures var s' := After(s, step);
            && Distances(s') == Distances(s)[0 := Distance(s', 0)]
            && s'.rows == s.rows
            && var claimed := s'.nextRow - s.nextRow;
              && 0 <= claimed <= 1
              && if Needed(s, 0) then Distance(s', 0) < Distance(s, 0) + (if claimed == 1 && s.nextRow < s.rows then 3 else 0)
                 else claimed == 0 && Distance(s', 0) == 0
  {
    var s' := After(s, step);
    assert ThreadRowsOk(s, 0);
    assert forall u :: 0 < u < |s.threads| ==> Distance(s', u) == Distance(s, u);
  }

  /** Notifying wakes sleepers, which moves nobody away. */
  lemma NotifyStep(s: State)
    requires Inv(s) && Enabled(s, NotifyWorkers)
    ensures Work(After(s, NotifyWorkers)) < Work(s)
  {
    var s' := After(s, NotifyWorkers);
    forall u | 0 < u < |s.threads| ensures Distance(s', u) <= Distance(s, u) {
      assert WorkerOk(s, u);
    }
    SumSmaller(Distances(s'), Distances(s));
  }

  lemma {:induction false} SumSmaller(a: seq<nat>, b: seq<nat>)
    requires |a| == |b| > 0 && a[0] < b[0] && forall i :: 0 < i < |a| ==> a[i] <= b[i]
    ensures Sum(a) < Sum(b)
  {
    var last := |a| - 1;
    if last > 0 {
      SumSmaller(a[..last], b[..last]);
    } else {
      assert Sum(a) == Sum([]) + a[0] && Sum(b) == Sum([]) + b[0];
    }
  }

  /** After StopWorkers has notified, every worker that is still there can only leave, so all joins end. */
  lemma StoppedWorkersLeave(states: seq<State>, steps: seq<Step>, i: nat, t: nat)
    requires Run(states, steps) && i < |states| && IsWorker(states[i], t)
    requires states[i].threads[0] == Joining && states[i].threads[t] != Exited
    ensures Enabled(states[i], TestTask(t)) && After(states[i], TestTask(t)).threads[t] == Exited
  {
    RunInv(states, steps, i);
    assert WorkerOk(states[i], t);
  }
}
