/**
 * The restore scheduler as a step system: one pusher, `jobs` workers, a channel of capacity `jobs`
 * and a shared set of restored dump ids (restore.go:152-167, 555-583, 741-888).
 */
module RestoreScheduler {
  import opened FkGraph
  import opened RestoreList

  datatype Options = Options(inOrder: bool, jobs: nat, filtered: set<nat>, noBlobs: bool, noPrivileges: bool)

  /** `entries` is the pusher's list; a task is named by its index in it. */
  datatype Config = Config(entries: seq<TocEntry>, deps: map<nat, seq<nat>>, options: Options) {
    predicate NeedRestore(i: nat)
      requires i < |entries|
    {
      (entries[i].desc.TableData? || entries[i].desc.SequenceSet?) ==> entries[i].dumpId !in options.filtered
    }

    predicate HasTask(i: nat)
      requires i < |entries|
    {
      match entries[i].desc
      case TableData => true
      case SequenceSet => true
      case Blobs => !options.noBlobs
      case Acl => !options.noPrivileges
      case OtherDescription => false
    }

    /** The entry becomes a task. */
    predicate Pushable(i: nat) { i < |entries| && NeedRestore(i) && HasTask(i) }

    /** The pusher polls for dependencies only with several workers. */
    predicate Waits() { options.inOrder && options.jobs > 1 }

    function DepsOf(i: nat): seq<nat>
      requires i < |entries|
    {
      if entries[i].dumpId in deps then deps[entries[i].dumpId] else []
    }
  }

  datatype Stage = Looping | Polling | Ready | Closed

  datatype Worker = Idle | Holding(task: nat) | Executing(task: nat) | Executed(task: nat) | Exited {
    predicate Owns(i: nat) { (Holding? || Executing? || Executed?) && task == i }
    predicate Began(i: nat) { (Executing? || Executed?) && task == i }
  }

  /** `started`, `completed`, `put` and `failed` are the history of the tasks. */
  datatype State = State(
    stage: Stage, next: nat, chan: seq<nat>, workers: seq<Worker>, restored: set<nat>, cancelled: bool,
    started: seq<nat>, completed: set<nat>, put: set<nat>, failed: set<nat>)

  datatype Step =
    | Skip | Take | PollBusy | PollDone | Drop | Send | Close | PushFail | PusherCancel | Interrupt
    | Receive(w: nat) | Exit(w: nat) | Start(w: nat) | Finish(w: nat) | Put(w: nat) | Fail(w: nat)
    | WorkerCancel(w: nat)
  {
    /** Neither a failed poll nor a failure, nor a cancellation from outside. */
    predicate IsForward() { !PollBusy? && !Fail? && !PushFail? && !Interrupt? }
  }

  function Init(c: Config): State {
    State(Looping, 0, [], seq(c.options.jobs, _ => Idle), {}, false, [], {}, {}, {})
  }

  predicate DepsRestored(c: Config, s: State, i: nat)
    requires i < |c.entries|
  {
    forall d :: d in c.DepsOf(i) ==> d in s.restored
  }

  predicate Enabled(c: Config, s: State, step: Step) {
    match step
    case Skip => s.stage.Looping? && s.next < |c.entries| && !c.NeedRestore(s.next)
    case Take => s.stage.Looping? && s.next < |c.entries| && c.NeedRestore(s.next)
    case PollBusy => s.stage.Polling? && s.next < |c.entries| && !DepsRestored(c, s, s.next)
    case PollDone => s.stage.Polling? && s.next < |c.entries| && DepsRestored(c, s, s.next)
    case Drop => s.stage.Ready? && s.next < |c.entries| && !c.HasTask(s.next)
    case Send => s.stage.Ready? && s.next < |c.entries| && c.HasTask(s.next) && |s.chan| < c.options.jobs
    case Close => s.stage.Looping? && s.next == |c.entries|
    case PushFail => s.stage.Ready? && s.next < |c.entries| && c.entries[s.next].desc.TableData?
    case PusherCancel => s.cancelled && !s.stage.Closed?
    case Interrupt => !s.cancelled
    case Receive(w) => w < |s.workers| && s.workers[w].Idle? && s.chan != []
    case Exit(w) => w < |s.workers| && s.workers[w].Idle? && s.chan == [] && s.stage.Closed?
    case Start(w) => w < |s.workers| && s.workers[w].Holding?
    case Finish(w) => w < |s.workers| && s.workers[w].Executing?
    case Put(w) => w < |s.workers| && s.workers[w].Executed? && s.workers[w].task < |c.entries|
    case Fail(w) => w < |s.workers| && s.workers[w].Executing?
    case WorkerCancel(w) => w < |s.workers| && s.workers[w].Idle? && s.cancelled
  }

  function Apply(c: Config, s: State, step: Step): State
    requires Enabled(c, s, step)
  {
    match step
    case Skip => s.(next := s.next + 1)
    case Take => s.(stage := if c.Waits() then Polling else Ready)
    case PollBusy => s
    case PollDone => s.(stage := Ready)
    case Drop => s.(stage := Looping, next := s.next + 1)
    case Send => s.(stage := Looping, next := s.next + 1, chan := s.chan + [s.next])
    case Close => s.(stage := Closed)
    case PushFail => s.(stage := Closed, cancelled := true)
    case PusherCancel => s.(stage := Closed)
    case Interrupt => s.(cancelled := true)
    case Receive(w) => s.(chan := s.chan[1..], workers := s.workers[w := Holding(s.chan[0])])
    case Exit(w) => s.(workers := s.workers[w := Exited])
    case Start(w) => s.(workers := s.workers[w := Executing(s.workers[w].task)],
                        started := s.started + [s.workers[w].task])
    case Finish(w) => s.(workers := s.workers[w := Executed(s.workers[w].task)],
                         completed := s.completed + {s.workers[w].task})
    case Put(w) => s.(workers := s.workers[w := Idle], put := s.put + {s.workers[w].task},
                      restored := s.restored + {c.entries[s.workers[w].task].dumpId})
    case Fail(w) => s.(workers := s.workers[w := Exited], failed := s.failed + {s.workers[w].task}, cancelled := true)
    case WorkerCancel(w) => s.(workers := s.workers[w := Exited])
  }

  // ---------------------------------------------------------------- the invariant

  ghost predicate Held(workers: seq<Worker>, i: nat) {
    exists w :: 0 <= w < |workers| && workers[w].Owns(i)
  }

  ghost predicate Begun(workers: seq<Worker>, i: nat) {
    exists w :: 0 <= w < |workers| && workers[w].Began(i)
  }

  ghost predicate Finished(workers: seq<Worker>, i: nat) {
    exists w :: 0 <= w < |workers| && workers[w] == Executed(i)
  }

  /** No two workers own the same task. */
  ghost predicate SoleOwners(workers: seq<Worker>) {
    forall v, w, i: nat :: 0 <= v < w < |workers| ==> !(workers[v].Owns(i) && workers[w].Owns(i))
  }

  /** Every task that was pushed is in exactly one place. */
  ghost predicate OnePlace(c: Config, s: State) {
    && |s.workers| == c.options.jobs && s.next <= |c.entries|
    && (s.stage.Polling? || s.stage.Ready? ==> s.next < |c.entries| && c.NeedRestore(s.next))
    && (forall i: nat :: (i < s.next && c.Pushable(i)) <==>
         (i in s.chan || Held(s.workers, i) || i in s.put || i in s.failed))
    && (forall p, q :: 0 <= p < q < |s.chan| ==> s.chan[p] < s.chan[q])
    && (forall i :: i in s.chan ==> !Held(s.workers, i) && i !in s.put && i !in s.failed)
    && SoleOwners(s.workers)
    && (forall i: nat :: Held(s.workers, i) ==> i !in s.put && i !in s.failed)
    && s.put !! s.failed
  }

  /** The history agrees with the places. */
  ghost predicate History(c: Config, s: State) {
    && Distinct(s.started)
    && (forall i: nat :: i in s.started <==> (Begun(s.workers, i) || i in s.put || i in s.failed))
    && (forall i: nat :: i in s.completed <==> (i in s.put || Finished(s.workers, i)))
    && (forall i :: i in s.put ==> i < |c.entries| && c.entries[i].dumpId in s.restored)
    && (forall d :: d in s.restored ==> exists i :: i in s.put && i < |c.entries| && c.entries[i].dumpId == d)
  }

  /** With several workers nothing is pushed before its dependencies are restored. */
  ghost predicate Gate(c: Config, s: State) {
    && s.next <= |c.entries| && (s.stage.Polling? ==> c.Waits())
    && (c.Waits() && s.stage.Ready? && s.next < |c.entries| ==> DepsRestored(c, s, s.next))
    && (c.Waits() ==> forall i: nat :: i < s.next && c.Pushable(i) ==> DepsRestored(c, s, i))
  }

  /** With one worker, whatever was received comes after everything pushed earlier is restored. */
  ghost predicate Fifo(c: Config, s: State) {
    c.options.jobs == 1 ==>
      && (s.failed != {} ==> |s.workers| == 1 && s.workers[0].Exited?)
      && forall i: nat, j: nat :: (Held(s.workers, i) || i in s.put || i in s.failed) && j < i && c.Pushable(j) ==>
           j in s.put
  }

  /** Without cancellation workers leave only once the channel is closed and drained. */
  ghost predicate Shutdown(c: Config, s: State) {
    && (s.failed != {} ==> s.cancelled)
    && (!s.cancelled && s.stage.Closed? ==> s.next == |c.entries|)
    && (!s.cancelled ==> forall w :: 0 <= w < |s.workers| && s.workers[w].Exited? ==> s.stage.Closed? && s.chan == [])
  }

  ghost predicate Inv(c: Config, s: State) {
    OnePlace(c, s) && History(c, s) && Gate(c, s) && Fifo(c, s) && Shutdown(c, s)
  }

  lemma InitHolds(c: Config)
    ensures Inv(c, Init(c))
  {
  }

  /** How ownership moves when the single owner of its tasks, worker `w`, changes its state. */
  lemma WorkerMoves(workers: seq<Worker>, w: nat, x: Worker)
    requires w < |workers| && SoleOwners(workers)
    ensures forall i: nat :: Held(workers[w := x], i) <==> x.Owns(i) || (Held(workers, i) && !workers[w].Owns(i))
    ensures forall i: nat :: Begun(workers[w := x], i) <==> x.Began(i) || (Begun(workers, i) && !workers[w].Began(i))
    ensures forall i: nat :: Finished(workers[w := x], i) <==>
                             x == Executed(i) || (Finished(workers, i) && workers[w] != Executed(i))
    ensures (forall i: nat :: x.Owns(i) ==> workers[w].Owns(i) || !Held(workers, i)) ==> SoleOwners(workers[w := x])
  {
    var after := workers[w := x];
    forall i: nat
      ensures Held(after, i) <==> x.Owns(i) || (Held(workers, i) && !workers[w].Owns(i))
      ensures Begun(after, i) <==> x.Began(i) || (Begun(workers, i) && !workers[w].Began(i))
      ensures Finished(after, i) <==> x == Executed(i) || (Finished(workers, i) && workers[w] != Executed(i))
    {
      assert after[w] == x;
      if v :| 0 <= v < |workers| && v != w && workers[v].Owns(i) {
        assert after[v].Owns(i);
      }
      if v :| 0 <= v < |workers| && v != w && workers[v].Began(i) {
        assert after[v].Began(i) && workers[v].Owns(i);
      }
      if v :| 0 <= v < |workers| && v != w && workers[v] == Executed(i) {
        assert after[v] == Executed(i) && workers[v].Owns(i);
      }
    }
    if forall i: nat :: x.Owns(i) ==> workers[w].Owns(i) || !Held(workers, i) {
      forall v, u, i: nat | 0 <= v < u < |after|
        ensures !(after[v].Owns(i) && after[u].Owns(i))
      {
        if v == w && x.Owns(i) && workers[u].Owns(i) {
          assert Held(workers, i);
        }
        if u == w && x.Owns(i) && workers[v].Owns(i) {
          assert Held(workers, i);
        }
      }
    }
  }

  lemma PusherKeeps(c: Config, s: State, step: Step)
    requires Inv(c, s) && Enabled(c, s, step)
    requires step.Skip? || step.Take? || step.PollBusy? || step.PollDone? || step.Drop? || step.Close? ||
             step.PushFail? ||
             step.PusherCancel? || step.Interrupt?
    ensures Inv(c, Apply(c, s, step))
  {
    hide Held, Begun, Finished, SoleOwners;
  }

  lemma SendKeeps(c: Config, s: State)
    requires Inv(c, s) && Enabled(c, s, Send)
    ensures Inv(c, Apply(c, s, Send))
  {
    hide Held, Begun, Finished, SoleOwners;
    var t := Apply(c, s, Send);
    assert s.next !in s.chan && !Held(s.workers, s.next) && s.next !in s.put && s.next !in s.failed;
    assert forall i :: i in t.chan <==> i in s.chan || i == s.next;
    assert forall p :: 0 <= p < |s.chan| ==> s.chan[p] in s.chan;
  }

  lemma ReceiveKeeps(c: Config, s: State, w: nat)
    requires Inv(c, s) && Enabled(c, s, Receive(w))
    ensures Inv(c, Apply(c, s, Receive(w)))
  {
    var t := Apply(c, s, Receive(w));
    var i := s.chan[0];
    assert i in s.chan;
    WorkerMoves(s.workers, w, Holding(i));
    hide Held, Begun, Finished, SoleOwners;
    assert s.chan == [i] + t.chan;
    assert forall k :: k in s.chan <==> k == i || k in t.chan;
    assert i !in t.chan;
    assert OnePlace(c, t);
    assert History(c, t);
    if c.options.jobs == 1 {
      OnlyWorkerIdle(c, s);
      forall j: nat | j < i && c.Pushable(j)
        ensures j in s.put
      {
        assert j < s.next && j !in s.chan;
      }
    }
  }

  /** A lone idle worker owns nothing, and nothing has failed. */
  lemma OnlyWorkerIdle(c: Config, s: State)
    requires Inv(c, s) && c.options.jobs == 1 && s.workers[0].Idle?
    ensures s.failed == {} && forall i: nat :: !Held(s.workers, i)
  {
  }

  lemma StartKeeps(c: Config, s: State, w: nat)
    requires Inv(c, s) && Enabled(c, s, Start(w))
    ensures Inv(c, Apply(c, s, Start(w)))
    ensures s.workers[w].task !in s.started
  {
    var i := s.workers[w].task;
    assert s.workers[w].Owns(i);
    assert Held(s.workers, i);
    assert !Begun(s.workers, i);
    WorkerMoves(s.workers, w, Executing(i));
    hide Held, Begun, Finished, SoleOwners;
    var t := Apply(c, s, Start(w));
    assert forall k :: k in t.started <==> k in s.started || k == i;
  }

  lemma FinishKeeps(c: Config, s: State, w: nat)
    requires Inv(c, s) && Enabled(c, s, Finish(w))
    ensures Inv(c, Apply(c, s, Finish(w)))
  {
    var i := s.workers[w].task;
    WorkerMoves(s.workers, w, Executed(i));
    assert Begun(s.workers, i) by {
      assert s.workers[w].Began(i);
    }
    hide Held, Begun, Finished, SoleOwners;
  }

  lemma PutKeeps(c: Config, s: State, w: nat)
    requires Inv(c, s) && Enabled(c, s, Put(w))
    ensures Inv(c, Apply(c, s, Put(w)))
  {
    var i := s.workers[w].task;
    WorkerMoves(s.workers, w, Idle);
    assert Begun(s.workers, i) && Held(s.workers, i) && Finished(s.workers, i) by {
      assert s.workers[w].Began(i) && s.workers[w].Owns(i);
    }
    hide Held, Begun, Finished, SoleOwners;
    var t := Apply(c, s, Put(w));
    assert forall d :: d in t.restored <==> d in s.restored || d == c.entries[i].dumpId;
    assert forall j: nat :: j < |c.entries| && DepsRestored(c, s, j) ==> DepsRestored(c, t, j);
  }

  lemma FailKeeps(c: Config, s: State, w: nat)
    requires Inv(c, s) && Enabled(c, s, Fail(w))
    ensures Inv(c, Apply(c, s, Fail(w)))
  {
    var i := s.workers[w].task;
    WorkerMoves(s.workers, w, Exited);
    assert Begun(s.workers, i) && Held(s.workers, i) by {
      assert s.workers[w].Began(i) && s.workers[w].Owns(i);
    }
    hide Held, Begun, Finished, SoleOwners;
  }

  lemma LeaveKeeps(c: Config, s: State, w: nat)
    requires Inv(c, s)
    ensures Enabled(c, s, Exit(w)) ==> Inv(c, Apply(c, s, Exit(w)))
    ensures Enabled(c, s, WorkerCancel(w)) ==> Inv(c, Apply(c, s, WorkerCancel(w)))
  {
    if w < |s.workers| && s.workers[w].Idle? {
      WorkerMoves(s.workers, w, Exited);
      hide Held, Begun, Finished, SoleOwners;
    }
  }

  /** Every step of every participant keeps the invariant. */
  lemma StepKeeps(c: Config, s: State, step: Step)
    requires Inv(c, s) && Enabled(c, s, step)
    ensures Inv(c, Apply(c, s, step))
  {
    hide Inv, Apply;
    match step
    case Send => SendKeeps(c, s);
    case Receive(w) => ReceiveKeeps(c, s, w);
    case Start(w) => StartKeeps(c, s, w);
    case Finish(w) => FinishKeeps(c, s, w);
    case Put(w) => PutKeeps(c, s, w);
    case Fail(w) => FailKeeps(c, s, w);
    case Exit(w) => LeaveKeeps(c, s, w);
    case WorkerCancel(w) => LeaveKeeps(c, s, w);
    case _ => PusherKeeps(c, s, step);
  }

  // ---------------------------------------------------------------- safety over every run

  ghost predicate IsRun(c: Config, states: seq<State>, steps: seq<Step>) {
    && |states| == |steps| + 1 && states[0] == Init(c)
    && forall k :: 0 <= k < |steps| ==>
         Enabled(c, states[k], steps[k]) && states[k + 1] == Apply(c, states[k], steps[k])
  }

  lemma {:induction false} RunKeeps(c: Config, states: seq<State>, steps: seq<Step>, k: nat)
    requires IsRun(c, states, steps) && k < |states|
    ensures Inv(c, states[k])
  {
    hide Inv, Apply;
    if k == 0 {
      InitHolds(c);
    } else {
      RunKeeps(c, states, steps, k - 1);
      assert Enabled(c, states[k - 1], steps[k - 1]);
      StepKeeps(c, states[k - 1], steps[k - 1]);
    }
  }

  /** The dump id belongs to a task that has run to completion. */
  ghost predicate CompletedId(c: Config, s: State, d: nat) {
    exists i: nat :: i in s.completed && i < |c.entries| && c.entries[i].dumpId == d
  }

  /** Worker `w` holds a task whose dependencies have all completed. */
  ghost predicate SafeStart(c: Config, s: State, w: nat) {
    && w < |s.workers| && s.workers[w].Holding? && s.workers[w].task < |c.entries|
    && forall d :: d in c.DepsOf(s.workers[w].task) ==> CompletedId(c, s, d)
  }

  /** The list is topological for its tasks: a dependency of a task is an earlier task. */
  ghost predicate TopologicalTasks(c: Config) {
    forall i: nat, d :: c.Pushable(i) && d in c.DepsOf(i) ==> EarlierTask(c, i, d)
  }

  ghost predicate EarlierTask(c: Config, i: nat, d: nat) {
    exists j: nat :: j < i && c.Pushable(j) && c.entries[j].dumpId == d
  }

  /**
   * With restore-in-order, in every interleaving of pusher and workers - failing ones included - a
   * task begins only when each of its dependencies has completed. With several workers the
   * dependency wait guarantees it for any list; with one worker a topological list does.
   */
  lemma RestoreIsSafe(c: Config, states: seq<State>, steps: seq<Step>, k: nat, w: nat)
    requires IsRun(c, states, steps) && k < |steps| && steps[k] == Start(w)
    requires c.Waits() || (c.options.jobs == 1 && TopologicalTasks(c))
    ensures SafeStart(c, states[k], w)
  {
    RunKeeps(c, states, steps, k);
    var s := states[k];
    assert Enabled(c, s, Start(w));
    var i := s.workers[w].task;
    assert s.workers[w].Owns(i);
    assert Held(s.workers, i);
    assert i < s.next && c.Pushable(i);
    forall d | d in c.DepsOf(i)
      ensures CompletedId(c, s, d)
    {
      if c.Waits() {
        assert DepsRestored(c, s, i);
      } else {
        assert EarlierTask(c, i, d);
        var j: nat :| j < i && c.Pushable(j) && c.entries[j].dumpId == d;
        assert j in s.put;
      }
    }
  }

  /** In every run, every task of `c` begins after its dependencies have completed. */
  ghost predicate SafeInEveryRun(c: Config) {
    forall states: seq<State>, steps: seq<Step>, k: nat, w: nat |
      IsRun(c, states, steps) && k < |steps| && steps[k] == Start(w) :: SafeStart(c, states[k], w)
  }

  ghost predicate ReadyForEntry(c: Config, s: State, m: nat) {
    s.stage.Looping? && s.next == m && s.chan == [] && s.workers == [Idle]
  }

  lemma ExtendRun(c: Config, states: seq<State>, steps: seq<Step>, step: Step) returns (s: seq<State>, t: seq<Step>)
    requires IsRun(c, states, steps) && |states| == |steps| + 1 && Enabled(c, states[|steps|], step)
    ensures t == steps + [step] && s == states + [Apply(c, states[|steps|], step)] && IsRun(c, s, t) && |s| == |t| + 1
  {
    s, t := states + [Apply(c, states[|steps|], step)], steps + [step];
  }

  lemma RunOneTask(c: Config, states: seq<State>, steps: seq<Step>, i: nat) returns (s: seq<State>, t: seq<Step>)
    requires c.options.jobs == 1 && c.Pushable(i) && IsRun(c, states, steps) && |states| == |steps| + 1
    requires var last := states[|steps|];
             last.stage.Ready? && last.next == i && last.chan == [] && last.workers == [Idle]
    ensures IsRun(c, s, t) && |s| == |t| + 1 && ReadyForEntry(c, s[|t|], i + 1)
  {
    hide IsRun;
    s, t := ExtendRun(c, states, steps, Send);
    s, t := ExtendRun(c, s, t, Receive(0));
    s, t := ExtendRun(c, s, t, Start(0));
    s, t := ExtendRun(c, s, t, Finish(0));
    s, t := ExtendRun(c, s, t, Put(0));
  }

  /** A lone worker can finish the entries one after the other. */
  lemma {:induction false} SequentialRun(c: Config, m: nat) returns (states: seq<State>, steps: seq<Step>)
    requires c.options.jobs == 1 && m <= |c.entries|
    ensures IsRun(c, states, steps) && |states| == |steps| + 1 && ReadyForEntry(c, states[|steps|], m)
  {
    if m == 0 {
      states, steps := [Init(c)], [];
    } else {
      hide IsRun;
      states, steps := SequentialRun(c, m - 1);
      if !c.NeedRestore(m - 1) {
        states, steps := ExtendRun(c, states, steps, Skip);
      } else {
        states, steps := ExtendRun(c, states, steps, Take);
        if !c.HasTask(m - 1) {
          states, steps := ExtendRun(c, states, steps, Drop);
        } else {
          states, steps := RunOneTask(c, states, steps, m - 1);
        }
      }
    }
  }

  /** With one worker, every run is safe exactly when the list is topological for its tasks. */
  lemma OneWorkerSafeIff(c: Config)
    requires c.options.jobs == 1
    ensures SafeInEveryRun(c) <==> TopologicalTasks(c)
  {
    if TopologicalTasks(c) {
      forall states: seq<State>, steps: seq<Step>, k: nat, w: nat | IsRun(c, states, steps) && k < |steps| &&
        steps[k] == Start(w)
        ensures SafeStart(c, states[k], w)
      {
        RestoreIsSafe(c, states, steps, k, w);
      }
    }
    if !TopologicalTasks(c) {
      var i: nat, d :| c.Pushable(i) && d in c.DepsOf(i) && !EarlierTask(c, i, d);
      var states, steps := UnsafeRun(c, i, d);
      assert !SafeStart(c, states[|steps| - 1], 0);
    }
  }

  lemma UnsafeRun(c: Config, i: nat, d: nat) returns (states: seq<State>, steps: seq<Step>)
    requires c.options.jobs == 1 && c.Pushable(i) && d in c.DepsOf(i) && !EarlierTask(c, i, d)
    ensures IsRun(c, states, steps) && steps != [] && steps[|steps| - 1] == Start(0)
    ensures !SafeStart(c, states[|steps| - 1], 0)
  {
    states, steps := SequentialRun(c, i);
    hide IsRun;
    states, steps := ExtendRun(c, states, steps, Take);
    states, steps := ExtendRun(c, states, steps, Send);
    states, steps := ExtendRun(c, states, steps, Receive(0));
    var before := states[|steps|];
    RunKeeps(c, states, steps, |steps|);
    assert before.workers == [Holding(i)] && before.next == i + 1;
    states, steps := ExtendRun(c, states, steps, Start(0));
    assert !Finished(before.workers, i);
    assert before.workers[0].Owns(i) && Held(before.workers, i);
    forall j: nat | j in before.completed && j < |c.entries|
      ensures c.entries[j].dumpId != d
    {
      assert Held(before.workers, j) || j in before.put;
      assert j < before.next && c.Pushable(j) && j != i;
    }
  }

  // ---------------------------------------------------------------- progress

  predicate Over(s: State) {
    s.stage.Closed? && forall w :: 0 <= w < |s.workers| ==> s.workers[w].Exited?
  }

  /** A worker that is neither idle nor gone can always go on. */
  lemma BusyWorkerSteps(c: Config, s: State, i: nat) returns (step: Step)
    requires Inv(c, s) && Held(s.workers, i)
    ensures Enabled(c, s, step) && step.IsForward()
  {
    var w :| 0 <= w < |s.workers| && s.workers[w].Owns(i);
    assert i < s.next;
    step := if s.workers[w].Holding? then Start(w) else if s.workers[w].Executing? then Finish(w) else Put(w);
  }

  /** Some worker can take what is in the channel, or is busy. */
  lemma ChannelDrains(c: Config, s: State) returns (step: Step)
    requires Inv(c, s) && s.chan != [] && c.options.jobs > 0 && !s.cancelled
    ensures Enabled(c, s, step) && step.IsForward()
  {
    var w := s.workers[0];
    if w.Idle? {
      step := Receive(0);
    } else {
      assert !w.Exited?;
      assert w.Owns(w.task);
      step := BusyWorkerSteps(c, s, w.task);
    }
  }

  /**
   * No reachable unfinished state is stuck: as long as nothing failed, some step other than a failed
   * poll is enabled.
   */
  lemma NeverStuck(c: Config, states: seq<State>, steps: seq<Step>, k: nat) returns (step: Step)
    requires IsRun(c, states, steps) && k < |states| && !states[k].cancelled && !Over(states[k])
    requires c.options.jobs > 0 && (c.Waits() ==> DependenciesPushed(c))
    ensures Enabled(c, states[k], step) && step.IsForward()
  {
    RunKeeps(c, states, steps, k);
    var s := states[k];
    match s.stage
    case Looping =>
      step := if s.next == |c.entries| then Close else if c.NeedRestore(s.next) then Take else Skip;
    case Ready =>
      if !c.HasTask(s.next) {
        step := Drop;
      } else if |s.chan| < c.options.jobs {
        step := Send;
      } else {
        step := ChannelDrains(c, s);
      }
    case Polling =>
      if DepsRestored(c, s, s.next) {
        step := PollDone;
      } else {
        var d :| d in c.DepsOf(s.next) && d !in s.restored;
        assert EarlierTask(c, s.next, d);
        var j: nat :| j < s.next && c.Pushable(j) && c.entries[j].dumpId == d;
        if j in s.chan {
          step := ChannelDrains(c, s);
        } else {
          assert j !in s.put && s.failed == {};
          step := BusyWorkerSteps(c, s, j);
        }
      }
    case Closed =>
      if s.chan != [] {
        step := ChannelDrains(c, s);
      } else {
        var w :| 0 <= w < |s.workers| && !s.workers[w].Exited?;
        if s.workers[w].Idle? {
          step := Exit(w);
        } else {
          assert s.workers[w].Owns(s.workers[w].task);
          step := BusyWorkerSteps(c, s, s.workers[w].task);
        }
      }
  }

  // ---------------------------------------------------------------- termination

  function WorkerLoad(w: Worker): nat {
    match w
    case Idle => 1
    case Holding(_) => 5
    case Executing(_) => 4
    case Executed(_) => 3
    case Exited => 0
  }

  function Loads(workers: seq<Worker>): nat {
    if workers == [] then 0 else Loads(workers[..|workers| - 1]) + WorkerLoad(workers[|workers| - 1])
  }

  function PusherLoad(c: Config, s: State): int {
    match s.stage
    case Looping => 8 * (|c.entries| - s.next) + 3
    case Polling => 8 * (|c.entries| - s.next) + 2
    case Ready => 8 * (|c.entries| - s.next) + 1
    case Closed => 0
  }

  /** Work that is left: unpushed entries, queued tasks, busy workers and the cancellation that can still come. */
  function Measure(c: Config, s: State): int {
    PusherLoad(c, s) + 5 * |s.chan| + Loads(s.workers) + if s.cancelled then 0 else 1
  }

  lemma {:induction false} LoadsUpdate(workers: seq<Worker>, w: nat, x: Worker)
    requires w < |workers|
    ensures Loads(workers[w := x]) == Loads(workers) - WorkerLoad(workers[w]) + WorkerLoad(x)
  {
    var init := workers[..|workers| - 1];
    if w < |init| {
      LoadsUpdate(init, w, x);
      assert workers[w := x][..|init|] == init[w := x];
    } else {
      assert workers[w := x][..|init|] == init;
    }
  }

  lemma MeasureDrops(c: Config, s: State, step: Step)
    requires s.next <= |c.entries| && Enabled(c, s, step) && !step.PollBusy?
    ensures Measure(c, Apply(c, s, step)) < Measure(c, s)
  {
    hide Loads;
    match step
    case Receive(w) => LoadsUpdate(s.workers, w, Holding(s.chan[0]));
    case Exit(w) => LoadsUpdate(s.workers, w, Exited);
    case Start(w) => LoadsUpdate(s.workers, w, Executing(s.workers[w].task));
    case Finish(w) => LoadsUpdate(s.workers, w, Executed(s.workers[w].task));
    case Put(w) => LoadsUpdate(s.workers, w, Idle);
    case Fail(w) => LoadsUpdate(s.workers, w, Exited);
    case WorkerCancel(w) => LoadsUpdate(s.workers, w, Exited);
    case _ =>
  }

  function RealSteps(steps: seq<Step>): nat {
    if steps == [] then 0
    else RealSteps(steps[..|steps| - 1]) + (if steps[|steps| - 1].PollBusy? then 0 else 1)
  }

  lemma {:induction false} InitialLoads(n: nat)
    ensures Loads(seq(n, _ => Idle)) == n
  {
    if n > 0 {
      InitialLoads(n - 1);
      assert seq(n, _ => Idle)[..n - 1] == seq(n - 1, _ => Idle);
    }
  }

  /** Every run makes at most `8 * entries + jobs + 4` steps besides failed polls. */
  lemma {:induction false} RunsAreBounded(c: Config, states: seq<State>, steps: seq<Step>, k: nat)
    requires IsRun(c, states, steps) && k <= |steps|
    ensures RealSteps(steps[..k]) + Measure(c, states[k]) <= 8 * |c.entries| + c.options.jobs + 4
    ensures RealSteps(steps[..k]) <= 8 * |c.entries| + c.options.jobs + 4
  {
    RunKeeps(c, states, steps, k);
    hide Inv, Loads, Apply;
    assert states[k].next <= |c.entries| by { assert Inv(c, states[k]); NextInRange(c, states[k]); }
    if k == 0 {
      InitialLoads(c.options.jobs);
    } else {
      RunsAreBounded(c, states, steps, k - 1);
      RunKeeps(c, states, steps, k - 1);
      NextInRange(c, states[k - 1]);
      assert steps[..k][..k - 1] == steps[..k - 1];
      assert Enabled(c, states[k - 1], steps[k - 1]) && states[k] == Apply(c, states[k - 1], steps[k - 1]);
      if steps[k - 1].PollBusy? {
        PollChangesNothing(c, states[k - 1]);
      } else {
        MeasureDrops(c, states[k - 1], steps[k - 1]);
      }
    }
  }

  lemma PollChangesNothing(c: Config, s: State)
    requires Enabled(c, s, PollBusy)
    ensures Apply(c, s, PollBusy) == s
  {
  }

  lemma NextInRange(c: Config, s: State)
    requires Inv(c, s)
    ensures s.next <= |c.entries|
  {
  }

  /** Every awaited dependency belongs to an earlier task. */
  ghost predicate DependenciesPushed(c: Config) {
    forall i: nat, d :: i < |c.entries| && c.NeedRestore(i) && d in c.DepsOf(i) ==> EarlierTask(c, i, d)
  }

  ghost predicate Finishes(c: Config, states: seq<State>, steps: seq<Step>) {
    IsRun(c, states, steps) && Over(states[|steps|]) && !states[|steps|].cancelled
  }

  /** From any unfinished uncancelled state the run can be completed. */
  lemma {:induction false} CompleteRun(c: Config, states: seq<State>, steps: seq<Step>)
    returns (s: seq<State>, t: seq<Step>)
    requires IsRun(c, states, steps) && !states[|steps|].cancelled && c.options.jobs > 0
    requires c.Waits() ==> DependenciesPushed(c)
    ensures Finishes(c, s, t)
    decreases Measure(c, states[|steps|])
  {
    s, t := states, steps;
    if !Over(states[|steps|]) {
      RunKeeps(c, states, steps, |steps|);
      NextInRange(c, states[|steps|]);
      var step := NeverStuck(c, states, steps, |steps|);
      s, t := ExtendRun(c, states, steps, step);
      MeasureDrops(c, states[|steps|], step);
      s, t := CompleteRun(c, s, t);
    }
  }

  /** What the pusher has passed was awaited successfully, so its dependencies are earlier tasks. */
  ghost predicate Awaited(c: Config, s: State) {
    forall i: nat, d |
      i < |c.entries| && c.NeedRestore(i) && d in c.DepsOf(i) && (i < s.next || (i == s.next && s.stage.Ready?)) ::
      EarlierTask(c, i, d)
  }

  lemma {:induction false} RunAwaits(c: Config, states: seq<State>, steps: seq<Step>, k: nat)
    requires IsRun(c, states, steps) && c.Waits() && k < |states|
    ensures Awaited(c, states[k])
  {
    if k > 0 {
      RunAwaits(c, states, steps, k - 1);
      RunKeeps(c, states, steps, k - 1);
      var s, step := states[k - 1], steps[k - 1];
      assert Enabled(c, s, step) && states[k] == Apply(c, s, step);
      if step.PollDone? {
        forall d | d in c.DepsOf(s.next)
          ensures EarlierTask(c, s.next, d)
        {
          assert d in s.restored;
          var i :| i in s.put && i < |c.entries| && c.entries[i].dumpId == d;
          assert i < s.next && c.Pushable(i);
        }
      }
    }
  }

  /**
   * The dependency wait can end exactly when every awaited dependency is an earlier task of the
   * list; a dependency that is filtered out or has no entry blocks the pusher in every run.
   */
  lemma WaitingEndsIff(c: Config)
    requires c.Waits()
    ensures (exists states: seq<State>, steps: seq<Step> :: Finishes(c, states, steps)) <==> DependenciesPushed(c)
  {
    if DependenciesPushed(c) {
      var states, steps := CompleteRun(c, [Init(c)], []);
    }
    if states: seq<State>, steps: seq<Step> :| Finishes(c, states, steps) {
      RunAwaits(c, states, steps, |steps|);
      RunKeeps(c, states, steps, |steps|);
      assert states[|steps|].next == |c.entries|;
    }
  }

  /** The channel never holds more tasks than there are workers. */
  lemma {:induction false} ChannelBounded(c: Config, states: seq<State>, steps: seq<Step>, k: nat)
    requires IsRun(c, states, steps) && k < |states|
    ensures |states[k].chan| <= c.options.jobs
  {
    if k > 0 {
      ChannelBounded(c, states, steps, k - 1);
      assert Enabled(c, states[k - 1], steps[k - 1]) && states[k] == Apply(c, states[k - 1], steps[k - 1]);
    }
  }

  /** Dependencies are awaited only when the restore is in order and has several workers. */
  lemma OneWorkerNeverPolls(c: Config, states: seq<State>, steps: seq<Step>, k: nat)
    requires IsRun(c, states, steps) && k < |states| && (!c.options.inOrder || c.options.jobs <= 1)
    ensures !states[k].stage.Polling?
  {
    RunKeeps(c, states, steps, k);
  }

  /**
   * A run that finishes without failures has started and completed every task exactly once, and nothing else. The
   * tasks are table data and sequences that are not filtered, and blobs and access rights unless switched off.
   */
  lemma EveryTaskOnce(c: Config, states: seq<State>, steps: seq<Step>)
    requires Finishes(c, states, steps) && c.options.jobs > 0
    ensures var s := states[|steps|];
            && Distinct(s.started)
            && (forall i: nat :: i in s.started <==> c.Pushable(i))
            && (forall i: nat :: i in s.completed <==> c.Pushable(i))
    ensures forall i: nat :: i in states[|steps|].completed <==>
              i < |c.entries| &&
              match c.entries[i].desc
              case TableData => c.entries[i].dumpId !in c.options.filtered
              case SequenceSet => c.entries[i].dumpId !in c.options.filtered
              case Blobs => !c.options.noBlobs
              case Acl => !c.options.noPrivileges
              case OtherDescription => false
  {
    RunKeeps(c, states, steps, |steps|);
    var s := states[|steps|];
    assert s.workers[0].Exited?;
    assert s.next == |c.entries| && s.chan == [] && s.failed == {};
    forall i: nat
      ensures !Held(s.workers, i) && !Begun(s.workers, i) && !Finished(s.workers, i)
    {
    }
  }

  /** Of two tables the first one waits for the second one: no run ever finishes. */
  lemma LateDependencyBlocks(c: Config)
    requires c.entries == [TocEntry(1, Data, TableData), TocEntry(2, Data, TableData)]
    requires c.deps == map[1 := [2], 2 := []] && c.Waits() && c.options.filtered == {}
    ensures !exists states: seq<State>, steps: seq<Step> :: Finishes(c, states, steps)
  {
    hide Finishes;
    assert 2 in c.DepsOf(0) && c.NeedRestore(0) && !EarlierTask(c, 0, 2);
    WaitingEndsIff(c);
  }
}
