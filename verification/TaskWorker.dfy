/** Chains of background tasks and the worker that runs them one after the other
    (internal/taskutil/worker.go). A task's own code is not modelled: running it leaves some status
    behind. */
module TaskWorker {

  datatype Status = Pending | Running | PartiallyCompleted | Completed | Failed

  predicate IsTerminal(s: Status) {
    s.PartiallyCompleted? || s.Completed? || s.Failed?
  }

  /** A chain's status by its tasks'. */
  ghost function StatusOf(panicked: bool, tasks: seq<Status>): Status {
    if panicked || Failed in tasks then Failed
    else if forall t <- tasks ::
      IsTerminal(t) then if PartiallyCompleted in tasks then PartiallyCompleted else Completed
    else if exists t :: t in tasks && t != Pending then Running
    else Pending
  }

  class TaskChain {
    const key: string
    var id: string
    var tasks: seq<Status>
    var panicked: bool

    ghost predicate Terminal() reads this`tasks, this`panicked {
      IsTerminal(StatusOf(panicked, tasks))
    }

    /** A chain as its builders make it. */
    constructor (key: string, count: nat)
      ensures this.key == key && id == "" && !panicked && tasks == seq(count, _ => Pending) && RestUnsettled(tasks, 0)
    {
      this.key, id, panicked, tasks := key, "", false, seq(count, _ => Pending);
    }

    method Status() returns (s: Status)
      ensures s == StatusOf(panicked, tasks)
    {
      if panicked {
        return Failed;
      }
      var settled, running, partial, i := 0, false, false, 0;
      while i < |tasks|
        invariant 0 <= settled <= i <= |tasks|
        invariant forall j :: 0 <= j < i ==> tasks[j] != Failed
        invariant settled == i <==> forall j :: 0 <= j < i ==> IsTerminal(tasks[j])
        invariant running || settled > 0 <==> exists j :: 0 <= j < i && tasks[j] != Pending
        invariant partial <==> exists j :: 0 <= j < i && tasks[j] == PartiallyCompleted
      {
        match tasks[i] {
          case Failed => return Failed;
          case PartiallyCompleted => partial, settled := true, settled + 1;
          case Completed => settled := settled + 1;
          case Running => running := true;
          case Pending =>
        }
        i := i + 1;
      }
      assert forall j :: 0 <= j < i ==> tasks[j] in tasks;
      if settled < |tasks| {
        return if running || settled > 0 then Running else Pending;
      }
      return if partial then PartiallyCompleted else Completed;
    }
  }

  // ---------- The worker ----------

  /** Which comes next is one of the unsettled rest. */
  ghost predicate RestUnsettled(tasks: seq<Status>, next: nat) {
    next <= |tasks| && forall i :: next <= i < |tasks| ==> !IsTerminal(tasks[i])
  }

  ghost predicate DoneSettled(tasks: seq<Status>, next: nat) {
    next <= |tasks| && forall i :: 0 <= i < next ==> IsTerminal(tasks[i])
  }

  /** A task's new status moves the chain on, and never back from a terminal one. */
  lemma TaskSet(panicked: bool, tasks: seq<Status>, next: nat, panicked': bool, s: Status)
    requires RestUnsettled(tasks, next) && DoneSettled(tasks, next) && next < |tasks| && (panicked ==> panicked')
    ensures IsTerminal(StatusOf(panicked, tasks)) ==> IsTerminal(StatusOf(panicked', tasks[next := s]))
    ensures IsTerminal(s) ==> RestUnsettled(tasks[next := s], next + 1) && DoneSettled(tasks[next := s], next + 1)
    ensures !IsTerminal(s) ==> RestUnsettled(tasks[next := s], next) && DoneSettled(tasks[next := s], next)
  {
    assert tasks[next] in tasks;
    if !panicked && Failed in tasks {
      var i :| 0 <= i < |tasks| && tasks[i] == Failed;
      assert tasks[next := s][i] == Failed;
    }
  }

  /** A chain that stops early is terminal. */
  lemma TaskStops(tasks: seq<Status>, next: nat, panicked: bool, s: Status)
    requires DoneSettled(tasks, next) && next < |tasks|
    ensures panicked || s == Failed || (IsTerminal(s) && next == |tasks| - 1) ==>
      IsTerminal(StatusOf(panicked, tasks[next := s]))
  {
    assert tasks[next := s][next] == s;
  }

  lemma AllSettledIsTerminal(tasks: seq<Status>)
    requires DoneSettled(tasks, |tasks|)
    ensures IsTerminal(StatusOf(false, tasks))
  {}

  /** What a task may leave behind: a panic at any point, or a settled status, and with an error before
      the last task a failed one. */
  predicate Ends(s: Status, err: bool, panics: bool, last: bool) {
    panics || (IsTerminal(s) && (err ==> s == Failed || last))
  }

  /** Its chain is terminal then, or goes on behind it. */
  lemma TaskEnds(panicked: bool, tasks: seq<Status>, next: nat, s: Status, err: bool, panics: bool)
    requires RestUnsettled(tasks, next) && DoneSettled(tasks, next) && next < |tasks|
    requires Ends(s, err, panics, next + 1 == |tasks|)
    ensures var after := tasks[next := s];
            && (IsTerminal(StatusOf(panicked, tasks)) || panics || err ==>
                  IsTerminal(StatusOf(panicked || panics, after)))
            && (!panics && !err ==> RestUnsettled(after, next + 1) && DoneSettled(after, next + 1))
  {
    TaskSet(panicked, tasks, next, panicked || panics, s);
    TaskStops(tasks, next, panicked || panics, s);
  }

  datatype EnqueueResult = Enqueued | ErrBusy | ErrClosed

  class Worker {
    const maxLen: nat
    var queue: seq<TaskChain>
    var closed: bool
    var started: bool
    var running: TaskChain?
    var next: nat     // index into the running chain
    var begun: bool   // whether it has begun
    var stopped: bool // whether the chain stops there
    ghost var accepted: set<TaskChain>

    ghost predicate Valid() reads this, accepted {
      && |queue| <= maxLen
      && (forall i, j :: 0 <= i < j < |queue| ==> queue[i] != queue[j])
      && (forall c <- queue :: c in accepted && c != running && RestUnsettled(c.tasks, 0))
      && (forall c <- accepted :: c in queue || c == running || c.Terminal())
      && (running != null ==> running in accepted && RunningValid())
      && (!started ==> running == null)
    }

    ghost predicate RunningValid() reads this, running
      requires running != null
    {
      if stopped then running.Terminal() else RestUnsettled(running.tasks, next) && DoneSettled(running.tasks, next)
    }

    /** What is left of the running chain. */
    ghost function Remaining(): nat reads this, running
      requires running != null && !stopped ==> next <= |running.tasks|
    {
      if running == null then 0
      else if stopped then 1
      else 2 * (|running.tasks| - next) + if begun then 1 else 2
    }

    /** The worker went on; nothing was accepted, and what was terminal still is. */
    twostate predicate Later()
      reads this, accepted
    {
      && Valid() && accepted == old(accepted) && closed == old(closed) && started == old(started)
      && (forall c <- queue :: c in old(queue))
      && |queue| <= |old(queue)|
      && forall c <- accepted :: old(c.Terminal()) ==> c.Terminal()
    }

    /** Chains that do not run are left as they are. */
    twostate predicate OthersStand()
      reads this, accepted
    {
      && accepted == old(accepted)
      && forall c <- old(accepted) :: c != running ==> c.tasks == old(c.tasks) && c.panicked == old(c.panicked)
    }

    constructor (maxLen: nat)
      ensures Valid() && this.maxLen == (if maxLen == 0 then 100 else maxLen) && accepted == {}
      ensures queue == [] && !closed && !started && running == null
    {
      this.maxLen := if maxLen == 0 then 100 else maxLen;
      queue, closed, started, running, next, begun, stopped, accepted := [], false, false, null, 0, false, false, {};
    }

    method Start()
      requires Valid()
      modifies this`started
      ensures Valid() && started
    {
      started := true;
    }

    method BeginTask()
      requires Valid() && running != null && !stopped && next < |running.tasks| && !begun
      modifies this`begun, accepted`tasks
      ensures Later() && queue == old(queue) && running == old(running) && begun
      ensures running.tasks == old(running.tasks)[next := Running] && OthersStand()
      ensures Remaining() < old(Remaining())
    {
      TaskSet(running.panicked, running.tasks, next, running.panicked, Running);
      running.tasks := running.tasks[next := Running];
      begun := true;
    }

    /** The running task ends with some status, an error or a panic. A task that returns is settled,
        and one that returns an error with tasks after it has failed. */
    method EndTask()
      requires Valid() && running != null && !stopped && next < |running.tasks| && begun
      modifies this`next, this`begun, this`stopped, accepted`tasks, accepted`panicked
      ensures exists s: Status, err: bool, panics: bool ::
        Ends(s, err, panics, old(next) + 1 == |old(running.tasks)|) && Ended(s, err, panics)
      ensures Later() && queue == old(queue) && running == old(running)
      ensures Remaining() < old(Remaining())
    {
      var s: Status, err: bool, panics: bool :| Ends(s, err, panics, next + 1 == |running.tasks|);
      SettleTask(s, err, panics);
    }

    /** The chain goes on with the next task, or stops there. */
    method SettleTask(s: Status, err: bool, panics: bool)
      requires Valid() && running != null && !stopped && next < |running.tasks| && begun
      requires Ends(s, err, panics, next + 1 == |running.tasks|)
      modifies this`next, this`begun, this`stopped, accepted`tasks, accepted`panicked
      ensures Ended(s, err, panics) && Later() && queue == old(queue) && running == old(running)
      ensures Remaining() < old(Remaining())
    {
      var chain: TaskChain := running;
      TaskEnds(chain.panicked, chain.tasks, next, s, err, panics);
      chain.tasks := chain.tasks[next := s];
      chain.panicked := chain.panicked || panics;
      stopped, next, begun := panics || err, next + 1, false;
    }

    twostate predicate Ended(s: Status, err: bool, panics: bool)
      requires old(running) != null && old(next) < |old(running.tasks)|
      reads this, accepted, running
    {
      && running == old(running) && running.tasks == old(running.tasks)[old(next) := s]
      && running.panicked == (old(running.panicked) || panics) && OthersStand()
      && stopped == (panics || err) && next == old(next) + 1 && !begun
    }

    method TakeChain()
      requires Valid() && started && running == null && queue != []
      modifies this`queue, this`running, this`next, this`begun, this`stopped
      ensures Later() && queue == old(queue)[1..] && running == old(queue)[0] && next == 0 && !begun && !stopped
    {
      assert queue[0] in queue && forall c <- queue[1..] :: c in queue;
      running, queue, next, begun, stopped := queue[0], queue[1..], 0, false, false;
    }

    method FinishChain()
      requires Valid() && running != null && (stopped || next == |running.tasks|)
      modifies this`running
      ensures Later() && running == null && queue == old(queue)
    {
      if !stopped {
        AllSettledIsTerminal(running.tasks);
      }
      running := null;
    }

    /** One step of the worker. */
    method Step()
      requires Valid() && started && (running != null || queue != [])
      modifies this`queue, this`running, this`next, this`begun, this`stopped, accepted`tasks, accepted`panicked
      ensures Later()
      ensures |queue| < |old(queue)| || (|queue| == |old(queue)| && Remaining() < old(Remaining()))
    {
      if running == null {
        TakeChain();
      } else if stopped || next == |running.tasks| {
        FinishChain();
      } else if !begun {
        BeginTask();
      } else {
        EndTask();
      }
    }

    /** The worker goes on while others look. */
    method Progress()
      requires Valid()
      modifies this`queue, this`running, this`next, this`begun, this`stopped, accepted`tasks, accepted`panicked
      ensures Later()
    {
      var steps: nat :| 0 <= steps;
      while steps > 0 && started && (running != null || queue != [])
        invariant Later()
      {
        Step();
        steps := steps - 1;
      }
    }

    method TryEnqueue(chain: TaskChain) returns (r: EnqueueResult)
      requires Valid() && chain !in accepted && !chain.panicked && RestUnsettled(chain.tasks, 0)
      modifies this`queue, this`accepted
      ensures Valid()
      ensures r == if closed then ErrClosed else if |old(queue)| == maxLen then ErrBusy else Enqueued
      ensures r == Enqueued ==> accepted == old(accepted) + {chain} && queue == old(queue) + [chain]
      ensures r != Enqueued ==> accepted == old(accepted) && queue == old(queue)
    {
      if closed {
        return ErrClosed;
      }
      if |queue| < maxLen {
        queue, accepted := queue + [chain], accepted + {chain};
        return Enqueued;
      }
      return ErrBusy;
    }

    /** Closes the worker and waits for it; only the call that closes it waits. */
    method Close()
      requires Valid()
      modifies this`closed, this`queue, this`running, this`next, this`begun, this`stopped, accepted`tasks
      modifies accepted`panicked
      ensures Valid() && closed && accepted == old(accepted) && started == old(started)
      ensures forall c <- accepted :: old(c.Terminal()) ==> c.Terminal()
      ensures !old(closed) && started ==> forall c <- accepted :: c.Terminal()
      ensures !old(closed) && !started ==> queue == old(queue)
      ensures old(closed) ==> queue == old(queue) && running == old(running)
    {
      if closed {
        return;
      }
      closed := true;
      if !started {
        return;
      }
      while running != null || queue != []
        invariant Valid() && closed && started && accepted == old(accepted)
        invariant forall c <- accepted :: old(c.Terminal()) ==> c.Terminal()
        decreases |queue|, Remaining()
      {
        Step();
      }
    }
  }
}
