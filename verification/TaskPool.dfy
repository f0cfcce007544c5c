/** The pool of task chains (internal/taskutil/pool.go). The worker goes on between any two of the
    pool's looks at a chain. */
module TaskPool {
  import opened Basics
  import opened TaskWorker

  ghost predicate Earlier(s: seq<string>, a: string, b: string) {
    exists i, j :: 0 <= i < j < |s| && s[i] == a && s[j] == b
  }

  function Without(s: seq<string>, gone: set<string>): seq<string> {
    if s == [] then []
    else
      var n := |s| - 1;
      Without(s[..n], gone) + if s[n] in gone then [] else [s[n]]
  }

  lemma {:induction false} WithoutMembers(s: seq<string>, gone: set<string>, x: string)
    ensures x in Without(s, gone) <==> x in s && x !in gone
  {
    if s != [] {
      WithoutMembers(s[..|s| - 1], gone, x);
      assert s == s[..|s| - 1] + [s[|s| - 1]];
    }
  }

  lemma {:induction false} WithoutTwice(s: seq<string>, gone: set<string>, more: set<string>)
    ensures Without(Without(s, gone), more) == Without(s, gone + more)
  {
    if s != [] {
      var n := |s| - 1;
      WithoutTwice(s[..n], gone, more);
      var front := Without(s[..n], gone);
      if s[n] !in gone {
        assert (front + [s[n]])[..|front|] == front;
      } else {
        assert front + [] == front;
      }
    }
  }

  lemma {:induction false} WithoutNothing(s: seq<string>, gone: set<string>)
    requires forall x <- s :: x !in gone
    ensures Without(s, gone) == s
  {
    if s != [] {
      WithoutNothing(s[..|s| - 1], gone);
      assert s[|s| - 1] in s;
    }
  }

  /** Deleting the one place of an id. */
  lemma {:induction false} DeleteAt(s: seq<string>, i: nat)
    requires Distinct(s) && i < |s|
    ensures Without(s, {s[i]}) == s[..i] + s[i + 1..] && Distinct(s[..i] + s[i + 1..])
  {
    var n := |s| - 1;
    if i == n {
      WithoutNothing(s[..n], {s[n]});
    } else {
      DeleteAt(s[..n], i);
      assert s[..n][..i] + s[..n][i + 1..] + [s[n]] == s[..i] + s[i + 1..];
    }
  }

  lemma {:induction false} StillEarlier(s: seq<string>, gone: set<string>, a: string, b: string)
    requires Earlier(s, a, b) && a !in gone && b !in gone
    ensures Earlier(Without(s, gone), a, b)
  {
    var n := |s| - 1;
    var i, j :| 0 <= i < j <= n && s[i] == a && s[j] == b;
    var front := Without(s[..n], gone);
    if j == n {
      assert s[..n][i] == a;
      WithoutMembers(s[..n], gone, a);
      var k :| 0 <= k < |front| && front[k] == a;
      assert (front + [b])[k] == a && (front + [b])[|front|] == b;
    } else {
      assert s[..n][i] == a && s[..n][j] == b;
      StillEarlier(s[..n], gone, a, b);
      var k, l :| 0 <= k < l < |front| && front[k] == a && front[l] == b;
      assert Without(s, gone)[k] == a && Without(s, gone)[l] == b;
    }
  }

  /** What is older than a remaining id stands before it still. */
  lemma OlderComeFirst(s: seq<string>, gone: set<string>, i: nat)
    requires i < |Without(s, gone)| && Distinct(Without(s, gone))
    ensures forall a :: a !in gone && Earlier(s, a, Without(s, gone)[i]) ==> a in Without(s, gone)[..i]
  {
    var left := Without(s, gone);
    forall a | a !in gone && Earlier(s, a, left[i]) ensures a in left[..i] {
      WithoutMembers(s, gone, left[i]);
      StillEarlier(s, gone, a, left[i]);
      var k, l :| 0 <= k < l < |left| && left[k] == a && left[l] == left[i];
      assert left[..i][k] == a;
    }
  }

  /** What stayed and is older than something gone was at work. */
  ghost predicate OldestWent(s: seq<string>, atWork: set<string>, gone: set<string>) {
    forall a, b {:trigger Earlier(s, a, b)} :: a !in gone && b in gone && Earlier(s, a, b) ==> a in atWork
  }

  lemma WentMore(s: seq<string>, atWork: set<string>, more: set<string>)
    requires atWork <= more
    ensures forall gone :: OldestWent(s, atWork, gone) ==> OldestWent(s, more, gone)
  {}

  lemma NextWent(s: seq<string>, atWork: set<string>, gone: set<string>, i: nat)
    requires i < |Without(s, gone)| && Distinct(Without(s, gone))
    requires OldestWent(s, atWork, gone) && forall a <- Without(s, gone)[..i] :: a in atWork
    ensures OldestWent(s, atWork, gone + {Without(s, gone)[i]})
  {
    OlderComeFirst(s, gone, i);
  }

  lemma MapWithoutTwice(m: map<string, TaskChain>, gone: set<string>, id: string)
    ensures (m - gone) - {id} == m - (gone + {id})
  {}

  datatype SubmitResult = Accepted(chain: TaskChain) | AlreadyRunning(active: TaskChain) | ErrNil
    | Rejected(why: EnqueueResult)

  class Pool {
    const worker: Worker
    const maxKeep: nat
    var byID: map<string, TaskChain>
    var order: seq<string>

    ghost predicate Indexed() reads this`byID, this`order {
      Distinct(order) && forall id :: id in order <==> id in byID
    }

    ghost predicate Known() reads this`byID, worker, worker.accepted`id {
      forall id <- byID :: byID[id] in worker.accepted && byID[id].id == id
    }

    /** Every chain still at work is listed, but for the one being added. */
    ghost predicate ListsAllActive(adding: TaskChain?) reads this`byID, worker, worker.accepted {
      forall c <- worker.accepted :: c == adding || c.Terminal() || (c.id in byID && byID[c.id] == c)
    }

    /** No two chains with one key are at work. */
    ghost predicate OneAtATime() reads worker, worker.accepted {
      forall c, d {:trigger c.key, d.key} ::
        c in worker.accepted && d in worker.accepted && c != d && c.key == d.key && c.key != "" ==>
          c.Terminal() || d.Terminal()
    }

    ghost predicate ValidBut(adding: TaskChain?) reads this, worker, worker.accepted {
      worker.Valid() && Indexed() && Known() && ListsAllActive(adding) && OneAtATime()
    }

    ghost predicate Valid() reads this, worker, worker.accepted {
      ValidBut(null) && |order| <= Limit()
    }

    ghost function Limit(): nat {
      if maxKeep > worker.maxLen + 1 then maxKeep else worker.maxLen + 1
    }

    constructor (worker: Worker, maxKeep: nat)
      requires worker.Valid() && worker.accepted == {}
      ensures Valid() && this.worker == worker && order == [] && this.maxKeep == if maxKeep == 0 then 100 else maxKeep
    {
      this.worker, this.maxKeep, byID, order := worker, if maxKeep == 0 then 100 else maxKeep, map[], [];
    }

    /** The worker going on disturbs nothing here. */
    method Progress(adding: TaskChain?)
      requires ValidBut(adding)
      modifies worker`queue, worker`running, worker`next, worker`begun, worker`stopped
      modifies worker.accepted`tasks, worker.accepted`panicked
      ensures ValidBut(adding) && worker.Later()
    {
      worker.Progress();
    }

    /** A look at a listed chain, some time later. */
    method Look(id: string, adding: TaskChain?) returns (terminal: bool)
      requires ValidBut(adding) && id in byID
      modifies worker`queue, worker`running, worker`next, worker`begun, worker`stopped
      modifies worker.accepted`tasks, worker.accepted`panicked
      ensures ValidBut(adding) && worker.Later()
      ensures terminal <==> byID[id].Terminal()
    {
      Progress(adding);
      var status := byID[id].Status();
      terminal := IsTerminal(status);
    }

    method FindActiveLocked(key: string) returns (active: TaskChain?)
      requires ValidBut(null)
      modifies worker`queue, worker`running, worker`next, worker`begun, worker`stopped
      modifies worker.accepted`tasks, worker.accepted`panicked
      ensures ValidBut(null) && worker.Later()
      ensures active == null ==> forall c <- worker.accepted :: c.key == key ==> c.Terminal()
      ensures active != null ==> active in worker.accepted && active.key == key && old(!active.Terminal())
    {
      var i := 0;
      while i < |order|
        invariant i <= |order| && ValidBut(null) && worker.Later()
        invariant forall j :: 0 <= j < i && byID[order[j]].key == key ==> byID[order[j]].Terminal()
      {
        assert order[i] in order;
        var chain := byID[order[i]];
        if chain.key == key {
          var terminal := Look(order[i], null);
          if !terminal {
            return chain;
          }
        }
        i := i + 1;
      }
      active := null;
      assert forall id <- order :: byID[id].key == key ==> byID[id].Terminal();
    }

    /** Chains at work are in the queue or running, and so no more than the worker holds. */
    lemma FewAtWork()
      requires ValidBut(null)
      ensures (forall id <- order :: !byID[id].Terminal()) ==> |order| <= worker.maxLen + 1
    {
      if forall id <- order :: !byID[id].Terminal() {
        var queue, running := worker.queue, worker.running;
        var queued := seq(|queue|, i requires 0 <= i < |queue| reads queue => queue[i].id);
        var names := queued + if running == null then [] else [running.id];
        forall id | id in order ensures id in names {
          if byID[id] in queue {
            var i :| 0 <= i < |queue| && queue[i] == byID[id];
            assert names[i] == id;
          } else {
            assert byID[id] == running && names[|queue|] == id;
          }
        }
        NoMoreThan(order, names);
      }
    }

    /** The first chain found terminal; the chains before it were at work when this began. */
    method OldestTerminal() returns (i: nat)
      requires ValidBut(null)
      modifies worker`queue, worker`running, worker`next, worker`begun, worker`stopped
      modifies worker.accepted`tasks, worker.accepted`panicked
      ensures ValidBut(null) && worker.Later() && i <= |order|
      ensures forall j :: 0 <= j < i ==> order[j] in byID && old(!byID[order[j]].Terminal())
      ensures i < |order| ==> order[i] in byID && byID[order[i]].Terminal()
    {
      i := 0;
      while i < |order|
        invariant i <= |order| && ValidBut(null) && worker.Later()
        invariant forall j :: 0 <= j < i ==> order[j] in byID && old(!byID[order[j]].Terminal())
      {
        assert order[i] in order;
        var terminal := Look(order[i], null);
        if terminal {
          return;
        }
        i := i + 1;
      }
    }

    /** Deletes one listed id; the rest keep their places. */
    method RemoveLocked(id: string)
      requires ValidBut(null) && id in byID && byID[id].Terminal()
      modifies this`byID, this`order
      ensures ValidBut(null) && byID == old(byID) - {id}
      ensures order == Without(old(order), {id}) && |order| == |old(order)| - 1
    {
      byID := byID - {id};
      var i := 0;
      while i < |order| && order[i] != id
        invariant i <= |order| && forall j :: 0 <= j < i ==> order[j] != id
      {
        i := i + 1;
      }
      assert id in order;
      DeleteAt(order, i);
      forall x: string ensures x in Without(order, {id}) <==> x in order && x != id {
        WithoutMembers(order, {id}, x);
      }
      order := order[..i] + order[i + 1..];
    }

    /** The listed chains at work. */
    ghost function AtWork(): set<string> reads this`byID, byID.Values {
      set id | id in byID && !byID[id].Terminal()
    }

    /** Drops the oldest terminal chain, if there is one. */
    method EvictOne() returns (i: nat)
      requires ValidBut(null)
      modifies this`byID, this`order, worker`queue, worker`running, worker`next, worker`begun, worker`stopped
      modifies worker.accepted`tasks, worker.accepted`panicked
      ensures ValidBut(null) && worker.Later() && i <= |old(order)|
      ensures AtWork() <= old(AtWork()) && forall id <- old(order)[..i] :: id in old(AtWork())
      ensures i == |old(order)| ==> order == old(order) && byID == old(byID) && |order| <= worker.maxLen + 1
      ensures i < |old(order)| ==>
        && var id := old(order)[i];
        && id in old(byID) && old(byID)[id].Terminal() && byID == old(byID) - {id}
        && order == Without(old(order), {id}) && |order| == |old(order)| - 1
    {
      FewAtWork();
      i := OldestTerminal();
      if i < |order| {
        RemoveLocked(order[i]);
      }
    }

    /** Everything gone is terminal. */
    ghost predicate AllTerminal(byID0: map<string, TaskChain>, gone: set<string>) reads byID0.Values {
      forall id <- gone :: id in byID0 && byID0[id].Terminal()
    }

    /** Drops the oldest terminal chains while too many are listed; `gone` is what went. */
    method EvictLocked() returns (ghost gone: set<string>)
      requires ValidBut(null)
      modifies this`byID, this`order, worker`queue, worker`running, worker`next, worker`begun, worker`stopped
      modifies worker.accepted`tasks, worker.accepted`panicked
      ensures Valid() && worker.Later()
      ensures order == Without(old(order), gone) && byID == old(byID) - gone
      ensures gone != {} ==> |order| >= maxKeep
      ensures AllTerminal(old(byID), gone) && OldestWent(old(order), old(AtWork()), gone)
    {
      gone := {};
      WithoutNothing(order, {});
      ghost var order0, byID0, atWork := order, byID, AtWork();
      while |order| > maxKeep
        invariant ValidBut(null) && worker.Later()
        invariant order == Without(order0, gone) && byID == byID0 - gone
        invariant gone != {} ==> |order| >= maxKeep
        invariant AllTerminal(byID0, gone) && AtWork() <= atWork
        invariant OldestWent(order0, atWork, gone)
        decreases |order|
      {
        ghost var listed := order;
        var count := |order|;
        var i := EvictOne();
        if i == count {
          return;
        }
        WithoutTwice(order0, gone, {listed[i]});
        MapWithoutTwice(byID0, gone, listed[i]);
        NextWent(order0, atWork, gone, i);
        gone := gone + {listed[i]};
      }
    }

    /** Lists an accepted chain, then evicts. */
    method Enlist(chain: TaskChain, id: string) returns (ghost gone: set<string>)
      requires ValidBut(chain) && chain in worker.accepted && chain.id == id && id !in byID
      modifies this`byID, this`order, worker`queue, worker`running, worker`next, worker`begun, worker`stopped
      modifies worker.accepted`tasks, worker.accepted`panicked
      ensures Valid() && worker.Later()
      ensures order == Without(old(order) + [id], gone) && byID == old(byID)[id := chain] - gone
      ensures gone != {} ==> |order| >= maxKeep
      ensures AllTerminal(old(byID)[id := chain], gone)
      ensures OldestWent(old(order) + [id], old(AtWork()) + {id}, gone)
    {
      byID := byID[id := chain];
      order := order + [id];
      assert AtWork() <= old(AtWork()) + {id};
      gone := EvictLocked();
    }

    /** The worker has one more chain. Listed is what was and the new chain, less the oldest that were
        done, and those only for want of room. */
    twostate predicate Took(chain: TaskChain, id: string, gone: set<string>)
      reads *
    {
      && worker.accepted == old(worker.accepted) + {chain}
      && order == Without(old(order) + [id], gone) && byID == old(byID)[id := chain] - gone
      && (gone != {} ==> |order| >= maxKeep)
      && AllTerminal(old(byID)[id := chain], gone)
      && OldestWent(old(order) + [id], old(AtWork()) + {id}, gone)
    }

    /** Submits a new chain under a fresh id. */
    method Submit(chain: TaskChain?, id: string) returns (r: SubmitResult, ghost gone: set<string>)
      requires Valid() && id !in byID
      requires chain != null ==>
        chain !in worker.accepted && chain.id == "" && !chain.panicked && RestUnsettled(chain.tasks, 0)
      modifies this`byID, this`order, worker`queue, worker`running, worker`next, worker`begun, worker`stopped
      modifies worker`accepted
      modifies worker.accepted`tasks, worker.accepted`panicked, chain
      ensures Valid() && worker.closed == old(worker.closed)
      ensures forall c <- old(worker.accepted) :: old(c.Terminal()) ==> c.Terminal()
      ensures chain == null <==> r.ErrNil?
      ensures r.Accepted? ==> r.chain == chain && r.chain.id == id && Took(r.chain, id, gone)
      ensures !r.Accepted? ==> order == old(order) && byID == old(byID) && worker.accepted == old(worker.accepted)
      ensures !r.Accepted? && chain != null ==> chain.id == ""
      ensures r.AlreadyRunning? ==>
        r.active in worker.accepted && r.active.key == chain.key != "" && old(!r.active.Terminal())
      ensures r.Rejected? ==> if worker.closed then r.why == ErrClosed else r.why == ErrBusy
      // Nothing but a chain at work, a full queue or a closed worker refuses a chain.
      ensures (&& chain != null && !worker.closed && |old(worker.queue)| < worker.maxLen
               && forall c <- old(worker.accepted) :: c.key == chain.key != "" ==> old(c.Terminal())) ==> r.Accepted?
    {
      gone := {};
      if chain == null {
        return ErrNil, gone;
      }
      if chain.key != "" {
        var active := FindActiveLocked(chain.key);
        if active != null {
          return AlreadyRunning(active), gone;
        }
      }
      r, gone := Admit(chain, id);
    }

    method Admit(chain: TaskChain, id: string) returns (r: SubmitResult, ghost gone: set<string>)
      requires ValidBut(null) && |order| <= Limit() && id !in byID
      requires chain !in worker.accepted && chain.id == "" && !chain.panicked && RestUnsettled(chain.tasks, 0)
      requires chain.key != "" ==> forall c <- worker.accepted :: c.key == chain.key ==> c.Terminal()
      modifies this`byID, this`order, worker`queue, worker`running, worker`next, worker`begun, worker`stopped
      modifies worker`accepted
      modifies worker.accepted`tasks, worker.accepted`panicked, chain
      ensures Valid() && worker.closed == old(worker.closed)
      ensures forall c <- old(worker.accepted) :: old(c.Terminal()) ==> c.Terminal()
      ensures r == if worker.closed then Rejected(ErrClosed)
        else if |old(worker.queue)| == worker.maxLen then Rejected(ErrBusy)
                   else Accepted(chain)
      ensures if r.Accepted? then Took(chain, id, gone) && chain.id == id
              else order == old(order) && byID == old(byID) && worker.accepted == old(worker.accepted) && chain.id == ""
    {
      chain.id := id;
      var enqueued;
      enqueued, gone := Accept(chain, id);
      if enqueued != Enqueued {
        chain.id := "";
        return Rejected(enqueued), gone;
      }
      r := Accepted(chain);
    }

    method Enqueue(chain: TaskChain) returns (r: EnqueueResult)
      requires ValidBut(null) && chain !in worker.accepted && !chain.panicked && RestUnsettled(chain.tasks, 0)
      requires chain.key != "" ==> forall c <- worker.accepted :: c.key == chain.key ==> c.Terminal()
      modifies worker`queue, worker`accepted
      ensures r == if worker.closed then ErrClosed else if |old(worker.queue)| == worker.maxLen then ErrBusy
        else Enqueued
      ensures r == Enqueued ==> ValidBut(chain) && worker.accepted == old(worker.accepted) + {chain}
      ensures r != Enqueued ==> ValidBut(null) && worker.accepted == old(worker.accepted)
    {
      r := worker.TryEnqueue(chain);
    }

    /** Hands a chain to the worker, and lists it if the worker takes it. */
    method Accept(chain: TaskChain, id: string) returns (enqueued: EnqueueResult, ghost gone: set<string>)
      requires ValidBut(null) && |order| <= Limit() && id !in byID && chain.id == id
      requires chain !in worker.accepted && !chain.panicked && RestUnsettled(chain.tasks, 0)
      requires chain.key != "" ==> forall c <- worker.accepted :: c.key == chain.key ==> c.Terminal()
      modifies this`byID, this`order, worker`queue, worker`running, worker`next, worker`begun, worker`stopped
      modifies worker`accepted
      modifies worker.accepted`tasks, worker.accepted`panicked, chain`tasks, chain`panicked
      ensures Valid() && worker.closed == old(worker.closed)
      ensures forall c <- old(worker.accepted) :: old(c.Terminal()) ==> c.Terminal()
      ensures enqueued == if worker.closed then ErrClosed else if |old(worker.queue)| == worker.maxLen then ErrBusy
        else Enqueued
      ensures if enqueued == Enqueued then Took(chain, id, gone)
              else order == old(order) && byID == old(byID) && worker.accepted == old(worker.accepted)
    {
      gone := {};
      enqueued := Enqueue(chain);
      if enqueued == Enqueued {
        Progress(chain);
        WentMore(order + [id], AtWork() + {id}, old(AtWork()) + {id});
        gone := Enlist(chain, id);
      }
    }

    /** Whether some chain is at work: yes means one was, no that none is. */
    method Busy() returns (busy: bool)
      requires Valid()
      modifies worker`queue, worker`running, worker`next, worker`begun, worker`stopped
      modifies worker.accepted`tasks, worker.accepted`panicked
      ensures Valid() && worker.Later()
      ensures busy ==> exists c :: c in worker.accepted && old(!c.Terminal())
      ensures !busy ==> forall c <- worker.accepted :: c.Terminal()
    {
      var rest := byID.Keys;
      while rest != {}
        invariant rest <= byID.Keys && ValidBut(null) && worker.Later()
        invariant forall id <- byID :: id in rest || byID[id].Terminal()
      {
        var id :| id in rest;
        var terminal := Look(id, null);
        if !terminal {
          return true;
        }
        rest := rest - {id};
      }
      return false;
    }

    /** A chain is submitted, or the worker goes on. */
    method OneStep()
      requires Valid()
      modifies this`byID, this`order, worker`queue, worker`running, worker`next, worker`begun, worker`stopped
      modifies worker`accepted
      modifies worker.accepted`tasks, worker.accepted`panicked
      ensures Valid() && worker.closed == old(worker.closed)
      ensures forall c <- worker.accepted :: c in old(worker.accepted) || fresh(c)
    {
      var submit: bool, key: string, count: nat, id: string :| 0 <= count;
      if submit && id !in byID {
        var chain := new TaskChain(key, count);
        var r, gone := Submit(chain, id);
      } else {
        Progress(null);
      }
    }

    method Close()
      requires Valid()
      modifies worker`closed, worker`queue, worker`running, worker`next, worker`begun, worker`stopped
      modifies worker.accepted`tasks, worker.accepted`panicked
      ensures Valid() && worker.closed && worker.accepted == old(worker.accepted)
      ensures !old(worker.closed) && worker.started ==> forall c <- worker.accepted :: c.Terminal()
    {
      worker.Close();
    }
  }

  /** Any run of a pool and its worker: chains submitted, begun, settled, failing and panicking. At
      every moment of it no two chains of one key are at work, all that are at work are listed, and
      no more are listed than the limit. */
  method AnyRun(maxLen: nat, maxKeep: nat) returns (pool: Pool)
    ensures fresh(pool) && fresh(pool.worker) && fresh(pool.worker.accepted)
    ensures pool.Valid() && pool.worker.started && !pool.worker.closed
    ensures |pool.order| <= pool.maxKeep || |pool.order| <= pool.worker.maxLen + 1
    ensures pool.maxKeep == (if maxKeep == 0 then 100 else maxKeep)
    ensures pool.worker.maxLen == if maxLen == 0 then 100 else maxLen
  {
    var worker := new Worker(maxLen);
    pool := new Pool(worker, maxKeep);
    worker.Start();
    var steps: nat :| 0 <= steps;
    while steps > 0
      invariant fresh(pool) && fresh(worker) && pool.worker == worker && pool.Valid()
      invariant worker.started && !worker.closed && fresh(worker.accepted)
    {
      pool.OneStep();
      steps := steps - 1;
    }
  }

  /** Closed after any run, everything accepted is terminal. */
  method AnyRunClosed(maxLen: nat, maxKeep: nat) returns (pool: Pool)
    ensures fresh(pool) && pool.Valid() && pool.worker.closed && forall c <- pool.worker.accepted :: c.Terminal()
  {
    pool := AnyRun(maxLen, maxKeep);
    pool.Close();
  }
}
