/** The write-behind persistence of the browser demo (cmd/plainshelf-wasm/web/opfs.js and
    opfs-writer.js): draining the marked nodes into OPFS while the program keeps working. */
module Opfs {
  import opened Basics
  import opened MemTree
  import opened WriteBehind
  import M = MemFs

  function Below(o: Opfs, d: Path): set<Path> {
    set p | p in o && d < p
  }

  function AtOrBelow(o: Opfs, d: Path): set<Path> {
    set p | p in o && d <= p
  }

  lemma BelowChild(o: Opfs, d: Path, x: Name)
    ensures AtOrBelow(o, d + [x]) <= Below(o, d)
  {}

  /** Everything stored below d is in memory, but for what is under the names still to come. */
  ghost predicate RestoredSoFar(m: Mem, o: Opfs, d: Path, rest: set<Name>)
    requires ValidMem(m)
  {
    && (forall p: Path {:trigger Agree(m, o, p)} :: d < p && p[|d|] !in rest ==> Agree(m, o, p))
    && (forall p <- m.nodes :: d < p ==> p[|d|] !in rest)
  }

  ghost predicate OthersKept(m: Mem, m': Mem, d: Path) {
    && (forall p: Path {:trigger At(m'.nodes, p)} :: !(d < p) ==> At(m'.nodes, p) == At(m.nodes, p))
    && (forall i <- m.objects :: i in m'.objects && m'.objects[i] == m.objects[i])
  }

  /** One more child of d restored, and nothing else touched. */
  lemma NameRestored(m: Mem, m': Mem, o: Opfs, d: Path, x: Name, rest: set<Name>)
    requires ValidMem(m) && ValidMem(m')
    requires forall r: Path {:trigger Agree(m', o, r)} :: d + [x] <= r ==> Agree(m', o, r)
    requires forall r: Path {:trigger At(m'.nodes, r)} :: !(d + [x] <= r) ==> At(m'.nodes, r) == At(m.nodes, r)
    requires forall i <- m.objects :: i in m'.objects && m'.objects[i] == m.objects[i]
    requires RestoredSoFar(m, o, d, rest + {x}) && x !in rest
    ensures RestoredSoFar(m', o, d, rest) && OthersKept(m, m', d)
  {
    assert (d + [x])[|d|] == x;
    forall p: Path | d < p && p[|d|] !in rest ensures Agree(m', o, p) {
      if p[|d|] != x {
        assert Agree(m, o, p) && At(m'.nodes, p) == At(m.nodes, p);
      } else {
        assert d + [x] <= p;
      }
    }
    forall p | p in m'.nodes && d < p ensures p[|d|] !in rest {
      assert At(m'.nodes, p) == {m'.nodes[p]};
      assert d + [x] <= p ==> p[|d|] == x;
    }
    forall p: Path | !(d < p) ensures At(m'.nodes, p) == At(m.nodes, p) {
      assert !(d + [x] <= p);
    }
  }

  class Storage {
    const mem: M.MemFs
    var opfs: Opfs
    ghost var disturbances: nat  // operations that ran during a wait, and injected failures

    /** The invariant with a queue of entries still to be written. */
    ghost predicate Consistent(queue: seq<Entry>) reads this, mem {
      mem.Valid() && Inv(mem.State(), opfs, queue)
    }

    /** A fresh memory and an empty storage. */
    constructor (mem: M.MemFs)
      requires mem.Valid() && mem.nodes.Keys == {[]} && mem.dirty == {}
      ensures this.mem == mem && Consistent([])
    {
      this.mem := mem;
      opfs, disturbances := map[[] := Directory], 0;
      new;
      forall p: Path ensures Covered(mem.State(), opfs, [], p) {}
    }

    /** Loading a page: a memory holding only its root is filled from what storage holds. */
    constructor Load(mem: M.MemFs, stored: Opfs)
      requires mem.Valid() && mem.nodes.Keys == {[]} && ValidOpfs(stored)
      modifies mem
      ensures this.mem == mem && opfs == stored && Consistent([])
      ensures mem.dirty == {} && forall p: Path :: Agree(mem.State(), opfs, p)
    {
      this.mem := mem;
      opfs, disturbances := stored, 0;
      new;
      Restore([]);
      ghost var m := mem.State();
      var discarded := mem.TakeDirtyParentsFirst();
      forall p: Path ensures Agree(mem.State(), opfs, p) {
        assert p == [] || [] < p;
        if p == [] {
          assert At(mem.nodes, p) != {};
        } else {
          assert Agree(m, opfs, p);
        }
      }
      forall p: Path ensures Covered(mem.State(), opfs, [], p) && ClashCovered(mem.State(), opfs, [], p) {
        assert Agree(mem.State(), opfs, p);
      }
    }

    /** Restores everything stored below a directory that memory already has. */
    method Restore(d: Path)
      requires mem.Valid() && ValidOpfs(opfs) && d in opfs && opfs[d].Directory?
      requires mem.KindOf(d) == Some(Dir) && M.NothingBelow(mem.nodes, d)
      modifies mem
      ensures mem.Valid()
      ensures forall p: Path {:trigger Agree(mem.State(), opfs, p)} :: d < p ==> Agree(mem.State(), opfs, p)
      ensures forall p: Path {:trigger At(mem.nodes, p)} :: !(d < p) ==> At(mem.nodes, p) == At(old(mem.nodes), p)
      ensures forall i <- old(mem.objects) :: i in mem.objects && mem.objects[i] == old(mem.objects)[i]
      decreases Below(opfs, d), 2
    {
      var names := ChildNames(d);
      forall p: Path | d < p && p[|d|] !in names ensures Agree(mem.State(), opfs, p) {
        UnlistedNotStored(d, p);
      }
      while names != {}
        invariant mem.Valid() && mem.KindOf(d) == Some(Dir)
        invariant names <= ChildNames(d)
        invariant RestoredSoFar(mem.State(), opfs, d, names)
        invariant OthersKept(old(mem.State()), mem.State(), d)
      {
        var x :| x in names;
        names := names - {x};
        RestoreName(d, x, names);
      }
    }

    method RestoreName(d: Path, x: Name, ghost rest: set<Name>)
      requires mem.Valid() && ValidOpfs(opfs) && mem.KindOf(d) == Some(Dir) && x in ChildNames(d) && x !in rest
      requires RestoredSoFar(mem.State(), opfs, d, rest + {x})
      modifies mem
      ensures mem.Valid() && mem.KindOf(d) == Some(Dir)
      ensures RestoredSoFar(mem.State(), opfs, d, rest)
      ensures OthersKept(old(mem.State()), mem.State(), d)
      decreases Below(opfs, d), 1
    {
      var m := mem.State();
      ChildrenStored(d);
      assert Parent(d + [x]) == d && (d + [x])[|d|] == x;
      BelowChild(opfs, d, x);
      RestoreChild(d + [x]);
      NameRestored(m, mem.State(), opfs, d, x, rest);
      assert At(mem.nodes, d) == At(m.nodes, d);
    }

    method RestoreChild(p: Path)
      requires mem.Valid() && ValidOpfs(opfs) && p in opfs && p != []
      requires mem.KindOf(Parent(p)) == Some(Dir)
      requires forall r <- mem.nodes :: !(p <= r)
      modifies mem
      ensures mem.Valid()
      ensures forall r: Path {:trigger Agree(mem.State(), opfs, r)} :: p <= r ==> Agree(mem.State(), opfs, r)
      ensures forall r: Path {:trigger At(mem.nodes, r)} :: !(p <= r) ==> At(mem.nodes, r) == At(old(mem.nodes), r)
      ensures forall i <- old(mem.objects) :: i in mem.objects && mem.objects[i] == old(mem.objects)[i]
      decreases AtOrBelow(opfs, p), 0
    {
      ghost var m := mem.State();
      if opfs[p].Directory? {
        mem.RestoreDir(p);
        ghost var m1 := mem.State();
        assert p in AtOrBelow(opfs, p) && p !in Below(opfs, p);
        Restore(p);
        forall r: Path | p <= r ensures Agree(mem.State(), opfs, r) {
          if r == p {
            assert At(mem.nodes, p) == At(m1.nodes, p) == {m1.nodes[p]};
          }
        }
        forall r: Path | !(p <= r) ensures At(mem.nodes, r) == At(m.nodes, r) {
          assert At(mem.nodes, r) == At(m1.nodes, r);
        }
      } else {
        M.MissingHasNoChildren(m, p);
        mem.RestoreFile(p, opfs[p].data);
        forall r: Path | p <= r ensures Agree(mem.State(), opfs, r) {
          if r != p && r in opfs {
            assert p == r[..|p|];
            StoredAncestors(opfs, r, |p|);
          }
        }
      }
    }

    lemma UnlistedNotStored(d: Path, p: Path)
      requires ValidOpfs(opfs) && d < p && p[|d|] !in ChildNames(d)
      ensures p !in opfs
    {
      var child := p[..|d| + 1];
      assert child == d + [p[|d|]] && Parent(child) == d && child[|d|] == p[|d|];
      assert |d| + 1 == |p| ==> child == p;
      if p in opfs && |d| + 1 < |p| {
        StoredAncestors(opfs, p, |d| + 1);
      }
    }

    /** A wait: the program may use the file system before the next step. */
    method Wait(ghost queue: seq<Entry>)
      requires Consistent(queue)
      modifies this`disturbances, mem
      ensures Consistent(queue)
      ensures mem.Kept()
      ensures old(disturbances) <= disturbances
      ensures disturbances == old(disturbances) ==> mem.State() == old(mem.State())
    {
      var ran := mem.AnyOperations();
      disturbances := disturbances + ran;
      OperationKeepsInv(old(mem.State()), mem.State(), opfs, queue);
    }

    /** An I/O failure may strike at any step. */
    method Fault() returns (failed: bool)
      modifies this`disturbances
      ensures failed ==> old(disturbances) < disturbances
      ensures !failed ==> disturbances == old(disturbances)
    {
      failed := *;
      if failed {
        disturbances := disturbances + 1;
      }
    }

    /** dirAt with create: walks down to the first n components of an entry's path, making what
        is missing; a file in the way is an error. */
    method MakeDirectories(e: Entry, n: nat, ghost queue: seq<Entry>) returns (ok: bool)
      requires Consistent(queue) && queue != [] && queue[0] == e
      requires n <= |e.path| && (n == |e.path| ==> e.kind == Dir)
      modifies this, mem
      ensures Consistent(queue) && old(disturbances) <= disturbances
      ensures ok ==> forall k :: 0 <= k <= n ==> e.path[..k] in opfs && opfs[e.path[..k]].Directory?
      ensures disturbances == old(disturbances) ==> mem.State() == old(mem.State())
      ensures disturbances == old(disturbances) && mem.dirty == {} ==> ok
    {
      var i := 0;
      assert e.path[..0] == [];
      while i < n
        invariant 0 <= i <= n && Consistent(queue) && old(disturbances) <= disturbances
        invariant forall k :: 0 <= k <= i ==> e.path[..k] in opfs && opfs[e.path[..k]].Directory?
        invariant disturbances == old(disturbances) ==> mem.State() == old(mem.State())
      {
        Wait(queue);
        var failed := Fault();
        if failed {
          return false;
        }
        var p := e.path[..i + 1];
        if mem.dirty == {} {
          UndisturbedHasNoClash(mem.State(), opfs, queue, i + 1);
        }
        if p in opfs {
          if opfs[p].Contents? {
            return false;
          }
        } else {
          assert e.path[..i] in opfs;
          MakeDirectoryKeepsInv(mem.State(), opfs, queue, e, i + 1);
          opfs := opfs[p := Directory];
        }
        i := i + 1;
      }
      return true;
    }

    /** The worker's part: open the file, creating it empty, then truncate, write and close. */
    method WriteFile(e: Entry, ghost queue: seq<Entry>) returns (ok: bool)
      requires Consistent(queue) && queue != [] && queue[0] == e && e.kind == File
      modifies this, mem
      ensures Consistent(queue) && old(disturbances) <= disturbances
      ensures ok ==> e.path in opfs && opfs[e.path] == Contents(e.data)
      ensures disturbances == old(disturbances) ==> mem.State() == old(mem.State())
      ensures disturbances == old(disturbances) && mem.dirty == {} ==> ok
    {
      assert EntryHolds(mem.State(), e);
      assert e.path != [];
      ok := MakeDirectories(e, |e.path| - 1, queue);
      if !ok {
        return;
      }
      Wait(queue);
      var failed := Fault();
      if failed {
        return false;
      }
      assert Parent(e.path) in opfs;
      assert e.path[..|e.path|] == e.path;
      if mem.dirty == {} {
        UndisturbedHasNoClash(mem.State(), opfs, queue, |e.path|);
      }
      if e.path in opfs && opfs[e.path].Directory? {
        return false;
      }
      if e.path !in opfs {
        PutFileKeepsInv(mem.State(), opfs, queue, e, []);
        opfs := opfs[e.path := Contents([])];
      }
      ok := PutContents(e, queue, []);
      if ok {
        ok := PutContents(e, queue, e.data);
      }
    }

    /** One write through the access handle; a failing one may leave anything behind. */
    method PutContents(e: Entry, ghost queue: seq<Entry>, data: seq<bv8>) returns (ok: bool)
      requires Consistent(queue) && queue != [] && queue[0] == e && e.kind == File && e.path != []
      requires Parent(e.path) in opfs && opfs[Parent(e.path)].Directory? && e.path in opfs && opfs[e.path].Contents?
      modifies this, mem
      ensures Consistent(queue) && old(disturbances) <= disturbances
      ensures Parent(e.path) in opfs && opfs[Parent(e.path)].Directory? && e.path in opfs && opfs[e.path].Contents?
      ensures ok ==> opfs[e.path] == Contents(data)
      ensures !ok ==> old(disturbances) < disturbances
      ensures disturbances == old(disturbances) ==> mem.State() == old(mem.State())
    {
      Wait(queue);
      var failed := Fault();
      var written := data;
      if failed {
        written := *;
      }
      PutFileKeepsInv(mem.State(), opfs, queue, e, written);
      opfs := opfs[e.path := Contents(written)];
      return !failed;
    }

    /** A directory entry: make the directory, look at every stored child, remove the stale ones. */
    method WriteDirectory(e: Entry, ghost queue: seq<Entry>) returns (ok: bool)
      requires Consistent(queue) && queue != [] && queue[0] == e && e.kind == Dir
      modifies this, mem
      ensures Consistent(queue) && old(disturbances) <= disturbances
      ensures ok ==> e.path in opfs && opfs[e.path].Directory? && Listed(mem.State(), opfs, e.path, {}, {})
      ensures disturbances == old(disturbances) ==> mem.State() == old(mem.State())
      ensures disturbances == old(disturbances) && mem.dirty == {} ==> ok
    {
      ok := MakeDirectories(e, |e.path|, queue);
      if !ok {
        return;
      }
      assert e.path[..|e.path|] == e.path;
      var stale: set<Name>;
      ok, stale := FindStale(e, queue);
      if ok {
        ok := RemoveStale(e, stale, queue);
      }
    }

    function ChildNames(d: Path): set<Name> reads this {
      set p | p in opfs && p != [] && Parent(p) == d :: p[|d|]
    }

    lemma ChildrenStored(d: Path)
      ensures forall x <- ChildNames(d) :: d + [x] in opfs
    {
      forall x | x in ChildNames(d) ensures d + [x] in opfs {
        var p :| p in opfs && p != [] && Parent(p) == d && p[|d|] == x;
        assert p == d + [x];
      }
    }

    method FindStale(e: Entry, ghost queue: seq<Entry>) returns (ok: bool, stale: set<Name>)
      requires Consistent(queue) && e.path in opfs && opfs[e.path].Directory?
      modifies this`disturbances, mem
      ensures Consistent(queue) && old(disturbances) <= disturbances
      ensures ok ==> Listed(mem.State(), opfs, e.path, {}, stale)
      ensures forall x <- stale :: StaleMarked(mem.State(), queue, e.path + [x])
      ensures disturbances == old(disturbances) ==> ok && mem.State() == old(mem.State())
    {
      var d := e.path;
      var names := ChildNames(d);
      stale := {};
      forall x: Name | d + [x] in opfs ensures x in names {
        assert Parent(d + [x]) == d && (d + [x])[|d|] == x;
      }
      ChildrenStored(d);
      while names != {}
        invariant Consistent(queue) && old(disturbances) <= disturbances
        invariant forall x <- names :: d + [x] in opfs
        invariant Listed(mem.State(), opfs, d, names, stale)
        invariant forall x <- stale :: StaleMarked(mem.State(), queue, d + [x])
        invariant disturbances == old(disturbances) ==> mem.State() == old(mem.State())
      {
        WaitListing(queue, d, names, stale);
        var failed := Fault();
        if failed {
          return false, stale;
        }
        var x :| x in names;
        names := names - {x};
        if mem.KindOf(d + [x]) != StoredKind(opfs, d + [x]) {
          MismatchIsStale(mem.State(), opfs, queue, d + [x]);
          stale := stale + {x};
        }
      }
      return true, stale;
    }

    method WaitListing(ghost queue: seq<Entry>, ghost d: Path, ghost rest: set<Name>, ghost stale: set<Name>)
      requires Consistent(queue) && Listed(mem.State(), opfs, d, rest, stale)
      requires forall x <- stale :: StaleMarked(mem.State(), queue, d + [x])
      modifies this`disturbances, mem
      ensures Consistent(queue) && Listed(mem.State(), opfs, d, rest, stale)
      ensures forall x <- stale :: StaleMarked(mem.State(), queue, d + [x])
      ensures old(disturbances) <= disturbances
      ensures disturbances == old(disturbances) ==> mem.State() == old(mem.State())
    {
      ghost var m := mem.State();
      Wait(queue);
      ListedKept(m, mem.State(), opfs, d, rest, stale);
      forall x | x in stale ensures StaleMarked(mem.State(), queue, d + [x]) {
        StaleMarkedKept(m, mem.State(), queue, d + [x]);
      }
    }

    /** A recursive removal under way: some of what lies at or below a stale child is gone, and the
        program works on meanwhile. */
    method RemoveSome(d: Path, x: Name, ghost stale: set<Name>, ghost queue: seq<Entry>)
      requires Consistent(queue) && d in opfs && opfs[d].Directory? && x in stale
      requires Listed(mem.State(), opfs, d, {}, stale)
      requires forall y <- stale :: StaleMarked(mem.State(), queue, d + [y])
      modifies this, mem
      ensures Consistent(queue) && d in opfs && opfs[d].Directory? && Listed(mem.State(), opfs, d, {}, stale)
      ensures forall y <- stale :: StaleMarked(mem.State(), queue, d + [y])
      ensures old(disturbances) <= disturbances
      ensures disturbances == old(disturbances) ==> mem.State() == old(mem.State())
    {
      WaitListing(queue, d, {}, stale);
      var steps: nat :| 0 <= steps;
      while steps > 0
        invariant Consistent(queue) && d in opfs && opfs[d].Directory? && Listed(mem.State(), opfs, d, {}, stale)
        invariant forall y <- stale :: StaleMarked(mem.State(), queue, d + [y])
        invariant old(disturbances) <= disturbances
        invariant disturbances == old(disturbances) ==> mem.State() == old(mem.State())
      {
        var below: Path := *;
        var r := d + [x] + below;
        assert StaleMarked(mem.State(), queue, d + [x]) && d + [x] <= r && !(r <= d);
        RemoveKeepsInv(mem.State(), opfs, queue, r);
        opfs := Without(opfs, r);
        WaitListing(queue, d, {}, stale);
        steps := steps - 1;
      }
    }

    method RemoveStale(e: Entry, names: set<Name>, ghost queue: seq<Entry>) returns (ok: bool)
      requires Consistent(queue) && e.path in opfs && opfs[e.path].Directory?
      requires Listed(mem.State(), opfs, e.path, {}, names)
      requires forall x <- names :: StaleMarked(mem.State(), queue, e.path + [x])
      modifies this, mem
      ensures Consistent(queue) && old(disturbances) <= disturbances
      ensures ok ==> e.path in opfs && opfs[e.path].Directory? && Listed(mem.State(), opfs, e.path, {}, {})
      ensures disturbances == old(disturbances) ==> ok && mem.State() == old(mem.State())
    {
      var d := e.path;
      var stale := names;
      while stale != {}
        invariant Consistent(queue) && old(disturbances) <= disturbances
        invariant d in opfs && opfs[d].Directory?
        invariant Listed(mem.State(), opfs, d, {}, stale)
        invariant forall x <- stale :: StaleMarked(mem.State(), queue, d + [x])
        invariant disturbances == old(disturbances) ==> mem.State() == old(mem.State())
      {
        var x :| x in stale;
        RemoveSome(d, x, stale, queue);
        var failed := Fault();
        if failed {
          return false;
        }
        RemoveKeepsInv(mem.State(), opfs, queue, d + [x]);
        opfs := Without(opfs, d + [x]);
        stale := stale - {x};
      }
      return true;
    }

    /** Writes one entry, and marks its path again when that fails. */
    method WriteEntry(e: Entry, ghost queue: seq<Entry>)
      requires Consistent(queue) && queue != [] && queue[0] == e
      modifies this, mem
      ensures Consistent(queue[1..]) && old(disturbances) <= disturbances
      ensures disturbances == old(disturbances) && old(mem.dirty) == {} ==> mem.State() == old(mem.State())
    {
      var ok: bool;
      if e.kind == Dir {
        ok := WriteDirectory(e, queue);
        if ok {
          FinishDirectoryKeepsInv(mem.State(), opfs, queue);
        }
      } else {
        ok := WriteFile(e, queue);
        if ok {
          FinishFileKeepsInv(mem.State(), opfs, queue);
        }
      }
      if !ok {
        Wait(queue);
        RequeueKeepsInv(mem.State(), opfs, queue);
        mem.RequeueDirty(e.path);
      }
    }

    /** One drain.  Whatever runs or fails meanwhile, every difference between memory and storage
        stays marked; undisturbed, storage ends up equal to memory. */
    method Drain()
      requires Consistent([])
      modifies this, mem
      ensures Consistent([])
      ensures old(disturbances) <= disturbances
      ensures disturbances == old(disturbances) ==>
        && mem.nodes == old(mem.nodes) && mem.objects == old(mem.objects) && mem.dirty == {}
        && forall p: Path :: Agree(mem.State(), opfs, p)
    {
      ghost var m := mem.State();
      var entries := mem.TakeDirtyParentsFirst();
      TakeKeepsInv(m, opfs, entries);
      for i := 0 to |entries|
        invariant Consistent(entries[i..]) && old(disturbances) <= disturbances
        invariant disturbances == old(disturbances) ==> mem.State() == m.(dirty := {})
      {
        WriteEntry(entries[i], entries[i..]);
        assert entries[i..][1..] == entries[i + 1..];
      }
      if disturbances == old(disturbances) {
        SettledMeansEqual(mem.State(), opfs);
      }
    }

    /** Any run: the program works, drains follow one another, writes fail and are repeated. */
    method AnyRun()
      requires Consistent([])
      modifies this, mem
      ensures Consistent([])
    {
      var steps: nat :| 0 <= steps;
      while steps > 0
        invariant Consistent([])
      {
        var draining: bool := *;
        if draining {
          Drain();
        } else {
          Wait([]);
        }
        steps := steps - 1;
      }
    }
  }
}
