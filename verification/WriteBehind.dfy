/** Why the write-behind copy in OPFS (cmd/plainshelf-wasm/web/opfs.js) loses nothing: the
    invariant of a drain in progress, kept by every single step of it and by every file system
    operation that runs between two of its steps. */
module WriteBehind {
  import opened Basics
  import opened MemTree

  datatype Stored = Directory | Contents(data: seq<bv8>)

  type Opfs = map<Path, Stored>

  ghost predicate ValidOpfs(o: Opfs) {
    && [] in o && o[[]].Directory?
    && forall p {:trigger InDirectory(o, p)} | p in o :: InDirectory(o, p)
  }

  ghost predicate InDirectory(o: Opfs, p: Path) {
    p != [] ==> Parent(p) in o && o[Parent(p)].Directory?
  }

  function StoredKind(o: Opfs, p: Path): Option<Kind> {
    if p !in o then None else if o[p].Directory? then Some(Dir) else Some(File)
  }

  /** Storage shows at p exactly what memory holds there. */
  ghost predicate Agree(m: Mem, o: Opfs, p: Path)
    requires ValidMem(m)
  {
    && StoredKind(o, p) == KindAt(m, p)
    && (KindAt(m, p) == Some(File) ==> o[p].data == Content(m.objects[m.nodes[p]]))
  }

  ghost predicate Pending(q: seq<Entry>, p: Path) {
    exists i :: 0 <= i < |q| && q[i].path == p
  }

  ghost predicate Marked(m: Mem, q: seq<Entry>, p: Path) {
    p in m.nodes && (DirtyAt(m, p) || Pending(q, p))
  }

  /** Every difference is covered: the path itself, or the nearest live directory above it, is
      marked or still waiting to be written. */
  ghost predicate Covered(m: Mem, o: Opfs, q: seq<Entry>, p: Path)
    requires ValidMem(m)
  {
    Agree(m, o, p) || Marked(m, q, Nearest(m, p))
  }

  ghost predicate Clash(m: Mem, o: Opfs, p: Path)
    requires ValidMem(m)
  {
    p in m.nodes && p in o && StoredKind(o, p) != KindAt(m, p)
  }

  /** A file where a directory belongs, or the reverse, also has its directory covered: that
      is who removes it. */
  ghost predicate ClashCovered(m: Mem, o: Opfs, q: seq<Entry>, p: Path)
    requires ValidMem(m)
  {
    Clash(m, o, p) ==> p != [] && Marked(m, q, Parent(p))
  }

  /** Memory at p is still of this kind, or it changed since and the change is marked. */
  ghost predicate StillOrMarked(m: Mem, p: Path, kind: Kind)
    requires ValidMem(m)
  {
    KindAt(m, p) == Some(kind) || (p != [] && DirtyAt(m, Nearest(m, p)) && MarkedAbove(m, p))
  }

  ghost predicate EntryHolds(m: Mem, e: Entry)
    requires ValidMem(m)
  {
    && (forall k {:trigger e.path[..k]} :: 0 <= k < |e.path| ==> StillOrMarked(m, e.path[..k], Dir))
    && StillOrMarked(m, e.path, e.kind)
    && (KindAt(m, e.path) == Some(File) && e.kind == File ==>
        e.data == Content(m.objects[m.nodes[e.path]]) || DirtyAt(m, e.path))
  }

  ghost predicate Inv(m: Mem, o: Opfs, q: seq<Entry>) {
    && ValidMem(m) && ValidOpfs(o) && ParentsFirst(q)
    && (forall p: Path {:trigger Covered(m, o, q, p)} :: Covered(m, o, q, p))
    && (forall p: Path {:trigger ClashCovered(m, o, q, p)} :: ClashCovered(m, o, q, p))
    && (forall e {:trigger EntryHolds(m, e)} | e in q :: EntryHolds(m, e))
  }

  // ---------- Operations between the steps ----------

  lemma StillOrMarkedKept(m: Mem, m': Mem, p: Path, kind: Kind)
    requires ValidMem(m) && ValidMem(m') && Touched(m, m') && StillOrMarked(m, p, kind)
    ensures StillOrMarked(m', p, kind)
  {
    if KindAt(m', p) != Some(kind) {
      if KindAt(m, p) == Some(kind) {
        assert MarkedAbove(m', p);
        assert p in m'.nodes ==> DirtyAt(m', p) || SameNode(m, m', p);
      } else {
        NearestStable(m, m', p);
        NearestStable(m, m', Parent(p));
      }
    }
  }

  lemma EntryHoldsKept(m: Mem, m': Mem, e: Entry)
    requires ValidMem(m) && ValidMem(m') && Touched(m, m') && EntryHolds(m, e)
    ensures EntryHolds(m', e)
  {
    forall k | 0 <= k < |e.path| ensures StillOrMarked(m', e.path[..k], Dir) {
      StillOrMarkedKept(m, m', e.path[..k], Dir);
    }
    StillOrMarkedKept(m, m', e.path, e.kind);
    if KindAt(m', e.path) == Some(File) && !DirtyAt(m', e.path) {
      assert SameNode(m, m', e.path);
    }
  }

  lemma MarkedKept(m: Mem, m': Mem, q: seq<Entry>, p: Path)
    requires ValidMem(m) && ValidMem(m') && Touched(m, m')
    requires Marked(m, q, p) && p in m'.nodes
    ensures Marked(m', q, p)
  {}

  lemma CoveredKept(m: Mem, m': Mem, o: Opfs, q: seq<Entry>, p: Path)
    requires ValidMem(m) && ValidMem(m') && Touched(m, m') && Covered(m, o, q, p)
    ensures Covered(m', o, q, p)
  {
    NearestStable(m, m', p);
  }

  lemma OperationKeepsInv(m: Mem, m': Mem, o: Opfs, q: seq<Entry>)
    requires Inv(m, o, q) && ValidMem(m') && Touched(m, m')
    ensures Inv(m', o, q)
  {
    forall p: Path ensures Covered(m', o, q, p) {
      assert Covered(m, o, q, p);
      CoveredKept(m, m', o, q, p);
    }
    forall p: Path ensures ClashCovered(m', o, q, p) {
      assert ClashCovered(m, o, q, p);
      if Clash(m', o, p) {
        assert UnderDirectory(m', p);
        if Clash(m, o, p) {
          MarkedKept(m, m', q, Parent(p));
        } else {
          assert MarkedAbove(m', p);
        }
      }
    }
    forall e | e in q ensures EntryHolds(m', e) {
      assert EntryHolds(m, e);
      EntryHoldsKept(m, m', e);
    }
  }

  // ---------- The steps of a drain ----------

  lemma {:induction false} StoredAncestors(o: Opfs, p: Path, k: nat)
    requires ValidOpfs(o) && p in o && k < |p|
    ensures p[..k] in o && o[p[..k]].Directory?
    decreases |p| - k
  {
    assert InDirectory(o, p);
    if k + 1 == |p| {
      assert p[..k] == Parent(p);
    } else {
      StoredAncestors(o, p, k + 1);
      assert InDirectory(o, p[..k + 1]);
      assert Parent(p[..k + 1]) == p[..k];
    }
  }

  /** Taking the marks away and queueing what they marked leaves every difference covered. */
  lemma TakeKeepsInv(m: Mem, o: Opfs, entries: seq<Entry>)
    requires Inv(m, o, []) && TakesMarked(m, entries) && ParentsFirst(entries)
    ensures Inv(m.(dirty := {}), o, entries)
  {
    var m' := m.(dirty := {});
    MarksKeepTree(m, m');
    forall p | Marked(m, [], p) ensures Marked(m', entries, p) {
      assert EntryFor(m, p) in entries;
    }
    forall p: Path ensures Covered(m', o, entries, p) {
      assert Covered(m, o, [], p);
    }
    forall p: Path ensures ClashCovered(m', o, entries, p) {
      assert ClashCovered(m, o, [], p);
    }
    forall e | e in entries ensures EntryHolds(m', e) {
      assert e == EntryFor(m, e.path);
      forall k | 0 <= k < |e.path| ensures StillOrMarked(m', e.path[..k], Dir) {
        AncestorsLive(m, e.path, k);
      }
    }
  }

  lemma MakeDirectoryKeepsInv(m: Mem, o: Opfs, q: seq<Entry>, e: Entry, k: nat)
    requires Inv(m, o, q) && e in q && 0 < k <= |e.path| && (k == |e.path| ==> e.kind == Dir)
    requires e.path[..k] !in o && e.path[..k - 1] in o && o[e.path[..k - 1]].Directory?
    ensures Inv(m, o[e.path[..k] := Directory], q)
  {
    var p := e.path[..k];
    var o' := o[p := Directory];
    assert Parent(p) == e.path[..k - 1];
    assert e.path[..|e.path|] == e.path;
    assert EntryHolds(m, e) && StillOrMarked(m, p, Dir);
    forall a | a in o' ensures InDirectory(o', a) {
      assert a != p ==> InDirectory(o, a);
    }
    forall a: Path ensures Covered(m, o', q, a) {
      assert Covered(m, o, q, a);
    }
    forall a: Path ensures ClashCovered(m, o', q, a) {
      assert ClashCovered(m, o, q, a);
      if a == p && Clash(m, o', a) {
        assert UnderDirectory(m, p);
      }
    }
  }

  lemma PutFileKeepsInv(m: Mem, o: Opfs, q: seq<Entry>, e: Entry, data: seq<bv8>)
    requires Inv(m, o, q) && e in q && e.kind == File && e.path != []
    requires Parent(e.path) in o && o[Parent(e.path)].Directory? && StoredKind(o, e.path) != Some(Dir)
    ensures Inv(m, o[e.path := Contents(data)], q)
  {
    var p := e.path;
    var o' := o[p := Contents(data)];
    assert EntryHolds(m, e);
    forall a | a in o' ensures InDirectory(o', a) {
      assert a in o ==> InDirectory(o, a);
    }
    assert Pending(q, p) by {
      var i :| 0 <= i < |q| && q[i] == e;
    }
    forall a: Path ensures Covered(m, o', q, a) {
      assert Covered(m, o, q, a);
    }
    forall a: Path ensures ClashCovered(m, o', q, a) {
      assert ClashCovered(m, o, q, a);
      if a == p && Clash(m, o', a) {
        assert UnderDirectory(m, p);
      }
    }
  }

  /** The first entry of the queue may be dropped once nothing relies on it alone. */
  lemma DropHead(m: Mem, o: Opfs, q: seq<Entry>)
    requires Inv(m, o, q) && q != []
    requires DirtyAt(m, q[0].path)
      || ((forall a: Path {:trigger Agree(m, o, a)} :: Nearest(m, a) == q[0].path ==> Agree(m, o, a))
          && (forall a: Path {:trigger Clash(m, o, a)} :: a != [] && Parent(a) == q[0].path ==> !Clash(m, o, a)))
    ensures Inv(m, o, q[1..])
  {
    forall a | Marked(m, q, a) && a != q[0].path ensures Marked(m, q[1..], a) {
      if Pending(q, a) {
        var i :| 0 <= i < |q| && q[i].path == a;
        assert q[1..][i - 1].path == a;
      }
    }
    forall a: Path ensures Covered(m, o, q[1..], a) {
      assert Covered(m, o, q, a);
    }
    forall a: Path ensures ClashCovered(m, o, q[1..], a) {
      assert ClashCovered(m, o, q, a);
      assert a != [] && Parent(a) == q[0].path ==> !Clash(m, o, a) || DirtyAt(m, q[0].path);
    }
  }

  lemma FinishFileKeepsInv(m: Mem, o: Opfs, q: seq<Entry>)
    requires Inv(m, o, q) && q != [] && q[0].kind == File
    requires q[0].path in o && o[q[0].path] == Contents(q[0].data)
    ensures Inv(m, o, q[1..])
  {
    var p := q[0].path;
    assert EntryHolds(m, q[0]);
    if !DirtyAt(m, p) {
      forall a: Path | Nearest(m, a) == p ensures Agree(m, o, a) {
        assert p == a[..|p|];
        if a != p && a in o {
          StoredAncestors(o, a, |p|);
        }
      }
      forall a: Path | a != [] && Parent(a) == p ensures !Clash(m, o, a) {
        assert a in o ==> InDirectory(o, a);
      }
    }
    DropHead(m, o, q);
  }

  /** Everything live at or below p is marked, so nothing is lost when storage drops it. */
  ghost predicate StaleMarked(m: Mem, q: seq<Entry>, p: Path) {
    forall r {:trigger Marked(m, q, r)} | r in m.nodes && p <= r :: Marked(m, q, r)
  }

  lemma StaleMarkedKept(m: Mem, m': Mem, q: seq<Entry>, p: Path)
    requires ValidMem(m) && ValidMem(m') && Touched(m, m') && StaleMarked(m, q, p)
    ensures StaleMarked(m', q, p)
  {
    forall r | r in m'.nodes && p <= r ensures Marked(m', q, r) {
      assert DirtyAt(m', r) || SameNode(m, m', r);
      if r in m.nodes {
        assert Marked(m, q, r);
      }
    }
  }

  /** A stored child whose kind memory does not confirm may go: what lives there is marked. */
  lemma MismatchIsStale(m: Mem, o: Opfs, q: seq<Entry>, child: Path)
    requires Inv(m, o, q) && child in o && StoredKind(o, child) != KindAt(m, child)
    ensures StaleMarked(m, q, child)
  {
    forall r | r in m.nodes && child <= r ensures Marked(m, q, r) {
      assert Covered(m, o, q, r);
      if r != child {
        assert child == r[..|child|];
        AncestorsLive(m, r, |child|);
        if r in o {
          StoredAncestors(o, r, |child|);
        }
      }
    }
  }

  function Without(o: Opfs, p: Path): Opfs {
    map r | r in o && !(p <= r) :: o[r]
  }

  lemma RemoveKeepsInv(m: Mem, o: Opfs, q: seq<Entry>, child: Path)
    requires Inv(m, o, q) && child != [] && StaleMarked(m, q, child)
    ensures Inv(m, Without(o, child), q)
  {
    var o' := Without(o, child);
    forall a | a in o' ensures InDirectory(o', a) {
      assert InDirectory(o, a);
    }
    forall a: Path ensures Covered(m, o', q, a) {
      assert Covered(m, o, q, a);
      if child <= a && a in m.nodes {
        assert Marked(m, q, a);
      }
    }
    forall a: Path ensures ClashCovered(m, o', q, a) {
      assert ClashCovered(m, o, q, a);
    }
  }

  /** A directory being cleaned: every stored child is still to be looked at, already found
      stale, confirmed by memory, or memory changed here since and marked it. */
  ghost predicate Listed(m: Mem, o: Opfs, d: Path, rest: set<Name>, stale: set<Name>)
    requires ValidMem(m)
  {
    forall x: Name {:trigger d + [x]} :: d + [x] in o ==>
      x in rest || x in stale || StoredKind(o, d + [x]) == KindAt(m, d + [x]) || DirtyAt(m, Nearest(m, d))
  }

  lemma ListedKept(m: Mem, m': Mem, o: Opfs, d: Path, rest: set<Name>, stale: set<Name>)
    requires ValidMem(m) && ValidMem(m') && Touched(m, m') && Listed(m, o, d, rest, stale)
    ensures Listed(m', o, d, rest, stale)
  {
    forall x: Name | d + [x] in o && x !in rest && x !in stale && StoredKind(o, d + [x]) != KindAt(m', d + [x])
      ensures DirtyAt(m', Nearest(m', d))
    {
      if KindAt(m, d + [x]) != KindAt(m', d + [x]) {
        assert MarkedAbove(m', d + [x]);
        assert Parent(d + [x]) == d;
      } else {
        NearestStable(m, m', d);
      }
    }
  }

  lemma FinishDirectoryKeepsInv(m: Mem, o: Opfs, q: seq<Entry>)
    requires Inv(m, o, q) && q != [] && q[0].kind == Dir
    requires q[0].path in o && o[q[0].path].Directory? && Listed(m, o, q[0].path, {}, {})
    ensures Inv(m, o, q[1..])
  {
    var d := q[0].path;
    assert EntryHolds(m, q[0]);
    if !DirtyAt(m, d) {
      forall a: Path | Nearest(m, a) == d ensures Agree(m, o, a) {
        if a != d && a in o {
          assert d == a[..|d|];
          var child := a[..|d| + 1];
          assert child == d + [a[|d|]];
          assert child !in m.nodes;
          if child != a {
            StoredAncestors(o, a, |d| + 1);
          }
        }
      }
      forall a: Path | a != [] && Parent(a) == d ensures !Clash(m, o, a) {
        assert a == d + [a[|d|]];
        if a in m.nodes {
          assert UnderDirectory(m, a);
        }
      }
    }
    DropHead(m, o, q);
  }

  /** A failed write marks its path again. */
  lemma RequeueKeepsInv(m: Mem, o: Opfs, q: seq<Entry>)
    requires Inv(m, o, q) && q != []
    ensures Inv(m.(dirty := m.dirty + At(m.nodes, q[0].path)), o, q[1..])
  {
    var m' := m.(dirty := m.dirty + At(m.nodes, q[0].path));
    MarksKeepTree(m, m');
    OperationKeepsInv(m, m', o, q);
    if q[0].path !in m'.nodes {
      forall a: Path | a != [] && Parent(a) == q[0].path ensures !Clash(m', o, a) {
        assert a in m'.nodes ==> UnderDirectory(m', a);
      }
    }
    DropHead(m', o, q);
  }

  // ---------- What the invariant gives ----------

  /** With nothing marked and nothing waiting, storage is the memory tree. */
  lemma SettledMeansEqual(m: Mem, o: Opfs)
    requires Inv(m, o, []) && m.dirty == {}
    ensures forall p: Path :: Agree(m, o, p)
  {
    forall p: Path ensures Agree(m, o, p) {
      assert Covered(m, o, [], p);
    }
  }

  /** An undisturbed drain meets no file where it needs a directory and no directory where it
      needs a file: whoever removes those comes first. */
  lemma UndisturbedHasNoClash(m: Mem, o: Opfs, q: seq<Entry>, k: nat)
    requires Inv(m, o, q) && m.dirty == {} && q != [] && k <= |q[0].path|
    ensures KindAt(m, q[0].path[..k]) == Some(if k < |q[0].path| then Dir else q[0].kind)
    ensures StoredKind(o, q[0].path[..k]) in {None, KindAt(m, q[0].path[..k])}
    ensures q[0].kind == File ==>
      KindAt(m, q[0].path) == Some(File) && q[0].data == Content(m.objects[m.nodes[q[0].path]])
  {
    var p := q[0].path[..k];
    assert q[0].path[..|q[0].path|] == q[0].path;
    assert EntryHolds(m, q[0]);
    assert ClashCovered(m, o, q, p);
    forall i | 0 <= i < |q| && p != [] ensures q[i].path != Parent(p) {
      assert i == 0 || Depth(q[0].path) <= Depth(q[i].path);
      assert Depth(Parent(p)) < Depth(p) <= Depth(q[0].path);
    }
  }

  /** A page reloaded after an undisturbed drain shows the same tree. */
  lemma ReloadShowsSameTree(m: Mem, o: Opfs, m': Mem, p: Path)
    requires ValidMem(m) && ValidMem(m') && Inv(m, o, []) && m.dirty == {}
    requires forall r: Path :: Agree(m', o, r)
    ensures KindAt(m', p) == KindAt(m, p)
    ensures KindAt(m, p) == Some(File) ==> Content(m'.objects[m'.nodes[p]]) == Content(m.objects[m.nodes[p]])
  {
    SettledMeansEqual(m, o);
    assert Agree(m, o, p) && Agree(m', o, p);
  }
}
