/** The directory scan cache: the listings one walk found, kept so that the next walk can
    skip directories whose modification time has not moved (shelf/scancache). */
module ScanCache {
  import opened Basics
  import opened RacyWindow
  import opened ShelfFs

  datatype DirChild = DirChild(name: Name, file: bool)

  datatype Snapshot = Snapshot(modTime: int, children: seq<DirChild>)

  /** What a snapshot does not record but its truth depends on: the time just before the
      listing was read, and the inode that was listed. */
  datatype Origin = Origin(readAt: int, ino: Ino)

  type Dirs = map<Path, Snapshot>
  type Origins = map<Path, Origin>

  // ---------- Listings ----------

  /** Subdirectories, and the regular files the walk was asked to keep. */
  function DirChildren(entries: seq<DirEntry>, keep: set<Name>): seq<DirChild> {
    if entries == [] then []
    else ChildOf(entries[0], keep) + DirChildren(entries[1..], keep)
  }

  function ChildOf(e: DirEntry, keep: set<Name>): seq<DirChild> {
    match e.node
    case Subdirectory(_) => [DirChild(e.name, false)]
    case RegularFile => if e.name in keep then [DirChild(e.name, true)] else []
  }

  lemma {:induction false} DirChildrenAppend(a: seq<DirEntry>, e: DirEntry, keep: set<Name>)
    ensures DirChildren(a + [e], keep) == DirChildren(a, keep) + ChildOf(e, keep)
  {
    if a == [] {
      assert a + [e] == [e];
    } else {
      assert (a + [e])[1..] == a[1..] + [e];
      DirChildrenAppend(a[1..], e, keep);
    }
  }

  method ListChildren(entries: seq<DirEntry>, keep: set<Name>) returns (children: seq<DirChild>)
    ensures children == DirChildren(entries, keep)
  {
    children := [];
    for i := 0 to |entries|
      invariant children == DirChildren(entries[..i], keep)
    {
      var entry := entries[i];
      DirChildrenAppend(entries[..i], entry, keep);
      assert entries[..i + 1] == entries[..i] + [entry];
      if entry.node.RegularFile? {
        if entry.name in keep {
          children := children + [DirChild(entry.name, true)];
        }
        continue;
      }
      children := children + [DirChild(entry.name, false)];
    }
    assert entries[..|entries|] == entries;
  }

  /** A child stands for exactly one entry of the directory, with the right kind. */
  lemma {:induction false} ChildIsEntry(entries: seq<DirEntry>, keep: set<Name>, c: DirChild)
    ensures c in DirChildren(entries, keep) <==>
      exists e :: e in entries && c.name == e.name && c.file == e.node.RegularFile? && (c.file ==> c.name in keep)
  {
    if entries != [] {
      ChildIsEntry(entries[1..], keep, c);
      assert entries == [entries[0]] + entries[1..];
      if c in ChildOf(entries[0], keep) {
        assert entries[0] in entries;
      }
    }
  }

  ghost predicate DistinctChildren(children: seq<DirChild>) {
    forall i, j :: 0 <= i < j < |children| ==> children[i].name != children[j].name
  }

  lemma {:induction false} ChildrenDistinct(entries: seq<DirEntry>, keep: set<Name>)
    requires DistinctNames(entries)
    ensures DistinctChildren(DirChildren(entries, keep))
  {
    if entries != [] {
      ChildrenDistinct(entries[1..], keep);
      var rest := DirChildren(entries[1..], keep);
      forall c | c in rest ensures c.name != entries[0].name {
        ChildIsEntry(entries[1..], keep, c);
      }
      assert DirChildren(entries, keep) == ChildOf(entries[0], keep) + rest;
    }
  }

  /** The listing of a directory no cache was asked about. */
  function PlainReadDir(tree: Tree, keep: set<Name>, p: Path): Option<seq<DirChild>> {
    if |p| > tree.maxDepth then None
    else match Resolve(tree, p)
      case None => None
      case Some(i) => Some(DirChildren(tree.dirs[i].entries, keep))
  }

  // ---------- Truth of stored snapshots ----------

  /** The inode has not changed since the snapshot was read. */
  ghost predicate Fresh(tree: Tree, o: Origin) {
    o.ino in tree.dirs && tree.dirs[o.ino].changedAt < o.readAt
  }

  ghost predicate RootStable(tree: Tree, origin: Origins) {
    [] in origin ==> tree.rootChangedAt < origin[[]].readAt
  }

  ghost predicate AncestorsFresh(tree: Tree, origin: Origins, p: Path) {
    forall k :: 0 <= k < |p| ==> p[..k] in origin && Fresh(tree, origin[p[..k]])
  }

  /** A snapshot was settled when read; it still shows its inode's listing unless that
      inode changed; and its path still leads to that inode unless an ancestor changed. */
  ghost predicate TruthfulAt(tree: Tree, now: int, keep: set<Name>, dirs: Dirs, origin: Origins, p: Path)
    requires p in dirs && p in origin
  {
    var o := origin[p];
    && o.readAt <= now
    && o.ino in tree.dirs
    && Settled(dirs[p].modTime, o.readAt)
    && DistinctChildren(dirs[p].children)
    && NoOlderThanParent(origin, p)
    && (Fresh(tree, o) ==> dirs[p].children == DirChildren(tree.dirs[o.ino].entries, keep))
    && (RootStable(tree, origin) && AncestorsFresh(tree, origin, p) ==> Resolve(tree, p) == Some(o.ino))
  }

  ghost predicate NoOlderThanParent(origin: Origins, p: Path)
    requires p in origin
  {
    p != [] && p[..|p| - 1] in origin ==> origin[p[..|p| - 1]].readAt <= origin[p].readAt
  }

  ghost predicate Truthful(tree: Tree, now: int, keep: set<Name>, dirs: Dirs, origin: Origins) {
    && dirs.Keys == origin.Keys
    && forall p {:trigger TruthfulAt(tree, now, keep, dirs, origin, p)} | p in dirs ::
      TruthfulAt(tree, now, keep, dirs, origin, p)
  }

  /** A Stat of the path right now reports the stored modification time. */
  ghost predicate StatMatches(tree: Tree, dirs: Dirs, p: Path) {
    && p in dirs && Resolve(tree, p).Some?
    && tree.dirs[Resolve(tree, p).value].modTime == dirs[p].modTime
  }

  /** Every directory from the books folder down to p (the first n of them) matches. */
  ghost predicate ChainMatches(tree: Tree, dirs: Dirs, p: Path, n: nat)
    requires n <= |p| + 1
  {
    forall k :: 0 <= k < n ==> StatMatches(tree, dirs, p[..k])
  }

  /** A Stat of the path, whatever it names, reports the stored modification time. */
  ghost predicate TimeMatches(tree: Tree, fileStamps: Path -> int, dirs: Dirs, p: Path) {
    p in dirs && StatTime(tree, fileStamps, p) == Some(dirs[p].modTime)
  }

  /** The first n directories on the way from the books folder to p all report their stored times. */
  ghost predicate TimesMatch(tree: Tree, fileStamps: Path -> int, dirs: Dirs, p: Path, n: nat)
    requires n <= |p| + 1
  {
    forall k :: 0 <= k < n ==> TimeMatches(tree, fileStamps, dirs, p[..k])
  }

  /** The stored listing of p would be used, and is not the current one. */
  ghost predicate Lies(tree: Tree, fileStamps: Path -> int, keep: set<Name>, dirs: Dirs, p: Path) {
    p in dirs && TimesMatch(tree, fileStamps, dirs, p, |p| + 1) && PlainReadDir(tree, keep, p) != Some(dirs[p].children)
  }

  /** Nothing others do makes a truthful cache lie. */
  lemma TruthfulEvolves(t: Tree, n: int, t': Tree, n': int, keep: set<Name>, dirs: Dirs, origin: Origins)
    requires Truthful(t, n, keep, dirs, origin) && Evolves(t, n, t', n')
    ensures Truthful(t', n', keep, dirs, origin)
  {
    forall p <- dirs ensures TruthfulAt(t', n', keep, dirs, origin, p) {
      var o := origin[p];
      assert TruthfulAt(t, n, keep, dirs, origin, p);
      if Fresh(t', o) {
        FreshBefore(t, n, t', n', keep, dirs, origin, p);
      }
      if RootStable(t', origin) && AncestorsFresh(t', origin, p) {
        LocationKept(t, n, t', n', keep, dirs, origin, p);
      }
    }
  }

  lemma FreshBefore(t: Tree, n: int, t': Tree, n': int, keep: set<Name>, dirs: Dirs, origin: Origins, p: Path)
    requires Truthful(t, n, keep, dirs, origin) && Evolves(t, n, t', n') && p in dirs
    requires Fresh(t', origin[p])
    ensures Fresh(t, origin[p]) && t'.dirs[origin[p].ino] == t.dirs[origin[p].ino]
  {
    assert TruthfulAt(t, n, keep, dirs, origin, p);
    assert Kept(t.dirs[origin[p].ino], t'.dirs[origin[p].ino], n);
  }

  lemma AncestorsFreshDown(t: Tree, origin: Origins, p: Path)
    requires p != [] && AncestorsFresh(t, origin, p)
    ensures p[..|p| - 1] in origin && Fresh(t, origin[p[..|p| - 1]]) && AncestorsFresh(t, origin, p[..|p| - 1])
  {
    var parent := p[..|p| - 1];
    forall k | 0 <= k < |parent| ensures parent[..k] in origin && Fresh(t, origin[parent[..k]]) {
      assert parent[..k] == p[..k];
    }
  }

  lemma AncestorsFreshUp(t: Tree, origin: Origins, p: Path)
    requires p != []
    requires p[..|p| - 1] in origin && Fresh(t, origin[p[..|p| - 1]]) && AncestorsFresh(t, origin, p[..|p| - 1])
    ensures AncestorsFresh(t, origin, p)
  {
    var parent := p[..|p| - 1];
    forall k | 0 <= k < |p| ensures p[..k] in origin && Fresh(t, origin[p[..k]]) {
      assert p[..k] == if k < |parent| then parent[..k] else parent;
    }
  }

  lemma {:induction false} LocationKept(t: Tree, n: int, t': Tree, n': int, keep: set<Name>, dirs: Dirs,
                                        origin: Origins, p: Path)
    requires Truthful(t, n, keep, dirs, origin) && Evolves(t, n, t', n')
    requires RootStable(t', origin) && AncestorsFresh(t', origin, p) && p in dirs
    ensures RootStable(t, origin) && AncestorsFresh(t, origin, p) && Resolve(t', p) == Some(origin[p].ino)
  {
    assert TruthfulAt(t, n, keep, dirs, origin, p);
    if p != [] {
      var parent := p[..|p| - 1];
      AncestorsFreshDown(t', origin, p);
      LocationKept(t, n, t', n', keep, dirs, origin, parent);
      FreshBefore(t, n, t', n', keep, dirs, origin, parent);
      AncestorsFreshUp(t, origin, p);
      assert TruthfulAt(t, n, keep, dirs, origin, parent);
    }
  }

  /** When every directory above p still has its stored modification time, p still names
      the inode that was listed. */
  lemma {:induction false} MatchingChainLocates(t: Tree, n: int, keep: set<Name>, dirs: Dirs, origin: Origins, p: Path)
    requires ValidTree(t, n) && Truthful(t, n, keep, dirs, origin) && RootStable(t, origin)
    requires ChainMatches(t, dirs, p, |p|) && p in dirs
    ensures AncestorsFresh(t, origin, p) && Resolve(t, p) == Some(origin[p].ino)
  {
    assert TruthfulAt(t, n, keep, dirs, origin, p);
    if p != [] {
      var parent := p[..|p| - 1];
      assert StatMatches(t, dirs, p[..|p| - 1]);
      assert ChainMatches(t, dirs, parent, |parent|) by {
        forall k | 0 <= k < |parent| ensures StatMatches(t, dirs, parent[..k]) {
          assert parent[..k] == p[..k];
        }
      }
      MatchingChainLocates(t, n, keep, dirs, origin, parent);
      SettledMatchIsFresh(t, n, keep, dirs, origin, parent);
      AncestorsFreshUp(t, origin, p);
    }
  }

  /** An equal stamp on a settled snapshot means an unchanged listing. */
  lemma SettledMatchIsFresh(t: Tree, n: int, keep: set<Name>, dirs: Dirs, origin: Origins, p: Path)
    requires ValidTree(t, n) && Truthful(t, n, keep, dirs, origin) && p in dirs
    requires Resolve(t, p) == Some(origin[p].ino) && StatMatches(t, dirs, p)
    ensures Fresh(t, origin[p]) && dirs[p].children == DirChildren(t.dirs[origin[p].ino].entries, keep)
  {
    assert TruthfulAt(t, n, keep, dirs, origin, p);
    assert ValidDirectory(t.dirs[origin[p].ino], n);
  }

  /** The heart of the cache: when every directory down to and including p still has its stored
      modification time, the stored children are the current ones. */
  lemma MatchingChainIsCurrent(t: Tree, n: int, keep: set<Name>, dirs: Dirs, origin: Origins, p: Path)
    requires ValidTree(t, n) && Truthful(t, n, keep, dirs, origin) && RootStable(t, origin)
    requires ChainMatches(t, dirs, p, |p| + 1) && |p| <= t.maxDepth
    ensures p in dirs && PlainReadDir(t, keep, p) == Some(dirs[p].children)
  {
    assert p[..|p|] == p;
    assert StatMatches(t, dirs, p[..|p|]);
    MatchingChainLocates(t, n, keep, dirs, origin, p);
    SettledMatchIsFresh(t, n, keep, dirs, origin, p);
  }

  /** Nothing lies while the books folder is the directory that was listed, or shows another time. */
  lemma SettledCacheNeverLies(t: Tree, n: int, fileStamps: Path -> int, keep: set<Name>, dirs: Dirs, origin: Origins,
                              p: Path)
    requires ValidTree(t, n) && Truthful(t, n, keep, dirs, origin)
    requires RootStable(t, origin) || !TimeMatches(t, fileStamps, dirs, [])
    ensures !Lies(t, fileStamps, keep, dirs, p)
  {
    if TimesMatch(t, fileStamps, dirs, p, |p| + 1) {
      assert p[..|p|] == p && p[..0] == [];
      assert TimeMatches(t, fileStamps, dirs, p[..|p|]) && TimeMatches(t, fileStamps, dirs, p[..0]);
      forall k | 0 <= k < |p| ensures StatMatches(t, dirs, p[..k]) {
        assert TimeMatches(t, fileStamps, dirs, p[..k]);
        NamedAncestors(t, p, k);
      }
      MatchingChainLocates(t, n, keep, dirs, origin, p);
      MatchingChainIsCurrent(t, n, keep, dirs, origin, p);
    }
  }

  /** What lies above anything that is there is a directory. */
  lemma {:induction false} NamedAncestors(t: Tree, p: Path, k: nat)
    requires (Resolve(t, p).Some? || NamesFile(t, p)) && k < |p|
    ensures Resolve(t, p[..k]).Some?
  {
    var parent := p[..|p| - 1];
    if k < |parent| {
      NamedAncestors(t, parent, k);
      assert parent[..k] == p[..k];
    } else {
      assert p[..k] == parent;
    }
  }

  /** Recording one more path keeps the snapshots truthful, as long as it is recorded before
      anything below it. */
  lemma RecordKeepsTruth(t: Tree, n: int, keep: set<Name>, dirs: Dirs, origin: Origins, p: Path, s: Snapshot, o: Origin)
    requires Truthful(t, n, keep, dirs, origin)
    requires forall q <- dirs :: !(p <= q)
    requires o.readAt <= n && o.ino in t.dirs && Settled(s.modTime, o.readAt) && DistinctChildren(s.children)
    requires Fresh(t, o) ==> s.children == DirChildren(t.dirs[o.ino].entries, keep)
    requires NoOlderThanParent(origin[p := o], p)
    requires RootStable(t, origin[p := o]) && AncestorsFresh(t, origin, p) ==> Resolve(t, p) == Some(o.ino)
    ensures Truthful(t, n, keep, dirs[p := s], origin[p := o])
  {
    var dirs', origin' := dirs[p := s], origin[p := o];
    forall q <- dirs' ensures TruthfulAt(t, n, keep, dirs', origin', q) {
      if q != p {
        assert TruthfulAt(t, n, keep, dirs, origin, q);
        assert p != [] by { assert [] <= q; }
        assert NoOlderThanParent(origin', q) by {
          assert q != [] && q[..|q| - 1] == p ==> p <= q;
        }
      }
      if AncestorsFresh(t, origin', q) {
        forall k | 0 <= k < |q| ensures q[..k] in origin && Fresh(t, origin[q[..k]]) {
          assert q[..k] in origin' && Fresh(t, origin'[q[..k]]);
          assert q[..k] <= q;
        }
      }
    }
  }

  /** Every stored listing was read at or after `since`. */
  ghost predicate ReadSince(origin: Origins, since: int) {
    forall p <- origin :: since <= origin[p].readAt
  }

  // ---------- The cache and its walks ----------

  /** The stored cache file; any process over this shelf may have written it. */
  class Store {
    var file: Option<Dirs>
    ghost var origin: Origins
    ghost const since: int  // when this shelf first got a cache

    ghost predicate Valid(fs: FileSystem, keep: set<Name>) reads this, fs {
      && since <= fs.now
      && (file.Some? ==> Truthful(fs.tree, fs.now, keep, file.value, origin) && ReadSince(origin, since))
    }

    constructor (fs: FileSystem, keep: set<Name>)
      ensures file == None && since == fs.now && Valid(fs, keep)
    {
      file, origin, since := None, map[], fs.now;
    }
  }

  /** What a check whether the store can be written finds. */
  datatype Access = Writable | ReadOnly | Broken

  class Cache {
    const store: Store
    const enabled: bool
    const keepFiles: set<Name>
    var dirs: Dirs
    var digest: Option<Dirs>  // a collision-free digest, so the digested value itself
    ghost var origin: Origins

    ghost predicate Valid(fs: FileSystem) reads this, fs, store {
      && fs.Valid() && store.Valid(fs, keepFiles)
      && Truthful(fs.tree, fs.now, keepFiles, dirs, origin) && ReadSince(origin, store.since)
    }

    /** Opens the cache, loading what an earlier process stored if it can be read. */
    constructor (store: Store, enabled: bool, keepFiles: set<Name>, readable: bool, fs: FileSystem)
      requires fs.Valid() && store.Valid(fs, keepFiles)
      ensures Valid(fs) && this.store == store && this.enabled == enabled && this.keepFiles == keepFiles
      ensures dirs == if enabled && readable && store.file.Some? then store.file.value else map[]
      ensures digest == if enabled && readable then store.file else None
      ensures dirs != map[] ==> origin == store.origin
    {
      this.store, this.enabled, this.keepFiles := store, enabled, keepFiles;
      dirs, digest, origin := map[], None, map[];
      new;
      if enabled && readable && store.file.Some? {
        dirs, digest, origin := store.file.value, store.file, store.origin;
      }
    }

    /** Writes the directories out unless there are none, the store refuses, or they are
        what this cache last loaded or wrote. */
    method Save(access: Access, fs: FileSystem) returns (ok: bool)
      requires Valid(fs)
      modifies this`digest, store
      ensures Valid(fs)
      ensures !enabled || access.ReadOnly? || (access.Writable? && (dirs == map[] || old(digest) == Some(dirs))) ==>
        ok && store.file == old(store.file) && digest == old(digest)
      ensures enabled && access.Broken? ==> !ok && store.file == old(store.file) && digest == old(digest)
      ensures enabled && access.Writable? && dirs != map[] && old(digest) != Some(dirs) ==>
        if ok then store.file == digest == Some(dirs) else store.file == old(store.file) && digest == old(digest)
    {
      if !enabled {
        return true;
      }
      if !access.Writable? {
        return access.ReadOnly?;
      }
      if dirs == map[] || digest == Some(dirs) {
        return true;
      }
      var written: bool := *;
      if !written {
        return false;
      }
      store.file, store.origin := Some(dirs), origin;
      digest := Some(dirs);
      return true;
    }
  }

  datatype Listing = Listing(children: seq<DirChild>, reused: bool)

  /** What a walk over these stored snapshots takes for the listing of p. */
  function Seen(tree: Tree, fileStamps: Path -> int, keep: set<Name>, dirs: Dirs, p: Path,
                reused: bool): Option<Listing> {
    if reused && p in dirs && StatTime(tree, fileStamps, p) == Some(dirs[p].modTime)
    then Some(Listing(dirs[p].children, true))
    else match PlainReadDir(tree, keep, p)
      case None => None
      case Some(children) => Some(Listing(children, false))
  }

  /** The stored children or the current ones, that is right unless, and only unless, the stored ones
      are taken and lie. */
  lemma SeenIsRight(tree: Tree, fileStamps: Path -> int, keep: set<Name>, dirs: Dirs, p: Path, reused: bool)
    requires reused ==> TimesMatch(tree, fileStamps, dirs, p, |p|)
    ensures var seen := Seen(tree, fileStamps, keep, dirs, p, reused);
            (if seen.Some? then Some(seen.value.children) else None) == PlainReadDir(tree, keep, p) <==>
              !(reused && Lies(tree, fileStamps, keep, dirs, p))
    ensures var seen := Seen(tree, fileStamps, keep, dirs, p, reused);
            seen.Some? && seen.value.reused ==> TimesMatch(tree, fileStamps, dirs, p, |p| + 1)
  {
    assert p[..|p|] == p;
    if reused && TimeMatches(tree, fileStamps, dirs, p) {
      forall k | 0 <= k < |p| + 1 ensures TimeMatches(tree, fileStamps, dirs, p[..k]) {}
    }
  }

  class Walk {
    const cache: Cache
    const enabled: bool
    const keep: set<Name>
    var prev: Dirs
    var next: Dirs
    var dirCount: nat
    var readDirs: nat
    var reusedDirs: nat
    ghost var prevOrigin: Origins
    ghost var nextOrigin: Origins

    ghost predicate Valid(fs: FileSystem) reads this, fs {
      && fs.Valid()
      && Truthful(fs.tree, fs.now, keep, prev, prevOrigin)
      && Truthful(fs.tree, fs.now, keep, next, nextOrigin)
      && cache.store.since <= fs.now
      && ReadSince(prevOrigin, cache.store.since) && ReadSince(nextOrigin, cache.store.since)
      && (!enabled ==> prev == map[] && next == map[])
    }

    /** The walk decided to keep the previous snapshot of q. */
    ghost predicate KeptAt(q: Path) reads `prev, `next, `prevOrigin, `nextOrigin {
      && q in prev && q in next && next[q] == prev[q]
      && q in prevOrigin && q in nextOrigin && nextOrigin[q] == prevOrigin[q]
    }

    /** What the walk recorded of q, if anything, it listed at or after t. */
    ghost predicate RecordedSince(q: Path, t: int) reads `next, `nextOrigin {
      q in next ==> q in nextOrigin && t <= nextOrigin[q].readAt
    }

    ghost predicate KeptAbove(p: Path, n: nat)
      requires n <= |p| + 1
      reads `prev, `next, `prevOrigin, `nextOrigin
    {
      forall k {:trigger KeptAt(p[..k])} :: 0 <= k < n ==> KeptAt(p[..k])
    }

    ghost predicate Unvisited(p: Path) reads this {
      forall q <- next :: !(p <= q)
    }

    /** Only paths at or below p were recorded; nothing recorded was lost. */
    twostate predicate GrewUnder(p: Path) reads this {
      && prev == old(prev) && prevOrigin == old(prevOrigin)
      && (forall q <- old(next) :: q in next && next[q] == old(next[q]))
      && (forall q <- next :: q in old(next) || p <= q)
      && (forall q <- old(nextOrigin) :: q in nextOrigin && nextOrigin[q] == old(nextOrigin[q]))
    }

    constructor (cache: Cache, fs: FileSystem)
      requires cache.Valid(fs)
      ensures Valid(fs) && this.cache == cache && enabled == cache.enabled && keep == cache.keepFiles
      ensures next == map[] && prev == if cache.enabled then cache.dirs else map[]
      ensures prevOrigin == if cache.enabled then cache.origin else map[]
    {
      this.cache, enabled, keep := cache, cache.enabled, cache.keepFiles;
      prev := if cache.enabled then cache.dirs else map[];
      prevOrigin := if cache.enabled then cache.origin else map[];
      next, nextOrigin := map[], map[];
      dirCount, readDirs, reusedDirs := 0, 0, 0;
    }

    lemma RetainKeepsTruth(fs: FileSystem, p: Path)
      requires Valid(fs) && Unvisited(p) && KeptAbove(p, |p|) && p in prev
      ensures Truthful(fs.tree, fs.now, keep, next[p := prev[p]], nextOrigin[p := prevOrigin[p]])
    {
      assert TruthfulAt(fs.tree, fs.now, keep, prev, prevOrigin, p);
      assert NoOlderThanParent(nextOrigin[p := prevOrigin[p]], p) by {
        if p != [] { assert KeptAt(p[..|p| - 1]); }
      }
      if RootStable(fs.tree, nextOrigin[p := prevOrigin[p]]) && AncestorsFresh(fs.tree, nextOrigin, p) {
        assert RootStable(fs.tree, prevOrigin) by { if p != [] { assert KeptAt(p[..0]); } }
        forall k | 0 <= k < |p| ensures p[..k] in prevOrigin && Fresh(fs.tree, prevOrigin[p[..k]]) {
          assert KeptAt(p[..k]) && Fresh(fs.tree, nextOrigin[p[..k]]);
        }
      }
      RecordKeepsTruth(fs.tree, fs.now, keep, next, nextOrigin, p, prev[p], prevOrigin[p]);
    }

    lemma StillTruthful(t: Tree, n: int, fs: FileSystem)
      requires Truthful(t, n, keep, prev, prevOrigin) && Truthful(t, n, keep, next, nextOrigin)
      requires fs.Valid() && Evolves(t, n, fs.tree, fs.now) && (!enabled ==> prev == map[] && next == map[])
      requires ReadSince(prevOrigin, cache.store.since) && ReadSince(nextOrigin, cache.store.since)
      requires cache.store.since <= n
      ensures Valid(fs)
    {
      TruthfulEvolves(t, n, fs.tree, fs.now, keep, prev, prevOrigin);
      TruthfulEvolves(t, n, fs.tree, fs.now, keep, next, nextOrigin);
    }

    /** The directory exists and was already settled at time t. */
    ghost predicate Recordable(tree: Tree, t: int, p: Path) {
      && |p| <= tree.maxDepth && Resolve(tree, p).Some?
      && var modTime := tree.dirs[Resolve(tree, p).value].modTime;
      && modTime != ZERO_TIME && Settled(modTime, t)
    }

    /** The answer of ReadDir as a whole: a listing, or why there is none. */
    ghost predicate Answers(fs: FileSystem, p: Path, r: Outcome<Listing>, seen: Option<Listing>) reads fs`tree {
      match r
      case Ok(listing) => seen == Some(listing)
      case Err(failure) => seen == None && failure == if |p| <= fs.tree.maxDepth then NotExist else Other
    }

    /** The children of p, from the previous walk when its parent's listing was itself reused
        and the modification time still matches, and from the directory otherwise. */
    method ReadDir(fs: FileSystem, p: Path, parentListingReused: bool) returns (r: Outcome<Listing>)
      requires Valid(fs) && Unvisited(p)
      requires parentListingReused ==> KeptAbove(p, |p|)
      modifies this, fs
      ensures Valid(fs) && fs.Later() && GrewUnder(p)
      ensures forall q <- next :: q in old(next) || q == p
      ensures r.Ok? ==> |p| <= fs.tree.maxDepth && DistinctChildren(r.value.children)
      ensures r.Ok? && r.value.reused ==> KeptAbove(p, |p| + 1)
      // Undisturbed, the stored children exactly when the parent's listing was reused and the time
      // matches, whatever the cache holds; the current children otherwise.
      ensures fs.disturbances == old(fs.disturbances) ==>
        Answers(fs, p, r, Seen(fs.tree, fs.fileStamps, keep, prev, p, parentListingReused))
      // What is reused is not listed again, and what was found is kept for the next walk.
      ensures fs.disturbances == old(fs.disturbances) && r.Ok? && r.value.reused ==> readDirs == old(readDirs)
      ensures enabled && fs.disturbances == old(fs.disturbances) && Recordable(fs.tree, old(fs.now), p) ==> p in next
      ensures p in next ==> r.Ok? && next[p].children == r.value.children
      ensures if r.Ok? && r.value.reused then KeptAt(p) else RecordedSince(p, old(fs.now))
    {
      ghost var t0, n0 := fs.tree, fs.now;
      dirCount := dirCount + 1;
      if !enabled {
        r := List(fs, p, None);
        return;
      }

      var modTime := None;
      var info := fs.Stat(p);
      StillTruthful(t0, n0, fs);
      if info.Ok? {
        modTime := Some(info.value.modTime);
        if parentListingReused && p in prev && prev[p].modTime == info.value.modTime {
          r := Reuse(fs, p);
          return;
        }
      }
      ghost var t1, n1 := fs.tree, fs.now;
      r := List(fs, p, modTime);
      EvolvesTransitive(t0, n0, t1, n1, fs.tree, fs.now);
    }

    method Reuse(fs: FileSystem, p: Path) returns (r: Outcome<Listing>)
      requires Valid(fs) && Unvisited(p) && KeptAbove(p, |p|) && p in prev && enabled
      modifies this`next, this`nextOrigin, this`reusedDirs
      ensures Valid(fs) && GrewUnder(p) && KeptAbove(p, |p| + 1) && KeptAt(p)
      ensures forall q <- next :: q in old(next) || q == p
      ensures next == old(next)[p := prev[p]]
      ensures r == Ok(Listing(prev[p].children, true)) && DistinctChildren(prev[p].children)
    {
      RetainKeepsTruth(fs, p);
      assert TruthfulAt(fs.tree, fs.now, keep, prev, prevOrigin, p);
      next, nextOrigin := next[p := prev[p]], nextOrigin[p := prevOrigin[p]];
      reusedDirs := reusedDirs + 1;
      forall k | 0 <= k < |p| + 1 ensures KeptAt(p[..k]) {
        if k == |p| {
          assert p[..k] == p;
        } else {
          assert old(KeptAt(p[..k])) && |p[..k]| < |p|;
        }
      }
      return Ok(Listing(prev[p].children, true));
    }

    lemma ReadBefore(fs: FileSystem)
      requires Valid(fs)
      ensures forall q <- nextOrigin :: nextOrigin[q].readAt <= fs.now
    {
      assert forall q <- nextOrigin :: q in next && TruthfulAt(fs.tree, fs.now, keep, next, nextOrigin, q);
    }

    method Record(fs: FileSystem, p: Path, s: Snapshot, ghost o: Origin)
      requires Valid(fs) && Unvisited(p) && enabled
      requires Resolve(fs.tree, p) == Some(o.ino) && cache.store.since <= o.readAt <= fs.now
      requires Settled(s.modTime, o.readAt)
      requires forall q <- nextOrigin :: nextOrigin[q].readAt <= o.readAt
      requires s.children == DirChildren(fs.tree.dirs[o.ino].entries, keep) && DistinctChildren(s.children)
      modifies this`next, this`nextOrigin
      ensures Valid(fs) && GrewUnder(p)
      ensures next == old(next)[p := s] && nextOrigin == old(nextOrigin)[p := o]
    {
      RecordKeepsTruth(fs.tree, fs.now, keep, next, nextOrigin, p, s, o);
      next, nextOrigin := next[p := s], nextOrigin[p := o];
    }

    /** Lists the directory itself, and records it if its modification time was settled. */
    method List(fs: FileSystem, p: Path, modTime: Option<int>) returns (r: Outcome<Listing>)
      requires Valid(fs) && Unvisited(p) && (!enabled ==> modTime == None)
      modifies this`next, this`nextOrigin, this`readDirs, fs
      ensures Valid(fs) && fs.Later() && GrewUnder(p)
      ensures forall q <- next :: q in old(next) || q == p
      ensures r.Ok? ==> |p| <= fs.tree.maxDepth && DistinctChildren(r.value.children) && !r.value.reused
      ensures fs.disturbances == old(fs.disturbances) ==>
        Answers(fs, p, r, Seen(fs.tree, fs.fileStamps, keep, prev, p, false))
      ensures RecordedSince(p, old(fs.now))
      ensures r.Ok? && modTime.Some? && modTime.value != ZERO_TIME && Settled(modTime.value, old(fs.now)) ==> p in next
      ensures p in next ==>
        r.Ok? && modTime == Some(next[p].modTime) != Some(ZERO_TIME) && next[p].children == r.value.children
      ensures reusedDirs == old(reusedDirs)
    {
      ghost var t0, n0 := fs.tree, fs.now;
      var readAt := fs.Now();
      StillTruthful(t0, n0, fs);
      ReadBefore(fs);
      ghost var t1, n1 := fs.tree, fs.now;
      var entries := fs.ReadDir(p);
      StillTruthful(t1, n1, fs);
      EvolvesTransitive(t0, n0, t1, n1, fs.tree, fs.now);
      if entries.Err? {
        return Err(entries.failure);
      }
      readDirs := readDirs + 1;
      var children := ListChildren(entries.value, keep);
      ChildrenDistinct(entries.value, keep);
      if modTime.Some? && modTime.value != ZERO_TIME && Settled(modTime.value, readAt) {
        Record(fs, p, Snapshot(modTime.value, children), Origin(readAt, Resolve(fs.tree, p).value));
      }
      return Ok(Listing(children, false));
    }

    /** Install (complete) or Abandon: the next walk starts from what this one found, or from
        what the cache held before. */
    method Finish(fs: FileSystem, complete: bool)
      requires Valid(fs) && cache.Valid(fs) && cache.enabled == enabled && cache.keepFiles == keep
      modifies cache`dirs, cache`origin
      ensures cache.Valid(fs)
      ensures cache.dirs == if enabled && complete then next else old(cache.dirs)
      ensures cache.origin == if enabled && complete then nextOrigin else old(cache.origin)
    {
      if enabled && complete {
        cache.dirs, cache.origin := next, nextOrigin;
      }
    }
  }

  const ZERO_TIME: int := -62135596800 * 1_000_000_000
}
