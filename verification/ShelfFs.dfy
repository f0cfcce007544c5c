/** The directory tree a shelf scan walks: inodes with an honestly stamped modification
    time, changed at any moment by other programs (create, remove, rename, replacing
    the whole books folder).  Paths are relative to the books folder, so [] names it. */
module ShelfFs {
  import opened Basics
  import opened RacyWindow

  type Name = string
  type Path = seq<Name>
  type Ino = nat

  datatype Node = Subdirectory(ino: Ino) | RegularFile
  datatype DirEntry = DirEntry(name: Name, node: Node)

  /** `changedAt` is the true time of the last change of the listing, `modTime` the
      stamp a Stat reports for it. */
  datatype Directory = Directory(modTime: int, changedAt: int, entries: seq<DirEntry>)

  datatype Tree = Tree(root: Option<Ino>, rootChangedAt: int, dirs: map<Ino, Directory>, maxDepth: nat)

  ghost predicate DistinctNames(entries: seq<DirEntry>) {
    forall i, j :: 0 <= i < j < |entries| ==> entries[i].name != entries[j].name
  }

  ghost predicate ValidTree(tree: Tree, now: int) {
    && tree.rootChangedAt <= now
    && forall i <- tree.dirs :: ValidDirectory(tree.dirs[i], now)
  }

  ghost predicate ValidDirectory(d: Directory, now: int) {
    d.changedAt <= now && HonestStamp(d.modTime, d.changedAt) && DistinctNames(d.entries)
  }

  function Find(entries: seq<DirEntry>, name: Name): (node: Option<Node>)
    ensures node.Some? ==> DirEntry(name, node.value) in entries
  {
    if entries == [] then None
    else if entries[0].name == name then Some(entries[0].node)
    else Find(entries[1..], name)
  }

  lemma {:induction false} FindsEntry(entries: seq<DirEntry>, e: DirEntry)
    requires DistinctNames(entries)
    ensures e in entries <==> Find(entries, e.name) == Some(e.node)
  {
    if entries != [] {
      FindsEntry(entries[1..], e);
      assert entries == [entries[0]] + entries[1..];
      assert forall other <- entries[1..] :: other.name != entries[0].name;
    }
  }

  /** The inode of the directory a path names, when it names one. */
  function Resolve(tree: Tree, p: Path): (ino: Option<Ino>)
    ensures ino.Some? ==> ino.value in tree.dirs
  {
    if p == [] then
      if tree.root.Some? && tree.root.value in tree.dirs then tree.root else None
    else
      match Resolve(tree, p[..|p| - 1])
      case None => None
      case Some(parent) =>
        match Find(tree.dirs[parent].entries, p[|p| - 1])
        case Some(Subdirectory(i)) => if i in tree.dirs then Some(i) else None
        case _ => None
  }

  predicate NamesFile(tree: Tree, p: Path) {
    && p != []
    && var parent := Resolve(tree, p[..|p| - 1]);
    && parent.Some?
    && Find(tree.dirs[parent.value].entries, p[|p| - 1]) == Some(RegularFile)
  }

  /** The modification time a Stat of the path reports. */
  function StatTime(tree: Tree, fileStamps: Path -> int, p: Path): Option<int> {
    if |p| > tree.maxDepth then None
    else match Resolve(tree, p)
      case Some(i) => Some(tree.dirs[i].modTime)
      case None => if NamesFile(tree, p) then Some(fileStamps(p)) else None
  }

  /** Any number of changes made by others between `now` and `now'`: a directory is
      untouched, or its last change came later than `now`. */
  ghost predicate Evolves(tree: Tree, now: int, tree': Tree, now': int) {
    && now <= now'
    && ValidTree(tree', now')
    && tree'.maxDepth == tree.maxDepth
    && (forall i <- tree.dirs :: i in tree'.dirs && Kept(tree.dirs[i], tree'.dirs[i], now))
    && ((tree'.root == tree.root && tree'.rootChangedAt == tree.rootChangedAt) || now <= tree'.rootChangedAt)
  }

  ghost predicate Kept(d: Directory, d': Directory, now: int) {
    d' == d || now <= d'.changedAt
  }

  lemma EvolvesTransitive(t0: Tree, n0: int, t1: Tree, n1: int, t2: Tree, n2: int)
    requires Evolves(t0, n0, t1, n1) && Evolves(t1, n1, t2, n2)
    ensures Evolves(t0, n0, t2, n2)
  {}

  datatype Failure = NotExist | Unavailable | Other
  datatype Outcome<+T> = Ok(value: T) | Err(failure: Failure)
  datatype Info = Info(isDir: bool, modTime: int)

  /** The file system with everyone else's activity in it.  Each call may be preceded
      by changes made by others; `disturbances` counts them, and injected I/O failures. */
  class FileSystem {
    var tree: Tree
    var now: int
    var fileStamps: Path -> int  // what a Stat of a regular file reports
    ghost var disturbances: nat

    ghost predicate Valid() reads this {
      ValidTree(tree, now)
    }

    twostate predicate Later()
      reads this
    {
      && Evolves(old(tree), old(now), tree, now)
      && old(disturbances) <= disturbances
      && (disturbances == old(disturbances) ==> tree == old(tree) && fileStamps == old(fileStamps))
    }

    constructor (tree: Tree, now: int, fileStamps: Path -> int)
      requires ValidTree(tree, now)
      ensures Valid() && this.tree == tree && this.now == now && this.fileStamps == fileStamps && disturbances == 0
    {
      this.tree, this.now, this.fileStamps, disturbances := tree, now, fileStamps, 0;
    }

    /** Lets the clock run. */
    method Tick()
      requires Valid()
      modifies this
      ensures Valid() && tree == old(tree) && fileStamps == old(fileStamps) && disturbances == old(disturbances)
      ensures old(now) <= now
    {
      var elapsed: nat :| 0 <= elapsed;
      now := now + elapsed;
    }

    /** Some program changes the listing of one directory, or adds a new directory: the
        building block of create, remove and rename. */
    method SetListing(i: Ino, entries: seq<DirEntry>, stamp: int)
      requires Valid() && DistinctNames(entries) && HonestStamp(stamp, now)
      modifies this
      ensures Valid() && now == old(now) && disturbances == old(disturbances) + 1
      ensures tree == old(tree).(dirs := old(tree).dirs[i := Directory(stamp, now, entries)])
    {
      tree := tree.(dirs := tree.dirs[i := Directory(stamp, now, entries)]);
      disturbances := disturbances + 1;
    }

    /** Some program swaps the books folder itself for another directory, or removes it. */
    method SetRoot(root: Option<Ino>)
      requires Valid()
      modifies this
      ensures Valid() && now == old(now) && disturbances == old(disturbances) + 1
      ensures tree == old(tree).(root := root, rootChangedAt := now)
    {
      tree := tree.(root := root, rootChangedAt := now);
      disturbances := disturbances + 1;
    }

    /** Some program edits files; their directories' stamps do not move. */
    method EditFiles(stamps: Path -> int)
      requires Valid()
      modifies this
      ensures Valid() && now == old(now) && tree == old(tree) && disturbances == old(disturbances) + 1
    {
      fileStamps := stamps;
      disturbances := disturbances + 1;
    }

    /** Anything others do between two steps of the scan. */
    method Interfere()
      requires Valid()
      modifies this
      ensures Valid() && Later()
    {
      var steps: nat :| 0 <= steps;
      ghost var tree0, now0, stamps0, count0 := tree, now, fileStamps, disturbances;
      while steps > 0
        invariant Valid() && Evolves(tree0, now0, tree, now)
        invariant count0 <= disturbances && (disturbances == count0 ==> tree == tree0 && fileStamps == stamps0)
      {
        ghost var tree1, now1 := tree, now;
        Tick();
        var i: Ino, entries: seq<DirEntry>, stamp: int, root: Option<Ino>, swap: bool := *, *, *, *, *;
        var edit: bool, stamps: Path -> int := *, *;
        var distinct := HasDistinctNames(entries);
        if swap {
          SetRoot(root);
        } else if edit {
          EditFiles(stamps);
        } else if distinct && HonestStamp(stamp, now) {
          SetListing(i, entries, stamp);
        }
        EvolvesTransitive(tree0, now0, tree1, now1, tree, now);
        steps := steps - 1;
      }
    }

    method Now() returns (t: int)
      requires Valid()
      modifies this
      ensures Valid() && Later() && t == now
    {
      Interfere();
      t := now;
    }

    /** An I/O failure, or none. */
    method Fault() returns (failed: bool, failure: Failure)
      modifies this
      ensures unchanged(`tree) && unchanged(`now) && unchanged(`fileStamps) && old(disturbances) <= disturbances
      ensures failed ==> old(disturbances) < disturbances
    {
      failed, failure := *, *;
      if failed {
        disturbances := disturbances + 1;
      }
    }

    /** A path longer than the file system takes fails, whatever it would name. */
    method Stat(p: Path) returns (r: Outcome<Info>)
      requires Valid()
      modifies this
      ensures Valid() && Later()
      ensures r.Ok? ==>
        |p| <= tree.maxDepth && r.value.isDir == Resolve(tree, p).Some?
        && StatTime(tree, fileStamps, p) == Some(r.value.modTime)
      ensures r.Err? && disturbances == old(disturbances) ==> StatTime(tree, fileStamps, p) == None
      ensures r.Err? && disturbances == old(disturbances) ==>
        r.failure == if |p| <= tree.maxDepth then NotExist else Other
    {
      Interfere();
      var failed, failure := Fault();
      if failed {
        return Err(failure);
      } else if |p| > tree.maxDepth {
        return Err(Other);
      }
      match Resolve(tree, p) {
        case Some(i) => r := Ok(Info(true, tree.dirs[i].modTime));
        case None => r := if NamesFile(tree, p) then Ok(Info(false, fileStamps(p))) else Err(NotExist);
      }
    }

    method ReadDir(p: Path) returns (r: Outcome<seq<DirEntry>>)
      requires Valid()
      modifies this
      ensures Valid() && Later()
      ensures r.Ok? ==>
        |p| <= tree.maxDepth && Resolve(tree, p).Some? && r.value == tree.dirs[Resolve(tree, p).value].entries
      ensures r.Err? && disturbances == old(disturbances) ==> |p| > tree.maxDepth || Resolve(tree, p).None?
      ensures r.Err? && disturbances == old(disturbances) ==>
        r.failure == if |p| <= tree.maxDepth then NotExist else Other
    {
      Interfere();
      var failed, failure := Fault();
      if failed {
        return Err(failure);
      } else if |p| > tree.maxDepth {
        return Err(Other);
      }
      match Resolve(tree, p) {
        case Some(i) => r := Ok(tree.dirs[i].entries);
        case None => r := Err(NotExist);
      }
    }
  }

  method HasDistinctNames(entries: seq<DirEntry>) returns (distinct: bool)
    ensures distinct <==> DistinctNames(entries)
  {
    var names: set<Name> := {};
    for i := 0 to |entries|
      invariant names == set k | 0 <= k < i :: entries[k].name
      invariant forall j, k :: 0 <= j < k < i ==> entries[j].name != entries[k].name
    {
      if entries[i].name in names {
        var j :| 0 <= j < i && entries[j].name == entries[i].name;
        return false;
      }
      names := names + {entries[i].name};
    }
    return true;
  }
}
