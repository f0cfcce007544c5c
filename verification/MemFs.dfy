/** The in-memory file system's operations (cmd/plainshelf-wasm/web/memfs.js), each proved to do
    what it should to the tree and to keep the touch discipline the persistence relies on. */
module MemFs {
  import opened Basics
  import opened MemTree

  datatype Error = ENOENT | ENOTDIR | EEXIST | EISDIR | ENOTEMPTY | EBADF
  datatype Result<+T> = Ok(value: T) | Err(error: Error)

  datatype Flags = Flags(create: bool, excl: bool, trunc: bool, directory: bool, writable: bool, append: bool)

  type Fd = nat
  datatype FdEntry = FdEntry(ino: Ino, append: bool, pos: nat)

  // ---------- Buffers ----------

  function Max(a: nat, b: nat): nat { if a < b then b else a }

  method EnsureCapacity(n: Node, size: nat) returns (r: Node)
    ensures Content(r) == Content(n) && r.kind == n.kind && r.size == n.size && size <= |r.data|
  {
    if size <= |n.data| {
      return n;
    }
    var capacity := Max(Max(size, |n.data| * 2), 64);
    r := n.(data := n.data[..n.size] + Zeros(capacity - n.size));
  }

  method Resize(n: Node, size: nat) returns (r: Node)
    ensures Content(r) == Resized(Content(n), size) && r.kind == n.kind
  {
    var g := EnsureCapacity(n, size);
    var data := g.data;
    if size < n.size {
      data := data[..size] + Zeros(n.size - size) + data[n.size..];
    }
    assert g.data[..n.size] == Content(n);
    r := g.(data := data, size := size);
  }

  method WriteAt(n: Node, chunk: seq<bv8>, at: nat) returns (r: Node)
    ensures Content(r) == Overwritten(Content(n), chunk, at) && r.kind == n.kind
  {
    var g := EnsureCapacity(n, at + |chunk|);
    var data := g.data[..at] + chunk + g.data[at + |chunk|..];
    assert g.data[..n.size] == Content(n);
    r := g.(data := data, size := Max(n.size, at + |chunk|));
  }

  // ---------- Renaming a subtree ----------

  /** The path map after the subtree at src moved to dst. */
  function Renamed(nodes: map<Path, Ino>, src: Path, dst: Path): map<Path, Ino> {
    var moved := set q | q in nodes && src <= q :: dst + q[|src|..];
    var stay := set q | q in nodes && !(src <= q) && q != dst;
    map p | p in moved + stay :: if dst <= p && (src + p[|dst|..]) in nodes then nodes[src + p[|dst|..]] else
      if p in nodes then nodes[p] else 0
  }

  /** The nodes at and below a path. */
  function Inos(nodes: map<Path, Ino>, src: Path): set<Ino> {
    set q | q in nodes && src <= q :: nodes[q]
  }

  function Attached(m: Mem, p: Path, flags: Flags, fd: Fd): Result<Fd>
    requires ValidMem(m)
  {
    if flags.directory && KindAt(m, p) != Some(Dir) then Err(ENOTDIR)
    else if flags.writable && KindAt(m, p) == Some(Dir) then Err(EISDIR)
    else Ok(fd)
  }

  class MemFs {
    var nodes: map<Path, Ino>
    var objects: map<Ino, Node>
    var dirty: set<Ino>
    var nextIno: Ino
    var fds: map<Fd, FdEntry>
    var nextFd: Fd

    function State(): Mem reads this {
      Mem(nodes, objects, dirty)
    }

    ghost predicate Valid() reads this {
      && ValidMem(State())
      && (forall i <- objects :: i < nextIno)
      && (forall fd <- fds :: fd < nextFd && fds[fd].ino in objects)
    }

    /** The operation kept the file system sound and marked what it changed. */
    twostate predicate Kept() reads this {
      old(Valid()) && Valid() && Touched(old(State()), State())
    }

    twostate predicate Unchanged() reads this {
      State() == old(State())
    }

    constructor ()
      ensures Valid() && nodes.Keys == {[]} && dirty == {}
    {
      nodes := map[[] := 1];
      objects := map[1 := Node(Dir, [], 0)];
      dirty, nextIno, fds, nextFd := {}, 2, map[], 3;
    }

    method RequireParentDir(p: Path) returns (r: Result<()>)
      requires Valid() && p != []
      ensures r == if Parent(p) !in nodes then Err(ENOENT)
                   else if KindAt(State(), Parent(p)) != Some(Dir) then Err(ENOTDIR) else Ok(())
    {
      if Parent(p) !in nodes {
        return Err(ENOENT);
      }
      if objects[nodes[Parent(p)]].kind != Dir {
        return Err(ENOTDIR);
      }
      return Ok(());
    }

    /** Adds an empty node below an existing directory. */
    method AddNode(p: Path, kind: Kind)
      requires Valid() && p != [] && p !in nodes && KindAt(State(), Parent(p)) == Some(Dir)
      modifies this`nodes, this`objects, this`dirty, this`nextIno
      ensures Kept() && p in nodes
      ensures nodes == old(nodes)[p := old(nextIno)]
      ensures objects == old(objects)[old(nextIno) := Node(kind, [], 0)]
      ensures dirty == old(dirty) + At(nodes, p) + At(nodes, Parent(p))
    {
      ghost var m, ino := State(), nextIno;
      objects := objects[nextIno := Node(kind, [], 0)];
      nodes := nodes[p := nextIno];
      dirty := dirty + {nextIno} + At(nodes, Parent(p));
      nextIno := nextIno + 1;
      AddedTouched(m, State(), p, ino, kind);
    }

    method Mkdir(p: Path) returns (r: Result<()>)
      requires Valid()
      modifies this`nodes, this`objects, this`dirty, this`nextIno
      ensures Kept()
      ensures old(p in nodes) ==> r == Err(EEXIST) && Unchanged()
      ensures old(p !in nodes && Parent(p) !in nodes) ==> r == Err(ENOENT) && Unchanged()
      ensures old(p !in nodes && KindAt(State(), Parent(p)) == Some(File)) ==> r == Err(ENOTDIR) && Unchanged()
      ensures old(p !in nodes && KindAt(State(), Parent(p)) == Some(Dir)) ==>
        && r == Ok(()) && nodes == old(nodes)[p := old(nextIno)]
        && objects == old(objects)[old(nextIno) := Node(Dir, [], 0)]
        && dirty == old(dirty) + At(nodes, p) + At(nodes, Parent(p))
    {
      TouchedReflexive(State());
      if p in nodes {
        return Err(EEXIST);
      }
      r := RequireParentDir(p);
      if r.Err? {
        return;
      }
      AddNode(p, Dir);
      return Ok(());
    }

    /** Which error opening ends with, if any, in the order the checks are made. */
    ghost function OpenError(p: Path, flags: Flags): Option<Error>
      requires Valid()
      reads this
    {
      if p in nodes && flags.create && flags.excl then Some(EEXIST)
      else if p !in nodes && (!flags.create || Parent(p) !in nodes) then Some(ENOENT)
      else if p !in nodes && KindAt(State(), Parent(p)) != Some(Dir) then Some(ENOTDIR)
      else
        var isDir := KindAt(State(), p) == Some(Dir);
        if flags.directory && !isDir then Some(ENOTDIR) else if isDir && flags.writable then Some(EISDIR) else None
    }

    ghost predicate Creates(p: Path, flags: Flags)
      requires Valid()
      reads this
    {
      p !in nodes && flags.create && KindAt(State(), Parent(p)) == Some(Dir)
    }

    /** Opening creates a missing file when asked, truncates when asked, and hands out a descriptor. */
    method Open(p: Path, flags: Flags) returns (r: Result<Fd>)
      requires Valid()
      modifies this
      ensures Kept()
      ensures r == match old(OpenError(p, flags)) case None => Ok(old(nextFd)) case Some(error) => Err(error)
      ensures r.Ok? ==> p in nodes && fds == old(fds)[r.value := FdEntry(nodes[p], flags.append, 0)]
      ensures r.Err? ==> fds == old(fds)
      // A missing file is created before the last checks; nothing else but emptying it changes a file.
      ensures old(Creates(p, flags)) ==>
        && nodes == old(nodes)[p := old(nextIno)] && dirty == old(dirty) + At(nodes, p) + At(nodes, Parent(p))
        && p in nodes && objects == old(objects)[nodes[p] := objects[nodes[p]]] && nodes[p] !in old(objects)
        && objects[nodes[p]].kind == File && Content(objects[nodes[p]]) == []
      ensures !old(Creates(p, flags)) && r.Ok? && flags.trunc && old(KindAt(State(), p)) == Some(File) ==>
        && nodes == old(nodes) && dirty == old(dirty) + {nodes[p]}
        && objects == old(objects)[nodes[p] := objects[nodes[p]]]
        && objects[nodes[p]].kind == File && Content(objects[nodes[p]]) == []
      ensures !old(Creates(p, flags)) && !(r.Ok? && flags.trunc && old(KindAt(State(), p)) == Some(File)) ==>
        Unchanged()
    {
      ghost var m0 := State();
      var node := FindOrCreate(p, flags);
      if node.Err? {
        return Err(node.error);
      }
      ghost var m1 := State();
      r := Attach(p, flags);
      TouchedTransitive(m0, m1, State());
    }

    /** The second half of opening: the kind checks, the truncation and the descriptor. */
    method Attach(p: Path, flags: Flags) returns (r: Result<Fd>)
      requires Valid() && p in nodes
      modifies this`objects, this`dirty, this`nextFd, this`fds
      ensures Kept() && r == Attached(State(), p, flags, old(nextFd))
      ensures fds == if r.Ok? then old(fds)[r.value := FdEntry(nodes[p], flags.append, 0)] else old(fds)
      ensures if r.Ok? && flags.trunc && KindAt(State(), p) == Some(File)
              then && Content(objects[nodes[p]]) == [] && objects[nodes[p]].kind == old(objects[nodes[p]].kind)
                   && objects == old(objects)[nodes[p] := objects[nodes[p]]] && dirty == old(dirty) + {nodes[p]}
              else Unchanged()
    {
      TouchedReflexive(State());
      var ino := nodes[p];
      if flags.directory && objects[ino].kind != Dir {
        return Err(ENOTDIR);
      }
      if objects[ino].kind == Dir && flags.writable {
        return Err(EISDIR);
      }
      if flags.trunc && objects[ino].kind == File {
        var emptied := Resize(objects[ino], 0);
        SetNode(ino, emptied);
      }
      var fd := nextFd;
      nextFd := nextFd + 1;
      fds := fds[fd := FdEntry(ino, flags.append, 0)];
      return Ok(fd);
    }

    method FindOrCreate(p: Path, flags: Flags) returns (r: Result<Ino>)
      requires Valid()
      modifies this`nodes, this`objects, this`dirty, this`nextIno
      ensures Kept()
      ensures r.Err? || old(p in nodes) ==> Unchanged()
      ensures r.Ok? ==> p in nodes && r.value == nodes[p] && !(old(p in nodes) && flags.create && flags.excl)
      ensures r.Ok? && old(p !in nodes) ==>
        && old(Creates(p, flags)) && p != [] && nodes == old(nodes)[p := old(nextIno)] && old(nextIno !in objects)
        && objects == old(objects)[old(nextIno) := Node(File, [], 0)]
        && dirty == old(dirty) + At(nodes, p) + At(nodes, Parent(p))
      ensures r.Err? ==> r.error == if old(p in nodes) then EEXIST else if !flags.create then ENOENT
                                    else if old(Parent(p) in nodes) then ENOTDIR else ENOENT
      ensures old(p in nodes) && !(flags.create && flags.excl) ==> r.Ok?
      ensures old(p !in nodes && flags.create && KindAt(State(), Parent(p)) == Some(Dir)) ==> r.Ok?
    {
      TouchedReflexive(State());
      if p in nodes && flags.create && flags.excl {
        return Err(EEXIST);
      }
      if p !in nodes {
        if !flags.create {
          return Err(ENOENT);
        }
        var parent := RequireParentDir(p);
        if parent.Err? {
          return Err(parent.error);
        }
        AddNode(p, File);
      }
      return Ok(nodes[p]);
    }

    /** Replaces a node's content and marks it. */
    method SetNode(ino: Ino, n: Node)
      requires Valid() && ino in objects && n.kind == objects[ino].kind
      modifies this`objects, this`dirty
      ensures Kept()
      ensures objects == old(objects)[ino := n] && dirty == old(dirty) + {ino}
    {
      RewrittenTouched(State(), ino, n);
      objects := objects[ino := n];
      dirty := dirty + {ino};
    }

    method Close(fd: Fd) returns (r: Result<()>)
      requires Valid()
      modifies this`fds
      ensures Kept() && Unchanged()
      ensures if fd in old(fds) then r == Ok(()) && fds == old(fds) - {fd} else r == Err(EBADF) && fds == old(fds)
    {
      TouchedReflexive(State());
      if fd !in fds {
        return Err(EBADF);
      }
      fds := fds - {fd};
      return Ok(());
    }

    /** Writes at the end of an appending descriptor, at the given position, or where the
        descriptor stands; a gap reads back as zeros. */
    method Write(fd: Fd, chunk: seq<bv8>, position: Option<nat>) returns (r: Result<nat>)
      requires Valid()
      modifies this`objects, this`dirty, this`fds
      ensures Kept() && nodes == old(nodes)
      ensures fd !in old(fds) ==> r == Err(EBADF) && Unchanged()
      ensures fd in old(fds) ==>
        var e := old(fds)[fd];
        var n := old(objects)[e.ino];
        if n.kind == Dir then r == Err(EISDIR) && Unchanged()
        else
          var at := if e.append then n.size else if position.Some? then position.value else e.pos;
          && r == Ok(|chunk|) && dirty == old(dirty) + {e.ino} && e.ino in objects
          && objects == old(objects)[e.ino := objects[e.ino]] && objects[e.ino].kind == File
          && Content(objects[e.ino]) == Overwritten(Content(n), chunk, at)
          && fds == old(fds)[fd := e.(pos := if position.None? then at + |chunk| else e.pos)]
    {
      TouchedReflexive(State());
      if fd !in fds {
        return Err(EBADF);
      }
      var e := fds[fd];
      if objects[e.ino].kind == Dir {
        return Err(EISDIR);
      }
      var at := if e.append then objects[e.ino].size else if position.Some? then position.value else e.pos;
      var written := WriteAt(objects[e.ino], chunk, at);
      SetNode(e.ino, written);
      if position.None? {
        fds := fds[fd := e.(pos := at + |chunk|)];
      }
      return Ok(|chunk|);
    }

    twostate predicate OnlyResized(ino: Ino, size: nat) reads this {
      && ino in old(objects) && ino in objects
      && objects == old(objects)[ino := objects[ino]]
      && objects[ino].kind == old(objects)[ino].kind
      && Content(objects[ino]) == Resized(Content(old(objects)[ino]), size)
    }

    method Ftruncate(fd: Fd, size: nat) returns (r: Result<()>)
      requires Valid()
      modifies this`objects, this`dirty
      ensures Kept()
      ensures fd !in fds ==> r == Err(EBADF) && Unchanged()
      ensures fd in fds ==>
        r == Ok(()) && dirty == old(dirty) + {fds[fd].ino} && OnlyResized(fds[fd].ino, size)
    {
      TouchedReflexive(State());
      if fd !in fds {
        return Err(EBADF);
      }
      var resized := Resize(objects[fds[fd].ino], size);
      SetNode(fds[fd].ino, resized);
      return Ok(());
    }

    method Truncate(p: Path, size: nat) returns (r: Result<()>)
      requires Valid()
      modifies this`objects, this`dirty
      ensures Kept()
      ensures p !in nodes ==> r == Err(ENOENT) && Unchanged()
      ensures p in nodes ==>
        r == Ok(()) && dirty == old(dirty) + {nodes[p]} && OnlyResized(nodes[p], size)
    {
      TouchedReflexive(State());
      if p !in nodes {
        return Err(ENOENT);
      }
      var resized := Resize(objects[nodes[p]], size);
      SetNode(nodes[p], resized);
      return Ok(());
    }

    /** Drops one path and marks the directory above it. */
    method DropNode(p: Path)
      requires Valid() && p != [] && p in nodes && !HasChildren(nodes, p)
      modifies this`nodes, this`dirty
      ensures Kept()
      ensures nodes == old(nodes) - {p} && dirty == old(dirty) + At(nodes, Parent(p))
    {
      ghost var m := State();
      nodes := nodes - {p};
      dirty := dirty + At(nodes, Parent(p));
      RemovedTouched(m, State(), p);
    }

    /** The root is never removed: callers stay below it. */
    method Rmdir(p: Path) returns (r: Result<()>)
      requires Valid() && p != []
      modifies this`nodes, this`dirty
      ensures Kept()
      ensures p !in old(nodes) ==> r == Err(ENOENT) && Unchanged()
      ensures old(KindAt(State(), p)) == Some(File) ==> r == Err(ENOTDIR) && Unchanged()
      ensures old(KindAt(State(), p)) == Some(Dir) ==>
        if HasChildren(old(nodes), p) then r == Err(ENOTEMPTY) && Unchanged()
        else r == Ok(()) && nodes == old(nodes) - {p} && dirty == old(dirty) + At(nodes, Parent(p))
    {
      TouchedReflexive(State());
      if p !in nodes {
        return Err(ENOENT);
      }
      if objects[nodes[p]].kind != Dir {
        return Err(ENOTDIR);
      }
      if HasChildren(nodes, p) {
        return Err(ENOTEMPTY);
      }
      DropNode(p);
      return Ok(());
    }

    method Unlink(p: Path) returns (r: Result<()>)
      requires Valid()
      modifies this`nodes, this`dirty
      ensures Kept()
      ensures p !in old(nodes) ==> r == Err(ENOENT) && Unchanged()
      ensures old(KindAt(State(), p)) == Some(Dir) ==> r == Err(EISDIR) && Unchanged()
      ensures old(KindAt(State(), p)) == Some(File) ==>
        r == Ok(()) && nodes == old(nodes) - {p} && dirty == old(dirty) + At(nodes, Parent(p))
    {
      TouchedReflexive(State());
      if p !in nodes {
        return Err(ENOENT);
      }
      if objects[nodes[p]].kind == Dir {
        return Err(EISDIR);
      }
      FileHasNoChildren(State(), p);
      DropNode(p);
      return Ok(());
    }

    /** Moves a node and everything below it.  A directory is never moved into its own subtree:
        callers do not ask for that. */
    method Rename(src: Path, dst: Path) returns (r: Result<()>)
      requires Valid() && !(src < dst)
      modifies this`nodes, this`dirty
      ensures Kept()
      ensures r.Err? || src == dst ==> Unchanged()
      ensures r == match old(RenameError(src, dst)) case None => Ok(()) case Some(error) => Err(error)
      ensures r.Ok? && src != dst ==>
        && src != [] && dst != [] && src in old(nodes)
        && nodes == Renamed(old(nodes), src, dst)
        && dirty == old(dirty) + At(nodes, Parent(src)) + At(nodes, Parent(dst)) + Inos(old(nodes), src)
    {
      TouchedReflexive(State());
      if src !in nodes {
        return Err(ENOENT);
      }
      if dst != [] {
        r := RequireParentDir(dst);
        if r.Err? {
          return;
        }
      }
      if src == dst {
        return Ok(());
      }
      NoRootOrAncestorTarget(src, dst);
      if dst in nodes && objects[nodes[dst]].kind == File {
        FileHasNoChildren(State(), dst);
      }
      if dst in nodes {
        if objects[nodes[dst]].kind == Dir && HasChildren(nodes, dst) {
          return Err(ENOTEMPTY);
        }
        if objects[nodes[dst]].kind != objects[nodes[src]].kind {
          return Err(if objects[nodes[dst]].kind == Dir then EISDIR else ENOTDIR);
        }
      }
      Move(src, dst);
      return Ok(());
    }

    /** Which error renaming ends with, if any. */
    ghost function RenameError(src: Path, dst: Path): Option<Error>
      requires Valid()
      reads this
    {
      if src !in nodes || (dst != [] && Parent(dst) !in nodes) then Some(ENOENT)
      else if dst != [] && KindAt(State(), Parent(dst)) != Some(Dir) then Some(ENOTDIR)
      else if src == dst || dst !in nodes then None
      else if HasChildren(nodes, dst) then Some(ENOTEMPTY)
      else if KindAt(State(), dst) == KindAt(State(), src) then None
      else Some(if KindAt(State(), dst) == Some(Dir) then EISDIR else ENOTDIR)
    }

    /** When the target exists and is the root or above the source, it has children. */
    lemma NoRootOrAncestorTarget(src: Path, dst: Path)
      requires Valid() && src in nodes && src != dst && !(src < dst)
      ensures src != []
      ensures dst < src ==> dst in nodes && KindAt(State(), dst) == Some(Dir) && HasChildren(nodes, dst)
    {
      if dst < src {
        AncestorHasChild(State(), src, dst);
      }
    }

    /** The three loops of a rename: collect the subtree, take it out, put it back at the target. */
    method Move(src: Path, dst: Path)
      requires Valid() && src in nodes && src != [] && dst != [] && !(src <= dst) && !(dst <= src)
      requires KindAt(State(), Parent(dst)) == Some(Dir)
      requires dst in nodes ==> KindAt(State(), dst) == KindAt(State(), src) && !HasChildren(nodes, dst)
      modifies this`nodes, this`dirty
      ensures Kept()
      ensures nodes == Renamed(old(nodes), src, dst)
      ensures dirty == old(dirty) + At(nodes, Parent(src)) + At(nodes, Parent(dst)) + Inos(old(nodes), src)
    {
      ghost var m := State();
      var moved := Collect(src);
      TargetIsLeaf(m, dst);
      MovedInos(nodes, src, moved);
      MoveAll(src, dst, moved);
      dirty := dirty + At(nodes, Parent(src)) + At(nodes, Parent(dst)) + (set i | 0 <= i < |moved| :: moved[i].1);
      RenamedTouched(m, State(), src, dst);
    }

    method Collect(src: Path) returns (moved: seq<(Path, Ino)>)
      ensures forall i :: 0 <= i < |moved| ==>
        moved[i].0 in nodes && src <= moved[i].0 && moved[i].1 == nodes[moved[i].0]
      ensures forall q <- nodes :: src <= q ==> (q, nodes[q]) in moved
      ensures forall i, j :: 0 <= i < j < |moved| ==> moved[i].0 != moved[j].0
    {
      moved := [];
      var keys := nodes.Keys;
      while keys != {}
        invariant keys <= nodes.Keys
        invariant forall i :: 0 <= i < |moved| ==>
          moved[i].0 in nodes && src <= moved[i].0 && moved[i].1 == nodes[moved[i].0]
        invariant forall i {:trigger moved[i]} :: 0 <= i < |moved| ==> moved[i].0 !in keys
        invariant forall i, j {:trigger moved[i], moved[j]} :: 0 <= i < j < |moved| ==> moved[i].0 != moved[j].0
        invariant forall q <- nodes :: src <= q && q !in keys ==> (q, nodes[q]) in moved
      {
        var key :| key in keys;
        keys := keys - {key};
        if src <= key {
          moved := moved + [(key, nodes[key])];
        }
      }
    }

    method TakeOut(dst: Path, moved: seq<(Path, Ino)>)
      modifies this`nodes
      ensures forall q <- nodes :: q in old(nodes) && nodes[q] == old(nodes)[q] && q != dst
      ensures forall q <- old(nodes) :: q in nodes || q == dst || exists j :: 0 <= j < |moved| && moved[j].0 == q
      ensures forall j :: 0 <= j < |moved| ==> moved[j].0 !in nodes
    {
      nodes := nodes - {dst};
      for i := 0 to |moved|
        invariant forall q <- nodes :: q in old(nodes) && nodes[q] == old(nodes)[q] && q != dst
        invariant forall q <- old(nodes) :: q in nodes || q == dst || exists j :: 0 <= j < |moved| && moved[j].0 == q
        invariant forall j :: 0 <= j < i ==> moved[j].0 !in nodes
      {
        nodes := nodes - {moved[i].0};
      }
    }

    method PutBack(src: Path, dst: Path, moved: seq<(Path, Ino)>)
      requires forall i :: 0 <= i < |moved| ==> src <= moved[i].0
      requires forall i, j :: 0 <= i < j < |moved| ==> moved[i].0 != moved[j].0
      requires forall q <- nodes :: !(dst <= q)
      modifies this`nodes
      ensures forall q <- old(nodes) :: q in nodes && nodes[q] == old(nodes)[q]
      ensures forall q <- nodes :: q in old(nodes) || (dst <= q && (src + q[|dst|..], nodes[q]) in moved)
      ensures forall e <- moved :: dst + e.0[|src|..] in nodes
    {
      for i := 0 to |moved|
        invariant forall q <- old(nodes) :: q in nodes && nodes[q] == old(nodes)[q]
        invariant forall q <- nodes :: q in old(nodes) || (dst <= q && (src + q[|dst|..], nodes[q]) in moved)
        invariant forall j :: 0 <= j < i ==> dst + moved[j].0[|src|..] in nodes
      {
        var target := dst + moved[i].0[|src|..];
        assert src + target[|dst|..] == moved[i].0 && moved[i] in moved;
        nodes := nodes[target := moved[i].1];
      }
    }

    method MoveAll(src: Path, dst: Path, moved: seq<(Path, Ino)>)
      requires !(src <= dst) && !(dst <= src) && NothingBelow(nodes, dst)
      requires forall e <- moved :: e.0 in nodes && src <= e.0 && e.1 == nodes[e.0]
      requires forall i, j :: 0 <= i < j < |moved| ==> moved[i].0 != moved[j].0
      requires forall q <- nodes :: src <= q ==> (q, nodes[q]) in moved
      modifies this`nodes
      ensures nodes == Renamed(old(nodes), src, dst)
    {
      TakeOut(dst, moved);
      Emptied(old(nodes), nodes, src, dst, moved);
      PutBack(src, dst, moved);
      var renamed := Renamed(old(nodes), src, dst);
      forall p ensures p in nodes <==> p in renamed {
        RenamedCases(old(nodes), src, dst, p);
        if dst <= p && src + p[|dst|..] in old(nodes) {
          assert (src + p[|dst|..], old(nodes)[src + p[|dst|..]]) in moved;
          assert dst + (src + p[|dst|..])[|src|..] == p;
        }
      }
      forall p | p in nodes ensures nodes[p] == renamed[p] {
        RenamedCases(old(nodes), src, dst, p);
      }
    }

    function KindOf(p: Path): Option<Kind>
      requires Valid()
      reads this
    {
      KindAt(State(), p)
    }

    /** Restoring marks nothing: it only brings memory up to what storage already holds. */
    method RestoreDir(p: Path)
      requires Valid() && p != [] && KindAt(State(), Parent(p)) == Some(Dir)
      modifies this`nodes, this`objects, this`nextIno
      ensures Valid()
      ensures p in old(nodes) ==> Unchanged()
      ensures p !in old(nodes) ==>
        nodes == old(nodes)[p := old(nextIno)] && objects == old(objects)[old(nextIno) := Node(Dir, [], 0)]
    {
      if p !in nodes {
        PutNode(p, Node(Dir, [], 0));
      }
    }

    method RestoreFile(p: Path, data: seq<bv8>)
      requires Valid() && p != [] && KindAt(State(), Parent(p)) == Some(Dir) && !HasChildren(nodes, p)
      modifies this`nodes, this`objects, this`nextIno
      ensures Valid()
      ensures nodes == old(nodes)[p := old(nextIno)]
      ensures objects == old(objects)[old(nextIno) := Node(File, data, |data|)]
    {
      PutNode(p, Node(File, data, |data|));
    }

    method PutNode(p: Path, n: Node)
      requires Valid() && p != [] && KindAt(State(), Parent(p)) == Some(Dir)
      requires n.kind == Dir || !HasChildren(nodes, p)
      modifies this`nodes, this`objects, this`nextIno
      ensures Valid()
      ensures nodes == old(nodes)[p := old(nextIno)] && objects == old(objects)[old(nextIno) := n]
    {
      ghost var m := State();
      objects := objects[nextIno := n];
      nodes := nodes[p := nextIno];
      nextIno := nextIno + 1;
      forall q | q in nodes ensures UnderDirectory(State(), q) {
        assert q in m.nodes ==> UnderDirectory(m, q);
      }
    }

    method RequeueDirty(p: Path)
      requires Valid()
      modifies this`dirty
      ensures Kept() && dirty == old(dirty) + At(nodes, p)
    {
      ghost var m := State();
      if p in nodes {
        dirty := dirty + {nodes[p]};
      }
      MarksKeepTree(m, State());
    }

    /** Carries off everything marked, parents before children, and clears the marks. */
    method TakeDirtyParentsFirst() returns (out: seq<Entry>)
      requires Valid()
      modifies this`dirty
      ensures Valid() && dirty == {}
      ensures TakesMarked(old(State()), out) && Distinct(out) && ParentsFirst(out)
      ensures forall i, j :: 0 <= i < |out| && 0 <= j < |out| && out[i].path < out[j].path ==> i < j
    {
      out := [];
      ghost var m := State();
      var keys := nodes.Keys;
      while keys != {}
        invariant keys <= nodes.Keys
        invariant Distinct(out)
        invariant forall e <- out :: DirtyAt(m, e.path) && e == EntryFor(m, e.path) && e.path !in keys
        invariant forall p <- nodes :: DirtyAt(m, p) && p !in keys ==> EntryFor(m, p) in out
      {
        var p :| p in keys;
        keys := keys - {p};
        if nodes[p] in dirty {
          var n := objects[nodes[p]];
          out := out + [Entry(p, n.kind, if n.kind == File then Content(n) else [])];
        }
      }
      dirty := {};
      out := SortParentsFirst(out);
      ParentsPrecede(out);
      MarksKeepTree(m, State());
    }

    /** Whatever the program does with the file system while the drain waits. */
    method AnyOperations() returns (ran: nat)
      requires Valid()
      modifies this
      ensures Kept()
      ensures ran == 0 ==> Unchanged()
    {
      TouchedReflexive(State());
      ghost var m0 := State();
      ran := 0;
      var steps: nat :| 0 <= steps;
      while steps > 0
        invariant Valid() && Touched(m0, State())
        invariant ran == 0 ==> State() == m0
      {
        ghost var m1 := State();
        OneOperation();
        TouchedTransitive(m0, m1, State());
        ran := ran + 1;
        steps := steps - 1;
      }
    }

    method OneOperation()
      requires Valid()
      modifies this
      ensures Kept()
    {
      var choice: int, p: Path, q: Path, flags: Flags, fd: Fd, chunk: seq<bv8>, position: Option<nat>, size: nat
        :| true;
      if choice == 0 {
        var r := Open(p, flags);
      } else if choice == 1 {
        var r := Write(fd, chunk, position);
      } else if choice == 2 {
        var r := Ftruncate(fd, size);
      } else if choice == 3 {
        var r := Truncate(p, size);
      } else if choice == 4 {
        var r := Mkdir(p);
      } else if choice == 5 && p != [] {
        var r := Rmdir(p);
      } else if choice == 6 {
        var r := Unlink(p);
      } else if choice == 7 && !(p < q) {
        var r := Rename(p, q);
      } else {
        var r := Close(fd);
      }
    }
  }

  method SortParentsFirst(entries: seq<Entry>) returns (sorted: seq<Entry>)
    requires Distinct(entries)
    ensures ParentsFirst(sorted) && Distinct(sorted)
    ensures forall e :: e in sorted <==> e in entries
  {
    sorted := [];
    for i := 0 to |entries|
      invariant ParentsFirst(sorted) && Distinct(sorted)
      invariant forall e :: e in sorted <==> e in entries[..i]
    {
      sorted := InsertParentsFirst(sorted, entries[i]);
      assert entries[..i + 1] == entries[..i] + [entries[i]];
    }
    assert entries[..|entries|] == entries;
  }

  method InsertParentsFirst(sorted: seq<Entry>, entry: Entry) returns (r: seq<Entry>)
    requires ParentsFirst(sorted) && Distinct(sorted) && entry !in sorted
    ensures ParentsFirst(r) && Distinct(r)
    ensures forall e :: e in r <==> e in sorted || e == entry
  {
    var k := |sorted|;
    while k > 0 && Depth(sorted[k - 1].path) > Depth(entry.path)
      invariant 0 <= k <= |sorted|
      invariant forall j :: k <= j < |sorted| ==> Depth(sorted[j].path) > Depth(entry.path)
    {
      k := k - 1;
    }
    r := sorted[..k] + [entry] + sorted[k..];
    Inserted(sorted, k, entry);
    InsertedInOrder(sorted, k, entry);
  }

  lemma InsertedInOrder(sorted: seq<Entry>, k: nat, entry: Entry)
    requires ParentsFirst(sorted) && Distinct(sorted) && entry !in sorted && k <= |sorted|
    requires k > 0 ==> Depth(sorted[k - 1].path) <= Depth(entry.path)
    requires k < |sorted| ==> Depth(sorted[k].path) > Depth(entry.path)
    ensures ParentsFirst(sorted[..k] + [entry] + sorted[k..]) && Distinct(sorted[..k] + [entry] + sorted[k..])
  {
    var r := sorted[..k] + [entry] + sorted[k..];
    forall i, j | 0 <= i < j < |r| ensures Depth(r[i].path) <= Depth(r[j].path) && r[i] != r[j] {
      assert r[i] == if i < k then sorted[i] else if i == k then entry else sorted[i - 1];
      assert r[j] == if j < k then sorted[j] else if j == k then entry else sorted[j - 1];
      if j == k && i < k - 1 {
        assert Depth(sorted[i].path) <= Depth(sorted[k - 1].path);
      }
    }
  }

  lemma MovedInos(nodes: map<Path, Ino>, src: Path, moved: seq<(Path, Ino)>)
    requires forall e <- moved :: e.0 in nodes && src <= e.0 && e.1 == nodes[e.0]
    requires forall q <- nodes :: src <= q ==> (q, nodes[q]) in moved
    ensures (set i | 0 <= i < |moved| :: moved[i].1) == Inos(nodes, src)
  {}

  lemma Emptied(nodes: map<Path, Ino>, stay: map<Path, Ino>, src: Path, dst: Path, moved: seq<(Path, Ino)>)
    requires NothingBelow(nodes, dst)
    requires forall q <- nodes :: src <= q ==> (q, nodes[q]) in moved
    requires forall q <- stay :: q in nodes && q != dst
    requires forall j :: 0 <= j < |moved| ==> moved[j].0 !in stay
    ensures forall q <- stay :: !(src <= q) && !(dst <= q)
  {}

  ghost predicate NothingBelow(nodes: map<Path, Ino>, dst: Path) {
    forall q <- nodes :: !(dst < q)
  }

  lemma RenamedCases(nodes: map<Path, Ino>, src: Path, dst: Path, p: Path)
    requires !(src <= dst) && !(dst <= src) && NothingBelow(nodes, dst)
    ensures var r := Renamed(nodes, src, dst);
            if dst <= p then
              (p in r <==> src + p[|dst|..] in nodes) && (p in r ==> r[p] == nodes[src + p[|dst|..]])
            else
              (p in r <==> p in nodes && !(src <= p)) && (p in r ==> r[p] == nodes[p])
  {
    if dst <= p {
      assert dst + (src + p[|dst|..])[|src|..] == p;
      if p in Renamed(nodes, src, dst) && p !in (set q | q in nodes && !(src <= q) && q != dst) {
        var q :| q in nodes && src <= q && p == dst + q[|src|..];
        assert src + p[|dst|..] == q;
      }
    }
  }

  lemma FileHasNoChildren(m: Mem, p: Path)
    requires ValidMem(m) && KindAt(m, p) == Some(File)
    ensures !HasChildren(m.nodes, p)
  {
    forall q | q in m.nodes && q != [] ensures Parent(q) != p {
      assert UnderDirectory(m, q);
    }
  }

  lemma MissingHasNoChildren(m: Mem, p: Path)
    requires ValidMem(m) && p !in m.nodes
    ensures !HasChildren(m.nodes, p)
  {
    forall q | q in m.nodes && q != [] ensures Parent(q) != p {
      assert UnderDirectory(m, q);
    }
  }

  lemma AncestorHasChild(m: Mem, q: Path, a: Path)
    requires ValidMem(m) && q in m.nodes && a < q
    ensures KindAt(m, a) == Some(Dir) && HasChildren(m.nodes, a)
  {
    assert a == q[..|a|];
    AncestorsLive(m, q, |a|);
    var child := q[..|a| + 1];
    if |a| + 1 < |q| {
      AncestorsLive(m, q, |a| + 1);
    } else {
      assert child == q;
    }
    assert child in m.nodes && child != [] && Parent(child) == a;
  }

  lemma ChildlessIsLeaf(m: Mem, dst: Path)
    requires ValidMem(m) && !HasChildren(m.nodes, dst)
    ensures NothingBelow(m.nodes, dst)
  {
    forall q | q in m.nodes ensures !(dst < q) {
      if dst < q {
        AncestorHasChild(m, q, dst);
      }
    }
  }

  lemma AddedTouched(m: Mem, m': Mem, p: Path, i: Ino, kind: Kind)
    requires ValidMem(m) && p != [] && p !in m.nodes && KindAt(m, Parent(p)) == Some(Dir) && i !in m.objects
    requires m' == Mem(m.nodes[p := i], m.objects[i := Node(kind, [], 0)], m.dirty + {i} + At(m.nodes, Parent(p)))
    ensures ValidMem(m') && Touched(m, m')
  {
    forall q | q in m'.nodes ensures UnderDirectory(m', q) {
      assert q != p ==> UnderDirectory(m, q);
    }
    forall q: Path | KindAt(m, q) != KindAt(m', q) ensures MarkedAbove(m', q) {
      assert q == p;
    }
  }

  lemma RewrittenTouched(m: Mem, ino: Ino, n: Node)
    requires ValidMem(m) && ino in m.objects && n.kind == m.objects[ino].kind
    ensures var m' := m.(objects := m.objects[ino := n], dirty := m.dirty + {ino});
            ValidMem(m') && Touched(m, m')
  {
    var m' := m.(objects := m.objects[ino := n], dirty := m.dirty + {ino});
    forall q | q in m'.nodes ensures UnderDirectory(m', q) {
      assert UnderDirectory(m, q);
    }
  }

  lemma RemovedTouched(m: Mem, m': Mem, p: Path)
    requires ValidMem(m) && p != [] && p in m.nodes && !HasChildren(m.nodes, p)
    requires m' == m.(nodes := m.nodes - {p}, dirty := m.dirty + At(m.nodes, Parent(p)))
    ensures ValidMem(m') && Touched(m, m')
  {
    assert UnderDirectory(m, p);
    forall q | q in m'.nodes ensures UnderDirectory(m', q) {
      assert UnderDirectory(m, q);
    }
    forall q: Path | KindAt(m, q) != KindAt(m', q) ensures MarkedAbove(m', q) {
      assert q == p;
    }
  }

  lemma TargetIsLeaf(m: Mem, dst: Path)
    requires ValidMem(m) && (dst in m.nodes ==> !HasChildren(m.nodes, dst))
    ensures NothingBelow(m.nodes, dst)
  {
    if dst !in m.nodes {
      MissingHasNoChildren(m, dst);
    }
    ChildlessIsLeaf(m, dst);
  }

  lemma RenamedTouched(m: Mem, m': Mem, src: Path, dst: Path)
    requires ValidMem(m) && src in m.nodes && src != [] && dst != [] && !(src <= dst) && !(dst <= src)
    requires KindAt(m, Parent(dst)) == Some(Dir)
    requires dst in m.nodes ==> KindAt(m, dst) == KindAt(m, src) && !HasChildren(m.nodes, dst)
    requires m' == m.(nodes := Renamed(m.nodes, src, dst),
                      dirty := m.dirty + At(m'.nodes, Parent(src)) + At(m'.nodes, Parent(dst)) + Inos(m.nodes, src))
    ensures ValidMem(m') && Touched(m, m')
  {
    TargetIsLeaf(m, dst);
    assert UnderDirectory(m, src);
    RenamedIsTree(m, m', src, dst);
    forall p | p in m'.nodes ensures DirtyAt(m', p) || SameNode(m, m', p) {
      RenamedCases(m.nodes, src, dst, p);
      if dst <= p {
        assert src + p[|dst|..] in m.nodes && src <= src + p[|dst|..];
      }
    }
    forall q: Path | KindAt(m, q) != KindAt(m', q) ensures MarkedAbove(m', q) {
      RenamedMarksAbove(m, m', src, dst, q);
    }
  }

  lemma RenamedIsTree(m: Mem, m': Mem, src: Path, dst: Path)
    requires ValidMem(m) && src in m.nodes && src != [] && dst != [] && !(src <= dst) && !(dst <= src)
    requires KindAt(m, Parent(dst)) == Some(Dir) && NothingBelow(m.nodes, dst)
    requires m'.nodes == Renamed(m.nodes, src, dst) && m'.objects == m.objects
    ensures ValidMem(m')
  {
    forall p | p in m'.nodes ensures m'.nodes[p] in m'.objects {
      RenamedCases(m.nodes, src, dst, p);
    }
    RenamedCases(m.nodes, src, dst, []);
    forall p | p in m'.nodes ensures UnderDirectory(m', p) {
      RenamedCases(m.nodes, src, dst, p);
      if p != [] {
        RenamedCases(m.nodes, src, dst, Parent(p));
        if dst < p {
          var q := src + p[|dst|..];
          assert UnderDirectory(m, q);
          assert Parent(q) == src + Parent(p)[|dst|..];
        } else if p != dst {
          assert UnderDirectory(m, p);
        }
      }
    }
  }

  lemma RenamedMarksAbove(m: Mem, m': Mem, src: Path, dst: Path, q: Path)
    requires ValidMem(m) && src in m.nodes && src != [] && dst != [] && !(src <= dst) && !(dst <= src)
    requires KindAt(m, Parent(dst)) == Some(Dir) && KindAt(m, Parent(src)) == Some(Dir) && NothingBelow(m.nodes, dst)
    requires m'.nodes == Renamed(m.nodes, src, dst) && ValidMem(m') && m'.objects == m.objects
    requires At(m'.nodes, Parent(src)) + At(m'.nodes, Parent(dst)) + Inos(m.nodes, src) <= m'.dirty
    requires KindAt(m, q) != KindAt(m', q)
    ensures MarkedAbove(m', q)
  {
    RenamedCases(m.nodes, src, dst, []);
    RenamedCases(m.nodes, src, dst, q);
    if dst < q {
      MarksInside(m, m', src, dst, q);
    } else if q == dst {
      RenamedCases(m.nodes, src, dst, Parent(dst));
    } else {
      MarksAboveSource(m, m', src, dst, q);
    }
  }

  lemma MarksInside(m: Mem, m': Mem, src: Path, dst: Path, q: Path)
    requires ValidMem(m) && src in m.nodes && !(src <= dst) && !(dst <= src) && NothingBelow(m.nodes, dst)
    requires m'.nodes == Renamed(m.nodes, src, dst) && ValidMem(m') && Inos(m.nodes, src) <= m'.dirty
    requires dst < q
    ensures MarkedAbove(m', q)
  {
    var a := Nearest(m', Parent(q));
    RenamedCases(m.nodes, src, dst, dst);
    assert src + dst[|dst|..] == src;
    assert dst == Parent(q)[..|dst|];
    assert dst <= a;
    RenamedCases(m.nodes, src, dst, a);
    assert src <= src + a[|dst|..];
  }

  lemma MarksAboveSource(m: Mem, m': Mem, src: Path, dst: Path, q: Path)
    requires ValidMem(m) && src != [] && Parent(src) in m.nodes
    requires !(src <= dst) && !(dst <= src) && NothingBelow(m.nodes, dst)
    requires m'.nodes == Renamed(m.nodes, src, dst) && ValidMem(m') && At(m'.nodes, Parent(src)) <= m'.dirty
    requires src <= q && !(dst <= q)
    ensures MarkedAbove(m', q)
  {
    RenamedCases(m.nodes, src, dst, Parent(src));
    forall k | |Parent(src)| < k <= |Parent(q)| ensures Parent(q)[..k] !in m'.nodes {
      RenamedCases(m.nodes, src, dst, Parent(q)[..k]);
      assert src <= Parent(q)[..k];
    }
    NearestUnique(m', Parent(q), Parent(src));
  }

  lemma TouchedTransitive(m0: Mem, m1: Mem, m2: Mem)
    requires ValidMem(m0) && ValidMem(m1) && ValidMem(m2)
    requires Touched(m0, m1) && Touched(m1, m2)
    ensures Touched(m0, m2)
  {
    forall p <- m2.nodes ensures DirtyAt(m2, p) || SameNode(m0, m2, p) {
      if !DirtyAt(m2, p) {
        assert SameNode(m1, m2, p);
        assert !DirtyAt(m1, p);
      }
    }
    forall p: Path | KindAt(m0, p) != KindAt(m2, p) ensures MarkedAbove(m2, p) {
      if KindAt(m1, p) == KindAt(m2, p) {
        assert MarkedAbove(m1, p);
        NearestStable(m1, m2, Parent(p));
      }
    }
  }
}
