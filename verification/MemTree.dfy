/** The state of the in-memory file system (cmd/plainshelf-wasm/web/memfs.js) as a value: a path
    map of nodes, the nodes' contents, and the set of nodes touched since the last drain; and the
    discipline every operation keeps when it touches nodes.  Paths are normalised: [] is "/". */
module MemTree {
  import opened Basics

  type Name = string
  type Path = seq<Name>
  type Ino = nat

  datatype Kind = Dir | File

  datatype RawNode = Node(kind: Kind, data: seq<bv8>, size: nat)

  /** A node's buffer may be longer than its size; the spare bytes are zero. */
  type Node = n: RawNode | n.size <= |n.data| && forall i :: n.size <= i < |n.data| ==> n.data[i] == 0
    witness RawNode.Node(Dir, [], 0)

  datatype Mem = Mem(nodes: map<Path, Ino>, objects: map<Ino, Node>, dirty: set<Ino>)

  function Parent(p: Path): Path
    requires p != []
  {
    p[..|p| - 1]
  }

  // ---------- Node contents ----------

  function Content(n: Node): seq<bv8> {
    n.data[..n.size]
  }

  function Zeros(k: nat): (z: seq<bv8>)
    ensures |z| == k && forall i :: 0 <= i < k ==> z[i] == 0
  {
    seq(k, _ => 0)
  }

  /** A content cut or zero-padded to a size. */
  function Resized(content: seq<bv8>, size: nat): seq<bv8> {
    if size <= |content| then content[..size] else content + Zeros(size - |content|)
  }

  /** A content with a chunk written at an offset, any gap filled with zeros. */
  function Overwritten(content: seq<bv8>, chunk: seq<bv8>, at: nat): seq<bv8> {
    var padded := if |content| < at + |chunk| then Resized(content, at + |chunk|) else content;
    padded[..at] + chunk + padded[at + |chunk|..]
  }

  // ---------- The tree ----------

  function KindAt(m: Mem, p: Path): Option<Kind>
    requires forall q <- m.nodes :: m.nodes[q] in m.objects
  {
    if p in m.nodes then Some(m.objects[m.nodes[p]].kind) else None
  }

  ghost predicate ValidMem(m: Mem) {
    && (forall p <- m.nodes :: m.nodes[p] in m.objects)
    && KindAt(m, []) == Some(Dir)
    && (forall p {:trigger UnderDirectory(m, p)} | p in m.nodes :: UnderDirectory(m, p))
  }

  ghost predicate UnderDirectory(m: Mem, p: Path)
    requires forall q <- m.nodes :: m.nodes[q] in m.objects
  {
    p != [] ==> KindAt(m, Parent(p)) == Some(Dir)
  }

  /** The node at a path, if there is one, as a set. */
  function At(nodes: map<Path, Ino>, p: Path): set<Ino> {
    if p in nodes then {nodes[p]} else {}
  }

  predicate DirtyAt(m: Mem, p: Path) {
    p in m.nodes && m.nodes[p] in m.dirty
  }

  predicate HasChildren(nodes: map<Path, Ino>, p: Path) {
    exists q <- nodes :: q != [] && Parent(q) == p
  }

  lemma HasChildrenMeans(nodes: map<Path, Ino>, p: Path)
    ensures HasChildren(nodes, p) <==> exists x: Name :: p + [x] in nodes
  {
    forall q | q in nodes && q != [] && Parent(q) == p ensures p + [q[|q| - 1]] in nodes {
      assert q == p + [q[|q| - 1]];
    }
    forall x: Name | p + [x] in nodes ensures HasChildren(nodes, p) {
      assert Parent(p + [x]) == p;
    }
  }

  /** The path itself when it is live, and else the nearest live directory above it. */
  function Nearest(m: Mem, p: Path): (a: Path)
    requires [] in m.nodes
    ensures a in m.nodes && a <= p
    ensures forall k :: |a| < k <= |p| ==> p[..k] !in m.nodes
  {
    if p in m.nodes then p
    else
      var a := Nearest(m, Parent(p));
      assert forall k :: 0 <= k < |p| ==> Parent(p)[..k] == p[..k];
      assert p[..|p|] == p && p[..|p| - 1] == Parent(p);
      a
  }

  lemma NearestUnique(m: Mem, p: Path, a: Path)
    requires [] in m.nodes && a in m.nodes && a <= p
    requires forall k :: |a| < k <= |p| ==> p[..k] !in m.nodes
    ensures Nearest(m, p) == a
  {
    var b := Nearest(m, p);
    assert a == p[..|a|] && b == p[..|b|];
  }

  lemma {:induction false} AncestorsLive(m: Mem, p: Path, k: nat)
    requires ValidMem(m) && p in m.nodes && k < |p|
    ensures p[..k] in m.nodes && KindAt(m, p[..k]) == Some(Dir)
    decreases |p| - k
  {
    assert UnderDirectory(m, p);
    if k + 1 == |p| {
      assert p[..k] == Parent(p);
    } else {
      AncestorsLive(m, p, k + 1);
      assert UnderDirectory(m, p[..k + 1]);
      assert Parent(p[..k + 1]) == p[..k];
    }
  }

  // ---------- What a drain takes ----------

  /** A dirty node as the drain carries it away: a file with a copy of its content. */
  datatype Entry = Entry(path: Path, kind: Kind, data: seq<bv8>)

  function EntryFor(m: Mem, p: Path): Entry
    requires p in m.nodes && m.nodes[p] in m.objects
  {
    var n := m.objects[m.nodes[p]];
    Entry(p, n.kind, if n.kind == File then Content(n) else [])
  }

  function Depth(p: Path): nat {
    if p == [] then 0 else |p| + 1
  }

  ghost predicate ParentsFirst(entries: seq<Entry>) {
    forall i, j :: 0 <= i < j < |entries| ==> Depth(entries[i].path) <= Depth(entries[j].path)
  }

  /** What lies below a directory comes after it. */
  lemma ParentsPrecede(entries: seq<Entry>)
    requires ParentsFirst(entries)
    ensures forall i, j :: 0 <= i < |entries| && 0 <= j < |entries| && entries[i].path < entries[j].path ==> i < j
  {
    forall i, j | 0 <= i < |entries| && 0 <= j < |entries| && entries[i].path < entries[j].path ensures i < j {
      assert Depth(entries[i].path) < Depth(entries[j].path);
    }
  }

  /** The entries are exactly the marked live paths, each as it was. */
  ghost predicate TakesMarked(m: Mem, entries: seq<Entry>)
    requires ValidMem(m)
  {
    && (forall e <- entries :: DirtyAt(m, e.path) && e == EntryFor(m, e.path))
    && (forall p <- m.nodes :: DirtyAt(m, p) ==> EntryFor(m, p) in entries)
  }

  // ---------- The touch discipline ----------

  /** What every operation keeps: marks only grow; a path whose node is new or changed is marked;
      where a path appeared, vanished or changed kind, the nearest live directory above is marked. */
  ghost predicate Touched(m: Mem, m': Mem)
    requires ValidMem(m) && ValidMem(m')
  {
    && m.dirty <= m'.dirty
    && (forall p {:trigger SameNode(m, m', p)} {:trigger DirtyAt(m', p)} | p in m'.nodes ::
      DirtyAt(m', p) || SameNode(m, m', p))
    && (forall p: Path {:trigger MarkedAbove(m', p)} :: KindAt(m, p) != KindAt(m', p) ==> MarkedAbove(m', p))
  }

  ghost predicate SameNode(m: Mem, m': Mem, p: Path)
    requires ValidMem(m) && ValidMem(m')
  {
    && p in m.nodes && p in m'.nodes && m.nodes[p] == m'.nodes[p]
    && m'.objects[m'.nodes[p]].kind == m.objects[m.nodes[p]].kind
    && Content(m'.objects[m'.nodes[p]]) == Content(m.objects[m.nodes[p]])
  }

  ghost predicate MarkedAbove(m: Mem, p: Path)
    requires ValidMem(m)
  {
    p != [] && DirtyAt(m, Nearest(m, Parent(p)))
  }

  lemma MarksKeepTree(m: Mem, m': Mem)
    requires ValidMem(m) && m' == m.(dirty := m'.dirty)
    ensures ValidMem(m')
    ensures m.dirty <= m'.dirty ==> Touched(m, m')
    ensures forall p :: Nearest(m', p) == Nearest(m, p)
  {
    forall p | p in m.nodes ensures UnderDirectory(m', p) {
      assert UnderDirectory(m, p);
    }
    forall p ensures Nearest(m', p) == Nearest(m, p) {
      NearestUnique(m', p, Nearest(m, p));
    }
  }

  lemma TouchedReflexive(m: Mem)
    requires ValidMem(m)
    ensures Touched(m, m)
  {}

  /** Across an operation the nearest live directory stays the same node, or the new one is marked:
      when a directory goes, the one above it is marked, and when something appears, it is. */
  lemma NearestStable(m: Mem, m': Mem, p: Path)
    requires ValidMem(m) && ValidMem(m') && Touched(m, m')
    ensures DirtyAt(m', Nearest(m', p)) || (Nearest(m', p) == Nearest(m, p) && SameNode(m, m', Nearest(m, p)))
  {
    var a, a' := Nearest(m, p), Nearest(m', p);
    assert a == p[..|a|] && a' == p[..|a'|];
    assert DirtyAt(m', a') || SameNode(m, m', a');
    if |a'| > |a| {
      assert p[..|a'|] !in m.nodes;
    } else if a !in m'.nodes {
      assert KindAt(m, a) != KindAt(m', a) && MarkedAbove(m', a);
      NearestAboveGone(m', p, a);
    }
  }

  lemma NearestAboveGone(m: Mem, p: Path, a: Path)
    requires ValidMem(m) && a <= p && a != [] && a !in m.nodes
    requires forall k :: |a| < k <= |p| ==> p[..k] !in m.nodes
    ensures Nearest(m, p) == Nearest(m, Parent(a))
  {
    var b := Nearest(m, Parent(a));
    assert b == p[..|b|];
    forall k | |b| < k <= |p| ensures p[..k] !in m.nodes {
      if k == |a| {
        assert p[..k] == a;
      } else if k < |a| {
        assert p[..k] == Parent(a)[..k];
      }
    }
    NearestUnique(m, p, b);
  }
}
