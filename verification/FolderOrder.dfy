/** The order in which a shelf lists its folders when some carry a sort key (shelf/shelf_cache.go,
    sortFolderSiblings). The maps of the source are keyed by joined names, which tell the paths
    apart (FolderPaths.JoinTellsPath); here they are keyed by the paths. */
module FolderOrder {
  import opened Basics
  import opened FolderPaths

  datatype FolderMeta = FolderMeta(hasSortKey: bool, sortKey: real)

  type Metas = map<string, FolderMeta>

  function MetaOf(metas: Metas, f: FolderPath): FolderMeta {
    if Join(f) in metas then metas[Join(f)] else FolderMeta(false, 0.0)
  }

  /** Keyed siblings first, by their keys. */
  function CompareSiblings(metas: Metas, a: FolderPath, b: FolderPath): int {
    CompareKeys(MetaOf(metas, a), MetaOf(metas, b))
  }

  function CompareKeys(x: FolderMeta, y: FolderMeta): int {
    if x.hasSortKey != y.hasSortKey then (if x.hasSortKey then -1 else 1)
    else if x.hasSortKey then (if x.sortKey < y.sortKey then -1 else if x.sortKey > y.sortKey then 1 else 0)
    else 0
  }

  // ---------- The order, said outright ----------

  /** The first listed folder that is, or lies below, the given one. */
  ghost function Rank(folders: seq<FolderPath>, f: FolderPath): (r: nat)
    ensures r <= |folders| && (r < |folders| ==> HasPrefix(folders[r], f))
    ensures forall i :: 0 <= i < r ==> !HasPrefix(folders[i], f)
  {
    RankFrom(folders, f, 0)
  }

  ghost function RankFrom(folders: seq<FolderPath>, f: FolderPath, from: nat): (r: nat)
    requires from <= |folders| && forall i :: 0 <= i < from ==> !HasPrefix(folders[i], f)
    ensures r <= |folders| && (r < |folders| ==> HasPrefix(folders[r], f))
    ensures forall i :: 0 <= i < r ==> !HasPrefix(folders[i], f)
    decreases |folders| - from
  {
    if from == |folders| || HasPrefix(folders[from], f) then from else RankFrom(folders, f, from + 1)
  }

  /** Which of two siblings comes first: by key, and by the list where keys do not tell. */
  ghost predicate Precedes(folders: seq<FolderPath>, metas: Metas, a: FolderPath, b: FolderPath) {
    var c := CompareSiblings(metas, a, b);
    c < 0 || (c == 0 && Rank(folders, a) < Rank(folders, b))
  }

  /** Of two siblings the one with a key comes before one without, the smaller key before the larger,
      and else the one that is met first, itself or in a folder below it. */
  lemma PrecedesMeans(folders: seq<FolderPath>, metas: Metas, a: FolderPath, b: FolderPath)
    ensures var keyA := Join(a) in metas && metas[Join(a)].hasSortKey;
            var keyB := Join(b) in metas && metas[Join(b)].hasSortKey;
            Precedes(folders, metas, a, b) <==>
              if keyA != keyB then keyA
              else if keyA && metas[Join(a)].sortKey != metas[Join(b)].sortKey
              then metas[Join(a)].sortKey < metas[Join(b)].sortKey
              else exists i :: 0 <= i < |folders| && a <= folders[i] && forall j :: 0 <= j <= i ==> !(b <= folders[j])
  {
    var i, j := Rank(folders, a), Rank(folders, b);
    assert i < |folders| ==> a <= folders[i];
    assert j < |folders| ==> b <= folders[j];
    assert forall k :: 0 <= k < i ==> a <= folders[k] ==> HasPrefix(folders[k], a);
    assert forall k :: 0 <= k < j ==> b <= folders[k] ==> HasPrefix(folders[k], b);
  }

  /** x comes before y: y lies below x, or x's ancestor precedes y's where they part. */
  ghost predicate LessAt(folders: seq<FolderPath>, metas: Metas, x: FolderPath, y: FolderPath, d: int) {
    && 0 <= d <= |x| && d < |y| && x[..d] == y[..d]
    && (d < |x| ==> x[d] != y[d] && Precedes(folders, metas, x[..d + 1], y[..d + 1]))
  }

  ghost predicate Less(folders: seq<FolderPath>, metas: Metas, x: FolderPath, y: FolderPath) {
    exists d :: LessAt(folders, metas, x, y, d)
  }

  ghost predicate InOrder(folders: seq<FolderPath>, metas: Metas, s: seq<FolderPath>) {
    forall i, j {:trigger Less(folders, metas, s[i], s[j])} :: 0 <= i < j < |s| ==> Less(folders, metas, s[i], s[j])
  }

  lemma PrecedesIsStrict(folders: seq<FolderPath>, metas: Metas, a: FolderPath, b: FolderPath, c: FolderPath)
    ensures !Precedes(folders, metas, a, a)
    ensures Precedes(folders, metas, a, b) ==> !Precedes(folders, metas, b, a)
    ensures Precedes(folders, metas, a, b) && Precedes(folders, metas, b, c) ==> Precedes(folders, metas, a, c)
  {}

  function Common(f: FolderPath, g: FolderPath): (n: nat)
    ensures n <= |f| && n <= |g| && f[..n] == g[..n] && (n < |f| && n < |g| ==> f[n] != g[n])
  {
    if f == [] || g == [] || f[0] != g[0] then 0 else 1 + Common(f[1..], g[1..])
  }

  /** A path that leaves p parts from all below p at one place. */
  lemma PartsAtOnePlace(p: FolderPath, x: FolderPath, y: FolderPath, d: nat)
    requires HasPrefix(x, p) && !HasPrefix(y, p) && d <= |x| && d <= |y| && x[..d] == y[..d]
    requires d < |x| && d < |y| ==> x[d] != y[d]
    ensures d == Common(p, y) < |p|
  {
    var n := Common(p, y);
    assert x[..|p|] == p[..|p|];
    SameItems(x, p, |p|);
    SameItems(x, y, d);
    SameItems(p, y, n);
  }

  lemma SameBeginning(p: FolderPath, x: FolderPath, n: nat)
    requires HasPrefix(x, p) && n <= |p|
    ensures x[..n] == p[..n]
  {
    assert x[..n] == x[..|p|][..n];
  }

  /** Every subtree is listed in one piece. */
  lemma SubtreesAreContiguous(folders: seq<FolderPath>, metas: Metas, s: seq<FolderPath>, p: FolderPath, i: nat, j: nat,
                              k: nat)
    requires InOrder(folders, metas, s) && i < j < k < |s|
    requires HasPrefix(s[i], p) && HasPrefix(s[k], p)
    ensures HasPrefix(s[j], p)
  {
    var x, y, z := s[i], s[j], s[k];
    assert Less(folders, metas, x, y) && Less(folders, metas, y, z);
    var d :| LessAt(folders, metas, x, y, d);
    var e :| LessAt(folders, metas, y, z, e);
    if !HasPrefix(y, p) {
      PartsAtOnePlace(p, x, y, d);
      PartsAtOnePlace(p, z, y, e);
      SameBeginning(p, x, d + 1);
      SameBeginning(p, z, d + 1);
      PrecedesIsStrict(folders, metas, x[..d + 1], y[..d + 1], x[..d + 1]);
      assert false;
    }
  }

  /** Nothing is listed twice. */
  lemma OrderIsStrict(folders: seq<FolderPath>, metas: Metas, s: seq<FolderPath>, i: nat, j: nat)
    requires InOrder(folders, metas, s) && i < j < |s|
    ensures s[i] != s[j]
  {
    assert Less(folders, metas, s[i], s[j]);
  }

  // ---------- The sort ----------

  ghost predicate IsPrefix(folders: seq<FolderPath>, n: nat, f: FolderPath)
    requires n <= |folders|
  {
    exists i :: 0 <= i < n && HasPrefix(folders[i], f)
  }

  ghost predicate Present(folders: seq<FolderPath>, f: FolderPath) {
    f in folders
  }

  ghost predicate Increasing(folders: seq<FolderPath>, siblings: seq<FolderPath>) {
    forall i, j :: 0 <= i < j < |siblings| ==> Rank(folders, siblings[i]) < Rank(folders, siblings[j])
  }

  type Children = map<FolderPath, seq<FolderPath>>

  function ChildrenOf(children: Children, p: FolderPath): seq<FolderPath> {
    if p in children then children[p] else []
  }

  /** Seen are the folders and ancestors of the first n, and those of the next up to a depth. */
  ghost predicate SeenUpTo(folders: seq<FolderPath>, n: nat, depth: nat, seen: set<FolderPath>)
    requires n <= |folders|
  {
    forall f :: f in seen <==>
      f != [] && (IsPrefix(folders, n, f) || (n < |folders| && |f| <= depth && HasPrefix(folders[n], f)))
  }

  /** Each folder seen is among its parent's children, in the order they were met. */
  ghost predicate Tree(folders: seq<FolderPath>, seen: set<FolderPath>, children: Children) {
    ChildrenSeen(seen, children) && SeenListed(seen, children) && AllIncreasing(folders, children)
  }

  function Parent(f: FolderPath): FolderPath
    requires f != []
  {
    f[..|f| - 1]
  }

  ghost predicate ChildrenSeen(seen: set<FolderPath>, children: Children) {
    forall p, c :: c in ChildrenOf(children, p) ==> c != [] && p == Parent(c) && c in seen
  }

  ghost predicate SeenListed(seen: set<FolderPath>, children: Children) {
    forall c <- seen :: c != [] && c in ChildrenOf(children, Parent(c))
  }

  ghost predicate AllIncreasing(folders: seq<FolderPath>, children: Children) {
    forall p {:trigger ChildrenOf(children, p)} :: Increasing(folders, ChildrenOf(children, p))
  }

  function WithChild(children: Children, f: FolderPath): Children
    requires f != []
  {
    children[Parent(f) := ChildrenOf(children, Parent(f)) + [f]]
  }

  lemma ChildRanksLast(folders: seq<FolderPath>, n: nat, f: FolderPath, seen: set<FolderPath>, children: Children)
    requires n < |folders| && f != [] && HasPrefix(folders[n], f) && f !in seen
    requires SeenUpTo(folders, n, |f| - 1, seen) && Tree(folders, seen, children)
    ensures Rank(folders, f) == n
    ensures forall c <- ChildrenOf(children, Parent(f)) :: Rank(folders, c) < n
  {}

  lemma ChildAddedInOrder(folders: seq<FolderPath>, n: nat, f: FolderPath, children: Children)
    requires f != [] && AllIncreasing(folders, children) && Rank(folders, f) == n
    requires forall c <- ChildrenOf(children, Parent(f)) :: Rank(folders, c) < n
    ensures AllIncreasing(folders, WithChild(children, f))
  {
    var siblings := ChildrenOf(children, Parent(f));
    assert Increasing(folders, siblings);
    assert forall i :: 0 <= i < |siblings| ==> siblings[i] in siblings;
    assert Increasing(folders, siblings + [f]);
    forall p ensures Increasing(folders, ChildrenOf(WithChild(children, f), p)) {
      assert p != Parent(f) ==> ChildrenOf(WithChild(children, f), p) == ChildrenOf(children, p);
    }
  }

  lemma ListedMore(seen: set<FolderPath>, children: Children, f: FolderPath, after: Children)
    requires f != [] && ChildrenSeen(seen, children) && SeenListed(seen, children)
    requires forall p, c :: c in ChildrenOf(after, p) <==> c in ChildrenOf(children, p) || (p == Parent(f) && c == f)
    ensures ChildrenSeen(seen + {f}, after) && SeenListed(seen + {f}, after)
  {}

  lemma ChildAdded(folders: seq<FolderPath>, n: nat, f: FolderPath, seen: set<FolderPath>, children: Children)
    requires n < |folders| && f != [] && HasPrefix(folders[n], f) && f !in seen
    requires SeenUpTo(folders, n, |f| - 1, seen) && Tree(folders, seen, children)
    ensures Tree(folders, seen + {f}, WithChild(children, f))
  {
    var after := WithChild(children, f);
    ChildRanksLast(folders, n, f, seen, children);
    ChildAddedInOrder(folders, n, f, children);
    forall p, c ensures c in ChildrenOf(after, p) <==> c in ChildrenOf(children, p) || (p == Parent(f) && c == f) {
      assert ChildrenOf(after, p) == ChildrenOf(children, p) + if p == Parent(f) then [f] else [];
    }
    ListedMore(seen, children, f, after);
  }

  lemma SeenMore(folders: seq<FolderPath>, n: nat, f: FolderPath, seen: set<FolderPath>)
    requires n < |folders| && f != [] && HasPrefix(folders[n], f)
    requires SeenUpTo(folders, n, |f| - 1, seen)
    ensures SeenUpTo(folders, n, |f|, seen + {f})
  {}

  lemma SeenAlready(folders: seq<FolderPath>, n: nat, f: FolderPath, seen: set<FolderPath>)
    requires n < |folders| && HasPrefix(folders[n], f)
    requires SeenUpTo(folders, n, 0, seen) && (f == [] || f in seen)
    ensures SeenUpTo(folders, n, |f|, seen)
  {
    if f != [] {
      var i :| 0 <= i < n && HasPrefix(folders[i], f);
      forall g | |g| <= |f| && HasPrefix(folders[n], g) ensures IsPrefix(folders, n, g) {
        PrefixesNest(folders[n], f, g);
        PrefixOfPrefix(folders[i], f, g);
      }
    }
  }

  // ---------- Sorting siblings and visiting subtrees ----------

  ghost predicate SiblingsInOrder(folders: seq<FolderPath>, metas: Metas, s: seq<FolderPath>) {
    forall i, j {:trigger Precedes(folders, metas, s[i], s[j])} ::
      0 <= i < j < |s| ==> Precedes(folders, metas, s[i], s[j])
  }

  lemma InsertedInOrder(folders: seq<FolderPath>, metas: Metas, s: seq<FolderPath>, x: FolderPath, j: nat)
    requires SiblingsInOrder(folders, metas, s) && j <= |s|
    requires forall i :: 0 <= i < j ==> Precedes(folders, metas, s[i], x)
    requires forall i :: j <= i < |s| ==> Precedes(folders, metas, x, s[i])
    ensures SiblingsInOrder(folders, metas, s[..j] + [x] + s[j..])
    ensures forall f :: f in s[..j] + [x] + s[j..] <==> f in s || f == x
  {}

  /** A stable sort by keys of siblings in the order they were met. */
  method SortSiblings(ghost folders: seq<FolderPath>, metas: Metas, siblings: seq<FolderPath>)
    returns (s: seq<FolderPath>)
    requires Increasing(folders, siblings)
    ensures SiblingsInOrder(folders, metas, s)
    ensures forall f :: f in s <==> f in siblings
  {
    s := [];
    for k := 0 to |siblings|
      invariant SiblingsInOrder(folders, metas, s)
      invariant forall f :: f in s <==> f in siblings[..k]
    {
      var x := siblings[k];
      assert forall f <- siblings[..k] :: Rank(folders, f) < Rank(folders, x);
      s := InsertSibling(folders, metas, s, x);
      assert siblings[..k + 1] == siblings[..k] + [x];
    }
    assert siblings[..|siblings|] == siblings;
  }

  /** A sibling goes behind all that do not come after it by their keys. */
  method InsertSibling(ghost folders: seq<FolderPath>, metas: Metas, s: seq<FolderPath>, x: FolderPath)
    returns (r: seq<FolderPath>)
    requires SiblingsInOrder(folders, metas, s) && forall f <- s :: Rank(folders, f) < Rank(folders, x)
    ensures SiblingsInOrder(folders, metas, r)
    ensures forall f :: f in r <==> f in s || f == x
  {
    var j: nat := |s|;
    while j > 0 && CompareSiblings(metas, x, s[j - 1]) < 0
      invariant 0 <= j <= |s| && forall i :: j <= i < |s| ==> Precedes(folders, metas, x, s[i])
    {
      j := j - 1;
    }
    AllBefore(folders, metas, s, x, j);
    InsertedInOrder(folders, metas, s, x, j);
    r := s[..j] + [x] + s[j..];
  }

  lemma AllBefore(folders: seq<FolderPath>, metas: Metas, s: seq<FolderPath>, x: FolderPath, j: nat)
    requires SiblingsInOrder(folders, metas, s) && j <= |s|
    requires forall f <- s :: Rank(folders, f) < Rank(folders, x)
    requires j > 0 ==> CompareSiblings(metas, x, s[j - 1]) >= 0
    ensures forall i :: 0 <= i < j ==> Precedes(folders, metas, s[i], x)
  {
    forall i | 0 <= i < j ensures Precedes(folders, metas, s[i], x) {
      assert s[j - 1] in s && Precedes(folders, metas, s[j - 1], x);
      assert i < j - 1 ==> Precedes(folders, metas, s[i], s[j - 1]);
      PrecedesIsStrict(folders, metas, s[i], s[j - 1], x);
    }
  }

  lemma OrderedTogether(folders: seq<FolderPath>, metas: Metas, a: seq<FolderPath>, b: seq<FolderPath>)
    requires InOrder(folders, metas, a) && InOrder(folders, metas, b)
    requires forall x <- a, y <- b :: Less(folders, metas, x, y)
    ensures InOrder(folders, metas, a + b)
  {}

  predicate Below(f: FolderPath, p: FolderPath) {
    |f| > |p| && HasPrefix(f, p)
  }

  /** What lies below an earlier sibling comes before what lies below a later one. */
  lemma SiblingsApart(folders: seq<FolderPath>, metas: Metas, p: FolderPath, x: FolderPath, y: FolderPath)
    requires Below(x, p) && Below(y, p) && Precedes(folders, metas, x[..|p| + 1], y[..|p| + 1])
    ensures Less(folders, metas, x, y)
  {
    var d := |p|;
    if x[d] == y[d] {
      assert x[..d + 1] == x[..d] + [x[d]] == y[..d + 1];
      PrecedesIsStrict(folders, metas, x[..d + 1], y[..d + 1], x[..d + 1]);
    }
    assert LessAt(folders, metas, x, y, d);
  }

  lemma Reassociate(a: seq<FolderPath>, b: seq<FolderPath>, c: seq<FolderPath>)
    ensures a + b + c == a + (b + c)
  {}

  ghost predicate ListsBelow(folders: seq<FolderPath>, p: FolderPath, part: seq<FolderPath>) {
    forall f :: f in part <==> f in folders && Below(f, p)
  }

  ghost predicate ListsSubtree(folders: seq<FolderPath>, p: FolderPath, part: seq<FolderPath>) {
    forall f :: f in part <==> f in folders && HasPrefix(f, p)
  }

  /** A folder, if it is itself listed, before what lies below it. */
  lemma OwnFirst(folders: seq<FolderPath>, metas: Metas, p: FolderPath, below: seq<FolderPath>)
    requires InOrder(folders, metas, below) && ListsBelow(folders, p, below)
    ensures var subtree := (if p in folders then [p] else []) + below;
            InOrder(folders, metas, subtree) && ListsSubtree(folders, p, subtree)
  {
    forall y | y in below ensures Less(folders, metas, p, y) {
      assert LessAt(folders, metas, p, y, |p|);
    }
    OrderedTogether(folders, metas, if p in folders then [p] else [], below);
    forall f ensures HasPrefix(f, p) <==> f == p || Below(f, p) {
      assert |f| == |p| ==> f[..|p|] == f;
    }
  }

  ghost predicate ListsUnder(folders: seq<FolderPath>, p: FolderPath, children: seq<FolderPath>,
                             part: seq<FolderPath>) {
    forall f :: f in part <==> f in folders && Below(f, p) && f[..|p| + 1] in children
  }

  /** One more sibling's subtree listed after those of the earlier ones. */
  lemma SubtreeListed(folders: seq<FolderPath>, metas: Metas, p: FolderPath, s: seq<FolderPath>, i: nat,
                      part: seq<FolderPath>, subtree: seq<FolderPath>)
    requires SiblingsInOrder(folders, metas, s) && i < |s| && Below(s[i], p) && |s[i]| == |p| + 1
    requires InOrder(folders, metas, part) && InOrder(folders, metas, subtree)
    requires ListsUnder(folders, p, s[..i], part)
    requires ListsSubtree(folders, s[i], subtree)
    ensures InOrder(folders, metas, part + subtree) && ListsUnder(folders, p, s[..i + 1], part + subtree)
  {
    forall f ensures HasPrefix(f, s[i]) <==> Below(f, p) && f[..|p| + 1] == s[i] {
      if HasPrefix(f, s[i]) {
        assert f[..|p|] == f[..|s[i]|][..|p|] == s[i][..|p|];
      }
    }
    forall x, y | x in part && y in subtree ensures Less(folders, metas, x, y) {
      var j :| 0 <= j < i && s[j] == x[..|p| + 1];
      assert Precedes(folders, metas, s[j], s[i]);
      SiblingsApart(folders, metas, p, x, y);
    }
    OrderedTogether(folders, metas, part, subtree);
    assert s[..i + 1] == s[..i] + [s[i]];
  }

  ghost function MaxLen(folders: seq<FolderPath>): nat {
    if folders == [] then 0
    else
      var n := |folders| - 1;
      var m := MaxLen(folders[..n]);
      if m > |folders[n]| then m else |folders[n]|
  }

  lemma {:induction false} AllWithinMaxLen(folders: seq<FolderPath>, i: nat)
    requires i < |folders|
    ensures |folders[i]| <= MaxLen(folders)
  {
    if i < |folders| - 1 {
      AllWithinMaxLen(folders[..|folders| - 1], i);
    }
  }

  class Sorter {
    const folders: seq<FolderPath>
    const metas: Metas
    var children: Children
    var seen: set<FolderPath>
    var result: seq<FolderPath>

    constructor (folders: seq<FolderPath>, metas: Metas)
      ensures this.folders == folders && this.metas == metas && children == map[] && seen == {} && result == []
    {
      this.folders, this.metas, children, seen, result := folders, metas, map[], {}, [];
    }

    method Add(folder: FolderPath, ghost n: nat)
      requires n < |folders| && HasPrefix(folders[n], folder)
      requires SeenUpTo(folders, n, 0, seen) && Tree(folders, seen, children)
      modifies this`seen, this`children
      ensures SeenUpTo(folders, n, |folder|, seen) && Tree(folders, seen, children)
      ensures seen >= old(seen)
      decreases |folder|
    {
      if |folder| == 0 || folder in seen {
        SeenAlready(folders, n, folder, seen);
        return;
      }
      var parent := folder[..|folder| - 1];
      assert folders[n][..|parent|] == parent;
      Add(parent, n);
      ghost var known := seen;
      seen := seen + {folder};
      ChildAdded(folders, n, folder, known, children);
      SeenMore(folders, n, folder, known);
      children := WithChild(children, folder);
    }

    ghost predicate Complete() reads this`seen, this`children {
      SeenUpTo(folders, |folders|, 0, seen) && Tree(folders, seen, children)
    }

    /** Lists what lies below a folder. */
    method Visit(p: FolderPath) returns (ghost part: seq<FolderPath>)
      requires Complete()
      modifies this`result
      ensures result == old(result) + part && InOrder(folders, metas, part) && ListsBelow(folders, p, part)
      decreases MaxLen(folders) + 1 - |p|, 0
    {
      assert Increasing(folders, ChildrenOf(children, p));
      var siblings := SortSiblings(folders, metas, ChildrenOf(children, p));
      part := [];
      for i := 0 to |siblings|
        invariant result == old(result) + part && InOrder(folders, metas, part)
        invariant ListsUnder(folders, p, siblings[..i], part)
      {
        ChildIsBelow(p, siblings[i]);
        ghost var subtree := VisitChild(siblings[i]);
        SubtreeListed(folders, metas, p, siblings, i, part, subtree);
        Reassociate(old(result), part, subtree);
        part := part + subtree;
      }
      assert siblings[..|siblings|] == siblings;
      AllListed(p, siblings, part);
    }

    lemma AllListed(p: FolderPath, siblings: seq<FolderPath>, part: seq<FolderPath>)
      requires Complete() && ListsUnder(folders, p, siblings, part)
      requires forall f :: f in siblings <==> f in ChildrenOf(children, p)
      ensures ListsBelow(folders, p, part)
    {
      forall f | f in folders && Below(f, p) ensures f[..|p| + 1] in siblings {
        AncestorIsChild(p, f);
      }
    }

    /** Lists a folder, if it is present, and what lies below it. */
    method VisitChild(folder: FolderPath) returns (ghost subtree: seq<FolderPath>)
      requires Complete()
      modifies this`result
      ensures result == old(result) + subtree && InOrder(folders, metas, subtree)
      ensures ListsSubtree(folders, folder, subtree)
      decreases MaxLen(folders) + 1 - |folder|, 1
    {
      ghost var own := if folder in folders then [folder] else [];
      if folder in folders {
        result := result + [folder];
      }
      assert result == old(result) + own;
      ghost var below := Visit(folder);
      OwnFirst(folders, metas, folder, below);
      Reassociate(old(result), own, below);
      subtree := own + below;
    }

    lemma ChildIsBelow(p: FolderPath, c: FolderPath)
      requires Complete() && c in ChildrenOf(children, p)
      ensures Below(c, p) && |c| == |p| + 1 && |c| <= MaxLen(folders)
    {
      assert c in seen;
      var i :| 0 <= i < |folders| && HasPrefix(folders[i], c);
      AllWithinMaxLen(folders, i);
    }

    lemma AncestorIsChild(p: FolderPath, f: FolderPath)
      requires Complete()
      requires f in folders && Below(f, p)
      ensures f[..|p| + 1] in ChildrenOf(children, p)
    {
      var c := f[..|p| + 1];
      var i :| 0 <= i < |folders| && folders[i] == f;
      assert HasPrefix(folders[i], c);
      assert c in seen && Parent(c) == p;
    }
  }

  // ---------- The operation ----------

  lemma {:induction false} EachOnce(s: seq<FolderPath>, f: FolderPath)
    requires Distinct(s)
    ensures multiset(s)[f] == if f in s then 1 else 0
  {
    if s != [] {
      EachOnce(s[1..], f);
      assert s == [s[0]] + s[1..];
    }
  }

  /** The folders in order: root first, if it is listed, and then its subtrees. */
  method Ordered(folders: seq<FolderPath>, metas: Metas) returns (result: seq<FolderPath>)
    ensures InOrder(folders, metas, result) && forall f :: f in result <==> f in folders
  {
    var sorter := new Sorter(folders, metas);
    for n := 0 to |folders|
      invariant fresh(sorter) && sorter.folders == folders && sorter.metas == metas && sorter.result == []
      invariant SeenUpTo(folders, n, 0, sorter.seen) && Tree(folders, sorter.seen, sorter.children)
    {
      assert HasPrefix(folders[n], folders[n]);
      sorter.Add(folders[n], n);
      NextFolder(folders, n, sorter.seen);
    }
    ghost var all := sorter.VisitChild([]);
    result := sorter.result;
  }

  method SortFolderSiblings(a: array<FolderPath>, metas: Metas)
    modifies a
    ensures (forall f <- old(a[..]) :: !MetaOf(metas, f).hasSortKey) ==> a[..] == old(a[..])
    // With a key somewhere, distinct folders keep their number, and come in the order said above.
    ensures !(forall f <- old(a[..]) :: !MetaOf(metas, f).hasSortKey) && Distinct(old(a[..])) ==>
      multiset(a[..]) == multiset(old(a[..])) && InOrder(old(a[..]), metas, a[..])
  {
    var folders := a[..];
    if forall f <- folders :: !MetaOf(metas, f).hasSortKey {
      return;
    }
    var result := Ordered(folders, metas);
    ResultFits(folders, metas, result);
    for i := 0 to |result|
      invariant forall j :: 0 <= j < i ==> a[j] == result[j]
    {
      a[i] := result[i];
    }
    assert |result| == |folders| ==> a[..] == result;
  }

  lemma NextFolder(folders: seq<FolderPath>, n: nat, seen: set<FolderPath>)
    requires n < |folders| && SeenUpTo(folders, n, |folders[n]|, seen)
    ensures SeenUpTo(folders, n + 1, 0, seen)
  {}

  lemma ResultFits(folders: seq<FolderPath>, metas: Metas, result: seq<FolderPath>)
    requires InOrder(folders, metas, result) && forall f :: f in result <==> f in folders
    ensures |result| <= |folders|
    ensures Distinct(folders) ==> |result| == |folders| && multiset(result) == multiset(folders)
  {
    forall i, j | 0 <= i < j < |result| ensures result[i] != result[j] {
      OrderIsStrict(folders, metas, result, i, j);
    }
    NoMoreThan(result, folders);
    if Distinct(folders) {
      NoMoreThan(folders, result);
      forall f: FolderPath ensures multiset(result)[f] == multiset(folders)[f] {
        EachOnce(result, f);
        EachOnce(folders, f);
      }
    }
  }
}
