/** The recursive scan of a shelf's books folder (iterateShelfTree in shelf/shelf_book.go),
    driven by the directory cache, against the same scan made with no cache at all. */
module ShelfScan {
  import opened Basics
  import opened RacyWindow
  import opened ShelfFs
  import opened ScanCache

  datatype Event = FolderMeta(folder: Path) | Folder(path: Path) | Book(path: Path)

  /** Who is listening, and which answers stop the scan. */
  datatype Visitor = Visitor(wantsMeta: bool, wantsFolders: bool, wantsBooks: bool, goesOn: Event -> bool)

  datatype Rules = Rules(booksFolder: Name, metaFile: Name, isBook: Name -> bool, isIgnored: Name -> bool,
                         remote: bool, keep: set<Name>)

  datatype Progress = Progress(events: seq<Event>, skipAll: bool, notAShelf: bool, unavailable: bool)

  function BaseName(rules: Rules, p: Path): Name {
    if p == [] then rules.booksFolder else p[|p| - 1]
  }

  function Emit(st: Progress, e: Event): Progress {
    st.(events := st.events + [e])
  }

  function Missing(rules: Rules, p: Path, st: Progress): Progress {
    if rules.remote && p == [] then st.(notAShelf := true, skipAll := true) else st
  }

  function VisitMeta(rules: Rules, v: Visitor, p: Path, st: Progress): Progress {
    if v.wantsMeta && BaseName(rules, p) == rules.metaFile && |p| > 1 then Emit(st, FolderMeta(p[..|p| - 1])) else st
  }

  datatype Entered = Stop(st: Progress) | Descend(st: Progress)

  /** Everything the scan does at a path whose kind is known, before listing it. */
  function Enter(rules: Rules, v: Visitor, p: Path, isDir: bool, st: Progress): Entered {
    var st1 := VisitMeta(rules, v, p, st);
    var name := BaseName(rules, p);
    if !isDir then Stop(Missing(rules, p, st1))
    else if rules.isIgnored(name) then Stop(st1)
    else if rules.isBook(name) then
      if !v.wantsBooks then Stop(st1)
      else
        var st2 := Emit(st1, Book(p));
        Stop(if v.goesOn(Book(p)) then st2 else st2.(skipAll := true))
    else if v.wantsFolders then
      var st2 := Emit(st1, Folder(p));
      if v.goesOn(Folder(p)) then Descend(st2) else Stop(st2.(skipAll := true))
    else Descend(st1)
  }

  // ---------- The scan with no cache ----------

  function PlainVisit(tree: Tree, rules: Rules, v: Visitor, p: Path, child: Option<DirChild>, st: Progress): Progress
    decreases if |p| <= tree.maxDepth then tree.maxDepth + 1 - |p| else 0, 2, 0
  {
    if st.skipAll then st
    else if child.Some? then PlainInspect(tree, rules, v, p, !child.value.file, st)
    else if |p| > tree.maxDepth then st
    else if Resolve(tree, p).None? && !NamesFile(tree, p) then Missing(rules, p, st)
    else PlainInspect(tree, rules, v, p, Resolve(tree, p).Some?, st)
  }

  function PlainInspect(tree: Tree, rules: Rules, v: Visitor, p: Path, isDir: bool, st: Progress): Progress
    decreases if |p| <= tree.maxDepth then tree.maxDepth + 1 - |p| else 0, 1, 0
  {
    match Enter(rules, v, p, isDir, st)
    case Stop(st') => st'
    case Descend(st') =>
      match PlainReadDir(tree, rules.keep, p)
      case None => if |p| > tree.maxDepth then st' else Missing(rules, p, st')
      case Some(children) => PlainVisitAll(tree, rules, v, p, children, st')
  }

  function PlainVisitAll(tree: Tree, rules: Rules, v: Visitor, p: Path, children: seq<DirChild>, st: Progress): Progress
    requires |p| <= tree.maxDepth
    decreases tree.maxDepth + 1 - |p|, 0, |children|
  {
    if children == [] then st
    else
      var st' := PlainVisit(tree, rules, v, p + [children[0].name], Some(children[0]), st);
      PlainVisitAll(tree, rules, v, p, children[1..], st')
  }

  function PlainScan(tree: Tree, rules: Rules, v: Visitor): Progress {
    PlainVisit(tree, rules, v, [], None, Progress([], false, false, false))
  }

  // ---------- The same scan with stored listings ----------

  /** What a scan has before it: the tree, and the listings stored by an earlier one. */
  datatype View = View(tree: Tree, fileStamps: Path -> int, dirs: Dirs) {
    function Seen(rules: Rules, p: Path, reused: bool): Option<Listing> {
      ScanCache.Seen(tree, fileStamps, rules.keep, dirs, p, reused)
    }

    ghost predicate TimesMatch(p: Path, n: nat)
      requires n <= |p| + 1
    {
      ScanCache.TimesMatch(tree, fileStamps, dirs, p, n)
    }

    ghost predicate NeverLies(rules: Rules) {
      forall p: Path :: !Lies(tree, fileStamps, rules.keep, dirs, p)
    }
  }

  function CachedVisit(w: View, rules: Rules, v: Visitor, p: Path, child: Option<DirChild>, reused: bool,
                       st: Progress): Progress
    decreases if |p| <= w.tree.maxDepth then w.tree.maxDepth + 1 - |p| else 0, 2, 0
  {
    if st.skipAll then st
    else if child.Some? then CachedInspect(w, rules, v, p, !child.value.file, reused, st)
    else if |p| > w.tree.maxDepth then st
    else if Resolve(w.tree, p).None? && !NamesFile(w.tree, p) then Missing(rules, p, st)
    else CachedInspect(w, rules, v, p, Resolve(w.tree, p).Some?, reused, st)
  }

  function CachedInspect(w: View, rules: Rules, v: Visitor, p: Path, isDir: bool, reused: bool, st: Progress): Progress
    decreases if |p| <= w.tree.maxDepth then w.tree.maxDepth + 1 - |p| else 0, 1, 1
  {
    match Enter(rules, v, p, isDir, st)
    case Stop(st') => st'
    case Descend(st') => CachedExplore(w, rules, v, p, reused, st')
  }

  function CachedExplore(w: View, rules: Rules, v: Visitor, p: Path, reused: bool, st: Progress): Progress
    decreases if |p| <= w.tree.maxDepth then w.tree.maxDepth + 1 - |p| else 0, 1, 0
  {
    match w.Seen(rules, p, reused)
    case None => if |p| > w.tree.maxDepth then st else Missing(rules, p, st)
    case Some(listing) => CachedVisitAll(w, rules, v, p, listing.children, listing.reused, st)
  }

  function CachedVisitAll(w: View, rules: Rules, v: Visitor, p: Path, children: seq<DirChild>, reused: bool,
                          st: Progress): Progress
    requires |p| <= w.tree.maxDepth
    decreases w.tree.maxDepth + 1 - |p|, 0, |children|
  {
    if children == [] then st
    else
      var st' := CachedVisit(w, rules, v, p + [children[0].name], Some(children[0]), reused, st);
      CachedVisitAll(w, rules, v, p, children[1..], reused, st')
  }

  function CachedScan(w: View, rules: Rules, v: Visitor): Progress {
    CachedVisit(w, rules, v, [], None, true, Progress([], false, false, false))
  }

  // ---------- When the two agree ----------

  lemma {:induction false} VisitAgrees(w: View, rules: Rules, v: Visitor, p: Path, child: Option<DirChild>,
                                       reused: bool, st: Progress)
    requires w.NeverLies(rules) && (reused ==> w.TimesMatch(p, |p|))
    ensures CachedVisit(w, rules, v, p, child, reused, st) == PlainVisit(w.tree, rules, v, p, child, st)
    decreases if |p| <= w.tree.maxDepth then w.tree.maxDepth + 1 - |p| else 0, 2, 0
  {
    if !st.skipAll {
      if child.Some? {
        InspectAgrees(w, rules, v, p, !child.value.file, reused, st);
      } else if |p| <= w.tree.maxDepth {
        InspectAgrees(w, rules, v, p, Resolve(w.tree, p).Some?, reused, st);
      }
    }
  }

  lemma {:induction false} InspectAgrees(w: View, rules: Rules, v: Visitor, p: Path, isDir: bool, reused: bool,
                                         st: Progress)
    requires w.NeverLies(rules) && (reused ==> w.TimesMatch(p, |p|))
    ensures CachedInspect(w, rules, v, p, isDir, reused, st) == PlainInspect(w.tree, rules, v, p, isDir, st)
    decreases if |p| <= w.tree.maxDepth then w.tree.maxDepth + 1 - |p| else 0, 1, 0
  {
    var seen := w.Seen(rules, p, reused);
    assert !Lies(w.tree, w.fileStamps, rules.keep, w.dirs, p);
    SeenIsRight(w.tree, w.fileStamps, rules.keep, w.dirs, p, reused);
    if seen.Some? {
      var entered := Enter(rules, v, p, isDir, st);
      VisitAllAgrees(w, rules, v, p, seen.value.children, seen.value.reused, entered.st);
    }
  }

  lemma {:induction false} VisitAllAgrees(w: View, rules: Rules, v: Visitor, p: Path, children: seq<DirChild>,
                                          reused: bool, st: Progress)
    requires |p| <= w.tree.maxDepth
    requires w.NeverLies(rules) && (reused ==> w.TimesMatch(p, |p| + 1))
    ensures CachedVisitAll(w, rules, v, p, children, reused, st) == PlainVisitAll(w.tree, rules, v, p, children, st)
    decreases w.tree.maxDepth + 1 - |p|, 0, |children|
  {
    if children != [] {
      var c := p + [children[0].name];
      forall k | 0 <= k < |c| && reused ensures TimeMatches(w.tree, w.fileStamps, w.dirs, c[..k]) {
        assert c[..k] == p[..k];
        assert TimeMatches(w.tree, w.fileStamps, w.dirs, p[..k]);
      }
      VisitAgrees(w, rules, v, c, Some(children[0]), reused, st);
      var st' := PlainVisit(w.tree, rules, v, c, Some(children[0]), st);
      VisitAllAgrees(w, rules, v, p, children[1..], reused, st');
    }
  }

  /** A scan over stored listings that do not lie is the scan without them. */
  lemma CachedScanIsPlain(w: View, rules: Rules, v: Visitor)
    requires w.NeverLies(rules)
    ensures CachedScan(w, rules, v) == PlainScan(w.tree, rules, v)
  {
    VisitAgrees(w, rules, v, [], None, true, Progress([], false, false, false));
  }

  lemma SiblingsApart(p: Path, a: Name, b: Name, q: Path)
    requires a != b && p + [a] <= q
    ensures !(p + [b] <= q)
  {
    assert q[|p|] == (p + [a])[|p|] != (p + [b])[|p|];
  }

  // ---------- The scan the program makes ----------

  class Scan {
    const rules: Rules
    const visitor: Visitor
    const walk: Walk
    const fs: FileSystem
    var events: seq<Event>
    var skipAll: bool
    var notAShelf: bool
    var unavailable: bool

    ghost predicate Valid() reads this, walk, fs {
      walk.Valid(fs) && walk.keep == rules.keep
    }

    function State(): Progress reads this {
      Progress(events, skipAll, notAShelf, unavailable)
    }

    /** What the scan has before it now. */
    ghost function Before(): View reads this, walk, fs {
      View(fs.tree, fs.fileStamps, walk.prev)
    }

    constructor (rules: Rules, visitor: Visitor, walk: Walk, fs: FileSystem)
      requires walk.Valid(fs) && walk.keep == rules.keep
      ensures Valid() && this.rules == rules && this.visitor == visitor && this.walk == walk && this.fs == fs
      ensures State() == Progress([], false, false, false)
    {
      this.rules, this.visitor, this.walk, this.fs := rules, visitor, walk, fs;
      events, skipAll, notAShelf, unavailable := [], false, false, false;
    }

    method SetState(st: Progress)
      modifies this`events, this`skipAll, this`notAShelf, this`unavailable
      ensures State() == st
    {
      events, skipAll, notAShelf, unavailable := st.events, st.skipAll, st.notAShelf, st.unavailable;
    }

    /** Visits one path: nil child only for the books folder.  The third argument is what
        ReadDir answered for the parent. */
    method Visit(p: Path, child: Option<DirChild>, parentListingReused: bool)
      requires Valid() && walk.Unvisited(p)
      requires child.None? ==> p == []
      requires |p| <= fs.tree.maxDepth + 1
      requires parentListingReused ==> walk.KeptAbove(p, |p|)
      modifies this`events, this`skipAll, this`notAShelf, this`unavailable, walk, fs
      ensures Valid() && fs.Later() && walk.GrewUnder(p)
      ensures walk.KeptAt(p) || walk.RecordedSince(p, old(fs.now))
      ensures fs.disturbances == old(fs.disturbances) && !TimeMatches(fs.tree, fs.fileStamps, walk.prev, p) ==>
        walk.RecordedSince(p, old(fs.now))
      ensures fs.disturbances == old(fs.disturbances) ==>
        State() == CachedVisit(Before(), rules, visitor, p, child, parentListingReused, old(State()))
      decreases fs.tree.maxDepth + 1 - |p|, 4
    {
      if skipAll {
        return;
      }
      ghost var t0, n0 := fs.tree, fs.now;
      var isDir := child.Some? && !child.value.file;
      if child.None? {
        var info := fs.Stat(p);
        walk.StillTruthful(t0, n0, fs);
        if info.Err? {
          Failed(p, info.failure);
          return;
        }
        isDir := info.value.isDir;
      }
      ghost var t1, n1 := fs.tree, fs.now;
      Inspect(p, isDir, parentListingReused);
      EvolvesTransitive(t0, n0, t1, n1, fs.tree, fs.now);
    }

    method Inspect(p: Path, isDir: bool, parentListingReused: bool)
      requires Valid() && walk.Unvisited(p)
      requires |p| <= fs.tree.maxDepth + 1
      requires parentListingReused ==> walk.KeptAbove(p, |p|)
      modifies this`events, this`skipAll, this`notAShelf, this`unavailable, walk, fs
      ensures Valid() && fs.Later() && walk.GrewUnder(p)
      ensures walk.KeptAt(p) || walk.RecordedSince(p, old(fs.now))
      ensures fs.disturbances == old(fs.disturbances) && !TimeMatches(fs.tree, fs.fileStamps, walk.prev, p) ==>
        walk.RecordedSince(p, old(fs.now))
      ensures fs.disturbances == old(fs.disturbances) ==>
        State() == CachedInspect(Before(), rules, visitor, p, isDir, parentListingReused, old(State()))
      decreases fs.tree.maxDepth + 1 - |p|, 3
    {
      var entered := Enter(rules, visitor, p, isDir, State());
      SetState(entered.st);
      if entered.Descend? {
        Explore(p, parentListingReused);
      }
    }

    /** Lists a folder and visits what is in it. */
    method Explore(p: Path, parentListingReused: bool)
      requires Valid() && walk.Unvisited(p)
      requires |p| <= fs.tree.maxDepth + 1
      requires parentListingReused ==> walk.KeptAbove(p, |p|)
      modifies this`events, this`skipAll, this`notAShelf, this`unavailable, walk, fs
      ensures Valid() && fs.Later() && walk.GrewUnder(p)
      ensures walk.KeptAt(p) || walk.RecordedSince(p, old(fs.now))
      ensures fs.disturbances == old(fs.disturbances) && !TimeMatches(fs.tree, fs.fileStamps, walk.prev, p) ==>
        walk.RecordedSince(p, old(fs.now))
      ensures fs.disturbances == old(fs.disturbances) ==>
        State() == CachedExplore(Before(), rules, visitor, p, parentListingReused, old(State()))
      decreases fs.tree.maxDepth + 1 - |p|, 2
    {
      ghost var t0, n0 := fs.tree, fs.now;
      var listing := walk.ReadDir(fs, p, parentListingReused);
      if listing.Err? {
        Failed(p, listing.failure);
        return;
      }
      ghost var t1, n1 := fs.tree, fs.now;
      NewPathsUnvisited(p, listing.value.children);
      VisitAll(p, listing.value);
      EvolvesTransitive(t0, n0, t1, n1, fs.tree, fs.now);
    }

    lemma NewPathsUnvisited(p: Path, children: seq<DirChild>)
      requires forall q <- walk.next :: !(p < q)
      ensures Unvisited(p, children, 0)
    {}

    /** The error branches of the visit: an unavailable source stops everything, a missing
        books folder on a remote source means this is no shelf. */
    method Failed(p: Path, failure: Failure)
      modifies this`skipAll, this`notAShelf, this`unavailable
      ensures failure != Unavailable ==>
        State() == if failure == NotExist then Missing(rules, p, old(State())) else old(State())
      ensures failure == Unavailable ==> skipAll && unavailable && events == old(events)
    {
      match failure
      case Unavailable => unavailable, skipAll := true, true;
      case NotExist =>
        if rules.remote && p == [] {
          notAShelf, skipAll := true, true;
        }
      case Other =>
    }

    method VisitAll(p: Path, listing: Listing)
      requires Valid() && DistinctChildren(listing.children)
      requires Unvisited(p, listing.children, 0)
      requires |p| <= fs.tree.maxDepth
      requires listing.reused ==> walk.KeptAbove(p, |p| + 1)
      modifies this`events, this`skipAll, this`notAShelf, this`unavailable, walk, fs
      ensures Valid() && fs.Later() && walk.GrewUnder(p)
      ensures forall q <- walk.next :: q in old(walk.next) || p < q
      ensures fs.disturbances == old(fs.disturbances) ==>
        State() == CachedVisitAll(Before(), rules, visitor, p, listing.children, listing.reused, old(State()))
      decreases fs.tree.maxDepth + 1 - |p|, 1
    {
      ghost var t0, n0, d0, w0, st0 := fs.tree, fs.now, fs.disturbances, Before(), State();
      var children := listing.children;
      for i := 0 to |children|
        invariant Valid() && walk.GrewUnder(p)
        invariant forall q <- walk.next :: q in old(walk.next) || p < q
        invariant Evolves(t0, n0, fs.tree, fs.now) && d0 <= fs.disturbances
        invariant fs.disturbances == d0 ==> Before() == w0
        invariant Unvisited(p, children, i)
        invariant listing.reused ==> walk.KeptAbove(p, |p| + 1)
        invariant fs.disturbances == d0 ==>
          CachedVisitAll(w0, rules, visitor, p, children[i..], listing.reused, State())
          == CachedVisitAll(w0, rules, visitor, p, children, listing.reused, st0)
      {
        ghost var t1, n1 := fs.tree, fs.now;
        VisitChild(p, listing, i);
        EvolvesTransitive(t0, n0, t1, n1, fs.tree, fs.now);
        assert children[i..][1..] == children[i + 1..];
      }
    }

    ghost predicate Unvisited(p: Path, children: seq<DirChild>, i: nat) reads walk {
      forall j :: i <= j < |children| ==> walk.Unvisited(p + [children[j].name])
    }

    method VisitChild(p: Path, listing: Listing, i: nat)
      requires Valid() && DistinctChildren(listing.children) && i < |listing.children|
      requires Unvisited(p, listing.children, i)
      requires |p| <= fs.tree.maxDepth
      requires listing.reused ==> walk.KeptAbove(p, |p| + 1)
      modifies this`events, this`skipAll, this`notAShelf, this`unavailable, walk, fs
      ensures Valid() && fs.Later() && walk.GrewUnder(p)
      ensures forall q <- walk.next :: q in old(walk.next) || p < q
      ensures Unvisited(p, listing.children, i + 1)
      ensures listing.reused ==> walk.KeptAbove(p, |p| + 1)
      ensures fs.disturbances == old(fs.disturbances) ==>
        var child := listing.children[i];
        State() == CachedVisit(Before(), rules, visitor, p + [child.name], Some(child), listing.reused, old(State()))
      decreases fs.tree.maxDepth + 1 - |p|, 0
    {
      var child := listing.children[i];
      var c := p + [child.name];
      assert forall k :: 0 <= k < |c| ==> c[..k] == p[..k];
      Visit(c, Some(child), listing.reused);
      forall q <- walk.next ensures q in old(walk.next) || p < q {}
      forall j, q | i + 1 <= j < |listing.children| && q in walk.next
        ensures !(p + [listing.children[j].name] <= q)
      {
        if c <= q {
          SiblingsApart(p, child.name, listing.children[j].name, q);
        }
      }
      forall k | 0 <= k < |p| + 1 && listing.reused ensures walk.KeptAt(p[..k]) {
        assert old(walk.KeptAt(p[..k]));
      }
    }
  }

  // ---------- Whole scans and whole runs ----------

  lemma CacheSurvives(cache: Cache, fs: FileSystem, t: Tree, n: int)
    requires fs.Valid() && Evolves(t, n, fs.tree, fs.now) && cache.store.since <= n
    requires Truthful(t, n, cache.keepFiles, cache.dirs, cache.origin) && ReadSince(cache.origin, cache.store.since)
    requires cache.store.file.Some? ==>
      && Truthful(t, n, cache.keepFiles, cache.store.file.value, cache.store.origin)
      && ReadSince(cache.store.origin, cache.store.since)
    ensures cache.Valid(fs)
  {
    TruthfulEvolves(t, n, fs.tree, fs.now, cache.keepFiles, cache.dirs, cache.origin);
    if cache.store.file.Some? {
      TruthfulEvolves(t, n, fs.tree, fs.now, cache.keepFiles, cache.store.file.value, cache.store.origin);
    }
  }

  /** iterateShelfTree: one scan of the shelf.  Undisturbed, it reports event for event what the
      stored listings it reuses and the current ones it reads make of the tree, whatever the cache
      holds; and that is what a scan without a cache reports if the books folder is the directory
      the cache last listed, or shows another time than that did.  Disturbed or not, it leaves a
      cache that later scans may rely on. */
  method IterateShelfTree(cache: Cache, rules: Rules, visitor: Visitor, fs: FileSystem) returns (scan: Scan)
    requires cache.Valid(fs) && cache.keepFiles == rules.keep
    modifies cache, fs
    ensures cache.Valid(fs) && fs.Later() && fresh(scan)
    ensures cache.store.file == old(cache.store.file)
    ensures scan.skipAll ==> cache.dirs == old(cache.dirs)
    ensures fs.disturbances == old(fs.disturbances) ==>
      var dirs := if cache.enabled then old(cache.dirs) else map[];
      scan.State() == CachedScan(View(fs.tree, fs.fileStamps, dirs), rules, visitor)
    ensures fs.disturbances == old(fs.disturbances) && (cache.enabled ==>
      RootKnown(fs, old(cache.dirs), old(cache.origin))) ==>
      scan.State() == PlainScan(fs.tree, rules, visitor)
    // A books folder that is known stays so, and one that a completed scan listed anew is known.
    ensures fs.tree.rootChangedAt < old(fs.now) && RootStable(fs.tree, old(cache.origin)) ==>
      RootStable(fs.tree, cache.origin)
    ensures (&& cache.enabled && fs.disturbances == old(fs.disturbances) && !scan.skipAll
             && !TimeMatches(fs.tree, fs.fileStamps, old(cache.dirs), []) && fs.tree.rootChangedAt < old(fs.now)) ==>
      RootStable(fs.tree, cache.origin)
  {
    ghost var t0, n0 := fs.tree, fs.now;
    var walk := new Walk(cache, fs);
    scan := new Scan(rules, visitor, walk, fs);
    scan.Visit([], None, true);
    CacheSurvives(cache, fs, t0, n0);
    if RootKnown(fs, walk.prev, walk.prevOrigin) {
      KnownRootNeverLies(walk, fs);
      CachedScanIsPlain(scan.Before(), rules, visitor);
    }
    walk.Finish(fs, !scan.skipAll);
  }

  /** The books folder was not replaced since it was listed, or its time tells. */
  ghost predicate RootKnown(fs: FileSystem, dirs: Dirs, origin: Origins) reads fs {
    RootStable(fs.tree, origin) || !TimeMatches(fs.tree, fs.fileStamps, dirs, [])
  }

  lemma KnownRootNeverLies(walk: Walk, fs: FileSystem)
    requires walk.Valid(fs) && RootKnown(fs, walk.prev, walk.prevOrigin)
    ensures forall p: Path :: !Lies(fs.tree, fs.fileStamps, walk.keep, walk.prev, p)
  {
    forall p: Path ensures !Lies(fs.tree, fs.fileStamps, walk.keep, walk.prev, p) {
      SettledCacheNeverLies(fs.tree, fs.now, fs.fileStamps, walk.keep, walk.prev, walk.prevOrigin, p);
    }
  }

  /** A scan that lists a replaced books folder anew makes the next one right again too. */
  method ScanAgain(cache: Cache, rules: Rules, visitor: Visitor, fs: FileSystem) returns (first: Scan, second: Scan)
    requires cache.Valid(fs) && cache.enabled && cache.keepFiles == rules.keep
    modifies cache, fs
    ensures cache.Valid(fs)
    ensures (&& fs.disturbances == old(fs.disturbances) && !first.skipAll && fs.tree.rootChangedAt < old(fs.now)
             && !TimeMatches(fs.tree, fs.fileStamps, old(cache.dirs), [])) ==>
      RootStable(fs.tree, cache.origin) && first.State() == second.State() == PlainScan(fs.tree, rules, visitor)
  {
    first := IterateShelfTree(cache, rules, visitor, fs);
    second := IterateShelfTree(cache, rules, visitor, fs);
  }

  /** Any life of a cache: scans complete or abandoned, saves that succeed or fail, processes
      ending and new ones loading the file, and other programs changing the tree throughout.
      The cache it ends with meets what IterateShelfTree asks, and a books folder not replaced
      since the cache was first created is the one the cache knows. */
  method AnyLife(store: Store, rules: Rules, enabled: bool, fs: FileSystem) returns (cache: Cache)
    requires fs.Valid() && store.Valid(fs, rules.keep)
    modifies store, fs
    ensures fresh(cache) && cache.Valid(fs) && cache.keepFiles == rules.keep && cache.enabled == enabled
    ensures cache.store == store
    ensures fs.tree.rootChangedAt < store.since ==> RootStable(fs.tree, cache.origin)
  {
    var readable: bool := *;
    cache := new Cache(store, enabled, rules.keep, readable, fs);
    var steps: nat :| 0 <= steps;
    while steps > 0
      invariant cache.Valid(fs) && cache.keepFiles == rules.keep && cache.enabled == enabled && cache.store == store
      invariant fresh(cache)
    {
      var choice: int, flag: bool, access: Access := *, *, *;
      if choice == 0 {
        var visitor: Visitor :| true;
        var scan := IterateShelfTree(cache, rules, visitor, fs);
      } else if choice == 1 {
        var ok := cache.Save(access, fs);
      } else if choice == 2 {
        cache := new Cache(store, enabled, rules.keep, flag, fs);
      } else {
        ghost var t, n := fs.tree, fs.now;
        fs.Interfere();
        CacheSurvives(cache, fs, t, n);
      }
      steps := steps - 1;
    }
  }

  /** After any life of a cache, with the books folder replaced however often, a completed scan that
      finds another time there than the one known then is right, and so is the next one. */
  method AnyLifeRecovers(store: Store, rules: Rules, visitor: Visitor, fs: FileSystem)
    returns (cache: Cache, first: Scan, second: Scan, ghost known: Dirs, ghost count: nat, ghost later: int)
    requires fs.Valid() && store.Valid(fs, rules.keep)
    modifies store, fs
    ensures cache.Valid(fs)
    ensures (&& fs.disturbances == count && !first.skipAll && fs.tree.rootChangedAt < later
             && !TimeMatches(fs.tree, fs.fileStamps, known, [])) ==>
      RootStable(fs.tree, cache.origin) && first.State() == second.State() == PlainScan(fs.tree, rules, visitor)
  {
    cache := AnyLife(store, rules, true, fs);
    known, count, later := cache.dirs, fs.disturbances, fs.now;
    first, second := ScanAgain(cache, rules, visitor, fs);
  }
}
