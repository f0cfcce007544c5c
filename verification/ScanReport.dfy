/** What a scan of a shelf reports, said of the tree alone: which books, folders and metadata files, each
    once, and where a visitor that refuses an event stops it (shelf/shelf_book.go). */
module ScanReport {
  import opened Basics
  import opened RacyWindow
  import opened ShelfFs
  import opened ScanCache
  import opened ShelfScan

  // ---------- What is to be reported ----------

  function LastName(rules: Rules, p: Path): Name {
    if p == [] then rules.booksFolder else p[|p| - 1]
  }

  /** The folder p, its parent read within the depth the file system takes, has an entry of this name. */
  ghost predicate HasEntry(tree: Tree, p: Path, name: Name, node: Node) {
    && |p| <= tree.maxDepth && Resolve(tree, p).Some?
    && Find(tree.dirs[Resolve(tree, p).value].entries, name) == Some(node)
  }

  /** There is a directory at p: the books folder itself, or an entry of a folder. */
  ghost predicate DirectoryAt(tree: Tree, p: Path) {
    if p == [] then Resolve(tree, []).Some? else exists i :: HasEntry(tree, p[..|p| - 1], p[|p| - 1], Subdirectory(i))
  }

  /** A folder that a scan goes into, by its name. */
  predicate Plain(rules: Rules, p: Path) {
    !rules.isIgnored(LastName(rules, p)) && !rules.isBook(LastName(rules, p))
  }

  ghost predicate PlainAbove(rules: Rules, p: Path) {
    forall k :: 0 <= k < |p| ==> Plain(rules, p[..k])
  }

  ghost predicate Due(tree: Tree, rules: Rules, v: Visitor, e: Event) {
    match e
    case Book(p) =>
      && v.wantsBooks && DirectoryAt(tree, p) && PlainAbove(rules, p)
      && rules.isBook(LastName(rules, p)) && !rules.isIgnored(LastName(rules, p))
    case Folder(p) =>
      v.wantsFolders && DirectoryAt(tree, p) && PlainAbove(rules, p) && Plain(rules, p)
    case FolderMeta(p) =>
      && v.wantsMeta && p != [] && PlainAbove(rules, p) && Plain(rules, p)
      && (DirectoryAt(tree, p + [rules.metaFile])
          || (rules.metaFile in rules.keep && HasEntry(tree, p, rules.metaFile, RegularFile)))
  }

  // ---------- What is reported ----------

  const START := Progress([], false, false, false)

  function Unstopped(v: Visitor): Visitor {
    v.(goesOn := _ => true)
  }

  function Own(rules: Rules, v: Visitor, p: Path, isDir: bool): seq<Event> {
    Enter(rules, Unstopped(v), p, isDir, START).st.events
  }

  /** Everything reported at and below p by a visitor that stops at nothing. */
  function EventsAt(tree: Tree, rules: Rules, v: Visitor, p: Path, isDir: bool): seq<Event>
    decreases if |p| <= tree.maxDepth then tree.maxDepth + 1 - |p| else 0, 1, 0
  {
    Own(rules, v, p, isDir) +
    if !Enter(rules, Unstopped(v), p, isDir, START).Descend? then []
    else match PlainReadDir(tree, rules.keep, p)
      case None => []
      case Some(children) => EventsOf(tree, rules, v, p, children)
  }

  function EventsOf(tree: Tree, rules: Rules, v: Visitor, p: Path, children: seq<DirChild>): seq<Event>
    requires |p| <= tree.maxDepth
    decreases tree.maxDepth + 1 - |p|, 0, |children|
  {
    if children == [] then []
    else EventsAt(tree, rules, v, p + [children[0].name], !children[0].file)
         + EventsOf(tree, rules, v, p, children[1..])
  }

  predicate Refuses(v: Visitor, e: Event) {
    !e.FolderMeta? && !v.goesOn(e)
  }

  /** The events up to the first that the visitor refuses, that one included. */
  function Cut(v: Visitor, events: seq<Event>): seq<Event> {
    if events == [] then [] else if Refuses(v, events[0]) then [events[0]] else [events[0]] + Cut(v, events[1..])
  }

  function Upto(v: Visitor, st: Progress, events: seq<Event>): Progress {
    st.(events := st.events + Cut(v, events), skipAll := exists e :: e in events && Refuses(v, e))
  }

  lemma {:induction false} CutAppend(v: Visitor, a: seq<Event>, b: seq<Event>)
    ensures Cut(v, a + b) == if exists e <- a :: Refuses(v, e) then Cut(v, a) else a + Cut(v, b)
  {
    if a == [] {
      assert a + b == b;
    } else {
      CutAppend(v, a[1..], b);
      assert (a + b)[1..] == a[1..] + b && a == [a[0]] + a[1..];
    }
  }

  lemma UptoAppend(v: Visitor, st: Progress, a: seq<Event>, b: seq<Event>)
    requires !st.skipAll
    ensures Upto(v, st, a + b) == if Upto(v, st, a).skipAll then Upto(v, st, a) else Upto(v, Upto(v, st, a), b)
  {
    CutAppend(v, a, b);
    CutAppend(v, a, []);
    assert a + [] == a;
    assert st.events + (a + Cut(v, b)) == st.events + a + Cut(v, b);
  }

  lemma CutOwn(v: Visitor, own: seq<Event>)
    requires |own| <= 2 && forall i :: 0 <= i < |own| - 1 ==> own[i].FolderMeta?
    ensures Cut(v, own) == own
    ensures (exists e :: e in own && Refuses(v, e)) <==> own != [] && Refuses(v, own[|own| - 1])
  {
    if |own| == 2 {
      assert own[1..] == [own[1]] && own == [own[0]] + [own[1]];
    }
  }

  lemma EnterReports(rules: Rules, v: Visitor, p: Path, isDir: bool, st: Progress)
    requires !st.skipAll && (p == [] ==> isDir)
    ensures var r, all := Enter(rules, v, p, isDir, st), Enter(rules, Unstopped(v), p, isDir, START);
            && r.st == Upto(v, st, all.st.events)
            && (r.Descend? <==> all.Descend? && !r.st.skipAll)
  {
    var own := Own(rules, v, p, isDir);
    MetaThen(rules, v, p, st, Book(p));
    MetaThen(rules, v, p, st, Folder(p));
    OwnShape(rules, v, p, isDir);
    CutOwn(v, own);
    assert own == Enter(rules, Unstopped(v), p, isDir, START).st.events;
  }

  function Meta(rules: Rules, v: Visitor, p: Path): seq<Event> {
    if v.wantsMeta && LastName(rules, p) == rules.metaFile && |p| > 1 then [FolderMeta(p[..|p| - 1])] else []
  }

  lemma MetaThen(rules: Rules, v: Visitor, p: Path, st: Progress, e: Event)
    ensures VisitMeta(rules, v, p, st) == st.(events := st.events + Meta(rules, v, p))
    ensures Emit(VisitMeta(rules, v, p, st), e) == st.(events := st.events + (Meta(rules, v, p) + [e]))
  {
    assert st.events + [] == st.events;
    assert st.events + Meta(rules, v, p) + [e] == st.events + (Meta(rules, v, p) + [e]);
  }

  /** What is reported of a path itself. */
  lemma OwnShape(rules: Rules, v: Visitor, p: Path, isDir: bool)
    requires p == [] ==> isDir
    ensures Own(rules, v, p, isDir) ==
      Meta(rules, v, p) +
      (if !isDir || rules.isIgnored(LastName(rules, p)) then []
       else if rules.isBook(LastName(rules, p)) then if v.wantsBooks then [Book(p)] else []
       else if v.wantsFolders then [Folder(p)] else [])
    ensures Enter(rules, Unstopped(v), p, isDir, START).Descend? <==> isDir && Plain(rules, p)
  {
    MetaThen(rules, Unstopped(v), p, START, Book(p));
    MetaThen(rules, Unstopped(v), p, START, Folder(p));
    var meta := Meta(rules, v, p);
    assert Meta(rules, Unstopped(v), p) == meta;
    assert meta + [] == meta && [] + meta == meta && forall e: Event :: [] + (meta + [e]) == meta + [e];
  }

  lemma {:induction false} InspectReports(tree: Tree, rules: Rules, v: Visitor, p: Path, isDir: bool, st: Progress)
    requires !st.skipAll && (p == [] ==> isDir && Resolve(tree, []).Some?)
    ensures PlainInspect(tree, rules, v, p, isDir, st) == Upto(v, st, EventsAt(tree, rules, v, p, isDir))
    decreases if |p| <= tree.maxDepth then tree.maxDepth + 1 - |p| else 0, 1, 0
  {
    EnterReports(rules, v, p, isDir, st);
    var own, all := Own(rules, v, p, isDir), Enter(rules, Unstopped(v), p, isDir, START);
    var listed := PlainReadDir(tree, rules.keep, p);
    var below := if all.Descend? && listed.Some? then EventsOf(tree, rules, v, p, listed.value) else [];
    UptoAppend(v, st, own, below);
    var st' := Upto(v, st, own);
    if !st'.skipAll {
      if all.Descend? && listed.Some? {
        VisitAllReports(tree, rules, v, p, listed.value, st');
      } else {
        assert st'.events + [] == st'.events;
      }
    }
  }

  lemma {:induction false} VisitAllReports(tree: Tree, rules: Rules, v: Visitor, p: Path, children: seq<DirChild>,
                                           st: Progress)
    requires |p| <= tree.maxDepth && !st.skipAll
    ensures PlainVisitAll(tree, rules, v, p, children, st) == Upto(v, st, EventsOf(tree, rules, v, p, children))
    decreases tree.maxDepth + 1 - |p|, 0, |children|
  {
    if children == [] {
      assert st.events + [] == st.events;
    } else {
      var c := p + [children[0].name];
      InspectReports(tree, rules, v, c, !children[0].file, st);
      var first, rest := EventsAt(tree, rules, v, c, !children[0].file), EventsOf(tree, rules, v, p, children[1..]);
      UptoAppend(v, st, first, rest);
      if Upto(v, st, first).skipAll {
        SkippedAll(tree, rules, v, p, children[1..], Upto(v, st, first));
      } else {
        VisitAllReports(tree, rules, v, p, children[1..], Upto(v, st, first));
      }
    }
  }

  lemma {:induction false} SkippedAll(tree: Tree, rules: Rules, v: Visitor, p: Path, children: seq<DirChild>,
                                     st: Progress)
    requires |p| <= tree.maxDepth && st.skipAll
    ensures PlainVisitAll(tree, rules, v, p, children, st) == st
  {
    if children != [] {
      SkippedAll(tree, rules, v, p, children[1..], st);
    }
  }

  // ---------- It is what is due ----------

  /** The path an event is reported at. */
  function Place(rules: Rules, e: Event): Path {
    match e
    case Book(p) => p
    case Folder(p) => p
    case FolderMeta(p) => p + [rules.metaFile]
  }

  ghost predicate DueFrom(tree: Tree, rules: Rules, v: Visitor, p: Path, e: Event) {
    p <= Place(rules, e) && Due(tree, rules, v, e)
  }

  /** What a visit takes p for is what p is. */
  ghost predicate There(tree: Tree, rules: Rules, p: Path, isDir: bool) {
    if p == [] then isDir && Resolve(tree, []).Some?
    else if isDir then DirectoryAt(tree, p)
    else p[|p| - 1] in rules.keep && HasEntry(tree, p[..|p| - 1], p[|p| - 1], RegularFile)
  }

  ghost predicate Neat(tree: Tree) {
    forall i <- tree.dirs :: DistinctNames(tree.dirs[i].entries)
  }

  lemma OwnIsDue(tree: Tree, rules: Rules, v: Visitor, p: Path, isDir: bool)
    requires There(tree, rules, p, isDir) && PlainAbove(rules, p)
    ensures forall e :: e in Own(rules, v, p, isDir) <==> Place(rules, e) == p && Due(tree, rules, v, e)
    ensures Distinct(Own(rules, v, p, isDir))
  {
    OwnShape(rules, v, p, isDir);
    assert DirectoryAt(tree, p) <==> isDir;
    forall f ensures FolderMeta(f) in Meta(rules, v, p) <==>
      f + [rules.metaFile] == p && Due(tree, rules, v, FolderMeta(f))
    {
      MetaIsDue(tree, rules, v, p, isDir, f);
    }
  }

  lemma MetaIsDue(tree: Tree, rules: Rules, v: Visitor, p: Path, isDir: bool, f: Path)
    requires There(tree, rules, p, isDir) && PlainAbove(rules, p)
    ensures FolderMeta(f) in Meta(rules, v, p) <==> f + [rules.metaFile] == p && Due(tree, rules, v, FolderMeta(f))
  {
    if p != [] {
      assert p == p[..|p| - 1] + [p[|p| - 1]];
    }
    if f + [rules.metaFile] == p {
      assert p[..|f|] == f && Plain(rules, p[..|f|]);
      assert forall k :: 0 <= k < |f| ==> p[..k] == f[..k];
      assert PlainAbove(rules, f);
    }
  }

  /** An entry somewhere below p is an entry of p or below one, which a listing of p shows. */
  lemma EntryBelow(tree: Tree, keep: set<Name>, p: Path, s: Path, node: Node)
    requires p < s && HasEntry(tree, s[..|s| - 1], s[|s| - 1], node)
    requires node.RegularFile? ==> s[|s| - 1] in keep
    ensures |p| <= tree.maxDepth && Resolve(tree, p).Some?
    ensures exists child <- DirChildren(tree.dirs[Resolve(tree, p).value].entries, keep) :: child.name == s[|p|]
  {
    var parent := s[..|s| - 1];
    assert s[..|p|] == p && parent[..|p|] == p;
    ResolvesAbove(tree, parent, |p|);
    var entries := tree.dirs[Resolve(tree, p).value].entries;
    if |p| < |parent| {
      var c := parent[..|p| + 1];
      ResolvesAbove(tree, parent, |p| + 1);
      assert c[..|p|] == p && c[|p|] == s[|p|];
      var i :| Find(entries, s[|p|]) == Some(Subdirectory(i));
      ChildIsEntry(entries, keep, DirChild(s[|p|], false));
    } else {
      assert parent == p;
      ChildIsEntry(entries, keep, DirChild(s[|p|], node.RegularFile?));
    }
  }

  lemma DueEntry(tree: Tree, rules: Rules, v: Visitor, e: Event) returns (node: Node)
    requires Due(tree, rules, v, e) && Place(rules, e) != []
    ensures var s := Place(rules, e);
            && HasEntry(tree, s[..|s| - 1], s[|s| - 1], node) && (node.RegularFile? ==> s[|s| - 1] in rules.keep)
  {
    var s := Place(rules, e);
    assert e.FolderMeta? ==> s[..|s| - 1] == e.folder;
    node := RegularFile;
    if DirectoryAt(tree, s) {
      var i :| HasEntry(tree, s[..|s| - 1], s[|s| - 1], Subdirectory(i));
      node := Subdirectory(i);
    }
  }

  /** What is due below p has p for a folder that a scan goes into and reads. */
  lemma DueBelow(tree: Tree, rules: Rules, v: Visitor, p: Path, e: Event)
    requires Due(tree, rules, v, e) && p < Place(rules, e)
    ensures |p| <= tree.maxDepth && Resolve(tree, p).Some? && Plain(rules, p)
    ensures exists child <- DirChildren(tree.dirs[Resolve(tree, p).value].entries, rules.keep) ::
      child.name == Place(rules, e)[|p|]
  {
    var node := DueEntry(tree, rules, v, e);
    EntryBelow(tree, rules.keep, p, Place(rules, e), node);
    PlainOnTheWay(rules, v, tree, e, |p|);
    assert Place(rules, e)[..|p|] == p;
  }

  lemma PlainOnTheWay(rules: Rules, v: Visitor, tree: Tree, e: Event, k: nat)
    requires Due(tree, rules, v, e) && k < |Place(rules, e)|
    ensures Plain(rules, Place(rules, e)[..k])
  {
    var s := Place(rules, e);
    if e.FolderMeta? {
      assert s[..k] == if k < |e.folder| then e.folder[..k] else e.folder;
    }
  }

  lemma {:induction false} ResolvesAbove(tree: Tree, p: Path, k: nat)
    requires Resolve(tree, p).Some? && k <= |p|
    ensures Resolve(tree, p[..k]).Some?
  {
    if k == |p| {
      assert p[..k] == p;
    } else {
      ResolvesAbove(tree, p[..|p| - 1], k);
      assert p[..|p| - 1][..k] == p[..k];
    }
  }

  lemma {:induction false} EventsAtAreDue(tree: Tree, rules: Rules, v: Visitor, p: Path, isDir: bool)
    requires Neat(tree) && There(tree, rules, p, isDir) && PlainAbove(rules, p)
    ensures forall e :: e in EventsAt(tree, rules, v, p, isDir) <==> DueFrom(tree, rules, v, p, e)
    ensures Distinct(EventsAt(tree, rules, v, p, isDir))
    decreases if |p| <= tree.maxDepth then tree.maxDepth + 1 - |p| else 0, 1, 0
  {
    OwnIsDue(tree, rules, v, p, isDir);
    OwnShape(rules, v, p, isDir);
    var own, listed := Own(rules, v, p, isDir), PlainReadDir(tree, rules.keep, p);
    if isDir && Plain(rules, p) && listed.Some? {
      ChildrenThere(tree, rules, p);
      EventsOfAreDue(tree, rules, v, p, listed.value);
      var below := EventsOf(tree, rules, v, p, listed.value);
      forall e ensures e in below <==> p < Place(rules, e) && Due(tree, rules, v, e) {
        ChildrenCover(tree, rules, v, p, e);
      }
      DistinctTogether(own, below);
    } else {
      assert EventsAt(tree, rules, v, p, isDir) == own;
      forall e ensures !(p < Place(rules, e) && Due(tree, rules, v, e)) {
        if p < Place(rules, e) && Due(tree, rules, v, e) {
          DueBelow(tree, rules, v, p, e);
          ResolvedIsDirectory(tree, rules, p, isDir);
        }
      }
    }
  }

  /** What is due from some child of a folder that is read is what is due below the folder. */
  lemma ChildrenCover(tree: Tree, rules: Rules, v: Visitor, p: Path, e: Event)
    requires PlainReadDir(tree, rules.keep, p).Some?
    ensures (exists child <- PlainReadDir(tree, rules.keep, p).value ::
              DueFrom(tree, rules, v, p + [child.name], e)) <==>
      p < Place(rules, e) && Due(tree, rules, v, e)
  {
    var children := PlainReadDir(tree, rules.keep, p).value;
    if p < Place(rules, e) && Due(tree, rules, v, e) {
      DueBelow(tree, rules, v, p, e);
      var child :| child in children && child.name == Place(rules, e)[|p|];
      assert DueFrom(tree, rules, v, p + [child.name], e);
    }
    forall child | child in children && DueFrom(tree, rules, v, p + [child.name], e) ensures p < Place(rules, e) {
      assert Place(rules, e)[..|p| + 1][..|p|] == p;
    }
  }

  lemma ResolvedIsDirectory(tree: Tree, rules: Rules, p: Path, isDir: bool)
    requires There(tree, rules, p, isDir) && Resolve(tree, p).Some?
    ensures isDir
  {}

  /** The children of a folder that is read are what their entries are. */
  lemma ChildrenThere(tree: Tree, rules: Rules, p: Path)
    requires Neat(tree) && PlainReadDir(tree, rules.keep, p).Some?
    ensures var children := PlainReadDir(tree, rules.keep, p).value;
            DistinctChildren(children) && forall child <- children :: There(tree, rules, p + [child.name], !child.file)
  {
    var entries := tree.dirs[Resolve(tree, p).value].entries;
    var children := DirChildren(entries, rules.keep);
    ChildrenDistinct(entries, rules.keep);
    forall child | child in children ensures There(tree, rules, p + [child.name], !child.file) {
      ChildIsEntry(entries, rules.keep, child);
      var e :| e in entries && child.name == e.name && child.file == e.node.RegularFile?
        && (child.file ==> child.name in rules.keep);
      FindsEntry(entries, e);
      assert (p + [child.name])[..|p|] == p;
      assert HasEntry(tree, p, child.name, e.node);
    }
  }

  lemma {:induction false} EventsOfAreDue(tree: Tree, rules: Rules, v: Visitor, p: Path, children: seq<DirChild>)
    requires Neat(tree) && |p| <= tree.maxDepth && PlainAbove(rules, p) && Plain(rules, p)
    requires DistinctChildren(children)
    requires forall child <- children :: There(tree, rules, p + [child.name], !child.file)
    ensures forall e :: e in EventsOf(tree, rules, v, p, children) <==>
      exists child <- children :: DueFrom(tree, rules, v, p + [child.name], e)
    ensures Distinct(EventsOf(tree, rules, v, p, children))
    decreases tree.maxDepth + 1 - |p|, 0, |children|
  {
    if children != [] {
      var c := p + [children[0].name];
      assert forall k :: 0 <= k < |c| ==> c[..k] == if k < |p| then p[..k] else p;
      EventsAtAreDue(tree, rules, v, c, !children[0].file);
      EventsOfAreDue(tree, rules, v, p, children[1..]);
      var first, rest := EventsAt(tree, rules, v, c, !children[0].file), EventsOf(tree, rules, v, p, children[1..]);
      assert forall child <- children :: child == children[0] || child in children[1..];
      forall e | e in first ensures e !in rest {
        forall child | child in children[1..] ensures !(p + [child.name] <= Place(rules, e)) {
          SiblingsApart(p, children[0].name, child.name, Place(rules, e));
        }
      }
      DistinctTogether(first, rest);
    }
  }

  lemma DistinctTogether(a: seq<Event>, b: seq<Event>)
    requires Distinct(a) && Distinct(b) && forall e <- a :: e !in b
    ensures Distinct(a + b)
  {
    forall i, j | 0 <= i < j < |a + b| ensures (a + b)[i] != (a + b)[j] {
      assert i < |a| <= j ==> a[i] in a && b[j - |a|] in b;
    }
  }

  /** A scan reports exactly what is due, each event once, up to the first that the visitor refuses; and a
      remote source with no books folder is no shelf. */
  lemma ScanReportsWhatIsDue(tree: Tree, rules: Rules, v: Visitor) returns (due: seq<Event>)
    requires Neat(tree)
    ensures Distinct(due) && forall e :: e in due <==> Due(tree, rules, v, e)
    ensures PlainScan(tree, rules, v) ==
      Progress(Cut(v, due), (rules.remote && Resolve(tree, []).None?) || exists e :: e in due && Refuses(v, e),
               rules.remote && Resolve(tree, []).None?, false)
  {
    if Resolve(tree, []).Some? {
      due := EventsAt(tree, rules, v, [], true);
      EventsAtAreDue(tree, rules, v, [], true);
      InspectReports(tree, rules, v, [], true, START);
    } else {
      due := [];
      forall e ensures !Due(tree, rules, v, e) {
        if Due(tree, rules, v, e) && Place(rules, e) != [] {
          DueBelow(tree, rules, v, [], e);
        }
      }
    }
  }

  lemma {:induction false} NothingCut(v: Visitor, events: seq<Event>)
    requires forall e <- events :: !Refuses(v, e)
    ensures Cut(v, events) == events
  {
    if events != [] {
      NothingCut(v, events[1..]);
    }
  }

  /** A visitor that stops at nothing hears of every book, folder and metadata file that is due, once. */
  lemma UnstoppedScanReports(tree: Tree, rules: Rules, v: Visitor)
    requires Neat(tree) && forall e :: v.goesOn(e)
    ensures var events := PlainScan(tree, rules, v).events;
            Distinct(events) && forall e :: e in events <==> Due(tree, rules, v, e)
  {
    var due := ScanReportsWhatIsDue(tree, rules, v);
    NothingCut(v, due);
  }

  /** The scan that the program makes, undisturbed and over a books folder that the cache knows. */
  method ScanFinds(cache: Cache, rules: Rules, visitor: Visitor, fs: FileSystem) returns (scan: Scan)
    requires cache.Valid(fs) && cache.enabled && cache.keepFiles == rules.keep && forall e :: visitor.goesOn(e)
    modifies cache, fs
    ensures cache.Valid(fs)
    ensures fs.disturbances == old(fs.disturbances) && RootKnown(fs, old(cache.dirs), old(cache.origin)) ==>
      Distinct(scan.State().events) && forall e :: e in scan.State().events <==> Due(fs.tree, rules, visitor, e)
  {
    scan := IterateShelfTree(cache, rules, visitor, fs);
    forall i | i in fs.tree.dirs ensures DistinctNames(fs.tree.dirs[i].entries) {
      assert ValidDirectory(fs.tree.dirs[i], fs.now);
    }
    UnstoppedScanReports(fs.tree, rules, visitor);
  }
}
