/** Exactly when a scan over stored listings reports what a scan without them does, whatever the cache
    holds, for a visitor that hears of folders and stops at nothing (shelf/shelf_book.go). */
module ScanExactness {
  import opened Basics
  import opened RacyWindow
  import opened ShelfFs
  import opened ScanCache
  import opened ShelfScan

  ghost predicate Listens(rules: Rules, v: Visitor) {
    && v.wantsFolders && (forall e :: v.goesOn(e))
    && !rules.isIgnored(rules.booksFolder) && !rules.isBook(rules.booksFolder)
  }

  // ---------- What a scan says of each folder ----------

  const START := Progress([], false, false, false)

  /** What is reported of a child itself, before anything in it. */
  function Own(rules: Rules, v: Visitor, p: Path, child: DirChild): seq<Event> {
    Enter(rules, v, p + [child.name], !child.file, START).st.events
  }

  predicate Descends(rules: Rules, v: Visitor, p: Path, child: DirChild) {
    Enter(rules, v, p + [child.name], !child.file, START).Descend?
  }

  datatype Item = Item(name: Name, own: seq<Event>, descends: bool)

  /** The children of p of which anything is reported, and what. */
  function Shown(rules: Rules, v: Visitor, p: Path, children: seq<DirChild>): seq<Item> {
    if children == [] then []
    else
      var item := Item(children[0].name, Own(rules, v, p, children[0]), Descends(rules, v, p, children[0]));
      (if item.own == [] then [] else [item]) + Shown(rules, v, p, children[1..])
  }

  function ShownIn(rules: Rules, v: Visitor, p: Path, listed: Option<seq<DirChild>>): seq<Item> {
    if listed.Some? then Shown(rules, v, p, listed.value) else []
  }

  /** Everything reported below p. */
  function Reported(w: View, rules: Rules, v: Visitor, p: Path, reused: bool): seq<Event>
    decreases if |p| <= w.tree.maxDepth then w.tree.maxDepth + 1 - |p| else 0, 1, 0
  {
    match w.Seen(rules, p, reused)
    case None => []
    case Some(listing) => ReportedOf(w, rules, v, p, Shown(rules, v, p, listing.children), listing.reused)
  }

  function ReportedOf(w: View, rules: Rules, v: Visitor, p: Path, items: seq<Item>, reused: bool): seq<Event>
    requires |p| <= w.tree.maxDepth
    decreases w.tree.maxDepth + 1 - |p|, 0, |items|
  {
    if items == [] then []
    else Block(w, rules, v, p, items[0], reused) + ReportedOf(w, rules, v, p, items[1..], reused)
  }

  /** One child's share. */
  function Block(w: View, rules: Rules, v: Visitor, p: Path, item: Item, reused: bool): seq<Event>
    requires |p| <= w.tree.maxDepth
    decreases w.tree.maxDepth + 1 - |p|, 0, 0
  {
    item.own + if item.descends then Reported(w, rules, v, p + [item.name], reused) else []
  }

  lemma EnterAppends(rules: Rules, v: Visitor, p: Path, isDir: bool, st: Progress)
    requires Listens(rules, v) && !st.skipAll && (p == [] ==> isDir)
    ensures var r, own := Enter(rules, v, p, isDir, st), Enter(rules, v, p, isDir, START);
            r == if own.Descend? then Descend(st.(events := st.events + own.st.events))
                 else Stop(st.(events := st.events + own.st.events))
  {
    assert st.events + [] == st.events;
  }

  lemma {:induction false} VisitReports(w: View, rules: Rules, v: Visitor, p: Path, child: DirChild, reused: bool,
                                        st: Progress)
    requires Listens(rules, v) && !st.skipAll && |p| <= w.tree.maxDepth
    ensures var item := Item(child.name, Own(rules, v, p, child), Descends(rules, v, p, child));
            CachedVisit(w, rules, v, p + [child.name], Some(child), reused, st) ==
              st.(events := st.events + Block(w, rules, v, p, item, reused))
    decreases w.tree.maxDepth + 1 - |p|, 0, 0
  {
    var c := p + [child.name];
    EnterAppends(rules, v, c, !child.file, st);
    var entered, seen := Enter(rules, v, c, !child.file, st), w.Seen(rules, c, reused);
    assert CachedVisit(w, rules, v, c, Some(child), reused, st) ==
      CachedInspect(w, rules, v, c, !child.file, reused, st);
    if entered.Descend? {
      assert CachedInspect(w, rules, v, c, !child.file, reused, st) ==
        CachedExplore(w, rules, v, c, reused, entered.st);
      if seen.Some? {
        VisitAllReports(w, rules, v, c, seen.value.children, seen.value.reused, entered.st);
        Regroup(st.events, Own(rules, v, p, child), Reported(w, rules, v, c, reused));
      }
    }
  }

  lemma {:induction false} VisitAllReports(w: View, rules: Rules, v: Visitor, p: Path, children: seq<DirChild>,
                                           reused: bool,
                                           st: Progress)
    requires Listens(rules, v) && !st.skipAll && |p| <= w.tree.maxDepth
    ensures CachedVisitAll(w, rules, v, p, children, reused, st) ==
            st.(events := st.events + ReportedOf(w, rules, v, p, Shown(rules, v, p, children), reused))
    decreases w.tree.maxDepth + 1 - |p|, 1, |children|
  {
    if children != [] {
      var item := Item(children[0].name, Own(rules, v, p, children[0]), Descends(rules, v, p, children[0]));
      VisitReports(w, rules, v, p, children[0], reused, st);
      UnshownIsSilent(rules, v, p, children[0]);
      var block := Block(w, rules, v, p, item, reused);
      var st' := st.(events := st.events + block);
      VisitAllReports(w, rules, v, p, children[1..], reused, st');
      var rest := Shown(rules, v, p, children[1..]);
      Regroup(st.events, block, ReportedOf(w, rules, v, p, rest, reused));
      assert item.own == [] ==> block == [] && Shown(rules, v, p, children) == rest;
      assert item.own != [] ==> Shown(rules, v, p, children) == [item] + rest && ([item] + rest)[1..] == rest;
    } else {
      assert st.events + [] == st.events;
    }
  }

  /** A folder that is gone into is itself reported. */
  lemma UnshownIsSilent(rules: Rules, v: Visitor, p: Path, child: DirChild)
    requires Listens(rules, v)
    ensures Descends(rules, v, p, child) <==> Folder(p + [child.name]) in Own(rules, v, p, child)
    ensures forall e <- Own(rules, v, p, child) ::
      || e == Folder(p + [child.name]) || e == Book(p + [child.name])
      || (e == FolderMeta(p) && child.name == rules.metaFile)
  {
    assert (p + [child.name])[..|p|] == p;
  }

  lemma Regroup<T>(a: seq<T>, b: seq<T>, c: seq<T>)
    ensures a + b + c == a + (b + c) && a + [] == a && [] + a == a
  {}

  /** The whole scan: the books folder, and what is below it. */
  lemma ScanReports(w: View, rules: Rules, v: Visitor)
    requires Listens(rules, v)
    ensures CachedScan(w, rules, v) ==
      if Resolve(w.tree, []).Some? then START.(events := [Folder([])] + Reported(w, rules, v, [], true))
      else Missing(rules, [], START)
  {
    var seen := w.Seen(rules, [], true);
    if Resolve(w.tree, []).Some? {
      EnterAppends(rules, v, [], true, START);
      var entered := Enter(rules, v, [], true, START);
      assert entered == Descend(START.(events := [Folder([])]));
      assert CachedScan(w, rules, v) == CachedInspect(w, rules, v, [], true, true, START);
      assert CachedInspect(w, rules, v, [], true, true, START) == CachedExplore(w, rules, v, [], true, entered.st);
      assert CachedScan(w, rules, v) ==
        CachedVisitAll(w, rules, v, [], seen.value.children, seen.value.reused, entered.st);
      VisitAllReports(w, rules, v, [], seen.value.children, seen.value.reused, entered.st);
    }
  }

  // ---------- Reports tell what they are made of ----------

  /** The event is about something below p. */
  predicate Under(p: Path, e: Event) {
    match e
    case FolderMeta(folder) => p <= folder
    case Folder(q) => p < q
    case Book(q) => p < q
  }

  /** Which child of p the event comes with. */
  function Key(rules: Rules, p: Path, e: Event): Name
    requires Under(p, e)
  {
    match e
    case FolderMeta(folder) => if folder == p then rules.metaFile else folder[|p|]
    case Folder(q) => q[|p|]
    case Book(q) => q[|p|]
  }

  ghost predicate Sound(rules: Rules, p: Path, item: Item) {
    var c := p + [item.name];
    && item.own != [] && (item.descends <==> Folder(c) in item.own)
    && forall e <- item.own :: e == Folder(c) || e == Book(c) || (e == FolderMeta(p) && item.name == rules.metaFile)
  }

  ghost predicate AllSound(rules: Rules, p: Path, items: seq<Item>) {
    && (forall item <- items :: Sound(rules, p, item))
    && forall i, j :: 0 <= i < j < |items| ==> items[i].name != items[j].name
  }

  lemma {:induction false} ShownIsSound(rules: Rules, v: Visitor, p: Path, children: seq<DirChild>)
    requires Listens(rules, v) && DistinctChildren(children)
    ensures AllSound(rules, p, Shown(rules, v, p, children))
    ensures forall item <- Shown(rules, v, p, children) :: exists child <- children :: child.name == item.name
  {
    if children != [] {
      ShownIsSound(rules, v, p, children[1..]);
      UnshownIsSilent(rules, v, p, children[0]);
      assert forall child <- children[1..] :: child.name != children[0].name;
    }
  }

  lemma {:induction false} ReportedUnder(w: View, rules: Rules, v: Visitor, p: Path, reused: bool)
    requires Listens(rules, v) && Neat(w)
    ensures forall e <- Reported(w, rules, v, p, reused) :: Under(p, e)
    decreases if |p| <= w.tree.maxDepth then w.tree.maxDepth + 1 - |p| else 0, 1, 0
  {
    var seen := w.Seen(rules, p, reused);
    if seen.Some? {
      SeenIsNeat(w, rules, p, reused);
      ShownIsSound(rules, v, p, seen.value.children);
      ReportedOfUnder(w, rules, v, p, Shown(rules, v, p, seen.value.children), seen.value.reused);
    }
  }

  lemma {:induction false} ReportedOfUnder(w: View, rules: Rules, v: Visitor, p: Path, items: seq<Item>, reused: bool)
    requires Listens(rules, v) && Neat(w) && |p| <= w.tree.maxDepth && forall item <- items :: Sound(rules, p, item)
    ensures forall e <- ReportedOf(w, rules, v, p, items, reused) ::
      Under(p, e) && exists item <- items :: Key(rules, p, e) == item.name
    decreases w.tree.maxDepth + 1 - |p|, 0, |items|
  {
    if items != [] {
      BlockUnder(w, rules, v, p, items[0], reused);
      ReportedOfUnder(w, rules, v, p, items[1..], reused);
    }
  }

  lemma {:induction false} BlockUnder(w: View, rules: Rules, v: Visitor, p: Path, item: Item, reused: bool)
    requires Listens(rules, v) && Neat(w) && |p| <= w.tree.maxDepth && Sound(rules, p, item)
    ensures forall e <- Block(w, rules, v, p, item, reused) :: Under(p, e) && Key(rules, p, e) == item.name
    decreases w.tree.maxDepth + 1 - |p|, 0, 0
  {
    var c := p + [item.name];
    ReportedUnder(w, rules, v, c, reused);
    forall e | Under(c, e) ensures Under(p, e) && Key(rules, p, e) == item.name {
      match e
      case FolderMeta(folder) => assert folder[..|c|] == c;
      case Folder(q) => assert q[..|c|] == c;
      case Book(q) => assert q[..|c|] == c;
    }
  }

  /** No directory and no stored listing names a child twice. */
  ghost predicate Neat(w: View) {
    && (forall p <- w.dirs :: DistinctChildren(w.dirs[p].children))
    && forall i <- w.tree.dirs :: DistinctNames(w.tree.dirs[i].entries)
  }

  lemma SeenIsNeat(w: View, rules: Rules, p: Path, reused: bool)
    requires Neat(w)
    ensures w.Seen(rules, p, reused).Some? ==> DistinctChildren(w.Seen(rules, p, reused).value.children)
  {
    if PlainReadDir(w.tree, rules.keep, p).Some? {
      ChildrenDistinct(w.tree.dirs[Resolve(w.tree, p).value].entries, rules.keep);
    }
  }

  lemma SplitUnique<T>(a: seq<T>, b: seq<T>, a': seq<T>, b': seq<T>, inFirst: T -> bool)
    requires a + b == a' + b'
    requires (forall e <- a :: inFirst(e)) && (forall e <- a' :: inFirst(e))
    requires (forall e <- b :: !inFirst(e)) && (forall e <- b' :: !inFirst(e))
    ensures a == a' && b == b'
  {
    var whole := a + b;
    assert forall i :: 0 <= i < |whole| ==> whole[i] == (if i < |a| then a[i] else b[i - |a|]);
    assert forall i :: 0 <= i < |whole| ==> whole[i] == (if i < |a'| then a'[i] else b'[i - |a'|]);
    assert forall i :: 0 <= i < |whole| ==> (inFirst(whole[i]) <==> i < |a|) && (inFirst(whole[i]) <==> i < |a'|);
    var m := if |a| < |a'| then |a| else |a'|;
    assert m < |whole| ==> (inFirst(whole[m]) <==> m < |a|);
    assert a == whole[..|a|] && b == whole[|a|..];
  }

  // ---------- Same reports, same items ----------

  /** Equal shares of one child come of equal items. */
  lemma SameBlocks(w: View, w': View, rules: Rules, v: Visitor, p: Path, a: Item, b: Item, r: bool, r': bool)
    requires Listens(rules, v) && Neat(w) && Neat(w') && w.tree == w'.tree && |p| <= w.tree.maxDepth
    requires Sound(rules, p, a) && Sound(rules, p, b) && a.name == b.name
    ensures Block(w, rules, v, p, a, r) == Block(w', rules, v, p, b, r') <==>
      a == b && (a.descends ==> Reported(w, rules, v, p + [a.name], r) == Reported(w', rules, v, p + [a.name], r'))
  {
    var c := p + [a.name];
    if Block(w, rules, v, p, a, r) == Block(w', rules, v, p, b, r') {
      ReportedUnder(w, rules, v, c, r);
      ReportedUnder(w', rules, v, c, r');
      var below := if a.descends then Reported(w, rules, v, c, r) else [];
      var below' := if b.descends then Reported(w', rules, v, c, r') else [];
      SplitUnique(a.own, below, b.own, below', (e: Event) => !Under(c, e));
    }
  }

  lemma {:induction false} SameReports(w: View, w': View, rules: Rules, v: Visitor, p: Path, a: seq<Item>, b: seq<Item>,
                                       r: bool, r': bool)
    requires Listens(rules, v) && Neat(w) && Neat(w') && w.tree == w'.tree && |p| <= w.tree.maxDepth
    requires AllSound(rules, p, a) && AllSound(rules, p, b)
    ensures ReportedOf(w, rules, v, p, a, r) == ReportedOf(w', rules, v, p, b, r') <==>
      a == b && forall item <- a | item.descends ::
        Reported(w, rules, v, p + [item.name], r) == Reported(w', rules, v, p + [item.name], r')
  {
    if a == [] || b == [] {
      NothingReported(w, rules, v, p, a, r);
      NothingReported(w', rules, v, p, b, r');
    } else {
      SameReports(w, w', rules, v, p, a[1..], b[1..], r, r');
      if ReportedOf(w, rules, v, p, a, r) == ReportedOf(w', rules, v, p, b, r') {
        SameFirst(w, w', rules, v, p, a, b, r, r');
      } else if a[0].name == b[0].name {
        SameBlocks(w, w', rules, v, p, a[0], b[0], r, r');
      }
      assert a == [a[0]] + a[1..] && b == [b[0]] + b[1..];
    }
  }

  lemma NothingReported(w: View, rules: Rules, v: Visitor, p: Path, items: seq<Item>, reused: bool)
    requires |p| <= w.tree.maxDepth && AllSound(rules, p, items)
    ensures ReportedOf(w, rules, v, p, items, reused) == [] <==> items == []
  {
    assert items != [] ==> items[0] in items;
  }

  /** Equal reports begin with equal shares of one child. */
  lemma SameFirst(w: View, w': View, rules: Rules, v: Visitor, p: Path, a: seq<Item>, b: seq<Item>, r: bool, r': bool)
    requires Listens(rules, v) && Neat(w) && Neat(w') && w.tree == w'.tree && |p| <= w.tree.maxDepth
    requires AllSound(rules, p, a) && AllSound(rules, p, b) && a != [] && b != []
    requires ReportedOf(w, rules, v, p, a, r) == ReportedOf(w', rules, v, p, b, r')
    ensures a[0] == b[0] && ReportedOf(w, rules, v, p, a[1..], r) == ReportedOf(w', rules, v, p, b[1..], r')
    ensures a[0].descends ==> Reported(w, rules, v, p + [a[0].name], r) == Reported(w', rules, v, p + [a[0].name], r')
  {
    var block, block' := Block(w, rules, v, p, a[0], r), Block(w', rules, v, p, b[0], r');
    var rest, rest' := ReportedOf(w, rules, v, p, a[1..], r), ReportedOf(w', rules, v, p, b[1..], r');
    assert a[0] in a && b[0] in b;
    assert forall item <- a[1..] :: item in a && item.name != a[0].name;
    assert forall item <- b[1..] :: item in b && item.name != b[0].name;
    BlockUnder(w, rules, v, p, a[0], r);
    BlockUnder(w', rules, v, p, b[0], r');
    ReportedOfUnder(w, rules, v, p, a[1..], r);
    ReportedOfUnder(w', rules, v, p, b[1..], r');
    assert block[0] == (block + rest)[0] == (block' + rest')[0] == block'[0];
    assert block[0] in block && block'[0] in block';
    SplitUnique(block, rest, block', rest', (e: Event) => Under(p, e) && Key(rules, p, e) == a[0].name);
    SameBlocks(w, w', rules, v, p, a[0], b[0], r, r');
  }

  // ---------- Exactly when ----------

  /** Where every time down to q matches, what is shown of the stored children of q is what is shown of
      the current ones. */
  ghost predicate Honest(w: View, rules: Rules, v: Visitor, q: Path) {
    q in w.dirs && w.TimesMatch(q, |q| + 1) ==>
      Shown(rules, v, q, w.dirs[q].children) == ShownIn(rules, v, q, PlainReadDir(w.tree, rules.keep, q))
  }

  function Bare(w: View): View {
    w.(dirs := map[])
  }

  /** A folder below p is reported with a child that is gone into, or below that. */
  lemma {:induction false} FolderReported(w: View, rules: Rules, v: Visitor, p: Path, items: seq<Item>, reused: bool,
                                          q: Path)
    requires |p| <= w.tree.maxDepth && forall item <- items :: Sound(rules, p, item)
    ensures Folder(q) in ReportedOf(w, rules, v, p, items, reused) <==>
      exists item <- items :: item.descends &&
        (q == p + [item.name] || Folder(q) in Reported(w, rules, v, p + [item.name], reused))
  {
    if items != [] {
      FolderReported(w, rules, v, p, items[1..], reused, q);
      assert items[0] in items && forall item <- items[1..] :: item in items;
      assert forall item <- items :: item == items[0] || item in items[1..];
    }
  }

  ghost predicate AllHonest(w: View, rules: Rules, v: Visitor, p: Path) {
    forall q :: q == p || Folder(q) in Reported(Bare(w), rules, v, p, false) ==> Honest(w, rules, v, q)
  }

  /** Below p the two scans report the same exactly when the stored listings of the folders reported are
      honest. */
  lemma {:induction false} SameBelow(w: View, rules: Rules, v: Visitor, p: Path, reused: bool)
    requires Listens(rules, v) && Neat(w) && (reused <==> w.TimesMatch(p, |p|))
    ensures Reported(w, rules, v, p, reused) == Reported(Bare(w), rules, v, p, false) <==> AllHonest(w, rules, v, p)
    decreases if |p| <= w.tree.maxDepth then w.tree.maxDepth + 1 - |p| else 0
  {
    var plain, seen := PlainReadDir(w.tree, rules.keep, p), w.Seen(rules, p, reused);
    assert p[..|p|] == p;
    OneMoreTime(w, p);
    if |p| <= w.tree.maxDepth {
      var listed := if seen.Some? then Some(seen.value.children) else None;
      var a, b := ShownIn(rules, v, p, listed), ShownIn(rules, v, p, plain);
      assert Honest(w, rules, v, p) <==> a == b;
      SeenIsNeat(w, rules, p, reused);
      SeenIsNeat(Bare(w), rules, p, false);
      if listed.Some? {
        ShownIsSound(rules, v, p, listed.value);
      }
      if plain.Some? {
        ShownIsSound(rules, v, p, plain.value);
      }
      var further := seen.Some? && seen.value.reused;
      SameReports(w, Bare(w), rules, v, p, a, b, further, false);
      forall item | item in b
        ensures AllHonest(w, rules, v, p + [item.name]) <==>
          Reported(w, rules, v, p + [item.name], further) == Reported(Bare(w), rules, v, p + [item.name], false)
      {
        ChildTimes(w, p, item.name);
        SameBelow(w, rules, v, p + [item.name], further);
      }
      forall q ensures Folder(q) in Reported(Bare(w), rules, v, p, false) <==>
        exists item <- b :: item.descends &&
          (q == p + [item.name] || Folder(q) in Reported(Bare(w), rules, v, p + [item.name], false))
      {
        FolderReported(Bare(w), rules, v, p, b, false, q);
      }
    }
  }

  lemma OneMoreTime(w: View, p: Path)
    ensures w.TimesMatch(p, |p| + 1) <==> w.TimesMatch(p, |p|) && TimeMatches(w.tree, w.fileStamps, w.dirs, p)
  {
    assert p[..|p|] == p;
    forall k | 0 <= k < |p| && w.TimesMatch(p, |p| + 1) ensures TimeMatches(w.tree, w.fileStamps, w.dirs, p[..k]) {}
    assert w.TimesMatch(p, |p| + 1) ==> TimeMatches(w.tree, w.fileStamps, w.dirs, p[..|p|]);
  }

  lemma ChildTimes(w: View, p: Path, name: Name)
    ensures w.TimesMatch(p + [name], |p| + 1) <==> w.TimesMatch(p, |p| + 1)
  {
    var c := p + [name];
    assert forall k :: 0 <= k < |p| + 1 ==> c[..k] == p[..k];
    forall k | 0 <= k < |p| + 1 && w.TimesMatch(c, |p| + 1) ensures TimeMatches(w.tree, w.fileStamps, w.dirs, p[..k]) {
      assert TimeMatches(w.tree, w.fileStamps, w.dirs, c[..k]);
    }
    forall k | 0 <= k < |p| + 1 && w.TimesMatch(p, |p| + 1) ensures TimeMatches(w.tree, w.fileStamps, w.dirs, c[..k]) {
      assert TimeMatches(w.tree, w.fileStamps, w.dirs, p[..k]);
    }
  }

  /** For every cache: a scan over stored listings says and ends as the one without, if and only if at
      every folder that is there to report, where all times down to it match, the stored children show
      what the current ones do. */
  lemma ScanRightExactly(w: View, rules: Rules, v: Visitor)
    requires Listens(rules, v) && Neat(w)
    ensures CachedScan(w, rules, v) == PlainScan(w.tree, rules, v) <==>
      forall q :: Folder(q) in PlainScan(w.tree, rules, v).events ==> Honest(w, rules, v, q)
  {
    CachedScanIsPlain(Bare(w), rules, v);
    ScanReports(w, rules, v);
    ScanReports(Bare(w), rules, v);
    SameBelow(w, rules, v, [], true);
    var below := Reported(Bare(w), rules, v, [], false);
    assert Reported(Bare(w), rules, v, [], true) == below;
    if Resolve(w.tree, []).Some? {
      assert PlainScan(w.tree, rules, v).events == [Folder([])] + below;
      var mine := Reported(w, rules, v, [], true);
      assert ([Folder([])] + mine)[1..] == mine && ([Folder([])] + below)[1..] == below;
    }
  }

  /** The same of the scan that the program makes. */
  method ScanExactly(cache: Cache, rules: Rules, visitor: Visitor, fs: FileSystem) returns (scan: Scan)
    requires cache.Valid(fs) && cache.enabled && cache.keepFiles == rules.keep && Listens(rules, visitor)
    modifies cache, fs
    ensures cache.Valid(fs)
    ensures fs.disturbances == old(fs.disturbances) ==>
      var w := View(fs.tree, fs.fileStamps, old(cache.dirs));
      && (scan.State() == PlainScan(fs.tree, rules, visitor) <==>
            forall q :: Folder(q) in PlainScan(fs.tree, rules, visitor).events ==> Honest(w, rules, visitor, q))
      && (Top(scan.State().events) == Top(PlainScan(fs.tree, rules, visitor).events) <==> TopRight(w, rules, visitor))
  {
    ghost var dirs := cache.dirs;
    TruthfulIsNeat(fs.tree, fs.now, fs.fileStamps, rules.keep, dirs, cache.origin);
    scan := IterateShelfTree(cache, rules, visitor, fs);
    if Neat(View(fs.tree, fs.fileStamps, dirs)) {
      ScanRightExactly(View(fs.tree, fs.fileStamps, dirs), rules, visitor);
      TopFoldersRight(View(fs.tree, fs.fileStamps, dirs), rules, visitor);
    }
  }

  lemma TruthfulIsNeat(t: Tree, n: int, fileStamps: Path -> int, keep: set<Name>, dirs: Dirs, origin: Origins)
    requires ValidTree(t, n) && Truthful(t, n, keep, dirs, origin)
    ensures Neat(View(t, fileStamps, dirs))
  {
    forall p | p in dirs ensures DistinctChildren(dirs[p].children) {
      assert TruthfulAt(t, n, keep, dirs, origin, p);
    }
    forall i | i in t.dirs ensures DistinctNames(t.dirs[i].entries) {
      assert ValidDirectory(t.dirs[i], n);
    }
  }

  // ---------- The folders right in the books folder ----------

  function TopOf(e: Event): seq<Name> {
    if e.Folder? && |e.path| == 1 then e.path else []
  }

  function Top(events: seq<Event>): seq<Name> {
    if events == [] then [] else TopOf(events[0]) + Top(events[1..])
  }

  function FolderNames(items: seq<Item>): seq<Name> {
    if items == [] then [] else (if items[0].descends then [items[0].name] else []) + FolderNames(items[1..])
  }

  /** The stored time of the books folder is not its own, or the folders shown of the stored children are
      those shown of the current ones. */
  ghost predicate TopRight(w: View, rules: Rules, v: Visitor) {
    || !TimeMatches(w.tree, w.fileStamps, w.dirs, [])
    || FolderNames(Shown(rules, v, [], w.dirs[[]].children)) ==
       FolderNames(ShownIn(rules, v, [], PlainReadDir(w.tree, rules.keep, [])))
  }

  lemma {:induction false} TopAppend(a: seq<Event>, b: seq<Event>)
    ensures Top(a + b) == Top(a) + Top(b)
  {
    if a == [] {
      assert a + b == b;
    } else {
      TopAppend(a[1..], b);
      assert (a + b)[1..] == a[1..] + b;
      Regroup(TopOf(a[0]), Top(a[1..]), Top(b));
    }
  }

  lemma {:induction false} NothingOnTop(name: Name, events: seq<Event>)
    requires forall e <- events :: Under([name], e)
    ensures Top(events) == []
  {
    if events != [] {
      assert Under([name], events[0]);
      NothingOnTop(name, events[1..]);
    }
  }

  lemma TopOfBlock(w: View, rules: Rules, v: Visitor, child: DirChild, reused: bool)
    requires Listens(rules, v) && Neat(w)
    ensures var item := Item(child.name, Own(rules, v, [], child), Descends(rules, v, [], child));
            Top(Block(w, rules, v, [], item, reused)) == if item.descends then [child.name] else []
  {
    var own := Own(rules, v, [], child);
    assert [] + [child.name] == [child.name];
    assert own == [] || own == [Folder([child.name])] || own == [Book([child.name])];
    UnshownIsSilent(rules, v, [], child);
    var below := if Descends(rules, v, [], child) then Reported(w, rules, v, [] + [child.name], reused) else [];
    ReportedUnder(w, rules, v, [] + [child.name], reused);
    NothingOnTop(child.name, below);
    TopAppend(own, below);
  }

  lemma {:induction false} TopOfItems(w: View, rules: Rules, v: Visitor, children: seq<DirChild>, reused: bool)
    requires Listens(rules, v) && Neat(w)
    ensures var items := Shown(rules, v, [], children);
            Top(ReportedOf(w, rules, v, [], items, reused)) == FolderNames(items)
  {
    if children != [] {
      TopOfItems(w, rules, v, children[1..], reused);
      var item := Item(children[0].name, Own(rules, v, [], children[0]), Descends(rules, v, [], children[0]));
      var rest := Shown(rules, v, [], children[1..]);
      if item.own == [] {
        assert Shown(rules, v, [], children) == rest;
      } else {
        assert Shown(rules, v, [], children) == [item] + rest && ([item] + rest)[1..] == rest;
        TopOfBlock(w, rules, v, children[0], reused);
        TopAppend(Block(w, rules, v, [], item, reused), ReportedOf(w, rules, v, [], rest, reused));
      }
    }
  }

  lemma TopOfScan(w: View, rules: Rules, v: Visitor)
    requires Listens(rules, v) && Neat(w)
    ensures Top(CachedScan(w, rules, v).events) ==
      match w.Seen(rules, [], true)
      case None => []
      case Some(listing) => FolderNames(Shown(rules, v, [], listing.children))
  {
    ScanReports(w, rules, v);
    var seen := w.Seen(rules, [], true);
    if seen.Some? {
      TopOfItems(w, rules, v, seen.value.children, seen.value.reused);
      TopAppend([Folder([])], Reported(w, rules, v, [], true));
    }
  }

  /** Whatever a cache holds, the folders right in the books folder are reported as they are if and only
      if the time of the books folder is not the stored one, or they are the stored ones. */
  lemma TopFoldersRight(w: View, rules: Rules, v: Visitor)
    requires Listens(rules, v) && Neat(w)
    ensures Top(CachedScan(w, rules, v).events) == Top(PlainScan(w.tree, rules, v).events) <==> TopRight(w, rules, v)
  {
    CachedScanIsPlain(Bare(w), rules, v);
    TopOfScan(w, rules, v);
    TopOfScan(Bare(w), rules, v);
  }

  /** The books folder is trusted without looking at its own parent.  Put another directory with
      the same stamp in its place, and a scan over a truthful cache reports the old folders, although
      every stamp is honest. */
  lemma ReplacedBooksFolderIsMissed(rules: Rules, v: Visitor, name: Name)
    requires Listens(rules, v) && !rules.isIgnored(name) && !rules.isBook(name)
    ensures exists t: Tree, n: int, stamps: Path -> int, dirs: Dirs, origin: Origins ::
      && ValidTree(t, n) && Truthful(t, n, rules.keep, dirs, origin)
      && TimeMatches(t, stamps, dirs, []) && !RootStable(t, origin)
      && Top(CachedScan(View(t, stamps, dirs), rules, v).events) != Top(PlainScan(t, rules, v).events)
  {
    var other := Directory(0, 0, [DirEntry(name, Subdirectory(7))]);
    var t := Tree(Some(1), 4 * RACY_WINDOW, map[0 := Directory(0, 0, []), 1 := other], 10);
    var n, stamps: Path -> int := 5 * RACY_WINDOW, _ => 0;
    var dirs: Dirs, origin: Origins := map[[] := Snapshot(0, [])], map[[] := Origin(3 * RACY_WINDOW, 0)];
    assert ValidDirectory(t.dirs[0], n) && ValidDirectory(t.dirs[1], n);
    assert TruthfulAt(t, n, rules.keep, dirs, origin, []);
    assert Truthful(t, n, rules.keep, dirs, origin);
    TruthfulIsNeat(t, n, stamps, rules.keep, dirs, origin);
    TopFoldersRight(View(t, stamps, dirs), rules, v);
    var child := DirChild(name, false);
    assert PlainReadDir(t, rules.keep, []) == Some(DirChildren(other.entries, rules.keep));
    assert DirChildren(other.entries, rules.keep)[0] == child;
    assert Descends(rules, v, [], child);
    assert Shown(rules, v, [], DirChildren(other.entries, rules.keep))[0].descends;
  }
}
