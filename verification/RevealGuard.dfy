/** What of a shelf is shown when adult content is hidden, and what moving a folder would newly
    show (server/visibility.go, shelf/shelf_nsfw.go). */
module RevealGuard {
  import opened FolderPaths

  // ---------- Marked folders ----------

  /** The marked folders, by their normalized names; a segment is folded before it is compared. */
  datatype Rules = Rules(fold: string -> string, byPath: set<string>) {

    function Key(folders: FolderPath): string {
      if folders == [] then ""
      else
        var n := |folders| - 1;
        var parent := Key(folders[..n]);
        (if |parent| > 0 then parent + "/" else parent) + fold(folders[n])
    }

    /** A folder marks itself and everything below it. */
    ghost predicate Marked(folders: FolderPath) {
      exists depth :: 1 <= depth <= |folders| && Key(folders[..depth]) in byPath
    }

    method IsNSFWFolder(folders: FolderPath) returns (marked: bool)
      ensures marked <==> Marked(folders)
    {
      if |byPath| == 0 {
        return false;
      }
      var key, i := "", 0;
      while i < |folders|
        invariant i <= |folders| && key == Key(folders[..i])
        invariant forall depth :: 1 <= depth <= i ==> Key(folders[..depth]) !in byPath
      {
        if |key| > 0 {
          key := key + "/";
        }
        key := key + fold(folders[i]);
        assert folders[..i + 1][..i] == folders[..i];
        i := i + 1;
        if key in byPath {
          return true;
        }
      }
      return false;
    }

    lemma MarkedBelow(folders: FolderPath, sub: FolderPath)
      requires HasPrefix(sub, folders) && Marked(folders)
      ensures Marked(sub)
    {
      var depth :| 1 <= depth <= |folders| && Key(folders[..depth]) in byPath;
      assert sub[..depth] == folders[..depth];
    }
  }

  datatype Book = Book(folders: FolderPath, nsfw: bool)

  // ---------- What is shown ----------

  datatype Visibility = Visibility(rules: Rules, showNSFW: bool) {

    ghost predicate Allows(book: Book) {
      showNSFW || !(book.nsfw || rules.Marked(book.folders))
    }

    method AllowsListing(book: Book) returns (allowed: bool)
      ensures allowed <==> Allows(book)
    {
      if showNSFW {
        return true;
      }
      if book.nsfw {
        return false;
      }
      var marked := rules.IsNSFWFolder(book.folders);
      return !marked;
    }

    ghost function AllowedOf(books: seq<Book>): set<FolderPath> {
      set b | b in books && Allows(b) :: b.folders
    }

    /** A folder is shown when it is not marked, and holds no book or one that is shown. */
    ghost predicate Shows(books: seq<Book>, folder: FolderPath) {
      showNSFW || (!rules.Marked(folder) && (Under(Held(books), folder) ==> Under(AllowedOf(books), folder)))
    }

    ghost function Shown(books: seq<Book>, folders: seq<FolderPath>): seq<FolderPath> {
      if folders == [] then []
      else
        var n := |folders| - 1;
        Shown(books, folders[..n]) + if Shows(books, folders[n]) then [folders[n]] else []
    }

    lemma {:induction false} ShowsAll(books: seq<Book>, folders: seq<FolderPath>)
      requires showNSFW
      ensures Shown(books, folders) == folders
    {
      if folders != [] {
        ShowsAll(books, folders[..|folders| - 1]);
      }
    }

    method FilterFolders(books: seq<Book>, folders: seq<FolderPath>) returns (kept: seq<FolderPath>)
      requires forall b <- books :: IsPath(b.folders)
      requires forall f <- folders :: IsPath(f)
      ensures kept == Shown(books, folders)
    {
      if showNSFW {
        ShowsAll(books, folders);
        return folders;
      }
      var holdsBook, holdsVisibleBook, i := {}, {}, 0;
      while i < |books|
        invariant i <= |books|
        invariant Names(holdsBook, Held(books[..i]))
        invariant Names(holdsVisibleBook, AllowedOf(books[..i]))
      {
        assert books[i] in books && books[..i + 1] == books[..i] + [books[i]];
        holdsBook := Add(holdsBook, books[i].folders, Held(books[..i]));
        assert Held(books[..i + 1]) == Held(books[..i]) + {books[i].folders};
        var allowed := AllowsListing(books[i]);
        if allowed {
          holdsVisibleBook := Add(holdsVisibleBook, books[i].folders, AllowedOf(books[..i]));
          assert AllowedOf(books[..i + 1]) == AllowedOf(books[..i]) + {books[i].folders};
        } else {
          assert AllowedOf(books[..i + 1]) == AllowedOf(books[..i]);
        }
        i := i + 1;
      }
      assert books[..i] == books;
      kept, i := [], 0;
      while i < |folders|
        invariant i <= |folders| && kept == Shown(books, folders[..i])
      {
        assert folders[i] in folders && folders[..i + 1][..i] == folders[..i];
        var marked := rules.IsNSFWFolder(folders[i]);
        if !marked && (Join(folders[i]) !in holdsBook || Join(folders[i]) in holdsVisibleBook) {
          kept := kept + [folders[i]];
        }
        i := i + 1;
      }
      assert folders[..i] == folders;
    }
  }

  // ---------- Folders that hold books ----------

  ghost predicate Under(held: set<FolderPath>, folder: FolderPath) {
    exists f :: f in held && HasPrefix(f, folder)
  }

  ghost function Held(books: seq<Book>): set<FolderPath> {
    set b | b in books :: b.folders
  }

  /** The names are those of the folders that hold something, at any depth. */
  ghost predicate Names(names: set<string>, held: set<FolderPath>) {
    forall folder {:trigger Join(folder)} | IsPath(folder) :: Join(folder) in names <==> Under(held, folder)
  }

  method Add(names: set<string>, folders: FolderPath, ghost held: set<FolderPath>) returns (r: set<string>)
    requires IsPath(folders) && Names(names, held)
    ensures Names(r, held + {folders})
  {
    r := names;
    for depth := 0 to |folders| + 1
      invariant r == names + set d | 0 <= d < depth :: Join(folders[..d])
    {
      r := r + {Join(folders[..depth])};
    }
    forall folder | IsPath(folder) ensures Join(folder) in r <==> Under(held + {folders}, folder) {
      if HasPrefix(folders, folder) {
        assert Join(folder) == Join(folders[..|folder|]);
      } else {
        forall d | 0 <= d <= |folders| ensures Join(folder) != Join(folders[..d]) {
          if Join(folder) == Join(folders[..d]) {
            assert forall s <- folders[..d] :: s in folders;
            JoinTellsPath(folder, folders[..d]);
          }
        }
      }
    }
  }

  // ---------- A move and what it would show ----------

  datatype Change = MovedTo(from: FolderPath, to: FolderPath) | LeavesShelf(from: FolderPath) {

    /** Where something in the moved folder ends up. */
    function Moved(folders: FolderPath): FolderPath
      requires HasPrefix(folders, from) && MovedTo?
    {
      to + folders[|from|..]
    }

    ghost predicate StillMarked(rules: Rules, folders: FolderPath, nsfw: bool)
      requires HasPrefix(folders, from)
    {
      nsfw || (MovedTo? && rules.Marked(Moved(folders)))
    }

    method IsStillMarked(rules: Rules, folders: FolderPath, nsfw: bool) returns (r: bool)
      requires HasPrefix(folders, from)
      ensures r <==> StillMarked(rules, folders, nsfw)
    {
      if LeavesShelf? || nsfw {
        return nsfw;
      }
      r := rules.IsNSFWFolder(to + folders[|from|..]);
    }

    /** The books after the move. */
    function After(books: seq<Book>): seq<Book>
      requires MovedTo?
    {
      seq(|books|, i requires 0 <= i < |books| =>
        if HasPrefix(books[i].folders, from) then books[i].(folders := Moved(books[i].folders)) else books[i])
    }
  }

  /** A book in the folder that is hidden before the change and not after. */
  ghost predicate Revealed(v: Visibility, change: Change, book: Book) {
    HasPrefix(book.folders, change.from) && !v.Allows(book) && !change.StillMarked(v.rules, book.folders, book.nsfw)
  }

  ghost function RevealedBooks(v: Visibility, change: Change, books: seq<Book>): nat {
    if books == [] then 0
    else
      var n := |books| - 1;
      RevealedBooks(v, change, books[..n]) + if Revealed(v, change, books[n]) then 1 else 0
  }

  ghost function InFolder(books: seq<Book>, from: FolderPath): set<FolderPath> {
    set b | b in books && HasPrefix(b.folders, from) :: b.folders
  }

  /** A marked folder that loses its mark and holds no book that would tell. */
  ghost predicate RevealedEmpty(v: Visibility, change: Change, held: set<FolderPath>, sub: FolderPath) {
    && HasPrefix(sub, change.from) && !v.showNSFW && v.rules.Marked(sub)
    && !change.StillMarked(v.rules, sub, false) && !Under(held, sub)
  }

  ghost function RevealedFolders(v: Visibility, change: Change, held: set<FolderPath>, folders: seq<FolderPath>): nat {
    if folders == [] then 0
    else
      var n := |folders| - 1;
      RevealedFolders(v, change, held, folders[..n]) + if RevealedEmpty(v, change, held, folders[n]) then 1 else 0
  }

  lemma {:induction false} NothingToReveal(v: Visibility, change: Change, books: seq<Book>, folders: seq<FolderPath>,
                                           held: set<FolderPath>)
    requires v.showNSFW || v.rules.byPath == {}
    ensures RevealedBooks(v, change, books) == 0 && RevealedFolders(v, change, held, folders) == 0
    decreases |books| + |folders|
  {
    if books != [] {
      NothingToReveal(v, change, books[..|books| - 1], folders, held);
    } else if folders != [] {
      NothingToReveal(v, change, books, folders[..|folders| - 1], held);
    }
  }

  method RevealedBy(v: Visibility, change: Change, books: seq<Book>, folders: seq<FolderPath>)
    returns (revealedBooks: nat, revealedFolders: nat)
    requires forall b <- books :: IsPath(b.folders)
    requires forall f <- folders :: IsPath(f)
    ensures change.MovedTo? && change.to in folders ==> revealedBooks == revealedFolders == 0
    ensures !(change.MovedTo? && change.to in folders) ==>
      && revealedBooks == RevealedBooks(v, change, books)
      && revealedFolders == RevealedFolders(v, change, InFolder(books, change.from), folders)
  {
    if v.showNSFW || |v.rules.byPath| == 0 {
      NothingToReveal(v, change, books, folders, InFolder(books, change.from));
      return 0, 0;
    }
    var holdsBook;
    revealedBooks, holdsBook := CountBooks(v, change, books);
    if change.MovedTo? && change.to in folders {
      return 0, 0;
    }
    revealedFolders := CountFolders(v, change, holdsBook, InFolder(books, change.from), folders);
  }

  method CountBooks(v: Visibility, change: Change, books: seq<Book>) returns (count: nat, holdsBook: set<string>)
    requires forall b <- books :: IsPath(b.folders)
    ensures count == RevealedBooks(v, change, books) && Names(holdsBook, InFolder(books, change.from))
  {
    holdsBook, count := {}, 0;
    var i := 0;
    while i < |books|
      invariant i <= |books| && count == RevealedBooks(v, change, books[..i])
      invariant Names(holdsBook, InFolder(books[..i], change.from))
    {
      assert books[i] in books && books[..i + 1][..i] == books[..i];
      OneMoreInFolder(books, change.from, i);
      if HasPrefix(books[i].folders, change.from) {
        holdsBook := Add(holdsBook, books[i].folders, InFolder(books[..i], change.from));
        var revealed := IsRevealed(v, change, books[i]);
        if revealed {
          count := count + 1;
        }
      }
      i := i + 1;
    }
    assert books[..i] == books;
  }

  lemma OneMoreInFolder(books: seq<Book>, from: FolderPath, i: nat)
    requires i < |books|
    ensures InFolder(books[..i + 1], from) ==
      InFolder(books[..i], from) + if HasPrefix(books[i].folders, from) then {books[i].folders} else {}
  {
    assert books[..i + 1] == books[..i] + [books[i]];
  }

  method IsRevealed(v: Visibility, change: Change, book: Book) returns (r: bool)
    requires HasPrefix(book.folders, change.from)
    ensures r <==> Revealed(v, change, book)
  {
    var allowed := v.AllowsListing(book);
    var marked := change.IsStillMarked(v.rules, book.folders, book.nsfw);
    r := !allowed && !marked;
  }

  method CountFolders(v: Visibility, change: Change, holdsBook: set<string>, ghost held: set<FolderPath>,
                      folders: seq<FolderPath>)
    returns (count: nat)
    requires !v.showNSFW && Names(holdsBook, held) && forall f <- folders :: IsPath(f)
    ensures count == RevealedFolders(v, change, held, folders)
  {
    count := 0;
    var i := 0;
    while i < |folders|
      invariant i <= |folders| && count == RevealedFolders(v, change, held, folders[..i])
    {
      assert folders[i] in folders && folders[..i + 1][..i] == folders[..i];
      var sub := folders[i];
      i := i + 1;
      if !HasPrefix(sub, change.from) {
        continue;
      }
      var marked := v.rules.IsNSFWFolder(sub);
      if !marked {
        continue;
      }
      var still := change.IsStillMarked(v.rules, sub, false);
      if still {
        continue;
      }
      if Join(sub) !in holdsBook {
        count := count + 1;
      }
    }
    assert folders[..i] == folders;
  }

  // ---------- The guard is exact ----------

  lemma {:induction false} NoRevealedBooks(v: Visibility, change: Change, books: seq<Book>)
    ensures RevealedBooks(v, change, books) == 0 <==> forall b <- books :: !Revealed(v, change, b)
  {
    if books != [] {
      NoRevealedBooks(v, change, books[..|books| - 1]);
      assert books == books[..|books| - 1] + [books[|books| - 1]];
    }
  }

  lemma {:induction false} NoRevealedFolders(v: Visibility, change: Change, held: set<FolderPath>,
                                             folders: seq<FolderPath>)
    ensures RevealedFolders(v, change, held, folders) == 0 <==>
      forall f <- folders :: !RevealedEmpty(v, change, held, f)
  {
    if folders != [] {
      NoRevealedFolders(v, change, held, folders[..|folders| - 1]);
      assert folders == folders[..|folders| - 1] + [folders[|folders| - 1]];
    }
  }

  /** The guard has nothing to say. */
  ghost predicate Passes(v: Visibility, change: Change, books: seq<Book>, folders: seq<FolderPath>) {
    RevealedBooks(v, change, books) == 0 && RevealedFolders(v, change, InFolder(books, change.from), folders) == 0
  }

  /** The shelf lists the folder of every book, and those above it. */
  ghost predicate ListsBooksFolders(books: seq<Book>, folders: seq<FolderPath>) {
    forall b <- books, depth | 0 <= depth <= |b.folders| :: b.folders[..depth] in folders
  }

  /** A moved folder holds, after the move, just what it held before. */
  lemma MovedHolds(change: Change, books: seq<Book>, folders: seq<FolderPath>, sub: FolderPath)
    requires change.MovedTo? && change.to !in folders && ListsBooksFolders(books, folders)
    requires HasPrefix(sub, change.from)
    ensures forall i :: 0 <= i < |books| ==>
      (HasPrefix(change.After(books)[i].folders, change.Moved(sub)) <==> HasPrefix(books[i].folders, sub))
  {
    var from, to := change.from, change.to;
    forall i | 0 <= i < |books| ensures HasPrefix(change.After(books)[i].folders, change.Moved(sub)) <==>
      HasPrefix(books[i].folders, sub) {
      var was := books[i].folders;
      assert books[i] in books;
      if HasPrefix(was, from) {
        assert sub == from + sub[|from|..] && was == from + was[|from|..];
        SamePrefix(to, was[|from|..], sub[|from|..]);
        SamePrefix(from, was[|from|..], sub[|from|..]);
      } else {
        assert |was| >= |to| ==> was[..|to|] != to;
        PrefixOfPrefix(was, sub, from);
      }
    }
  }

  lemma SamePrefix(a: FolderPath, f: FolderPath, g: FolderPath)
    ensures HasPrefix(a + f, a + g) <==> HasPrefix(f, g)
  {
    if |g| <= |f| {
      assert (a + f)[..|a + g|] == a + f[..|g|];
      assert (a + f[..|g|])[|a|..] == f[..|g|] && (a + g)[|a|..] == g;
    }
  }

  /** A book shown after the move was shown before, or it is revealed. */
  lemma MovedBookShows(v: Visibility, change: Change, book: Book)
    requires change.MovedTo? && HasPrefix(book.folders, change.from)
    ensures v.Allows(book.(folders := change.Moved(book.folders))) <==>
      v.showNSFW || !change.StillMarked(v.rules, book.folders, book.nsfw)
  {}

  lemma MovedUnder(v: Visibility, change: Change, books: seq<Book>, folders: seq<FolderPath>, sub: FolderPath)
    requires change.MovedTo? && change.to !in folders && ListsBooksFolders(books, folders)
    requires HasPrefix(sub, change.from)
    ensures Under(Held(change.After(books)), change.Moved(sub)) <==> Under(Held(books), sub)
    ensures Under(v.AllowedOf(change.After(books)), change.Moved(sub)) <==>
      exists b ::
        b in books && HasPrefix(b.folders, sub) && (v.showNSFW || !change.StillMarked(v.rules, b.folders, b.nsfw))
  {
    MovedHolds(change, books, folders, sub);
  }

  lemma UnderInFolder(books: seq<Book>, from: FolderPath, sub: FolderPath)
    requires HasPrefix(sub, from)
    ensures Under(InFolder(books, from), sub) <==> Under(Held(books), sub)
  {}

  /** The folder of a book revealed nowhere, or of none, shows no more than before. */
  lemma PassedFolder(v: Visibility, change: Change, books: seq<Book>, folders: seq<FolderPath>, sub: FolderPath)
    requires change.MovedTo? && change.to !in folders && ListsBooksFolders(books, folders)
    requires HasPrefix(sub, change.from)
    requires forall b <- books :: !Revealed(v, change, b)
    requires !RevealedEmpty(v, change, InFolder(books, change.from), sub)
    ensures v.Shows(change.After(books), change.Moved(sub)) ==> v.Shows(books, sub)
  {
    MovedUnder(v, change, books, folders, sub);
    UnderInFolder(books, change.from, sub);
    forall b | b in books && HasPrefix(b.folders, sub) && !change.StillMarked(v.rules, b.folders, b.nsfw)
      ensures v.Allows(b)
    {
      assert !Revealed(v, change, b);
    }
    forall b | b in books && HasPrefix(b.folders, sub) && v.Allows(b) && !v.showNSFW ensures !v.rules.Marked(sub) {
      if v.rules.Marked(sub) {
        v.rules.MarkedBelow(sub, b.folders);
      }
    }
  }

  lemma StoppedFolder(v: Visibility, change: Change, books: seq<Book>, folders: seq<FolderPath>, sub: FolderPath)
    requires change.MovedTo? && change.to !in folders && ListsBooksFolders(books, folders)
    requires HasPrefix(sub, change.from)
    requires RevealedEmpty(v, change, InFolder(books, change.from), sub)
    ensures v.Shows(change.After(books), change.Moved(sub)) && !v.Shows(books, sub)
  {
    MovedUnder(v, change, books, folders, sub);
    UnderInFolder(books, change.from, sub);
  }

  /** A move to an unlisted folder that the guard passes shows nothing of the moved folder that was
      hidden; and one it stops shows something: a book, or a folder. */
  lemma GuardIsExact(v: Visibility, change: Change, books: seq<Book>, folders: seq<FolderPath>)
    requires change.MovedTo? && change.to !in folders && ListsBooksFolders(books, folders)
    ensures Passes(v, change, books, folders) <==>
      && (forall b <- books | HasPrefix(b.folders, change.from) ::
            v.Allows(b.(folders := change.Moved(b.folders))) ==> v.Allows(b))
      && (forall sub <- folders | HasPrefix(sub, change.from) ::
            v.Shows(change.After(books), change.Moved(sub)) ==> v.Shows(books, sub))
  {
    NoRevealedBooks(v, change, books);
    NoRevealedFolders(v, change, InFolder(books, change.from), folders);
    forall b | b in books && HasPrefix(b.folders, change.from)
      ensures Revealed(v, change, b) <==> v.Allows(b.(folders := change.Moved(b.folders))) && !v.Allows(b)
    {
      MovedBookShows(v, change, b);
    }
    forall sub | sub in folders && HasPrefix(sub, change.from)
      ensures RevealedEmpty(v, change, InFolder(books, change.from), sub) ==>
        v.Shows(change.After(books), change.Moved(sub)) && !v.Shows(books, sub)
      ensures (&& (forall b <- books :: !Revealed(v, change, b))
               && !RevealedEmpty(v, change, InFolder(books, change.from), sub)) ==>
        (v.Shows(change.After(books), change.Moved(sub)) ==> v.Shows(books, sub))
    {
      if RevealedEmpty(v, change, InFolder(books, change.from), sub) {
        StoppedFolder(v, change, books, folders, sub);
      } else if forall b <- books :: !Revealed(v, change, b) {
        PassedFolder(v, change, books, folders, sub);
      }
    }
  }

  // ---------- Leaving the shelf ----------

  /** As seen where no folder is marked. */
  function Elsewhere(v: Visibility): Visibility {
    v.(rules := v.rules.(byPath := {}))
  }

  function BooksIn(books: seq<Book>, from: FolderPath): (r: seq<Book>)
    ensures forall b :: b in r <==> b in books && HasPrefix(b.folders, from)
  {
    if books == [] then []
    else
      var n := |books| - 1;
      BooksIn(books[..n], from) + if HasPrefix(books[n].folders, from) then [books[n]] else []
  }

  lemma LeavingFolder(v: Visibility, from: FolderPath, books: seq<Book>, sub: FolderPath)
    requires HasPrefix(sub, from)
    ensures var change, moved := LeavesShelf(from), BooksIn(books, from);
            && (RevealedEmpty(v, change, InFolder(books, from), sub) ==>
              Elsewhere(v).Shows(moved, sub) && !v.Shows(books, sub))
            && ((forall b <- books :: !Revealed(v, change, b))
                && !RevealedEmpty(v, change, InFolder(books, from), sub) ==>
                  (Elsewhere(v).Shows(moved, sub) ==> v.Shows(books, sub)))
  {
    var change, moved := LeavesShelf(from), BooksIn(books, from);
    UnderInFolder(books, from, sub);
    assert Held(moved) == InFolder(books, from);
    if !RevealedEmpty(v, change, InFolder(books, from), sub) && !v.showNSFW && Under(Held(books), sub)
       && (forall b <- books :: !Revealed(v, change, b)) && Elsewhere(v).Shows(moved, sub) {
      assert Under(Elsewhere(v).AllowedOf(moved), sub);
      var b :| b in moved && Elsewhere(v).Allows(b) && HasPrefix(b.folders, sub);
      assert !Revealed(v, change, b) && v.Allows(b);
      if v.rules.Marked(sub) {
        v.rules.MarkedBelow(sub, b.folders);
      }
    }
  }

  /** A folder leaving the shelf, for wherever nothing marks it: the guard passes it exactly when all
      that is then shown of it, book or folder, was shown before. */
  lemma LeavingGuardIsExact(v: Visibility, from: FolderPath, books: seq<Book>, folders: seq<FolderPath>)
    ensures var change, moved := LeavesShelf(from), BooksIn(books, from);
            Passes(v, change, books, folders) <==>
              && (forall b <- moved :: Elsewhere(v).Allows(b) ==> v.Allows(b))
              && (forall sub <- folders | HasPrefix(sub, from) ::
                Elsewhere(v).Shows(moved, sub) ==> v.Shows(books, sub))
  {
    var change, moved := LeavesShelf(from), BooksIn(books, from);
    NoRevealedBooks(v, change, books);
    NoRevealedFolders(v, change, InFolder(books, from), folders);
    forall b | b in moved ensures Revealed(v, change, b) <==> Elsewhere(v).Allows(b) && !v.Allows(b) {}
    forall sub | sub in folders && HasPrefix(sub, from)
      ensures RevealedEmpty(v, change, InFolder(books, from), sub) ==>
        Elsewhere(v).Shows(moved, sub) && !v.Shows(books, sub)
      ensures (&& (forall b <- books :: !Revealed(v, change, b))
               && !RevealedEmpty(v, change, InFolder(books, from), sub)) ==>
        (Elsewhere(v).Shows(moved, sub) ==> v.Shows(books, sub))
    {
      LeavingFolder(v, from, books, sub);
    }
  }
}
