/** Offline copies of a remote shelf's books (shelf/shelf_offline.go): the records of what was
    downloaded, the routes that serve reads from it, and the packages on disk. */
module OfflineStore {
  import opened Basics
  import opened FolderPaths

  type BookID = string

  // ---------- Packages on disk ----------

  datatype Package = Package(content: string)

  /** Directories that hold a package, by their paths. */
  type Dirs = map<FolderPath, Package>

  function WithoutUnder(dirs: Dirs, p: FolderPath): Dirs {
    map q | q in dirs && !HasPrefix(q, p) :: dirs[q]
  }

  function AtOrBelow(dirs: Dirs, p: FolderPath): set<FolderPath> {
    set q | q in dirs && HasPrefix(q, p)
  }

  /** What lies at and below a path, by relative paths. */
  function Subtree(dirs: Dirs, p: FolderPath): Dirs {
    map r | r in (set q | q in AtOrBelow(dirs, p) :: q[|p|..]) && p + r in dirs :: dirs[p + r]
  }

  /** A subtree put at a path. */
  function Placed(dirs: Dirs, p: FolderPath, sub: Dirs): Dirs {
    dirs + map q | q in (set r | r in sub :: p + r) :: sub[q[|p|..]]
  }

  lemma PlacedBack(dirs: Dirs, p: FolderPath)
    ensures Placed(WithoutUnder(dirs, p), p, Subtree(dirs, p)) == dirs
  {
    var sub := Subtree(dirs, p);
    forall q | q in dirs && HasPrefix(q, p) ensures q[|p|..] in sub && p + q[|p|..] == q {
      assert p + q[|p|..] == q;
    }
    forall r | r in sub ensures p + r in dirs && (p + r)[|p|..] == r {}
    assert Placed(WithoutUnder(dirs, p), p, sub).Keys == dirs.Keys;
  }

  // ---------- Package paths ----------

  predicate HasExtension(segment: string) {
    var extension := ".bookpkg";
    |segment| >= |extension| && segment[|segment| - |extension|..] == extension
  }

  /** What a download list is checked for. */
  predicate IsBookPackagePath(p: FolderPath) {
    |p| >= 2 && p[0] == "books" && HasExtension(p[|p| - 1])
  }

  /** What a scan finds: it does not look for packages inside a package. */
  predicate OwnPackage(p: FolderPath) {
    IsBookPackagePath(p) && forall i :: 1 <= i < |p| - 1 ==> !HasExtension(p[i])
  }

  /** Packages that a scan finds do not lie in one another. */
  lemma PackagesAreApart(p: FolderPath, q: FolderPath)
    requires OwnPackage(p) && OwnPackage(q) && HasPrefix(q, p)
    ensures p == q
  {}

  // ---------- Records ----------

  datatype Record = Record(path: FolderPath, version: string, metaID: Option<BookID>)

  type Records = map<BookID, Record>

  datatype Listed = Listed(path: FolderPath, version: string)

  type Listing = map<BookID, Listed>

  datatype State = NotDownloaded | Downloaded | UpdateAvailable

  function StateOf(downloads: Records, listing: Listing, id: BookID): State {
    if id !in downloads then NotDownloaded
    else if id in listing
      && (listing[id].path != downloads[id].path || listing[id].version != downloads[id].version) then UpdateAvailable
    else Downloaded
  }

  /** An update is available where the listing shows the book at another path or in another version. */
  lemma StateMeans(downloads: Records, listing: Listing, id: BookID)
    ensures StateOf(downloads, listing, id) == NotDownloaded <==> id !in downloads
    ensures StateOf(downloads, listing, id) == UpdateAvailable <==>
      id in downloads && id in listing
        && Listed(downloads[id].path, downloads[id].version) != listing[id]
  {}

  function RecordOf(listing: Listing, id: BookID): Record {
    if id in listing then Record(listing[id].path, listing[id].version, Some(id)) else Record([], "", None)
  }

  /** No record's path lies inside another's. */
  ghost predicate Apart(downloads: Records) {
    forall a <- downloads, b <- downloads ::
      HasPrefix(downloads[a].path, downloads[b].path) ==> downloads[a].path == downloads[b].path
  }

  /** A path neither lies inside a record's, nor has one inside, but may be one. */
  predicate ApartFrom(downloads: Records, p: FolderPath) {
    forall id <- downloads ::
      HasPrefix(downloads[id].path, p) || HasPrefix(p, downloads[id].path) ==> downloads[id].path == p
  }

  ghost predicate NoneInside(downloads: Records, p: FolderPath) {
    forall id <- downloads :: HasPrefix(downloads[id].path, p) ==> downloads[id].path == p
  }

  /** Records of packages that scans found are apart. */
  lemma FoundPackagesAreApart(downloads: Records, p: FolderPath)
    requires OwnPackage(p) && forall id <- downloads :: OwnPackage(downloads[id].path)
    ensures Apart(downloads) && ApartFrom(downloads, p)
  {
    forall a, b | a in downloads && b in downloads && HasPrefix(downloads[a].path, downloads[b].path)
      ensures downloads[a].path == downloads[b].path {
      PackagesAreApart(downloads[b].path, downloads[a].path);
    }
    forall id | id in downloads && (HasPrefix(downloads[id].path, p) || HasPrefix(p, downloads[id].path))
      ensures downloads[id].path == p {
      if HasPrefix(p, downloads[id].path) {
        PackagesAreApart(downloads[id].path, p);
      } else {
        PackagesAreApart(p, downloads[id].path);
      }
    }
  }

  /** Every record's package is there, but for those lost before. */
  ghost predicate Present(downloads: Records, dirs: Dirs, lost: set<FolderPath>) {
    forall id <- downloads :: downloads[id].path in dirs || downloads[id].path in lost
  }

  /** Some record names the path. */
  predicate PathInUse(downloads: Records, p: FolderPath) {
    exists id :: id in downloads && downloads[id].path == p
  }

  /** A new record, which takes its path over from any other. */
  function Adopted(downloads: Records, id: BookID, record: Record): Records {
    (map other | other in downloads && (other == id || downloads[other].path != record.path) ::
      downloads[other])[id := record]
  }

  /** Removing what lies at and below a path keeps the records' packages exactly when none of them
      lies there; and only what was lost before may be. */
  lemma RemovalKeepsExactly(downloads: Records, dirs: Dirs, lost: set<FolderPath>, p: FolderPath)
    ensures Kept(downloads, dirs, WithoutUnder(dirs, p)) <==> NoneThere(downloads, dirs, p)
    ensures Present(downloads, dirs, lost) ==>
      (Present(downloads, WithoutUnder(dirs, p), lost) <==>
         forall id <- downloads :: HasPrefix(downloads[id].path, p) ==> downloads[id].path in lost)
  {}

  /** No record's package lies at or below the path. */
  ghost predicate NoneThere(downloads: Records, dirs: Dirs, p: FolderPath) {
    forall id <- downloads :: downloads[id].path in dirs ==> !HasPrefix(downloads[id].path, p)
  }

  function Replaced(dirs: Dirs, p: FolderPath, pkg: Package): Dirs {
    Placed(WithoutUnder(dirs, p), p, map[[] := pkg])
  }

  lemma ReplacedHolds(dirs: Dirs, p: FolderPath, pkg: Package)
    ensures Replaced(dirs, p, pkg) == WithoutUnder(dirs, p)[p := pkg]
  {
    assert p + [] == p;
    assert forall r | r in map[[] := pkg] :: p + r == p;
  }

  /** A package replaced or newly put leaves the records' where none of them lies inside it; and what
      a failed replacing takes away is counted as lost. */
  lemma ReplacingKeepsSound(downloads: Records, dirs: Dirs, lost: set<FolderPath>, p: FolderPath, pkg: Package)
    requires NoneInside(downloads, p) && Sound(downloads, dirs, lost)
    ensures Sound(downloads, Replaced(dirs, p, pkg), lost)
    ensures Sound(downloads, WithoutUnder(dirs, p), lost + AtOrBelow(dirs, p))
  {
    ReplacedHolds(dirs, p, pkg);
  }

  /** The disk after a download: the new package in place, and the book's old one gone if no record
      names it any more. */
  function AfterDownload(dirs: Dirs, p: FolderPath, pkg: Package, drop: Option<FolderPath>): Dirs {
    if drop.None? then Replaced(dirs, p, pkg) else WithoutUnder(Replaced(dirs, p, pkg), drop.value)
  }

  /** What a download drops of the records before it. */
  ghost function Dropped(before: Records, downloads: Records, id: BookID): Option<FolderPath> {
    if id in before && forall other <- downloads :: downloads[other].path != before[id].path then Some(before[id].path)
    else None
  }

  /** A download keeps the other records' packages exactly when none of them lies inside the new
      package, or inside the old one that goes. */
  lemma DownloadKeepsExactly(downloads: Records, dirs: Dirs, p: FolderPath, pkg: Package, drop: Option<FolderPath>)
    ensures KeptBut(p, downloads, dirs, AfterDownload(dirs, p, pkg, drop)) <==>
      forall id <- downloads :: downloads[id].path in dirs && downloads[id].path != p ==>
        !HasPrefix(downloads[id].path, p) && (drop.Some? ==> !HasPrefix(downloads[id].path, drop.value))
  {
    ReplacedHolds(dirs, p, pkg);
  }

  /** Packages elsewhere than at p stay as they were. */
  ghost predicate KeptBut(p: FolderPath, downloads: Records, dirs: Dirs, dirs': Dirs) {
    forall id <- downloads :: downloads[id].path != p && downloads[id].path in dirs ==>
      downloads[id].path in dirs' && dirs'[downloads[id].path] == dirs[downloads[id].path]
  }

  /** What remains of the records keeps its packages as they were. */
  ghost predicate Kept(downloads: Records, dirs: Dirs, dirs': Dirs) {
    forall id <- downloads :: downloads[id].path in dirs ==>
      downloads[id].path in dirs' && dirs'[downloads[id].path] == dirs[downloads[id].path]
  }

  // ---------- Routes ----------

  /** Every route leads to a record of that very path. */
  ghost predicate Routed(byPath: map<FolderPath, BookID>, downloads: Records) {
    forall p <- byPath :: byPath[p] in downloads && downloads[byPath[p]].path == p
  }

  /** The listing has the book elsewhere, or another book in its place. */
  ghost predicate Contradicts(listing: Listing, id: BookID, record: Record) {
    || (id in listing && listing[id].path != record.path)
    || (id !in listing && exists other :: other in listing && listing[other].path == record.path)
  }

  /** The routes after a record is taken in. */
  function Rerouted(byPath: map<FolderPath, BookID>, downloads: Records, id: BookID, record: Record):
    map<FolderPath, BookID>
  {
    (if id in downloads && downloads[id].path in byPath && byPath[downloads[id].path] == id
     then byPath - {downloads[id].path}
     else byPath)[record.path := id]
  }

  lemma AdoptedIsRouted(byPath: map<FolderPath, BookID>, downloads: Records, id: BookID, record: Record)
    requires Routed(byPath, downloads)
    ensures Routed(Rerouted(byPath, downloads, id, record), Adopted(downloads, id, record))
  {}

  ghost predicate OneBookAPath(listing: Listing) {
    forall id <- listing, other <- listing :: listing[id].path == listing[other].path ==> id == other
  }

  class Disk {
    var dirs: Dirs
    var stored: Option<Records>
    ghost var lost: set<FolderPath> // packages gone other than by a removal
    ghost var failures: nat         // injected I/O failures

    constructor (dirs: Dirs, stored: Option<Records>)
      ensures this.dirs == dirs && this.stored == stored && failures == 0
      ensures stored.Some? ==> Present(stored.value, dirs, lost)
    {
      this.dirs, this.stored, failures := dirs, stored, 0;
      lost := if stored.Some? then set id | id in stored.value :: stored.value[id].path else {};
    }

    method Fault() returns (failed: bool)
      modifies this`failures
      ensures failures == if failed then old(failures) + 1 else old(failures)
    {
      failed := *;
      if failed {
        failures := failures + 1;
      }
    }

    /** Removes a directory and all in it; a failure may come before or after. */
    method RemoveAll(p: FolderPath) returns (ok: bool)
      modifies this`dirs, this`failures
      ensures ok ==> dirs == WithoutUnder(old(dirs), p) && failures == old(failures)
      ensures !ok ==> failures > old(failures) && (dirs == old(dirs) || dirs == WithoutUnder(old(dirs), p))
    {
      var failed := Fault();
      var gone: bool := *;
      if !failed || gone {
        dirs := WithoutUnder(dirs, p);
      }
      ok := !failed;
    }

    method WriteList(records: Records) returns (ok: bool)
      modifies this`stored, this`failures
      ensures stored == if ok then Some(records) else old(stored)
      ensures if ok then failures == old(failures) else failures > old(failures)
    {
      var failed := Fault();
      if !failed {
        stored := Some(records);
      }
      ok := !failed;
    }

    /** Puts a staged package in the place of what is at a path, and that back if it cannot. Only
        when putting it back fails as well is anything lost. */
    method ReplaceDirKeepingPrevious(staging: Dirs, dst: FolderPath) returns (ok: bool)
      modifies this
      ensures stored == old(stored)
      ensures ok ==>
        failures == old(failures) && lost == old(lost) && dirs == Placed(WithoutUnder(old(dirs), dst), dst, staging)
      ensures !ok ==> failures > old(failures)
      ensures !ok ==> || (dirs == old(dirs) && lost == old(lost))
                      || (failures > old(failures) + 1 && dirs == WithoutUnder(old(dirs), dst)
                          && lost == old(lost) + AtOrBelow(old(dirs), dst))
    {
      var failed := Fault();
      if failed {
        return false;
      }
      var previous := Subtree(dirs, dst);
      PlacedBack(dirs, dst);
      ghost var there := AtOrBelow(dirs, dst);
      dirs := WithoutUnder(dirs, dst);
      failed := Fault();
      if !failed {
        dirs := Placed(dirs, dst, staging);
        return true;
      }
      failed := Fault();
      if failed {
        lost := lost + there;
      } else {
        dirs := Placed(dirs, dst, previous);
      }
      return false;
    }
  }

  predicate Usable(id: BookID, record: Record) {
    record.metaID == Some(id) && IsBookPackagePath(record.path)
  }

  /** A usable entry is of its own book, and its path leads from "books" to a name with the extension. */
  lemma UsableMeans(id: BookID, record: Record)
    ensures Usable(id, record) <==>
      && record.metaID == Some(id)
      && exists mid: FolderPath, stem: string :: record.path == ["books"] + mid + [stem + ".bookpkg"]
  {
    var p := record.path;
    if Usable(id, record) {
      var name := p[|p| - 1];
      var mid, stem := p[1..|p| - 1], name[..|name| - |".bookpkg"|];
      assert name == stem + ".bookpkg" && p == ["books"] + mid + [name];
    }
    forall mid: FolderPath, stem: string | p == ["books"] + mid + [stem + ".bookpkg"] ensures IsBookPackagePath(p) {}
  }

  function UsableOf(books: Records): Records {
    map id | id in books && Usable(id, books[id]) :: books[id]
  }

  /** What a restart loads. */
  function Loaded(stored: Option<Records>): Records {
    if stored.Some? then UsableOf(stored.value) else map[]
  }

  ghost predicate Sound(downloads: Records, dirs: Dirs, lost: set<FolderPath>) {
    Apart(downloads) && Present(downloads, dirs, lost)
  }

  method LoadDownloads(books: Records) returns (downloads: Records, byPath: map<FolderPath, BookID>)
    ensures downloads == UsableOf(books) && Routed(byPath, downloads)
    ensures forall id <- downloads :: downloads[id].path in byPath
  {
    downloads, byPath := map[], map[];
    var rest := books.Keys;
    while rest != {}
      invariant rest <= books.Keys && Routed(byPath, downloads)
      invariant forall id :: id in downloads <==> id in books && id !in rest && Usable(id, books[id])
      invariant forall id <- downloads :: downloads[id] == books[id] && downloads[id].path in byPath
    {
      var id :| id in rest;
      rest := rest - {id};
      if !Usable(id, books[id]) {
        continue;
      }
      downloads := downloads[id := books[id]];
      byPath := byPath[books[id].path := id];
    }
  }

  datatype Result = Done(state: State) | ErrBookNotFound | ErrDisk

  class Store {
    const disk: Disk
    var downloads: Records
    var byPath: map<FolderPath, BookID>

    /** Every route leads to a record of that very path. */
    ghost predicate Valid() reads this {
      Routed(byPath, downloads)
    }

    /** The records, those in memory and those a restart would load, name packages that are there and
        lie outside one another. */
    ghost predicate Safe() reads this, disk {
      Sound(downloads, disk.dirs, disk.lost) && Sound(Loaded(disk.stored), disk.dirs, disk.lost)
    }

    /** Loads the stored list, but for unusable entries. */
    constructor (disk: Disk)
      ensures this.disk == disk && Valid()
      ensures downloads == Loaded(disk.stored)
      // Two records may name one path: one of them has the route.
      ensures forall id <- downloads :: downloads[id].path in byPath
      ensures Sound(Loaded(disk.stored), disk.dirs, disk.lost) ==> Safe()
    {
      this.disk := disk;
      downloads, byPath := map[], map[];
      new;
      if disk.stored.Some? {
        downloads, byPath := LoadDownloads(disk.stored.value);
      }
    }

    /** Rebuilds the routes from what the shelf lists now. */
    method ReconcileDownloads(listing: Listing)
      modifies this`byPath
      ensures Valid()
      ensures OneBookAPath(listing) ==> forall p <- byPath :: !Contradicts(listing, byPath[p], downloads[byPath[p]])
      ensures OneBookAPath(listing) ==>
        forall id <- downloads :: !Contradicts(listing, id, downloads[id]) ==> downloads[id].path in byPath
    {
      var idAt: map<FolderPath, BookID> := map[];
      var rest := listing.Keys;
      while rest != {}
        invariant rest <= listing.Keys
        invariant forall p <- idAt :: idAt[p] in listing && listing[idAt[p]].path == p
        invariant forall id <- listing :: id in rest || listing[id].path in idAt
      {
        var id :| id in rest;
        rest := rest - {id};
        idAt := idAt[listing[id].path := id];
      }
      byPath := map[];
      rest := downloads.Keys;
      while rest != {}
        invariant rest <= downloads.Keys && Valid()
        invariant OneBookAPath(listing) ==> forall p <- byPath :: !Contradicts(listing, byPath[p], downloads[byPath[p]])
        invariant OneBookAPath(listing) ==> forall id <- downloads ::
          id in rest || Contradicts(listing, id, downloads[id]) || downloads[id].path in byPath
      {
        var id :| id in rest;
        rest := rest - {id};
        var record := downloads[id];
        if id in listing && listing[id].path != record.path {
          continue;
        }
        if record.path in idAt && idAt[record.path] != id {
          continue;
        }
        byPath := byPath[record.path := id];
      }
    }

    /** Others may list the shelf anew while an operation is at the disk. */
    method Others()
      requires Valid()
      modifies this`byPath
      ensures Valid()
    {
      var listed: bool := *;
      if listed {
        var listing: Listing := *;
        ReconcileDownloads(listing);
      }
    }

    /** Forgets other books' records of a path. */
    method TakePath(id: BookID, p: FolderPath)
      modifies this`downloads
      ensures downloads == map other | other in old(downloads) && (other == id || old(downloads)[other].path != p) ::
        old(downloads)[other]
    {
      var rest := downloads.Keys;
      while rest != {}
        invariant rest <= old(downloads).Keys
        invariant downloads == map other | other in old(downloads) &&
          (other in rest || other == id || old(downloads)[other].path != p) :: old(downloads)[other]
      {
        var other :| other in rest;
        rest := rest - {other};
        if other != id && downloads[other].path == p {
          downloads := downloads - {other};
        }
      }
    }

    /** Takes in a new record, and tells whether the path of the book's old one is still needed. */
    method Adopt(id: BookID, record: Record) returns (previous: Option<Record>, keepOld: bool)
      requires Valid()
      modifies this`downloads, this`byPath
      ensures Valid() && downloads == Adopted(old(downloads), id, record)
      ensures byPath == Rerouted(old(byPath), old(downloads), id, record)
      ensures previous == if id in old(downloads) then Some(old(downloads)[id]) else None
      ensures keepOld <==> previous.Some? && PathInUse(downloads, previous.value.path)
    {
      AdoptedIsRouted(byPath, downloads, id, record);
      previous := if id in downloads then Some(downloads[id]) else None;
      if previous.Some? && previous.value.path in byPath && byPath[previous.value.path] == id {
        byPath := byPath - {previous.value.path};
      }
      TakePath(id, record.path);
      downloads := downloads[id := record];
      byPath := byPath[record.path := id];
      keepOld := previous.Some? && PathInUse(downloads, previous.value.path);
    }

    /** A path is apart from all records, those in memory and those a restart would load. */
    ghost predicate Free(p: FolderPath) reads this, disk {
      ApartFrom(downloads, p) && ApartFrom(Loaded(disk.stored), p)
    }

    /** Puts a downloaded package in its place on disk. */
    method Install(p: FolderPath, pkg: Package) returns (ok: bool)
      requires Valid()
      modifies disk, this`byPath
      ensures Valid() && disk.stored == old(disk.stored)
      ensures ok ==>
        disk.dirs == Replaced(old(disk.dirs), p, pkg) && disk.lost == old(disk.lost)
        && disk.failures == old(disk.failures)
      ensures !ok ==> disk.failures > old(disk.failures)
      ensures disk.lost != old(disk.lost) ==> disk.failures > old(disk.failures) + 1
      ensures old(Safe() && Free(p)) ==> Safe() && Free(p)
    {
      if Safe() && Free(p) {
        ReplacingKeepsSound(downloads, disk.dirs, disk.lost, p, pkg);
        ReplacingKeepsSound(Loaded(disk.stored), disk.dirs, disk.lost, p, pkg);
      }
      ok := disk.ReplaceDirKeepingPrevious(map[[] := pkg], p);
      Others();
    }

    /** Stores the list, and then removes a package that it does not name. That keeps the records'
        packages exactly when none of them lies inside it. */
    method StoreAndDrop(drop: Option<FolderPath>) returns (ok: bool, dropped: bool)
      requires Valid() && (drop.Some? ==> !PathInUse(downloads, drop.value))
      modifies disk, this`byPath
      ensures Valid() && disk.lost == old(disk.lost)
      ensures ok ==> disk.stored == Some(downloads)
      ensures !ok ==> disk.stored == old(disk.stored) && disk.dirs == old(disk.dirs) && !dropped
      ensures dropped ==>
        ok && disk.dirs == if drop.Some? then WithoutUnder(old(disk.dirs), drop.value) else old(disk.dirs)
      ensures !ok || !dropped ==> disk.failures > old(disk.failures)
      ensures disk.failures >= old(disk.failures)
      ensures dropped ==>
        (Kept(downloads, old(disk.dirs), disk.dirs) <==> drop.None? || NoneThere(downloads, old(disk.dirs), drop.value))
      ensures (drop.Some? ==> NoneInside(downloads, drop.value)) ==>
        Kept(downloads, old(disk.dirs), disk.dirs) && (old(Safe()) ==> Safe())
    {
      dropped := false;
      ok := disk.WriteList(downloads);
      if !ok {
        return;
      }
      Others();
      dropped := true;
      if drop.Some? {
        RemovalKeepsExactly(downloads, disk.dirs, disk.lost, drop.value);
        dropped := disk.RemoveAll(drop.value);
      }
    }

    /** Takes in the record of an installed package, stores the list, and drops the book's old
        package when no record names it any more. */
    method Enter(id: BookID, record: Record) returns (ok: bool)
      requires Valid()
      modifies this`downloads, this`byPath, disk
      ensures Valid() && downloads == Adopted(old(downloads), id, record) && disk.lost == old(disk.lost)
      ensures if ok then disk.stored == Some(downloads)
        else disk.stored == old(disk.stored) && disk.failures > old(disk.failures)
      ensures disk.failures >= old(disk.failures)
      ensures disk.failures == old(disk.failures) ==>
        var drop := Dropped(old(downloads), downloads, id);
        disk.dirs == if drop.Some? then WithoutUnder(old(disk.dirs), drop.value) else old(disk.dirs)
      ensures old(Safe() && Free(record.path) && record.path in disk.dirs) ==> Safe()
    {
      var previous, keepOld := Adopt(id, record);
      var drop := if previous.Some? && previous.value.path != record.path && !keepOld then Some(previous.value.path)
        else None;
      assert downloads[id].path == record.path;
      assert drop == Dropped(old(downloads), downloads, id);
      Others();
      if old(Safe() && Free(record.path) && record.path in disk.dirs) {
        AdoptedIsSound(old(downloads), id, record, disk.dirs, disk.lost);
      }
      var dropped;
      ok, dropped := StoreAndDrop(drop);
    }

    /** Downloads a listed book: `copied` is its package as copied, if that could be. */
    method DownloadBook(listing: Listing, id: BookID, copied: Option<Package>) returns (r: Result)
      requires Valid()
      modifies this`downloads, this`byPath, disk
      ensures Valid()
      ensures r.ErrBookNotFound? <==> id !in listing
      ensures r.Done? ==>
        && copied.Some? && downloads == Adopted(old(downloads), id, RecordOf(listing, id))
        && disk.stored == Some(downloads)
        && r.state == StateOf(downloads, listing, id) == Downloaded
      ensures !r.Done? ==> disk.stored == old(disk.stored)
      ensures !r.Done? ==>
        downloads == old(downloads) || downloads == Adopted(old(downloads), id, RecordOf(listing, id))
      ensures id in listing && copied.Some? && disk.failures == old(disk.failures) ==> r.Done?
      // The whole disk afterwards, and exactly when it still has the other records' packages.
      ensures r.Done? && disk.failures == old(disk.failures) ==>
        var p, drop := listing[id].path, Dropped(old(downloads), downloads, id);
        && disk.dirs == AfterDownload(old(disk.dirs), p, copied.value, drop)
        && (KeptBut(p, downloads, old(disk.dirs), disk.dirs) <==>
              forall other <- downloads :: downloads[other].path in old(disk.dirs) && downloads[other].path != p ==>
                !HasPrefix(downloads[other].path, p) && (drop.Some? ==> !HasPrefix(downloads[other].path, drop.value)))
      // Through any failures, a path apart from the records' keeps them safe; only putting back what
      // could not be replaced may lose a package.
      ensures old(Safe() && (id in listing ==> Free(listing[id].path))) ==> Safe()
      ensures disk.lost != old(disk.lost) ==> disk.failures > old(disk.failures) + 1
      ensures disk.failures >= old(disk.failures)
    {
      if id !in listing {
        return ErrBookNotFound;
      }
      if copied.None? {
        return ErrDisk;
      }
      var record := Record(listing[id].path, listing[id].version, Some(id));
      var installed := Install(record.path, copied.value);
      if !installed {
        return ErrDisk;
      }
      ReplacedHolds(old(disk.dirs), record.path, copied.value);
      var ok := Enter(id, record);
      if !ok {
        return ErrDisk;
      }
      ghost var drop := Dropped(old(downloads), downloads, id);
      DownloadKeepsExactly(downloads, old(disk.dirs), record.path, copied.value, drop);
      return Done(StateOf(downloads, listing, id));
    }

    /** Forgets a download, and then removes its package unless another record names it. Records that
        remain keep their packages, exactly when none of those lies inside the one removed. */
    method RemoveDownload(id: BookID) returns (ok: bool)
      requires Valid()
      modifies this`downloads, this`byPath, disk
      ensures Valid() && downloads == old(downloads) - {id}
      ensures disk.lost == old(disk.lost)
      ensures ok && id in old(downloads) ==> disk.stored == Some(downloads)
      ensures ok && id in old(downloads) ==>
        var p := old(downloads)[id].path;
        var shared := exists other :: other in downloads && downloads[other].path == p;
        && disk.dirs == (if shared then old(disk.dirs) else WithoutUnder(old(disk.dirs), p))
        && (Kept(downloads, old(disk.dirs), disk.dirs) <==> shared || NoneThere(downloads, old(disk.dirs), p))
      ensures id in old(downloads) && NoneInside(downloads, old(downloads)[id].path) ==>
        Kept(downloads, old(disk.dirs), disk.dirs)
      ensures old(Safe()) ==> Safe()
      ensures disk.failures >= if ok then old(disk.failures) else old(disk.failures) + 1
      ensures id !in old(downloads) ==> ok && disk.stored == old(disk.stored) && disk.dirs == old(disk.dirs)
    {
      if id !in downloads {
        assert downloads == downloads - {id};
        return true;
      }
      var p := downloads[id].path;
      if p in byPath && byPath[p] == id {
        byPath := byPath - {p};
      }
      downloads := downloads - {id};
      var shared := PathInUse(downloads, p);
      Others();
      var stored, dropped := StoreAndDrop(if shared then None else Some(p));
      ok := stored && dropped;
    }
  }

  lemma AdoptedIsSound(before: Records, id: BookID, record: Record, dirs: Dirs, lost: set<FolderPath>)
    requires Sound(before, dirs, lost) && ApartFrom(before, record.path) && record.path in dirs
    ensures Sound(Adopted(before, id, record), dirs, lost)
    ensures id in before && !PathInUse(Adopted(before, id, record), before[id].path) ==>
      NoneInside(Adopted(before, id, record), before[id].path)
  {}

  /** Any run of downloads, removals, listings and restarts, with failures wherever they strike, over
      a list whose usable records are apart, and of books listed apart from them: the records, in
      memory and stored, name packages that are there, but for those whose own replacing failed twice
      over; and every route leads to such a record. */
  method AnyRun(disk: Disk) returns (store: Store)
    requires Sound(Loaded(disk.stored), disk.dirs, disk.lost)
    modifies disk
    ensures store.disk == disk && store.Valid() && store.Safe()
    ensures disk.lost != old(disk.lost) ==> disk.failures > old(disk.failures) + 1
  {
    store := new Store(disk);
    var steps: nat :| 0 <= steps;
    while steps > 0
      invariant fresh(store) && store.disk == disk && store.Valid() && store.Safe()
      invariant disk.failures >= old(disk.failures)
      invariant disk.lost != old(disk.lost) ==> disk.failures > old(disk.failures) + 1
    {
      var step: nat :| 0 <= step;
      var id: BookID, listing: Listing, copied: Option<Package> := *, *, *;
      if step == 0 {
        store := new Store(disk);
      } else if step == 1 {
        store.ReconcileDownloads(listing);
      } else if step == 2 {
        var ok := store.RemoveDownload(id);
      } else if id in listing && ApartFrom(store.downloads, listing[id].path)
        && ApartFrom(Loaded(disk.stored), listing[id].path) {
        var r := store.DownloadBook(listing, id, copied);
      }
      steps := steps - 1;
    }
  }

  // ---------- Lists that name one package inside another ----------

  /** Of any list with a usable record inside another's package, loaded and the outer download
      removed, the inner record remains and its package does not. */
  method NestedPackageGoesToo(disk: Disk, outer: BookID, inner: BookID) returns (store: Store, ok: bool)
    requires outer in Loaded(disk.stored) && inner in Loaded(disk.stored)
    requires var records := Loaded(disk.stored);
             && HasPrefix(records[inner].path, records[outer].path) && records[inner].path in disk.dirs
             && forall id <- records :: records[id].path == records[outer].path ==> id == outer
    requires inner != outer
    modifies disk
    ensures ok ==>
      inner in store.downloads && store.downloads[inner].path in old(disk.dirs)
        && store.downloads[inner].path !in disk.dirs
  {
    store := new Store(disk);
    ok := store.RemoveDownload(outer);
  }

  /** The check of a list admits such records: it looks at the last segment of a path only. */
  lemma NestedRecordsAreUsable(id: BookID, other: BookID, outer: FolderPath, name: string)
    requires IsBookPackagePath(outer) && HasExtension(name)
    ensures Usable(id, Record(outer, "", Some(id))) && Usable(other, Record(outer + [name], "", Some(other)))
    ensures HasPrefix(outer + [name], outer) && outer + [name] != outer
  {}
}
