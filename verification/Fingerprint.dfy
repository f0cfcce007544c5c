/** The fingerprint cache (shelf/fingerprint/cache.go): a source's stat leads to the hash of its
    content, and that to the fingerprint built once from such content. */
module Fingerprint {
  import opened Basics
  import opened RacyWindow

  type Key = string
  type Content = string
  type Hash = string

  datatype Algo = Algo(normalize: string, shingle: string, hash: string, k: int)

  datatype Entry = Entry(normMd5: string, normChars: int, shingles: int, sketch: string)

  datatype IndexEntry = IndexEntry(size: nat, modTime: int, md5: Hash, seenAt: int)

  datatype FileStat = FileStat(size: nat, modTime: int)

  datatype CacheFile = CacheFile(algo: Algo, index: map<Key, IndexEntry>, entries: map<Hash, Entry>)

  /** The hash function and the deterministic builder of each algorithm. */
  datatype Rules = Rules(md5: Content -> Hash, build: (Algo, Content) -> Option<Entry>)

  ghost predicate NoCollisions(rules: Rules) {
    forall a, b :: rules.md5(a) == rules.md5(b) ==> a == b
  }

  /** What resolving a source with this content should answer; a fingerprint without a sketch is
      an error. */
  function Expected(rules: Rules, algo: Algo, content: Content): Option<Entry> {
    match rules.build(algo, content)
    case None => None
    case Some(e) => if e.sketch == "" then None else Some(e)
  }

  predicate Matches(e: IndexEntry, stat: FileStat) {
    e.size == stat.size && e.modTime == stat.modTime
  }

  predicate EqualIgnoringSeenAt(a: IndexEntry, b: IndexEntry) {
    a.size == b.size && a.modTime == b.modTime && a.md5 == b.md5
  }

  predicate Supersedes(a: IndexEntry, b: IndexEntry) {
    if a.seenAt != b.seenAt then a.seenAt > b.seenAt else a.modTime > b.modTime
  }

  // ---------- Keys ----------

  function Cut(s: string): Option<(string, string)> {
    if s == "" then None
    else if s[0] == '/' then Some(("", s[1..]))
    else match Cut(s[1..])
      case None => None
      case Some((before, after)) => Some(([s[0]] + before, after))
  }

  function IndexKey(bookId: string, sourceId: string): Key {
    bookId + "/" + sourceId
  }

  function SplitIndexKey(key: Key): Option<(string, string)> {
    match Cut(key)
    case None => None
    case Some((bookId, sourceId)) => if bookId == "" || sourceId == "" then None else Some((bookId, sourceId))
  }

  lemma KeySplitsBack(bookId: string, sourceId: string)
    requires bookId != "" && sourceId != "" && '/' !in bookId
    ensures SplitIndexKey(IndexKey(bookId, sourceId)) == Some((bookId, sourceId))
  {
    CutAtSeparator(bookId, sourceId);
  }

  lemma {:induction false} CutAtSeparator(before: string, after: string)
    requires '/' !in before
    ensures Cut(before + "/" + after) == Some((before, after))
  {
    if before == "" {
      assert before + "/" + after == "/" + after;
    } else {
      assert (before + "/" + after)[1..] == before[1..] + "/" + after;
      assert before == [before[0]] + before[1..];
      CutAtSeparator(before[1..], after);
    }
  }

  // ---------- The sources ----------

  datatype File = File(content: Content, modTime: int, changedAt: int)

  type Files = map<Key, File>

  /** The sources as they were at some time. */
  datatype Moment = Moment(files: Files, now: int)

  type History = seq<Moment>

  ghost predicate HonestFiles(files: Files, now: int) {
    forall k <- files :: files[k].changedAt <= now && HonestStamp(files[k].modTime, files[k].changedAt)
  }

  /** Edits made by others from one moment to a later one: a source that differs changed since. */
  ghost predicate Evolves(m: Moment, m': Moment) {
    && m.now <= m'.now && HonestFiles(m'.files, m'.now)
    && forall k <- m'.files :: (k in m.files && m.files[k] == m'.files[k]) || m.now <= m'.files[k].changedAt
  }

  ghost predicate ValidHistory(h: History) {
    && (forall i :: 0 <= i < |h| ==> HonestFiles(h[i].files, h[i].now))
    && forall i, j {:trigger Evolves(h[i], h[j])} :: 0 <= i < j < |h| ==> Evolves(h[i], h[j])
  }

  lemma NextMoment(h: History, m: Moment)
    requires ValidHistory(h) && h != [] && Evolves(h[|h| - 1], m)
    ensures ValidHistory(h + [m])
  {
    var n := |h| - 1;
    forall i | 0 <= i <= n ensures Evolves(h[i], m) {
      assert i < n ==> Evolves(h[i], h[n]);
    }
    forall i, j | 0 <= i < j < |h + [m]| ensures Evolves((h + [m])[i], (h + [m])[j]) {
      assert j < |h| ==> Evolves(h[i], h[j]);
    }
  }

  // ---------- What a cache may hold ----------

  /** Content with this hash was read from the source, at or after readAt. */
  ghost predicate ReadSince(rules: Rules, h: History, key: Key, readAt: int, md5: Hash) {
    exists t {:trigger ReadIn(rules, h[t], key, readAt, md5)} :: 0 <= t < |h| && ReadIn(rules, h[t], key, readAt, md5)
  }

  ghost predicate ReadIn(rules: Rules, m: Moment, key: Key, readAt: int, md5: Hash) {
    readAt <= m.now && key in m.files && rules.md5(m.files[key].content) == md5
  }

  /** A record's modification time was settled before its content was read. */
  ghost predicate RecordTrue(rules: Rules, h: History, key: Key, e: IndexEntry) {
    Settled(e.modTime, e.seenAt) && ReadSince(rules, h, key, e.seenAt, e.md5)
  }

  ghost predicate IndexTrue(rules: Rules, h: History, index: map<Key, IndexEntry>) {
    forall k {:trigger RecordTrue(rules, h, k, index[k])} | k in index :: RecordTrue(rules, h, k, index[k])
  }

  ghost predicate EntriesTrue(rules: Rules, algo: Algo, entries: map<Hash, Entry>) {
    forall c: Content {:trigger rules.md5(c)} ::
      rules.md5(c) in entries ==> Expected(rules, algo, c) == Some(entries[rules.md5(c)])
  }

  ghost predicate CacheTrue(rules: Rules, h: History, c: CacheFile) {
    IndexTrue(rules, h, c.index) && EntriesTrue(rules, c.algo, c.entries)
  }

  /** Every indexed hash has its fingerprint. */
  ghost predicate Closed(index: map<Key, IndexEntry>, entries: map<Hash, Entry>) {
    forall k <- index :: index[k].md5 in entries
  }

  /** What was read stays read, whatever is edited. */
  lemma ReadingStaysTrue(rules: Rules, h: History, h': History, key: Key, readAt: int, md5: Hash)
    requires ReadSince(rules, h, key, readAt, md5) && h <= h'
    ensures ReadSince(rules, h', key, readAt, md5)
  {}

  lemma EditsKeepIndexTrue(rules: Rules, h: History, h': History, index: map<Key, IndexEntry>)
    requires IndexTrue(rules, h, index) && h <= h'
    ensures IndexTrue(rules, h', index)
  {
    forall k | k in index ensures RecordTrue(rules, h', k, index[k]) {
      assert RecordTrue(rules, h, k, index[k]);
      ReadingStaysTrue(rules, h, h', k, index[k].seenAt, index[k].md5);
    }
  }

  /** The stat rule: where a source has the settled modification time of a record, made by whoever
      and whenever, the recorded hash is that of its content, then or at some later moment. */
  lemma MatchingStatNamesContent(rules: Rules, h: History, key: Key, e: IndexEntry, i: nat) returns (t: nat)
    requires ValidHistory(h) && RecordTrue(rules, h, key, e)
    requires i < |h| && key in h[i].files && h[i].files[key].modTime == e.modTime
    ensures i <= t < |h| && key in h[t].files && rules.md5(h[t].files[key].content) == e.md5
  {
    t :| 0 <= t < |h| && ReadIn(rules, h[t], key, e.seenAt, e.md5);
    if t < i {
      assert Evolves(h[t], h[i]);
      t := i;
    }
  }

  // ---------- Calls in progress ----------

  /** The fingerprint was the right answer for the source at a moment from the given one on. */
  ghost predicate HeldDuring(rules: Rules, algo: Algo, h: History, from: int, key: Key, e: Entry) {
    exists i {:trigger h[i]} ::
      0 <= from <= i < |h| && key in h[i].files && Expected(rules, algo, h[i].files[key].content) == Some(e)
  }

  ghost predicate StatHeld(h: History, from: int, key: Key, stat: FileStat) {
    exists i {:trigger h[i]} :: 0 <= from <= i < |h| && key in h[i].files
      && stat == FileStat(|h[i].files[key].content|, h[i].files[key].modTime)
  }

  ghost predicate ContentHeld(h: History, from: int, key: Key, readAt: int, content: Content) {
    exists i {:trigger h[i]} ::
      0 <= from <= i < |h| && key in h[i].files && readAt <= h[i].now && h[i].files[key].content == content
  }

  /** Where a call of resolve stands between two of its holds of the lock. */
  datatype Stage =
    | Begun
    | Statted(stat: Option<FileStat>)
    | Missed(stat: Option<FileStat>)
    | Read(stat: Option<FileStat>, readAt: int, content: Content)
    | Found(stat: Option<FileStat>, readAt: int, content: Content, entry: Entry, known: bool)
    | Done(result: Option<Entry>)

  datatype Call = Call(key: Key, force: bool, stage: Stage)

  /** What is known of a call that began at a moment of the history. */
  ghost predicate InFlight(rules: Rules, algo: Algo, h: History, began: nat, c: Call) {
    && began < |h|
    && match c.stage
       case Begun => true
       case Statted(stat) => stat.Some? ==> StatHeld(h, began, c.key, stat.value)
       case Missed(stat) => stat.Some? ==> StatHeld(h, began, c.key, stat.value)
       case Read(_, readAt, content) => ContentHeld(h, began, c.key, readAt, content)
       case Found(_, readAt, content, entry, _) =>
         ContentHeld(h, began, c.key, readAt, content) && Expected(rules, algo, content) == Some(entry)
       case Done(result) => result.Some? ==> HeldDuring(rules, algo, h, began, c.key, result.value)
  }

  /** Nothing that others do disturbs a call. */
  lemma InFlightLater(rules: Rules, algo: Algo, h: History, h': History, began: nat, c: Call)
    requires InFlight(rules, algo, h, began, c) && h <= h'
    ensures InFlight(rules, algo, h', began, c)
  {}

  // ---------- Merging and pruning ----------

  /** The record kept of two: the later one, mine when neither is. */
  function Newer(mine: IndexEntry, candidate: IndexEntry): IndexEntry {
    if Supersedes(candidate, mine) then candidate else mine
  }

  function MergedIndex(index: map<Key, IndexEntry>, other: map<Key, IndexEntry>): map<Key, IndexEntry> {
    map k | k in index.Keys + other.Keys ::
      if k !in index then other[k] else if k !in other then index[k] else Newer(index[k], other[k])
  }

  function MergedEntries(entries: map<Hash, Entry>, other: map<Hash, Entry>): map<Hash, Entry> {
    map h | h in entries.Keys + other.Keys :: if h in entries then entries[h] else other[h]
  }

  predicate Alive(key: Key, live: set<string>) {
    var split := SplitIndexKey(key);
    split.Some? && split.value.0 in live
  }

  function PrunedIndex(index: map<Key, IndexEntry>, live: set<string>): map<Key, IndexEntry> {
    map k | k in index && Alive(k, live) :: index[k]
  }

  function Referenced(index: map<Key, IndexEntry>): set<Hash> {
    set k | k in index :: index[k].md5
  }

  function PrunedEntries(entries: map<Hash, Entry>, index: map<Key, IndexEntry>, keep: set<Hash>): map<Hash, Entry> {
    map h | h in entries && h in Referenced(index) + keep :: entries[h]
  }

  /** What Save should write: the newest of both, less what nothing live refers to. */
  function Saved(mine: CacheFile, stored: Option<CacheFile>, live: Option<set<string>>, keep: set<Hash>): CacheFile {
    var other := if stored.Some? && stored.value.algo == mine.algo then stored.value
      else CacheFile(mine.algo, map[], map[]);
    var index, entries := MergedIndex(mine.index, other.index), MergedEntries(mine.entries, other.entries);
    if live.None? then CacheFile(mine.algo, index, entries)
    else
      var index' := PrunedIndex(index, live.value);
      CacheFile(mine.algo, index', PrunedEntries(entries, index', keep))
  }

  lemma MergeNothing(index: map<Key, IndexEntry>, entries: map<Hash, Entry>)
    ensures MergedIndex(index, map[]) == index
    ensures MergedEntries(entries, map[]) == entries
  {}

  /** Of two records the one first seen later is kept, or of two seen first together the one with the later
      modification time. */
  lemma MergeKeepsNewest(index: map<Key, IndexEntry>, other: map<Key, IndexEntry>, k: Key)
    requires k in index || k in other
    ensures k in MergedIndex(index, other)
    ensures var kept := MergedIndex(index, other)[k];
            && ((k in index && kept == index[k]) || (k in other && kept == other[k]))
            && forall e: IndexEntry | (k in index && e == index[k]) || (k in other && e == other[k]) ::
                 e.seenAt < kept.seenAt || (e.seenAt == kept.seenAt && e.modTime <= kept.modTime)
    ensures k in index && k in other && index[k].seenAt == other[k].seenAt && index[k].modTime == other[k].modTime ==>
      MergedIndex(index, other)[k] == index[k]
  {}

  /** Merging two machines' files gives the same records whichever merges first, but where two
      different records of one source carry the same times. */
  lemma MergeCommutes(index: map<Key, IndexEntry>, other: map<Key, IndexEntry>)
    requires forall k :: k in index && k in other ==>
      index[k] == other[k] || Supersedes(index[k], other[k]) || Supersedes(other[k], index[k])
    ensures MergedIndex(index, other) == MergedIndex(other, index)
  {}

  lemma SaveKeepsClosed(mine: CacheFile, stored: Option<CacheFile>, live: Option<set<string>>, keep: set<Hash>)
    requires Closed(mine.index, mine.entries)
    requires stored.Some? ==> Closed(stored.value.index, stored.value.entries)
    ensures var s := Saved(mine, stored, live, keep); Closed(s.index, s.entries)
  {}

  /** A record is kept for its book's sake: one of the two ids that make its key. */
  lemma AliveMeans(key: Key, live: set<string>)
    ensures Alive(key, live) <==>
      exists b: string, s: string :: b in live && b != "" && s != "" && '/' !in b && key == IndexKey(b, s)
  {
    CutMeans(key);
    forall b: string, s: string | b in live && b != "" && s != "" && '/' !in b && key == IndexKey(b, s)
      ensures Alive(key, live) {
      KeySplitsBack(b, s);
    }
    if Alive(key, live) {
      var split := SplitIndexKey(key).value;
      assert key == IndexKey(split.0, split.1);
    }
  }

  lemma {:induction false} CutMeans(s: string)
    ensures Cut(s).Some? ==> '/' !in Cut(s).value.0 && s == Cut(s).value.0 + "/" + Cut(s).value.1
    ensures Cut(s).None? ==> '/' !in s
  {
    if s != "" {
      assert s == [s[0]] + s[1..];
      if s[0] != '/' {
        CutMeans(s[1..]);
      }
    }
  }

  /** What a save finds to write: mine, and a stored file of the same rules. */
  ghost predicate KnownRecord(mine: CacheFile, stored: Option<CacheFile>, key: Key) {
    key in mine.index || (stored.Some? && stored.value.algo == mine.algo && key in stored.value.index)
  }

  ghost predicate KnownEntry(mine: CacheFile, stored: Option<CacheFile>, h: Hash) {
    h in mine.entries || (stored.Some? && stored.value.algo == mine.algo && h in stored.value.entries)
  }

  /** With the live books known, exactly the known records of a live book's sources are kept; with the
      live books not known, all are. */
  lemma SaveKeepsLiveRecords(mine: CacheFile, stored: Option<CacheFile>, live: set<string>, keep: set<Hash>,
                             b: string, s: string)
    requires b != "" && s != "" && '/' !in b
    ensures IndexKey(b, s) in Saved(mine, stored, Some(live), keep).index <==>
      b in live && KnownRecord(mine, stored, IndexKey(b, s))
    ensures IndexKey(b, s) in Saved(mine, stored, None, keep).index <==> KnownRecord(mine, stored, IndexKey(b, s))
  {
    KeySplitsBack(b, s);
  }

  /** With the live books known, exactly the entries that a live book's record names or that were
      answered this run survive; with the live books not known, all do. */
  lemma SaveKeepsExactlyTheUsed(mine: CacheFile, stored: Option<CacheFile>, live: set<string>, keep: set<Hash>, h: Hash)
    ensures var saved := Saved(mine, stored, Some(live), keep);
            h in saved.entries <==>
              && KnownEntry(mine, stored, h)
              && (h in keep || exists b: string, s: string ::
                    && b in live && b != "" && s != "" && '/' !in b
                    && IndexKey(b, s) in saved.index && saved.index[IndexKey(b, s)].md5 == h)
    ensures h in Saved(mine, stored, None, keep).entries <==> KnownEntry(mine, stored, h)
  {
    var saved := Saved(mine, stored, Some(live), keep);
    if k :| k in saved.index && saved.index[k].md5 == h {
      assert Alive(k, live);
      AliveMeans(k, live);
    }
    if h in Referenced(saved.index) {
      var k :| k in saved.index && saved.index[k].md5 == h;
    }
  }

  /** Saving what was just saved asks for nothing new. */
  lemma SaveIsIdempotent(mine: CacheFile, stored: Option<CacheFile>, live: Option<set<string>>, keep: set<Hash>)
    ensures var s := Saved(mine, stored, live, keep); Saved(s, Some(s), live, keep) == s
  {
    var s := Saved(mine, stored, live, keep);
    assert MergedIndex(s.index, s.index) == s.index;
    assert MergedEntries(s.entries, s.entries) == s.entries;
    if live.Some? {
      assert PrunedIndex(s.index, live.value) == s.index;
      assert PrunedEntries(s.entries, s.index, keep) == s.entries;
    }
  }

  lemma SaveKeepsTrue(rules: Rules, h: History, mine: CacheFile, stored: Option<CacheFile>,
                      live: Option<set<string>>, keep: set<Hash>)
    requires CacheTrue(rules, h, mine)
    requires stored.Some? ==> CacheTrue(rules, h, stored.value)
    ensures CacheTrue(rules, h, Saved(mine, stored, live, keep))
  {}
}
