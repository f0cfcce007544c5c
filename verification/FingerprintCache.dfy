/** The operations of the fingerprint cache (shelf/fingerprint/cache.go) while sources are edited,
    other callers use the same cache and other machines write the same file. */
module FingerprintCache {
  import opened Basics
  import opened RacyWindow
  import opened Fingerprint

  /** The source files, edited at any moment, and all they ever were. */
  class Library {
    var files: Files
    var now: int
    ghost var history: History
    ghost var edits: nat
    ghost var readCount: nat // how often a source was read
    ghost var failures: nat  // injected I/O failures

    ghost predicate Valid() reads this {
      ValidHistory(history) && history != [] && history[|history| - 1] == Moment(files, now)
    }

    twostate predicate Later() reads this {
      && Valid() && old(history) <= history && old(now) <= now
      && old(edits) <= edits && old(readCount) <= readCount && old(failures) <= failures
      && (edits == old(edits) ==> files == old(files))
    }

    constructor (files: Files, now: int)
      requires HonestFiles(files, now)
      ensures Valid() && this.files == files && this.now == now && history == [Moment(files, now)]
    {
      this.files, this.now, history, edits, readCount, failures := files, now, [Moment(files, now)], 0, 0, 0;
    }

    /** Time passes, and somebody may create, edit or remove a source. */
    method Change()
      requires Valid()
      modifies this`files, this`now, this`history, this`edits
      ensures Later()
    {
      var elapsed: nat, key: Key, content: Content, stamp: int, edit: bool, remove: bool :| 0 <= elapsed;
      ghost var before := Moment(files, now);
      now := now + elapsed;
      if edit && remove {
        files := files - {key};
        edits := edits + 1;
      } else if edit && HonestStamp(stamp, now) {
        files := files[key := File(content, stamp, now)];
        edits := edits + 1;
      }
      NextMoment(history, Moment(files, now));
      history := history + [Moment(files, now)];
    }

    method Interfere()
      requires Valid()
      modifies this`files, this`now, this`history, this`edits
      ensures Later()
    {
      var steps: nat :| 0 <= steps;
      while steps > 0
        invariant Later()
      {
        Change();
        steps := steps - 1;
      }
    }

    method Now() returns (t: int)
      requires Valid()
      modifies this`files, this`now, this`history, this`edits
      ensures Later() && t == now
    {
      Interfere();
      t := now;
    }

    method Fault() returns (failed: bool)
      modifies this`failures
      ensures old(failures) <= failures && (failed ==> old(failures) < failures)
    {
      failed := *;
      if failed {
        failures := failures + 1;
      }
    }

    method ContentStat(key: Key) returns (r: Option<FileStat>)
      requires Valid()
      modifies this
      ensures Later() && readCount == old(readCount)
      ensures r.Some? ==> key in files && r.value == FileStat(|files[key].content|, files[key].modTime)
      ensures r.None? && failures == old(failures) ==> key !in files
    {
      Interfere();
      var failed := Fault();
      if failed || key !in files {
        return None;
      }
      return Some(FileStat(|files[key].content|, files[key].modTime));
    }

    method ReadContent(key: Key) returns (r: Option<Content>)
      requires Valid()
      modifies this
      ensures Later() && readCount > old(readCount)
      ensures r.Some? ==> key in files && r.value == files[key].content
      ensures r.None? && failures == old(failures) ==> key !in files
    {
      Interfere();
      readCount := readCount + 1;
      var failed := Fault();
      if failed || key !in files {
        return None;
      }
      return Some(files[key].content);
    }
  }

  /** The stored file; any machine may rewrite it. */
  class Store {
    var file: Option<CacheFile>

    ghost predicate Valid(rules: Rules, lib: Library) reads this, lib`history {
      file.Some? ==> CacheTrue(rules, lib.history, file.value)
    }

    constructor ()
      ensures file == None
    {
      file := None;
    }
  }

  class Cache {
    const store: Store
    const rules: Rules
    const algo: Algo
    var index: map<Key, IndexEntry>
    var entries: map<Hash, Entry>
    var answeredThisRun: set<Hash>

    function Contents(): CacheFile reads this {
      CacheFile(algo, index, entries)
    }

    ghost predicate Valid(lib: Library) reads this, lib, store {
      && lib.Valid() && NoCollisions(rules) && store.Valid(rules, lib)
      && CacheTrue(rules, lib.history, Contents())
    }

    /** Opens the cache: the stored file is taken only when it was built by the same rules. */
    constructor (store: Store, rules: Rules, algo: Algo, readable: bool, lib: Library)
      requires lib.Valid() && NoCollisions(rules) && store.Valid(rules, lib)
      ensures Valid(lib) && this.store == store && this.rules == rules && this.algo == algo
      ensures readable && store.file.Some? && store.file.value.algo == algo ==> Contents() == store.file.value
      ensures !(readable && store.file.Some? && store.file.value.algo == algo) ==> index == map[] && entries == map[]
      ensures answeredThisRun == {}
    {
      this.store, this.rules, this.algo := store, rules, algo;
      index, entries, answeredThisRun := map[], map[], {};
      new;
      if readable && store.file.Some? && store.file.value.algo == algo {
        index, entries := store.file.value.index, store.file.value.entries;
      }
    }

    lemma StillValid(lib: Library, h: History)
      requires lib.Valid() && h <= lib.history && NoCollisions(rules)
      requires CacheTrue(rules, h, Contents())
      requires store.file.Some? ==> CacheTrue(rules, h, store.file.value)
      ensures Valid(lib)
    {
      EditsKeepIndexTrue(rules, h, lib.history, index);
      if store.file.Some? {
        EditsKeepIndexTrue(rules, h, lib.history, store.file.value.index);
      }
    }

    // ---------- The steps of a call ----------

    method Stat(key: Key, lib: Library) returns (stat: Option<FileStat>)
      requires Valid(lib)
      modifies lib
      ensures Valid(lib) && lib.Later() && lib.readCount == old(lib.readCount)
      ensures stat.Some? ==>
        key in lib.files && stat.value == FileStat(|lib.files[key].content|, lib.files[key].modTime)
      ensures stat.None? && lib.failures == old(lib.failures) ==> key !in lib.files
    {
      stat := lib.ContentStat(key);
      StillValid(lib, old(lib.history));
    }

    method LookupByStat(key: Key, stat: FileStat) returns (r: Option<Entry>)
      ensures r ==
        if key in index && index[key].size == stat.size && index[key].modTime == stat.modTime
           && index[key].md5 in entries
        then Some(entries[index[key].md5]) else None
    {
      if key !in index || !Matches(index[key], stat) {
        return None;
      }
      if index[key].md5 !in entries {
        return None;
      }
      return Some(entries[index[key].md5]);
    }

    /** What a lookup by an earlier stat answers was right at some moment since. */
    lemma LookupIsHeld(lib: Library, from: int, key: Key, stat: FileStat)
      requires Valid(lib) && StatHeld(lib.history, from, key, stat)
      requires key in index && Matches(index[key], stat) && index[key].md5 in entries
      ensures HeldDuring(rules, algo, lib.history, from, key, entries[index[key].md5])
    {
      var h := lib.history;
      assert RecordTrue(rules, h, key, index[key]);
      var i :| 0 <= from <= i < |h| && key in h[i].files
        && stat == FileStat(|h[i].files[key].content|, h[i].files[key].modTime);
      var t := MatchingStatNamesContent(rules, h, key, index[key], i);
      assert h[t] == h[t];
    }

    /** The content, and a moment before it was read. */
    method ReadContent(key: Key, lib: Library) returns (readAt: int, content: Option<Content>)
      requires Valid(lib)
      modifies lib
      ensures Valid(lib) && lib.Later() && old(lib.now) <= readAt <= lib.now && lib.readCount > old(lib.readCount)
      ensures content.Some? ==> key in lib.files && content.value == lib.files[key].content
      ensures content.None? && lib.failures == old(lib.failures) ==> key !in lib.files
    {
      readAt := lib.Now();
      content := lib.ReadContent(key);
      StillValid(lib, old(lib.history));
    }

    method LookupByContent(md5Hash: Hash) returns (r: Option<Entry>)
      ensures r == if md5Hash in entries then Some(entries[md5Hash]) else None
    {
      if md5Hash !in entries {
        return None;
      }
      return Some(entries[md5Hash]);
    }

    /** The fingerprint of content, the one already known for such content unless forced. */
    method FingerprintOf(content: Content, force: bool, lib: Library) returns (entry: Option<Entry>, known: bool)
      requires Valid(lib)
      ensures entry == Expected(rules, algo, content)
      ensures known <==> !force && rules.md5(content) in entries
    {
      if !force {
        entry := LookupByContent(rules.md5(content));
        if entry.Some? {
          return entry, true;
        }
      }
      entry := rules.build(algo, content);
      if entry.Some? && entry.value.sketch == "" {
        entry := None;
      }
      known := false;
    }

    /** Records a reading: the fingerprint under its hash, and the source's stat if it was settled
        before the content was read. Others may have used the cache since the fingerprint was found. */
    method Record(key: Key, stat: Option<FileStat>, readAt: int, content: Content, entry: Entry, known: bool,
                  lib: Library)
      requires Valid(lib) && Expected(rules, algo, content) == Some(entry)
      requires ReadSince(rules, lib.history, key, readAt, rules.md5(content))
      modifies this
      ensures Valid(lib)
      ensures entries == if known then old(entries) else old(entries)[rules.md5(content) := entry]
      ensures answeredThisRun == old(answeredThisRun) + {rules.md5(content)}
      ensures stat.None? || !Settled(stat.value.modTime, readAt) ==> index == old(index)
      ensures stat.Some? && Settled(stat.value.modTime, readAt) ==>
        && key in index && Matches(index[key], stat.value) && index[key].md5 == rules.md5(content)
        && index == old(index)[key := index[key]]
        // An unchanged observation keeps its first date.
        && (if key in old(index) && old(index)[key] == index[key].(seenAt := old(index)[key].seenAt)
            then index[key] == old(index)[key]
            else index[key].seenAt == readAt)
      // A closed cache stays so unless a known fingerprint was pruned since it was found.
      ensures Closed(old(index), old(entries)) ==>
        (Closed(index, entries) <==>
           (known && stat.Some? && Settled(stat.value.modTime, readAt) ==> rules.md5(content) in old(entries)))
    {
      var md5Hash := rules.md5(content);
      if !known {
        entries := entries[md5Hash := entry];
      }
      answeredThisRun := answeredThisRun + {md5Hash};
      if stat.None? || !Settled(stat.value.modTime, readAt) {
        return;
      }
      var observed := IndexEntry(stat.value.size, stat.value.modTime, md5Hash, readAt);
      if key in index && EqualIgnoringSeenAt(index[key], observed) {
        observed := observed.(seenAt := index[key].seenAt);
        assert RecordTrue(rules, lib.history, key, index[key]);
      }
      ghost var before := index;
      index := index[key := observed];
      forall k | k in index ensures RecordTrue(rules, lib.history, k, index[k]) {
        if k != key {
          assert RecordTrue(rules, lib.history, k, before[k]);
        }
      }
    }

    /** The next step of a call, between two holds of the lock. */
    method Step(c: Call, ghost began: nat, lib: Library) returns (c': Call)
      requires Valid(lib) && InFlight(rules, algo, lib.history, began, c)
      modifies this, lib
      ensures Valid(lib) && lib.Later()
      ensures InFlight(rules, algo, lib.history, began, c') && c'.key == c.key
      ensures answeredThisRun >= old(answeredThisRun)
      ensures !c.stage.Found? ==> Contents() == old(Contents()) && answeredThisRun == old(answeredThisRun)
      ensures c.stage.Begun? ==> c'.stage.Statted?
      ensures c.stage.Statted? ==>
        var e := if c.key in index then Some(index[c.key]) else None;
        c'.stage == if !c.force && c.stage.stat.Some? && e.Some? && e.value.size == c.stage.stat.value.size
                       && e.value.modTime == c.stage.stat.value.modTime && e.value.md5 in entries
                    then Done(Some(entries[e.value.md5])) else Missed(c.stage.stat)
      ensures c.stage.Missed? ==> c'.stage == Done(None) || (c'.stage.Read? && c'.stage.stat == c.stage.stat)
      ensures c.stage.Read? && Expected(rules, algo, c.stage.content).None? ==> c'.stage == Done(None)
      ensures c.stage.Done? ==> c' == c
      ensures c.stage.Read? && Expected(rules, algo, c.stage.content).Some? ==>
        c'.stage == Found(c.stage.stat, c.stage.readAt, c.stage.content, Expected(rules, algo, c.stage.content).value,
                          !c.force && rules.md5(c.stage.content) in entries)
      ensures c.stage.Found? ==>
        c'.stage == Done(Some(c.stage.entry)) && (Closed(old(index), old(entries)) ==>
          (Closed(index, entries) <==>
             (c.stage.known && c.stage.stat.Some? && Settled(c.stage.stat.value.modTime, c.stage.readAt) ==>
                rules.md5(c.stage.content) in old(entries))))
    {
      match c.stage {
        case Begun =>
          var stat := Stat(c.key, lib);
          assert stat.Some? ==> StatHeld(lib.history, began, c.key, stat.value) by {
            assert lib.history[|lib.history| - 1] == Moment(lib.files, lib.now);
          }
          return c.(stage := Statted(stat));
        case Statted(stat) =>
          if stat.Some? && !c.force {
            var r := LookupByStat(c.key, stat.value);
            if r.Some? {
              LookupIsHeld(lib, began, c.key, stat.value);
              return c.(stage := Done(r));
            }
          }
          return c.(stage := Missed(stat));
        case Missed(stat) =>
          var readAt, content := ReadContent(c.key, lib);
          if content.None? {
            return c.(stage := Done(None));
          }
          assert lib.history[|lib.history| - 1] == Moment(lib.files, lib.now);
          return c.(stage := Read(stat, readAt, content.value));
        case Read(stat, readAt, content) =>
          var entry, known := FingerprintOf(content, c.force, lib);
          return c.(stage := if entry.None? then Done(None) else Found(stat, readAt, content, entry.value, known));
        case Found(stat, readAt, content, entry, known) =>
          ReadingHeld(lib, began, c.key, readAt, content, entry);
          Record(c.key, stat, readAt, content, entry, known, lib);
          return c.(stage := Done(Some(entry)));
        case Done(_) =>
          return c;
      }
    }

    lemma ReadingHeld(lib: Library, from: int, key: Key, readAt: int, content: Content, entry: Entry)
      requires ContentHeld(lib.history, from, key, readAt, content) && Expected(rules, algo, content) == Some(entry)
      ensures ReadSince(rules, lib.history, key, readAt, rules.md5(content))
      ensures HeldDuring(rules, algo, lib.history, from, key, entry)
    {
      var h := lib.history;
      var i :| 0 <= from <= i < |h| && key in h[i].files && readAt <= h[i].now && h[i].files[key].content == content;
      assert ReadIn(rules, h[i], key, readAt, rules.md5(content));
    }

    // ---------- A call by itself ----------

    /** Whether a settled record answers for the source as it is. */
    ghost predicate Known(files: Files, key: Key) reads this {
      && key in files && key in index && index[key].md5 in entries
      && Matches(index[key], FileStat(|files[key].content|, files[key].modTime))
    }

    /** Resolve, and Rebuild when forced, with no other caller. The answer is the fingerprint of
        content that the source held at some moment of the call, even when it was not opened. */
    method Resolve(key: Key, force: bool, lib: Library) returns (r: Option<Entry>)
      requires Valid(lib)
      modifies this, lib
      ensures Valid(lib) && lib.Later()
      ensures r.Some? ==> HeldDuring(rules, algo, lib.history, |old(lib.history)| - 1, key, r.value)
      ensures Closed(old(index), old(entries)) ==> Closed(index, entries)
      ensures answeredThisRun >= old(answeredThisRun)
      ensures force ==> lib.readCount > old(lib.readCount)
      // A call that nothing disturbs answers whenever there is an answer.
      ensures lib.edits == old(lib.edits) && lib.failures == old(lib.failures) ==>
        && r == (if key in lib.files then Expected(rules, algo, lib.files[key].content) else None)
        && (!force && old(Known(lib.files, key)) ==> lib.readCount == old(lib.readCount) && Known(lib.files, key))
        && (r.Some? && Settled(lib.files[key].modTime, old(lib.now)) ==> Known(lib.files, key))
    {
      var stat := Stat(key, lib);
      if stat.Some? && !force {
        r := LookupByStat(key, stat.value);
        if r.Some? {
          assert lib.history[|lib.history| - 1] == Moment(lib.files, lib.now);
          LookupIsHeld(lib, |lib.history| - 1, key, stat.value);
          return;
        }
      }
      r := Reread(key, force, stat, lib);
    }

    /** The answer when no record gives it; the record made of it names its stat, if settled. */
    method Reread(key: Key, force: bool, stat: Option<FileStat>, lib: Library) returns (r: Option<Entry>)
      requires Valid(lib)
      modifies this, lib
      ensures Valid(lib) && lib.Later() && lib.readCount > old(lib.readCount)
      ensures r.Some? ==> HeldDuring(rules, algo, lib.history, |old(lib.history)| - 1, key, r.value)
      ensures Closed(old(index), old(entries)) ==> Closed(index, entries)
      ensures answeredThisRun >= old(answeredThisRun)
      ensures lib.edits == old(lib.edits) && lib.failures == old(lib.failures) ==>
        && r == (if key in lib.files then Expected(rules, algo, lib.files[key].content) else None)
        && (r.Some? && stat.Some? && Settled(stat.value.modTime, old(lib.now)) ==>
              key in index && Matches(index[key], stat.value) && index[key].md5 in entries)
    {
      var readAt, content := ReadContent(key, lib);
      if content.None? {
        return None;
      }
      var known;
      r, known := FingerprintOf(content.value, force, lib);
      if r.None? {
        return None;
      }
      assert lib.history[|lib.history| - 1] == Moment(lib.files, lib.now);
      ReadingHeld(lib, |lib.history| - 1, key, readAt, content.value, r.value);
      Record(key, stat, readAt, content.value, r.value, known, lib);
    }

    // ---------- Saving ----------

    method MergeIndex(mine: map<Key, IndexEntry>, other: map<Key, IndexEntry>) returns (merged: map<Key, IndexEntry>)
      ensures merged == MergedIndex(mine, other)
    {
      merged := mine;
      var rest := other.Keys;
      while rest != {}
        invariant rest <= other.Keys
        invariant merged == MergedIndex(mine, map k | k in other && k !in rest :: other[k])
      {
        var key :| key in rest;
        rest := rest - {key};
        if key in merged && !Supersedes(other[key], merged[key]) {
          continue;
        }
        merged := merged[key := other[key]];
      }
      assert (map k | k in other && k !in rest :: other[k]) == other;
    }

    method MergeEntries(mine: map<Hash, Entry>, other: map<Hash, Entry>) returns (merged: map<Hash, Entry>)
      ensures merged == MergedEntries(mine, other)
    {
      merged := mine;
      var rest := other.Keys;
      while rest != {}
        invariant rest <= other.Keys
        invariant merged == MergedEntries(mine, map h | h in other && h !in rest :: other[h])
      {
        var h :| h in rest;
        rest := rest - {h};
        if h !in merged {
          merged := merged[h := other[h]];
        }
      }
      assert (map h | h in other && h !in rest :: other[h]) == other;
    }

    method PruneCache(index: map<Key, IndexEntry>, entries: map<Hash, Entry>, live: set<string>, keep: set<Hash>)
      returns (index': map<Key, IndexEntry>, entries': map<Hash, Entry>)
      ensures index' == PrunedIndex(index, live)
      ensures entries' == PrunedEntries(entries, index', keep)
    {
      ghost var gone: set<Key> := {};
      index', entries' := index, entries;
      var referenced, rest := keep, index.Keys;
      while rest != {}
        invariant rest <= index.Keys
        invariant index' == map k | k in index && (k in rest || Alive(k, live)) :: index[k]
        invariant forall h :: h in referenced <==>
          h in keep || exists k :: k in index && k !in rest && Alive(k, live) && index[k].md5 == h
      {
        var key :| key in rest;
        rest := rest - {key};
        if !Alive(key, live) {
          index' := index' - {key};
        } else {
          referenced := referenced + {index[key].md5};
        }
      }
      assert referenced == Referenced(index') + keep;
      var hashes := entries.Keys;
      while hashes != {}
        invariant hashes <= entries.Keys
        invariant entries' == map h | h in entries && (h in hashes || h in referenced) :: entries[h]
      {
        var h :| h in hashes;
        hashes := hashes - {h};
        if h !in referenced {
          entries' := entries' - {h};
        }
      }
    }

    /** What to write, and the stored file it was made from, if that could be read and was built
        by the same rules. */
    method Combine(live: Option<set<string>>, lib: Library) returns (data: CacheFile, stored: Option<CacheFile>)
      requires Valid(lib)
      ensures stored == None || stored == store.file
      ensures data == Saved(Contents(), stored, live, answeredThisRun) && data.algo == algo
      ensures CacheTrue(rules, lib.history, data)
    {
      var newIndex, newEntries := index, entries;
      var readable: bool := *;
      stored := None;
      if readable && store.file.Some? && store.file.value.algo == algo {
        stored := store.file;
        newIndex := MergeIndex(newIndex, stored.value.index);
        newEntries := MergeEntries(newEntries, stored.value.entries);
      }
      if live.Some? {
        newIndex, newEntries := PruneCache(newIndex, newEntries, live.value, answeredThisRun);
      }
      data := CacheFile(algo, newIndex, newEntries);
      SaveKeepsTrue(rules, lib.history, Contents(), stored, live, answeredThisRun);
      MergeNothing(index, entries);
    }

    /** Saves what this cache and the stored file know between them. `live` is the books known to
        be alive, when that list is complete; `meanwhile` is what another machine writes between
        this one's reading and writing, if it does; `stored` is what was read. */
    method Save(live: Option<set<string>>, meanwhile: Option<CacheFile>, lib: Library)
      returns (ok: bool, wrote: bool, stored: Option<CacheFile>)
      requires Valid(lib)
      requires meanwhile.Some? ==> CacheTrue(rules, lib.history, meanwhile.value)
      modifies this`index, this`entries, store
      ensures Valid(lib)
      ensures stored == None || stored == old(store.file)
      ensures ok ==> Contents() == Saved(old(Contents()), stored, live, answeredThisRun)
      ensures !ok ==> Contents() == old(Contents()) && !wrote
      ensures wrote ==> store.file == Some(Contents())
      ensures !wrote ==> store.file == old(store.file) || (meanwhile.Some? && store.file == meanwhile)
      ensures ok ==> (wrote <==> stored != Some(Contents()))
      ensures ok && meanwhile.None? ==> store.file == Some(Contents())
    {
      ok, wrote, stored := false, false, None;
      var writable: bool := *;
      if !writable {
        return;
      }
      var data;
      data, stored := Combine(live, lib);
      if meanwhile.Some? {
        store.file := meanwhile;
      }
      if stored != Some(data) {
        var failed: bool := *;
        if failed {
          return;
        }
        store.file := Some(data);
        wrote := true;
      }
      index, entries := data.index, data.entries;
      ok := true;
    }

    /** Saving twice with nothing changed: the second finds nothing to write. */
    method SaveTwice(live: Option<set<string>>, lib: Library)
      returns (ok: bool, wrote: bool, ghost stored: Option<CacheFile>)
      requires Valid(lib)
      modifies this`index, this`entries, store
      ensures Valid(lib)
      ensures ok && stored.Some? ==> !wrote
    {
      var saved, first;
      saved, first, stored := Save(live, None, lib);
      if !saved {
        return false, false, None;
      }
      ghost var before := stored;
      SaveIsIdempotent(old(Contents()), before, live, answeredThisRun);
      ok, wrote, stored := Save(live, None, lib);
    }
  }

  /** A save that prunes a fingerprint between its being found and the reading's being recorded leaves
      an indexed hash without its fingerprint: the call has its answer, but the cache is not closed. */
  method PruneBetween(cache: Cache, c: Call, ghost began: nat, live: set<string>, lib: Library)
    returns (saved: bool, done: Call)
    requires cache.Valid(lib) && InFlight(cache.rules, cache.algo, lib.history, began, c)
    requires Closed(cache.index, cache.entries) && !c.force && c.stage.Read? && c.stage.stat.Some?
    requires Settled(c.stage.stat.value.modTime, c.stage.readAt)
    requires var h := cache.rules.md5(c.stage.content);
             && h in cache.entries && h !in cache.answeredThisRun
             && (forall k <- cache.index :: Alive(k, live) ==> cache.index[k].md5 != h)
             && (cache.store.file.Some? ==>
                   && Closed(cache.store.file.value.index, cache.store.file.value.entries)
                   && forall k <- cache.store.file.value.index ::
                     Alive(k, live) ==> cache.store.file.value.index[k].md5 != h)
    modifies cache, cache.store, lib
    ensures cache.Valid(lib)
    ensures saved ==> done.stage.Done? && done.stage.result.Some? && !Closed(cache.index, cache.entries)
  {
    ghost var h := cache.rules.md5(c.stage.content);
    done := cache.Step(c, began, lib);
    var wrote, stored;
    saved, wrote, stored := cache.Save(Some(live), None, lib);
    if saved {
      SaveKeepsClosed(old(cache.Contents()), stored, Some(live), cache.answeredThisRun);
      assert h !in cache.entries;
      done := cache.Step(done, began, lib);
    }
  }

  /** A machine: its cache and the calls in progress on it. */
  class Machine {
    var cache: Cache
    var calls: seq<Call>
    ghost var began: seq<nat> // when each call began, in the history

    ghost predicate Valid(lib: Library) reads this, cache, cache.store, lib {
      cache.Valid(lib) && AllInFlight(lib.history)
    }

    ghost predicate AllInFlight(h: History) reads this, cache {
      |began| == |calls| && forall i :: 0 <= i < |calls| ==> InFlight(cache.rules, cache.algo, h, began[i], calls[i])
    }

    /** Every call that ended with an answer was right at some moment of it. */
    ghost predicate AnsweredRight(h: History) reads this, cache {
      |began| == |calls| && forall i :: 0 <= i < |calls| && calls[i].stage.Done? && calls[i].stage.result.Some? ==>
        HeldDuring(cache.rules, cache.algo, h, began[i], calls[i].key, calls[i].stage.result.value)
    }

    constructor (store: Store, rules: Rules, algo: Algo, lib: Library)
      requires lib.Valid() && NoCollisions(rules) && store.Valid(rules, lib)
      ensures Valid(lib) && fresh(cache) && cache.store == store && cache.rules == rules
    {
      cache := new Cache(store, rules, algo, true, lib);
      calls, began := [], [];
    }

    lemma StillValid(lib: Library, h: History)
      requires lib.Valid() && h <= lib.history && NoCollisions(cache.rules)
      requires CacheTrue(cache.rules, h, cache.Contents())
      requires cache.store.file.Some? ==> CacheTrue(cache.rules, h, cache.store.file.value)
      requires AllInFlight(h)
      ensures Valid(lib)
    {
      cache.StillValid(lib, h);
      CallsStillInFlight(h, lib.history);
    }

    lemma CallsStillInFlight(h: History, h': History)
      requires AllInFlight(h) && h <= h'
      ensures AllInFlight(h')
    {}

    /** One more call, or the next step of one in progress. */
    method StepCall(i: nat, key: Key, force: bool, lib: Library)
      requires Valid(lib)
      modifies this`calls, this`began, cache, lib
      ensures Valid(lib) && lib.Later()
      ensures if i < |old(calls)| then |calls| == |old(calls)| && began == old(began) else |calls| == |old(calls)| + 1
    {
      if i >= |calls| {
        calls, began := calls + [Call(key, force, Begun)], began + [|lib.history| - 1];
        return;
      }
      ghost var h := lib.history;
      var c := cache.Step(calls[i], began[i], lib);
      CallsStillInFlight(h, lib.history);
      calls := calls[i := c];
    }

    lemma AnswersAreRight(lib: Library)
      requires Valid(lib)
      ensures AnsweredRight(lib.history)
    {}

    /** The process ends, its calls with it, and a new one opens the cache. */
    method Restart(readable: bool, lib: Library)
      requires Valid(lib)
      modifies this
      ensures Valid(lib) && fresh(cache) && cache.store == old(cache.store) && cache.rules == old(cache.rules)
    {
      cache := new Cache(cache.store, cache.rules, cache.algo, readable, lib);
      calls, began := [], [];
    }

    /** Anything one machine may do next, while the other holds what it holds. */
    method OneStep(theirs: Machine, lib: Library)
      requires Valid(lib) && theirs.Valid(lib) && Apart(theirs)
      modifies this, cache, cache.store, lib
      ensures Valid(lib) && theirs.Valid(lib) && Apart(theirs) && cache.store == old(cache.store)
      ensures cache.rules == old(cache.rules)
      ensures cache == old(cache) || fresh(cache)
    {
      var step: nat, i: nat :| 0 <= step && 0 <= i;
      var key: Key, flag: bool, live: Option<set<string>> := *, *, *;
      ghost var h := lib.history;
      if step == 0 {
        Restart(flag, lib);
      } else if step == 1 {
        StepCall(i, key, flag, lib);
        theirs.StillValid(lib, h);
      } else if step == 2 {
        lib.Interfere();
        StillValid(lib, h);
        theirs.StillValid(lib, h);
      } else {
        var meanwhile := if flag then Some(theirs.cache.Contents()) else None;
        var ok, wrote, stored := cache.Save(live, meanwhile, lib);
      }
    }

    ghost predicate Apart(other: Machine) reads this, other {
      this != other && cache != other.cache && cache.store == other.cache.store && cache.rules == other.cache.rules
    }
  }

  method TwoMachines(store: Store, rules: Rules, algo: Algo, otherAlgo: Algo, lib: Library)
    returns (mine: Machine, theirs: Machine)
    requires lib.Valid() && NoCollisions(rules) && store.Valid(rules, lib)
    ensures mine.Valid(lib) && theirs.Valid(lib) && mine.Apart(theirs) && mine.cache.store == store
    ensures fresh(mine) && fresh(theirs) && fresh(mine.cache) && fresh(theirs.cache)
  {
    mine := new Machine(store, rules, algo, lib);
    theirs := new Machine(store, rules, otherAlgo, lib);
  }

  /** The life of two machines sharing one stored file: any number of calls at once on each, saving at
      any moment, restarts, and edits of the sources throughout. Every answer given is right at some
      moment of its call. */
  method AnyRun(store: Store, rules: Rules, algo: Algo, otherAlgo: Algo, lib: Library)
    returns (mine: Machine, theirs: Machine)
    requires lib.Valid() && NoCollisions(rules) && store.Valid(rules, lib)
    modifies store, lib
    ensures mine.AnsweredRight(lib.history) && theirs.AnsweredRight(lib.history)
  {
    mine, theirs := TwoMachines(store, rules, algo, otherAlgo, lib);
    var steps: nat :| 0 <= steps;
    while steps > 0
      invariant mine.Valid(lib) && theirs.Valid(lib) && mine.Apart(theirs) && mine.cache.store == store
      invariant fresh(mine) && fresh(theirs) && fresh(mine.cache) && fresh(theirs.cache)
    {
      mine.OneStep(theirs, lib);
      mine, theirs := theirs, mine;
      steps := steps - 1;
    }
    mine.AnswersAreRight(lib);
    theirs.AnswersAreRight(lib);
  }
}
