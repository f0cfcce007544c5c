/** Moving the reading time that a reader collected under its own keys to the books they turn out
    to be (internal/readingstats/readingstats.go). */
module ReadingStats {
  import opened Basics

  type Days = map<string, int>

  datatype Document = Document(version: int, shelves: map<string, Days>)

  const MAX_SECONDS_PER_DAY: int := 86400

  /** What parsing leaves: every day's seconds are positive and no more than a day has. */
  predicate WithinCap(days: Days) {
    forall date <- days :: 0 < days[date] <= MAX_SECONDS_PER_DAY
  }

  ghost predicate WellFormed(shelves: map<string, Days>) {
    forall key <- shelves :: WithinCap(shelves[key])
  }

  /** Which book of the shelf a reader's book is, and how names are trimmed. */
  datatype Resolver = Resolver(reader: string, resolve: string -> Option<string>, trim: string -> string) {
    function Prefix(): string {
      reader + "/"
    }

    /** Where a key's days go, if anywhere. */
    function Target(key: string): Option<string> {
      if !(Prefix() < key) then None
      else match resolve(key[|Prefix()|..])
        case None => None
        case Some(name) => if trim(name) == "" || trim(name) == reader then None else Some(trim(name))
    }

    /** The keys that move, each with where to. */
    function Moves(doc: Document): Moves {
      map key | key in doc.shelves && Target(key).Some? :: Target(key).value
    }
  }

  /** A reader's key is its name, a slash and an id; it moves where the id is known, by a name that is
      neither blank nor the reader itself. */
  lemma TargetMeans(r: Resolver, key: string, to: string)
    ensures r.Target(key) == Some(to) <==>
      exists id: string {:trigger r.resolve(id)} ::
        && id != "" && key == r.reader + "/" + id && r.resolve(id).Some? && to == r.trim(r.resolve(id).value)
        && to != "" && to != r.reader
  {
    if r.Target(key) == Some(to) {
      var id := key[|r.reader| + 1..];
      assert key == r.reader + "/" + id && r.resolve(id).Some?;
    }
    forall id: string | id != "" && key == r.reader + "/" + id ensures key[|r.Prefix()|..] == id && r.Prefix() < key {}
  }

  type Moves = map<string, string>

  /** No key moves to another key that moves. */
  ghost predicate NoChains(moves: Moves) {
    forall key <- moves :: moves[key] == key || moves[key] !in moves
  }

  function At(days: Days, date: string): int {
    if date in days then days[date] else 0
  }

  function DaysOf(shelves: map<string, Days>, key: string): Days {
    if key in shelves then shelves[key] else map[]
  }

  function Capped(n: int): (c: int)
    ensures c <= n && c <= 86400 && (c == n || c == 86400)
  {
    if n < MAX_SECONDS_PER_DAY then n else MAX_SECONDS_PER_DAY
  }

  /** One collection of days on top of another. */
  function Added(days: Days, more: Days): Days {
    map date | date in days.Keys + more.Keys :: if date in more then Capped(At(days, date) + more[date]) else days[date]
  }

  /** One key moved, in a document as left by the keys before it. */
  function MoveKey(before: map<string, Days>, key: string, target: string, days: Days): map<string, Days> {
    before[target := Added(DaysOf(before, target), days)] - {key}
  }

  function MoveKeys(moves: Moves, shelves: map<string, Days>, order: seq<string>): map<string, Days>
    requires forall key <- order :: key in moves && key in shelves
  {
    if order == [] then shelves
    else
      var last := |order| - 1;
      MoveKey(MoveKeys(moves, shelves, order[..last]), order[last], moves[order[last]], shelves[order[last]])
  }

  ghost predicate OrderOf(order: seq<string>, keys: set<string>) {
    && (forall key :: key in order <==> key in keys)
    && forall i, j :: 0 <= i < j < |order| ==> order[i] != order[j]
  }

  // ---------- What the order cannot change ----------

  /** The seconds of one day over several keys. */
  ghost function Total(shelves: map<string, Days>, keys: set<string>, date: string): int
    requires keys <= shelves.Keys
  {
    if keys == {} then 0
    else
      var key :| key in keys;
      At(shelves[key], date) + Total(shelves, keys - {key}, date)
  }

  lemma {:induction false} TotalWithout(shelves: map<string, Days>, keys: set<string>, key: string, date: string)
    requires keys <= shelves.Keys && key in keys
    ensures Total(shelves, keys, date) == At(shelves[key], date) + Total(shelves, keys - {key}, date)
    decreases keys
  {
    var first :| first in keys
      && Total(shelves, keys, date) == At(shelves[first], date) + Total(shelves, keys - {first}, date);
    if first != key {
      TotalWithout(shelves, keys - {first}, key, date);
      TotalWithout(shelves, keys - {key}, first, date);
      assert keys - {first} - {key} == keys - {key} - {first};
    }
  }

  lemma {:induction false} TotalIsNatural(shelves: map<string, Days>, keys: set<string>, date: string)
    requires WellFormed(shelves) && keys <= shelves.Keys
    ensures Total(shelves, keys, date) >= 0
    decreases keys
  {
    if keys != {} {
      var key :| key in keys
        && Total(shelves, keys, date) == At(shelves[key], date) + Total(shelves, keys - {key}, date);
      assert WithinCap(shelves[key]);
      assert At(shelves[key], date) >= 0;
      TotalIsNatural(shelves, keys - {key}, date);
    }
  }

  /** Those of the keys that go to a book; a key that goes to itself is only taken away. */
  function Sources(moves: Moves, keys: set<string>, name: string): set<string>
    requires keys <= moves.Keys
  {
    set key | key in keys && moves[key] == name && key != name
  }

  ghost predicate Movable(moves: Moves, shelves: map<string, Days>, keys: set<string>) {
    WellFormed(shelves) && NoChains(moves) && moves.Keys <= shelves.Keys && keys <= moves.Keys
  }

  /** What one day of a book holds, its own and its sources' seconds. */
  ghost function Sum(moves: Moves, shelves: map<string, Days>, keys: set<string>, name: string, date: string): int
    requires Movable(moves, shelves, keys)
  {
    At(DaysOf(shelves, name), date) + Total(shelves, Sources(moves, keys, name), date)
  }

  ghost predicate Holds(days: Days, date: string, sum: int) {
    At(days, date) == Capped(sum) && (date in days <==> sum > 0)
  }

  /** The keys are gone; the books they went to, and all else, remain. */
  ghost predicate NamesMoved(moves: Moves, shelves: map<string, Days>, keys: set<string>, after: map<string, Days>)
    requires Movable(moves, shelves, keys)
  {
    forall name :: name in after <==> (name in shelves && name !in keys) || Sources(moves, keys, name) != {}
  }

  /** Each day of what is there holds what it and its sources had, up to a day's length. */
  ghost predicate DaysMoved(moves: Moves, shelves: map<string, Days>, keys: set<string>, after: map<string, Days>)
    requires Movable(moves, shelves, keys)
  {
    forall name, date: string {:trigger Sum(moves, shelves, keys, name, date)} |
      name in after :: Holds(after[name], date, Sum(moves, shelves, keys, name, date))
  }

  lemma NextNames(moves: Moves, shelves: map<string, Days>, keys: set<string>, key: string, before: map<string, Days>)
    requires Movable(moves, shelves, keys) && key in moves && key !in keys
    requires NamesMoved(moves, shelves, keys, before)
    ensures NamesMoved(moves, shelves, keys + {key}, MoveKey(before, key, moves[key], shelves[key]))
  {
    forall name
      ensures Sources(moves, keys + {key}, name) ==
        Sources(moves, keys, name) + if name == moves[key] && name != key then {key} else {}
    {}
    assert Sources(moves, keys, key) == {};
  }

  lemma NextDays(moves: Moves, shelves: map<string, Days>, keys: set<string>, key: string, before: map<string, Days>)
    requires Movable(moves, shelves, keys) && key in moves && key !in keys
    requires NamesMoved(moves, shelves, keys, before) && DaysMoved(moves, shelves, keys, before)
    ensures DaysMoved(moves, shelves, keys + {key}, MoveKey(before, key, moves[key], shelves[key]))
  {
    var after := MoveKey(before, key, moves[key], shelves[key]);
    forall name, date: string | name in after
      ensures Holds(after[name], date, Sum(moves, shelves, keys + {key}, name, date)) {
      var sum := Sum(moves, shelves, keys, name, date);
      if name == moves[key] {
        TargetSum(moves, shelves, keys, key, date);
        AddedHolds(DaysOf(before, name), shelves[key], date, sum);
      } else {
        assert Sources(moves, keys + {key}, name) == Sources(moves, keys, name);
      }
    }
  }

  lemma TargetSum(moves: Moves, shelves: map<string, Days>, keys: set<string>, key: string, date: string)
    requires Movable(moves, shelves, keys) && key in moves && key !in keys && moves[key] != key
    ensures Sum(moves, shelves, keys + {key}, moves[key], date) ==
      Sum(moves, shelves, keys, moves[key], date) + At(shelves[key], date)
    ensures Sum(moves, shelves, keys, moves[key], date) >= 0
    ensures moves[key] !in shelves && Sources(moves, keys, moves[key]) == {} ==>
      Sum(moves, shelves, keys, moves[key], date) == 0
  {
    var was, now := Sources(moves, keys, moves[key]), Sources(moves, keys + {key}, moves[key]);
    assert now - {key} == was;
    TotalWithout(shelves, now, key, date);
    TotalIsNatural(shelves, was, date);
    if moves[key] in shelves {
      assert WithinCap(shelves[moves[key]]);
    }
  }

  lemma AddedHolds(days: Days, more: Days, date: string, sum: int)
    requires Holds(days, date, sum) && WithinCap(more) && sum >= 0
    ensures Holds(Added(days, more), date, sum + At(more, date))
  {}

  lemma NextKey(moves: Moves, shelves: map<string, Days>, keys: set<string>, key: string, before: map<string, Days>)
    requires Movable(moves, shelves, keys) && key in keys
    requires NamesMoved(moves, shelves, keys - {key}, before) && DaysMoved(moves, shelves, keys - {key}, before)
    ensures NamesMoved(moves, shelves, keys, MoveKey(before, key, moves[key], shelves[key]))
    ensures DaysMoved(moves, shelves, keys, MoveKey(before, key, moves[key], shelves[key]))
  {
    assert keys - {key} + {key} == keys;
    NextNames(moves, shelves, keys - {key}, key, before);
    NextDays(moves, shelves, keys - {key}, key, before);
  }

  lemma {:induction false} MoveKeysMoves(moves: Moves, shelves: map<string, Days>, order: seq<string>,
                                         keys: set<string>)
    requires Movable(moves, shelves, keys) && OrderOf(order, keys)
    ensures NamesMoved(moves, shelves, keys, MoveKeys(moves, shelves, order))
    ensures DaysMoved(moves, shelves, keys, MoveKeys(moves, shelves, order))
  {
    if order == [] {
      assert keys == {};
      NothingMoved(moves, shelves);
    } else {
      var key, front := order[|order| - 1], order[..|order| - 1];
      FrontOfOrder(order, keys);
      MoveKeysMoves(moves, shelves, front, keys - {key});
      NextKey(moves, shelves, keys, key, MoveKeys(moves, shelves, front));
    }
  }

  lemma FrontOfOrder(order: seq<string>, keys: set<string>)
    requires order != [] && OrderOf(order, keys)
    ensures var key := order[|order| - 1]; key in keys && OrderOf(order[..|order| - 1], keys - {key})
  {}

  lemma NothingMoved(moves: Moves, shelves: map<string, Days>)
    requires Movable(moves, shelves, {})
    ensures NamesMoved(moves, shelves, {}, shelves) && DaysMoved(moves, shelves, {}, shelves)
  {}

  /** What moved is determined. */
  lemma MovedIsUnique(moves: Moves, shelves: map<string, Days>, keys: set<string>, one: map<string, Days>,
                      other: map<string, Days>)
    requires Movable(moves, shelves, keys)
    requires NamesMoved(moves, shelves, keys, one) && DaysMoved(moves, shelves, keys, one)
    requires NamesMoved(moves, shelves, keys, other) && DaysMoved(moves, shelves, keys, other)
    ensures one == other
  {
    forall name | name in one ensures name in other && one[name] == other[name] {
      forall date: string ensures date in one[name] <==> date in other[name]
        ensures At(one[name], date) == At(other[name], date) {
        var sum := Sum(moves, shelves, keys, name, date);
      }
      forall date | date in one[name] ensures one[name][date] == other[name][date] {
        assert At(one[name], date) == At(other[name], date);
      }
    }
  }

  /** Without chains, every order gives the same document. */
  lemma OrderDoesNotMatter(moves: Moves, shelves: map<string, Days>, p: seq<string>, q: seq<string>)
    requires Movable(moves, shelves, moves.Keys) && OrderOf(p, moves.Keys) && OrderOf(q, moves.Keys)
    ensures MoveKeys(moves, shelves, p) == MoveKeys(moves, shelves, q)
  {
    MoveKeysMoves(moves, shelves, p, moves.Keys);
    MoveKeysMoves(moves, shelves, q, moves.Keys);
    MovedIsUnique(moves, shelves, moves.Keys, MoveKeys(moves, shelves, p), MoveKeys(moves, shelves, q));
  }

  lemma {:induction false} OrderExists(keys: set<string>) returns (order: seq<string>)
    ensures OrderOf(order, keys)
    decreases keys
  {
    order := [];
    if keys != {} {
      var key :| key in keys;
      order := OrderEndingIn(keys, key);
    }
  }

  lemma {:induction false} OrderEndingIn(keys: set<string>, key: string) returns (order: seq<string>)
    requires key in keys
    ensures OrderOf(order, keys) && order != [] && order[|order| - 1] == key
    decreases keys, 0
  {
    var front := OrderExists(keys - {key});
    MoreOrdered(front, keys - {key}, key);
    assert keys - {key} + {key} == keys;
    order := front + [key];
  }

  /** A key that moves to another moving key tells orders apart: the target stays when the key goes
      last, and is gone when it goes last itself. */
  lemma ChainDependsOnOrder(moves: Moves, shelves: map<string, Days>, key: string)
    returns (p: seq<string>, q: seq<string>)
    requires moves.Keys <= shelves.Keys && key in moves && moves[key] in moves && moves[key] != key
    ensures OrderOf(p, moves.Keys) && OrderOf(q, moves.Keys)
    ensures MoveKeys(moves, shelves, p) != MoveKeys(moves, shelves, q)
  {
    p := OrderEndingIn(moves.Keys, key);
    q := OrderEndingIn(moves.Keys, moves[key]);
    assert moves[key] in MoveKeys(moves, shelves, p);
    assert moves[key] !in MoveKeys(moves, shelves, q);
  }

  ghost predicate OrdersAgree(moves: Moves, shelves: map<string, Days>)
    requires moves.Keys <= shelves.Keys
  {
    forall p, q :: OrderOf(p, moves.Keys) && OrderOf(q, moves.Keys) ==>
      MoveKeys(moves, shelves, p) == MoveKeys(moves, shelves, q)
  }

  /** Iteration order does not matter exactly when no key moves to another key that moves. */
  lemma OrdersAgreeExactly(moves: Moves, shelves: map<string, Days>)
    requires WellFormed(shelves) && moves.Keys <= shelves.Keys
    ensures OrdersAgree(moves, shelves) <==> NoChains(moves)
  {
    if NoChains(moves) {
      forall p, q | OrderOf(p, moves.Keys) && OrderOf(q, moves.Keys)
        ensures MoveKeys(moves, shelves, p) == MoveKeys(moves, shelves, q) {
        OrderDoesNotMatter(moves, shelves, p, q);
      }
    } else {
      var key :| key in moves && moves[key] in moves && moves[key] != key;
      var p, q := ChainDependsOnOrder(moves, shelves, key);
    }
  }

  // ---------- The operation ----------

  method AddDays(days: Days, more: Days) returns (merged: Days)
    ensures merged == Added(days, more)
  {
    merged := days;
    var rest := more.Keys;
    while rest != {}
      invariant rest <= more.Keys
      invariant merged.Keys == days.Keys + (more.Keys - rest)
      invariant forall date <- merged ::
        merged[date] == if date in more && date !in rest then Capped(At(days, date) + more[date]) else days[date]
    {
      var date :| date in rest;
      rest := rest - {date};
      merged := merged[date := Capped(At(merged, date) + more[date])];
    }
  }

  /** Visits the keys in whatever order the map gives them. */
  method MoveAll(doc: Document, r: Resolver) returns (out: Option<map<string, Days>>, ghost order: seq<string>)
    ensures OrderOf(order, r.Moves(doc).Keys)
    ensures out == if order == [] then None else Some(MoveKeys(r.Moves(doc), doc.shelves, order))
  {
    out, order := None, [];
    ghost var moves := r.Moves(doc);
    var rest := doc.shelves.Keys;
    while rest != {}
      invariant rest <= doc.shelves.Keys
      invariant OrderOf(order, moves.Keys - rest)
      invariant out == if order == [] then None else Some(MoveKeys(moves, doc.shelves, order))
    {
      var key :| key in rest;
      rest := rest - {key};
      var target := r.Target(key);
      if target == None {
        continue;
      }
      var shelves := if out == None then doc.shelves else out.value;
      var merged := AddDays(DaysOf(shelves, target.value), doc.shelves[key]);
      MoreOrdered(order, moves.Keys - rest - {key}, key);
      assert moves.Keys - rest == moves.Keys - rest - {key} + {key};
      order := order + [key];
      out := Some(shelves[target.value := merged] - {key});
    }
  }

  lemma MoreOrdered(order: seq<string>, keys: set<string>, key: string)
    requires OrderOf(order, keys) && key !in keys
    ensures OrderOf(order + [key], keys + {key}) && (order + [key])[..|order|] == order
  {}

  method Project(doc: Document, r: Resolver) returns (out: Document)
    requires WellFormed(doc.shelves)
    ensures out.version == doc.version
    ensures r.reader == "" ==> out == doc
    ensures r.reader != "" ==> exists order {:trigger OrderOf(order, r.Moves(doc).Keys)} ::
      OrderOf(order, r.Moves(doc).Keys) && out.shelves == MoveKeys(r.Moves(doc), doc.shelves, order)
    ensures r.reader != "" && NoChains(r.Moves(doc)) ==>
      && NamesMoved(r.Moves(doc), doc.shelves, r.Moves(doc).Keys, out.shelves)
      && DaysMoved(r.Moves(doc), doc.shelves, r.Moves(doc).Keys, out.shelves)
  {
    if r.reader == "" {
      return doc;
    }
    var shelves, order := MoveAll(doc, r);
    if NoChains(r.Moves(doc)) {
      MoveKeysMoves(r.Moves(doc), doc.shelves, order, r.Moves(doc).Keys);
    }
    return if shelves == None then doc else Document(doc.version, shelves.value);
  }

  /** A second projection with the same resolver finds nothing to move exactly when no target of the
      first resolves, but to itself. */
  lemma ProjectionIsIdempotent(doc: Document, r: Resolver, after: Document)
    requires WellFormed(doc.shelves) && NoChains(r.Moves(doc))
    requires NamesMoved(r.Moves(doc), doc.shelves, r.Moves(doc).Keys, after.shelves)
    ensures r.Moves(after) == map[] <==>
      forall key <- r.Moves(doc) :: r.Moves(doc)[key] == key || r.Target(r.Moves(doc)[key]) == None
  {
    var moves := r.Moves(doc);
    forall key | key in moves && moves[key] != key ensures moves[key] in after.shelves {
      assert key in Sources(moves, moves.Keys, moves[key]);
    }
    forall key | key in after.shelves && r.Target(key).Some? ensures exists source ::
      source in moves && source != key && moves[source] == key {
      assert key in doc.shelves ==> key in moves;
      var source :| source in Sources(moves, moves.Keys, key);
    }
    if key :| key in moves && moves[key] != key && r.Target(moves[key]).Some? {
      assert moves[key] in r.Moves(after);
    }
    if key :| key in r.Moves(after) {
      var source :| source in moves && source != key && moves[source] == key;
    }
  }

  /** Targets that are no reader's keys stay where they are, and make no chains. */
  lemma OtherNamesStay(doc: Document, r: Resolver)
    requires forall key <- r.Moves(doc) :: !(r.Prefix() < r.Moves(doc)[key])
    ensures NoChains(r.Moves(doc))
    ensures forall key <- r.Moves(doc) :: r.Target(r.Moves(doc)[key]) == None
  {}
}
