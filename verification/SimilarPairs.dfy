/** The list of similar books (server/handle_fingerprints.go): every pair of sketches whose
    estimate reaches the floor, with the pairs that cannot reach it skipped unread. */
module SimilarPairs {
  import opened Basics
  import opened Utf8
  import opened Sketch
  import opened Compare
  import opened PairTable
  import Lex

  type Id = seq<int>

  datatype BookSketch = BookSketch(bookId: Id, normMd5: string, normChars: int, sketch: Sketch)

  datatype Relation = IdenticalAfterNormalize | Subset | NearIdentical | SameSource

  datatype SimilarPair = SimilarPair(a: Id, b: Id, jaccard: real, containmentA: real, containmentB: real,
                                     normCharsA: int, normCharsB: int, relation: Relation)

  const SUBSET_CONTAINMENT := 0.95
  const SUBSET_CEILING := 0.9
  const NEAR_IDENTICAL := 0.85

  function ClassifyRelation(sameNormMd5: bool, jaccard: real, maxContainment: real): Relation {
    if sameNormMd5 then IdenticalAfterNormalize
    else if maxContainment >= SUBSET_CONTAINMENT && jaccard < SUBSET_CEILING then Subset
    else if jaccard >= NEAR_IDENTICAL then NearIdentical
    else SameSource
  }

  function PairFor(x: BookSketch, y: BookSketch, jaccard: real): SimilarPair {
    var (containmentA, containmentB) := ContainmentFrom(x.sketch, y.sketch, jaccard);
    var most := if containmentA < containmentB then containmentB else containmentA;
    SimilarPair(x.bookId, y.bookId, jaccard, containmentA, containmentB, x.normChars, y.normChars,
                ClassifyRelation(x.normMd5 == y.normMd5, jaccard, most))
  }

  // ---------- The double loop, with and without the skip ----------

  ghost predicate Reported(x: BookSketch, y: BookSketch, floor: real, pruned: bool) {
    && (pruned ==> MaxJaccard(x.sketch.distinct, y.sketch.distinct) >= floor)
    && Estimate(x.sketch, y.sketch) >= floor
  }

  ghost function ReportFor(x: BookSketch, y: BookSketch): SimilarPair {
    PairFor(x, y, Estimate(x.sketch, y.sketch))
  }

  ghost function Cell(s: seq<BookSketch>, floor: real, pruned: bool, i: nat, j: nat): seq<SimilarPair> {
    if i < |s| && j < |s| && Reported(s[i], s[j], floor, pruned) then [ReportFor(s[i], s[j])] else []
  }

  ghost function Cells(s: seq<BookSketch>, floor: real, pruned: bool): (nat, nat) -> seq<SimilarPair> {
    (i: nat, j: nat) => Cell(s, floor, pruned, i, j)
  }

  ghost function Listing(s: seq<BookSketch>, floor: real, pruned: bool): seq<SimilarPair> {
    Table(Cells(s, floor, pruned), |s|, 0)
  }

  ghost predicate ById(s: seq<BookSketch>) {
    forall i, j :: 0 <= i < j < |s| ==> Lex.Compare(s[i].bookId, s[j].bookId) <= 0
  }

  ghost predicate WellFormed(prints: seq<BookSketch>) {
    forall p <- prints :: Ascending(p.sketch.values)
  }

  method BuildSimilarPairs(prints: seq<BookSketch>, floor: real) returns (pairs: seq<SimilarPair>)
    requires WellFormed(prints)
    ensures exists order {:trigger ById(order)} ::
      multiset(order) == multiset(prints) && ById(order) && pairs == Listing(order, floor, true)
  {
    var s := SortById(prints);
    SameMembers(s, prints);
    pairs := [];
    ghost var cells := Cells(s, floor, true);
    for i := 0 to |s|
      invariant pairs + Table(cells, |s|, i) == Table(cells, |s|, 0)
    {
      var row := RowOf(s, i, floor);
      pairs := pairs + row;
    }
  }

  /** The inner loop, for one left-hand book. */
  method RowOf(s: seq<BookSketch>, i: nat, floor: real) returns (row: seq<SimilarPair>)
    requires WellFormed(s) && i < |s|
    ensures row == Row(Cells(s, floor, true), |s|, i, i + 1)
  {
    row := [];
    ghost var cells := Cells(s, floor, true);
    ghost var whole := Row(cells, |s|, i, i + 1);
    for j := i + 1 to |s|
      invariant row + Row(cells, |s|, i, j) == whole
    {
      ghost var done, rest := row, Row(cells, |s|, i, j + 1);
      RowStep(cells, |s|, i, j, done);
      var found := Compared(s, i, j, floor);
      row := row + found;
      assert row + rest == done + cells(i, j) + rest;
    }
    assert row + [] == row;
  }

  /** One turn of the inner loop: nothing, or one entry to append. */
  method Compared(s: seq<BookSketch>, i: nat, j: nat, floor: real) returns (found: seq<SimilarPair>)
    requires WellFormed(s) && i < |s| && j < |s|
    ensures found == Cells(s, floor, true)(i, j)
  {
    var a, b := s[i], s[j];
    assert a in s && b in s;
    if MaxJaccard(a.sketch.distinct, b.sketch.distinct) < floor {
      return [];
    }
    var jaccard := Jaccard(a.sketch, b.sketch);
    if jaccard < floor {
      return [];
    }
    return [PairFor(a, b, jaccard)];
  }

  method SortById(prints: seq<BookSketch>) returns (s: seq<BookSketch>)
    ensures multiset(s) == multiset(prints) && ById(s)
  {
    s := [];
    for i := 0 to |prints|
      invariant multiset(s) == multiset(prints[..i]) && ById(s)
    {
      s := InsertById(s, prints[i]);
      assert prints[..i + 1] == prints[..i] + [prints[i]];
    }
    assert prints[..|prints|] == prints;
  }

  method InsertById(s: seq<BookSketch>, p: BookSketch) returns (r: seq<BookSketch>)
    requires ById(s)
    ensures ById(r) && multiset(r) == multiset(s) + multiset{p}
  {
    var at := |s|;
    while at > 0 && Lex.Compare(s[at - 1].bookId, p.bookId) > 0
      invariant 0 <= at <= |s|
      invariant forall k :: at <= k < |s| ==> Lex.Compare(s[k].bookId, p.bookId) > 0
    {
      at := at - 1;
    }
    r := s[..at] + [p] + s[at..];
    Inserted(s, at, p);
    InsertedById(s, at, p);
  }

  lemma InsertedById(s: seq<BookSketch>, at: nat, p: BookSketch)
    requires ById(s) && at <= |s| && (at > 0 ==> Lex.Compare(s[at - 1].bookId, p.bookId) <= 0)
    requires forall k :: at <= k < |s| ==> Lex.Compare(s[k].bookId, p.bookId) > 0
    ensures ById(s[..at] + [p] + s[at..])
  {
    forall k | 0 <= k < at ensures Lex.Compare(s[k].bookId, p.bookId) <= 0 {
      Lex.Transitive(s[k].bookId, s[at - 1].bookId, p.bookId);
    }
    forall k | at <= k < |s| ensures Lex.Compare(p.bookId, s[k].bookId) <= 0 {
      Lex.Antisymmetric(s[k].bookId, p.bookId);
    }
    var r := s[..at] + [p] + s[at..];
    forall i, j | 0 <= i < j < |r| ensures Lex.Compare(r[i].bookId, r[j].bookId) <= 0 {
      assert r[i] == if i < at then s[i] else if i == at then p else s[i - 1];
      assert r[j] == if j < at then s[j] else if j == at then p else s[j - 1];
    }
  }

  lemma SameMembers<T>(a: seq<T>, b: seq<T>)
    requires multiset(a) == multiset(b)
    ensures forall x :: x in a <==> x in b
  {
    forall x ensures x in a <==> x in b {
      assert x in a <==> x in multiset(a);
      assert x in b <==> x in multiset(b);
    }
  }

  // ---------- What is listed ----------

  ghost predicate ReportedAs(s: seq<BookSketch>, floor: real, pruned: bool, h: nat, k: nat, e: SimilarPair) {
    h < k < |s| && Reported(s[h], s[k], floor, pruned) && e == ReportFor(s[h], s[k])
  }

  lemma CellHolds(s: seq<BookSketch>, floor: real, pruned: bool, h: nat, k: nat, e: SimilarPair)
    requires h < k < |s|
    ensures e in Cells(s, floor, pruned)(h, k) <==> ReportedAs(s, floor, pruned, h, k, e)
  {}

  /** A pair is listed exactly when two places of the list report it. */
  lemma ListedExactly(s: seq<BookSketch>, floor: real, pruned: bool, e: SimilarPair)
    ensures e in Listing(s, floor, pruned) <==> exists h: nat, k: nat :: ReportedAs(s, floor, pruned, h, k, e)
  {
    var cells := Cells(s, floor, pruned);
    TableMembers(cells, |s|, 0, e);
    if e in Listing(s, floor, pruned) {
      var h, k :| 0 <= h < k < |s| && e in cells(h, k);
      CellHolds(s, floor, pruned, h, k, e);
    }
    if h: nat, k: nat :| ReportedAs(s, floor, pruned, h, k, e) {
      CellHolds(s, floor, pruned, h, k, e);
    }
  }

  ghost predicate DistinctIds(s: seq<BookSketch>) {
    forall i, j :: 0 <= i < j < |s| ==> s[i].bookId != s[j].bookId
  }

  /** Listed in order of the first id and then the second. */
  ghost predicate PairBefore(p: SimilarPair, q: SimilarPair) {
    Lex.Compare(p.a, q.a) < 0 || (p.a == q.a && Lex.Compare(p.b, q.b) < 0)
  }

  lemma StrictlyById(s: seq<BookSketch>, i: nat, j: nat)
    requires ById(s) && DistinctIds(s) && i < j < |s|
    ensures Lex.Compare(s[i].bookId, s[j].bookId) < 0
  {
    Lex.ZeroMeansEqual(s[i].bookId, s[j].bookId);
  }

  lemma CellIds(s: seq<BookSketch>, floor: real, pruned: bool, i: nat, j: nat, p: SimilarPair)
    requires p in Cell(s, floor, pruned, i, j)
    ensures i < |s| && j < |s| && p.a == s[i].bookId && p.b == s[j].bookId
  {}

  lemma CellsPrecede(s: seq<BookSketch>, floor: real, pruned: bool, h: nat, k: nat, h': nat, k': nat,
                     before: (SimilarPair, SimilarPair) -> bool)
    requires ById(s) && DistinctIds(s) && h < k < |s| && h' < k' < |s| && (h < h' || (h == h' && k < k'))
    requires forall p, q :: PairBefore(p, q) ==> before(p, q)
    ensures Precedes(Cells(s, floor, pruned)(h, k), Cells(s, floor, pruned)(h', k'), before)
  {
    forall p, q | p in Cells(s, floor, pruned)(h, k) && q in Cells(s, floor, pruned)(h', k') ensures before(p, q) {
      CellIds(s, floor, pruned, h, k, p);
      CellIds(s, floor, pruned, h', k', q);
      if h < h' {
        StrictlyById(s, h, h');
      } else {
        StrictlyById(s, k, k');
      }
      assert PairBefore(p, q);
    }
  }

  /** With different ids no unordered pair of books is listed twice: the smaller id stands first,
      and the entries are strictly ordered. */
  lemma ListedOnce(s: seq<BookSketch>, floor: real, pruned: bool)
    requires ById(s) && DistinctIds(s)
    ensures var r := Listing(s, floor, pruned);
            && (forall p <- r :: Lex.Compare(p.a, p.b) < 0)
            && (forall h, k :: 0 <= h < k < |r| ==> PairBefore(r[h], r[k]))
  {
    var cells, before := Cells(s, floor, pruned), (p, q) => PairBefore(p, q);
    forall h: nat, k: nat, h': nat, k': nat | h < k < |s| && h' < k' < |s| && (h < h' || (h == h' && k < k'))
      ensures Precedes(cells(h, k), cells(h', k'), before)
    {
      CellsPrecede(s, floor, pruned, h, k, h', k', before);
    }
    TableSorted(cells, |s|, 0, before);
    var r := Listing(s, floor, pruned);
    forall h, k | 0 <= h < k < |r| ensures PairBefore(r[h], r[k]) {
      assert before(r[h], r[k]);
    }
    forall p | p in r ensures Lex.Compare(p.a, p.b) < 0 {
      TableMembers(cells, |s|, 0, p);
      var h, k :| 0 <= h < k < |s| && p in cells(h, k);
      CellIds(s, floor, pruned, h, k, p);
      StrictlyById(s, h, k);
    }
  }

  // ---------- What an entry says ----------

  /** Of these four exactly one holds: the texts are the same; one holds nearly all of the other and
      they are not alike; they are alike; none of these. */
  ghost predicate RelationOf(r: Relation, same: bool, contained: bool, jaccard: real) {
    && (r == IdenticalAfterNormalize <==> same)
    && (r == Subset <==> !same && contained && jaccard < 0.9)
    && (r == NearIdentical <==> !same && !(contained && jaccard < 0.9) && jaccard >= 0.85)
    && (r == SameSource <==> !same && !(contained && jaccard < 0.9) && jaccard < 0.85)
  }

  /** The entry of two books, in terms of the index and of how many hashes that index says they share. */
  lemma EntrySays(x: BookSketch, y: BookSketch)
    ensures var e := ReportFor(x, y);
            && e.a == x.bookId && e.b == y.bookId && e.jaccard == Estimate(x.sketch, y.sketch)
            && e.normCharsA == x.normChars && e.normCharsB == y.normChars
            && SharedParts(x.sketch.distinct, y.sketch.distinct, e.jaccard, e.containmentA, e.containmentB)
            && RelationOf(e.relation, x.normMd5 == y.normMd5, e.containmentA >= 0.95 || e.containmentB >= 0.95,
                          e.jaccard)
  {
    EstimateBounds(x.sketch, y.sketch);
    ContainmentShares(x.sketch, y.sketch, Estimate(x.sketch, y.sketch));
  }

  /** The relation of two sets of hashes of which none is empty. */
  ghost predicate RelationOfSets(r: Relation, same: bool, setA: set<uint64>, setB: set<uint64>) {
    var smaller := if |setA| < |setB| then |setA| else |setB|;
    RelationOf(r, same, |setA * setB| as real >= 0.95 * smaller as real, TrueJaccard(setA, setB))
  }

  lemma ContainedMeans(shared: nat, a: nat, b: nat)
    requires 0 < a && 0 < b
    ensures (Ratio(shared, a) >= 0.95 || Ratio(shared, b) >= 0.95) <==>
            shared as real >= 0.95 * (if a < b then a else b) as real
  {
    AtLeastPart(shared as real, a as real);
    AtLeastPart(shared as real, b as real);
  }

  lemma AtLeastPart(part: real, whole: real)
    requires whole > 0.0
    ensures part / whole >= 0.95 <==> part >= 0.95 * whole
  {
    var q := part / whole;
    assert q * whole == part;
    assert q >= 0.95 ==> q * whole >= 0.95 * whole;
    assert q < 0.95 ==> q * whole < 0.95 * whole;
  }

  // ---------- The skip loses nothing ----------

  /** Books as alike as the floor asks are never skipped, whatever their sketches sampled. */
  lemma SimilarIsNeverSkipped(x: BookSketch, y: BookSketch, setX: set<uint64>, setY: set<uint64>, floor: real)
    requires Represents(x.sketch, setX) && Represents(y.sketch, setY) && TrueJaccard(setX, setY) >= floor
    ensures MaxJaccard(x.sketch.distinct, y.sketch.distinct) >= floor
  {
    MaxJaccardBounds(setX, setY);
  }

  /** No estimate exceeds what the sizes allow. */
  ghost predicate WithinBounds(s: seq<BookSketch>) {
    forall h: nat, k: nat ::
      h < k < |s| ==> Estimate(s[h].sketch, s[k].sketch) <= MaxJaccard(s[h].sketch.distinct, s[k].sketch.distinct)
  }

  /** The skip changes no list, whatever the floor, exactly when no two books' estimate exceeds the
      bound of their sizes. */
  lemma PruningChangesNothingExactly(s: seq<BookSketch>)
    ensures (forall floor: real :: Listing(s, floor, true) == Listing(s, floor, false)) <==> WithinBounds(s)
  {
    if WithinBounds(s) {
      forall floor: real ensures Listing(s, floor, true) == Listing(s, floor, false) {
        TablesAgree(Cells(s, floor, true), Cells(s, floor, false), |s|, 0);
      }
    } else {
      var h: nat, k: nat :|
        h < k < |s| && Estimate(s[h].sketch, s[k].sketch) > MaxJaccard(s[h].sketch.distinct, s[k].sketch.distinct);
      SkipShortens(s, Estimate(s[h].sketch, s[k].sketch), h, k);
    }
  }

  /** A pair whose estimate reaches a floor that its bound does not is missing. */
  lemma SkipShortens(s: seq<BookSketch>, floor: real, h: nat, k: nat)
    requires h < k < |s| && Reported(s[h], s[k], floor, false) && !Reported(s[h], s[k], floor, true)
    ensures |Listing(s, floor, true)| < |Listing(s, floor, false)|
  {
    var pruned, plain := Cells(s, floor, true), Cells(s, floor, false);
    assert |pruned(h, k)| < |plain(h, k)|;
    TableLength(pruned, plain, |s|, 0);
  }

  ghost predicate AllComplete(s: seq<BookSketch>) {
    forall p <- s :: Complete(p.sketch) && Ascending(p.sketch.values)
  }

  lemma CompleteWithinBound(x: Sketch, y: Sketch)
    requires Complete(x) && Ascending(x.values) && Complete(y) && Ascending(y.values)
    ensures Estimate(x, y) <= MaxJaccard(x.distinct, y.distinct)
  {
    var setX, setY := Elements(x.values), Elements(y.values);
    AscendingSize(x.values);
    AscendingSize(y.values);
    if x.values != [] { assert x.values[0] in setX; }
    if y.values != [] { assert y.values[0] in setY; }
    CompleteIsExact(x, y, setX, setY);
    MaxJaccardBounds(setX, setY);
    JaccardBounds(setX, setY);
  }

  /** On complete sketches the list is that of the plain double loop. */
  lemma PruningChangesNothing(s: seq<BookSketch>, floor: real)
    requires AllComplete(s)
    ensures Listing(s, floor, true) == Listing(s, floor, false)
  {
    forall h: nat, k: nat | h < k < |s|
      ensures Estimate(s[h].sketch, s[k].sketch) <= MaxJaccard(s[h].sketch.distinct, s[k].sketch.distinct) {
      assert s[h] in s && s[k] in s;
      CompleteWithinBound(s[h].sketch, s[k].sketch);
    }
    PruningChangesNothingExactly(s);
  }

  /** Sampled sketches may exceed it: where a long text's kept hashes are all that a short text has,
      the estimate is 1 whatever else the long text holds. The skip is right and the estimate is not. */
  lemma SampledEstimateMayExceedBound(x: BookSketch, y: BookSketch, setX: set<uint64>, setY: set<uint64>, floor: real)
    requires Represents(x.sketch, setX) && Represents(y.sketch, setY) && x.sketch.n == y.sketch.n
    requires x.sketch.values == y.sketch.values && |x.sketch.values| == DEFAULT_K
    requires Complete(y.sketch) && MaxJaccard(x.sketch.distinct, y.sketch.distinct) < floor <= 1.0
    ensures TrueJaccard(setX, setY) < floor && Estimate(x.sketch, y.sketch) == 1.0
    ensures |Listing([x, y], floor, true)| < |Listing([x, y], floor, false)|
  {
    var values := x.sketch.values;
    var limit := ExhaustiveLimit(x.sketch, y.sketch);
    AllUpto(values, limit);
    var kept := Upto(Elements(values), limit);
    assert kept * kept == kept && kept + kept == kept && values[0] in kept;
    MaxJaccardBounds(setX, setY);
    SkipShortens([x, y], floor, 0, 1);
  }

  lemma AllUpto(values: seq<uint64>, limit: uint64)
    requires Ascending(values) && values != [] && values[|values| - 1] <= limit
    ensures Upto(Elements(values), limit) == Elements(values)
  {}

  /** There are such books, of any larger size. */
  lemma SampledBooksExist(size: nat) returns (x: BookSketch, y: BookSketch, setX: set<uint64>, setY: set<uint64>)
    requires DEFAULT_K < size <= MAX_UINT64
    ensures Represents(x.sketch, setX) && Represents(y.sketch, setY) && x.sketch.n == y.sketch.n && Complete(y.sketch)
    ensures x.sketch.values == y.sketch.values && |x.sketch.values| == DEFAULT_K && x.sketch.distinct == size
    ensures MaxJaccard(x.sketch.distinct, y.sketch.distinct) < 1.0
  {
    var values: seq<uint64> := seq(DEFAULT_K, i requires 0 <= i < DEFAULT_K => i as uint64);
    setX := FirstHashes(size);
    setY := Elements(values);
    AscendingSize(values);
    x := BookSketch([0], "x", 0, Sketch(DEFAULT_N, size, values));
    y := BookSketch([1], "y", 0, Sketch(DEFAULT_N, DEFAULT_K, values));
    assert values[0] in setY && setY * setX == setY;
    forall v: uint64 | v as int < DEFAULT_K ensures v in setY {
      assert values[v as int] == v;
    }
    assert setY <= setX;
  }

  lemma {:induction false} FirstHashes(size: nat) returns (all: set<uint64>)
    requires size <= MAX_UINT64
    ensures |all| == size && forall v: uint64 :: v in all <==> v as int < size
  {
    if size == 0 {
      all := {};
    } else {
      all := FirstHashes(size - 1);
      assert (size - 1) as uint64 !in all;
      all := all + {(size - 1) as uint64};
    }
  }

  // ---------- From two texts ----------

  /** Up to here the sketch of a text lists all its hashes: to the end if it keeps them all, as that of
      a short text does, and else to the largest of the smallest that it keeps. */
  ghost predicate ListsUpto(all: set<uint64>, short: bool, limit: uint64) {
    if short || |all| <= 128 then limit == MAX_UINT64 else limit in all && |Upto(all, limit)| == 128
  }

  /** The index of two texts' hashes up to a limit, 0 where one of them has none. */
  function Overlap(setA: set<uint64>, setB: set<uint64>, limit: uint64): real {
    if setA == {} || setB == {} then 0.0 else Ratio(|Upto(setA * setB, limit)|, |Upto(setA + setB, limit)|)
  }

  /** What is reported of two texts: nothing, or how their hashes overlap up to the lesser of their
      limits, exactly when that and their sizes reach the floor. */
  ghost predicate TellsOverlap(found: seq<SimilarPair>, same: bool, setA: set<uint64>, setB: set<uint64>,
                               limit: uint64, floor: real) {
    && (found != [] <==> Overlap(setA, setB, limit) >= floor && MaxJaccard(|setA|, |setB|) >= floor)
    && (found != [] ==>
          && |found| == 1 && found[0].jaccard == Overlap(setA, setB, limit)
          && SharedParts(|setA|, |setB|, found[0].jaccard, found[0].containmentA, found[0].containmentB)
          && RelationOf(found[0].relation, same, found[0].containmentA >= 0.95 || found[0].containmentB >= 0.95,
                        found[0].jaccard))
    // To the end, that is whether they are as alike as the floor asks.
    && (limit == MAX_UINT64 && setA != {} && setB != {} ==>
          && (found != [] <==> TrueJaccard(setA, setB) >= floor)
          && (found != [] ==>
                && found[0].jaccard == TrueJaccard(setA, setB)
                && found[0].containmentA == Ratio(|setA * setB|, |setA|)
                && found[0].containmentB == Ratio(|setA * setB|, |setB|)
                && RelationOfSets(found[0].relation, same, setA, setB)))
  }

  lemma CellTellsOverlap(x: BookSketch, y: BookSketch, setA: set<uint64>, setB: set<uint64>, limitA: uint64,
                         limitB: uint64, floor: real)
    requires Represents(x.sketch, setA) && Represents(y.sketch, setB) && x.sketch.n == y.sketch.n
    requires limitA == LimitOf(x.sketch) && limitB == LimitOf(y.sketch)
    ensures TellsOverlap(Cell([x, y], floor, true, 0, 1), x.normMd5 == y.normMd5, setA, setB, MinOf(limitA, limitB),
                         floor)
  {
    var limit := MinOf(limitA, limitB);
    EntrySays(x, y);
    EmptySketch(x.sketch, setA);
    EmptySketch(y.sketch, setB);
    if setA != {} && setB != {} {
      EstimateIsExactUpto(x.sketch, y.sketch, setA, setB);
      assert ExhaustiveLimit(x.sketch, y.sketch) == limit;
      if limit == MAX_UINT64 {
        assert Upto(setA * setB, limit) == setA * setB && Upto(setA + setB, limit) == setA + setB;
        MaxJaccardBounds(setA, setB);
        ContainmentIsExact(x.sketch, y.sketch, setA, setB);
        ContainedMeans(|setA * setB|, |setA|, |setB|);
      }
    }
  }

  lemma EmptySketch(s: Sketch, all: set<uint64>)
    requires Represents(s, all)
    ensures s.values == [] <==> all == {}
  {
    if s.values != [] {
      assert s.values[0] in Elements(s.values);
    }
  }

  /** How far one sketch lists all its hashes. */
  function LimitOf(s: Sketch): uint64 {
    if Complete(s) || s.values == [] then MAX_UINT64 else s.values[|s.values| - 1]
  }

  /** Two texts sketched and compared; one of fewer than 5000 characters is short. */
  method CompareTexts(idA: Id, textA: seq<byte>, idB: Id, textB: seq<byte>, floor: real,
                      hash: seq<byte> -> uint64, md5: seq<byte> -> string)
    returns (found: seq<SimilarPair>, ghost limitA: uint64, ghost limitB: uint64)
    ensures ListsUpto(HashesOf(textA, hash), RuneCount(textA) < 5000, limitA)
    ensures ListsUpto(HashesOf(textB, hash), RuneCount(textB) < 5000, limitB)
    ensures TellsOverlap(found, md5(textA) == md5(textB), HashesOf(textA, hash), HashesOf(textB, hash),
                         MinOf(limitA, limitB), floor)
    ensures found != [] ==>
      && found[0].a == idA && found[0].normCharsA == RuneCount(textA)
      && found[0].b == idB && found[0].normCharsB == RuneCount(textB)
  {
    var a := BuildDefault(textA, hash);
    var b := BuildDefault(textB, hash);
    DefaultRepresents(a, textA, hash);
    DefaultRepresents(b, textB, hash);
    var x, y := BookSketch(idA, md5(textA), RuneCount(textA), a), BookSketch(idB, md5(textB), RuneCount(textB), b);
    limitA, limitB := LimitOf(a), LimitOf(b);
    found := Compared([x, y], 0, 1, floor);
    CellTellsOverlap(x, y, HashesOf(textA, hash), HashesOf(textB, hash), limitA, limitB, floor);
  }

  /** The hashes of a text's windows of five characters. */
  function HashesOf(text: seq<byte>, hash: seq<byte> -> uint64): set<uint64> {
    Elements(WindowHashes(text, 5, hash))
  }

  lemma DefaultRepresents(s: Sketch, text: seq<byte>, hash: seq<byte> -> uint64)
    requires s.distinct == |HashesOf(text, hash)|
    requires RuneCount(text) < EXACT_SHINGLE_LIMIT ==>
      Complete(s) && Ascending(s.values) && Elements(s.values) == HashesOf(text, hash)
    requires RuneCount(text) >= EXACT_SHINGLE_LIMIT ==> IsBottom(s.values, HashesOf(text, hash), DEFAULT_K)
    ensures Represents(s, HashesOf(text, hash))
    ensures ListsUpto(HashesOf(text, hash), RuneCount(text) < EXACT_SHINGLE_LIMIT, LimitOf(s))
  {
    var all := HashesOf(text, hash);
    if RuneCount(text) >= EXACT_SHINGLE_LIMIT {
      BuildRepresents(s, all, DEFAULT_K);
      AscendingSize(s.values);
      if |all| > DEFAULT_K {
        var last := s.values[|s.values| - 1];
        assert last in Elements(s.values);
        assert Upto(all, last) == Elements(s.values);
      }
    }
  }
}
