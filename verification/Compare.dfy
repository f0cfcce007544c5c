/** Comparing two sketches (internal/sketch/compare.go): the Jaccard index read off the part of
    both that is complete, containment, and the bound that lets a comparison be skipped. */
module Compare {
  import opened Sketch

  // ---------- What a sketch stands for ----------

  /** s is a sketch of the set of hashes all. */
  ghost predicate Represents(s: Sketch, all: set<uint64>) {
    && s.distinct == |all|
    && Ascending(s.values) && Smallest(Elements(s.values), all, |s.values|)
    && (all != {} ==> s.values != [])
  }

  lemma BuildRepresents(s: Sketch, all: set<uint64>, k: nat)
    requires k >= 1 && s.distinct == |all| && IsBottom(s.values, all, k)
    ensures Represents(s, all)
  {
    AscendingSize(s.values);
    if s.values == [] {
      assert Elements(s.values) == {};
    }
  }

  function Upto(s: set<uint64>, limit: uint64): set<uint64> {
    set v | v in s && v <= limit
  }

  function Ratio(part: nat, whole: nat): real {
    if whole == 0 then 0.0 else part as real / whole as real
  }

  /** The Jaccard index of two sets. */
  function TrueJaccard(a: set<uint64>, b: set<uint64>): real {
    Ratio(|a * b|, |a + b|)
  }

  // ---------- Jaccard ----------

  function MinOf(a: uint64, b: uint64): (m: uint64)
    ensures m <= a && m <= b && (m == a || m == b)
  {
    if a < b then a else b
  }

  /** Up to here both sketches list everything their sets hold. */
  function ExhaustiveLimit(a: Sketch, b: Sketch): uint64
    requires a.values != [] && b.values != []
  {
    var limit: uint64 := MAX_UINT64;
    var limit1 := if !Complete(a) then MinOf(limit, a.values[|a.values| - 1]) else limit;
    if !Complete(b) then MinOf(limit1, b.values[|b.values| - 1]) else limit1
  }

  predicate Comparable(a: Sketch, b: Sketch) {
    a.n == b.n && a.values != [] && b.values != []
  }

  /** The index of the listed hashes up to the limit. */
  ghost function Estimate(a: Sketch, b: Sketch): real {
    if !Comparable(a, b) then 0.0
    else
      var limit := ExhaustiveLimit(a, b);
      TrueJaccard(Upto(Elements(a.values), limit), Upto(Elements(b.values), limit))
  }

  method Jaccard(a: Sketch, b: Sketch) returns (r: real)
    requires Ascending(a.values) && Ascending(b.values)
    ensures r == Estimate(a, b)
  {
    if a.n != b.n || a.values == [] || b.values == [] {
      return 0.0;
    }
    var limit := ExhaustiveLimit(a, b);
    var union, intersection := CountUpto(a.values, b.values, limit);
    if union == 0 {
      return 0.0;
    }
    return intersection as real / union as real;
  }

  /** The merge: how many hashes up to the limit either lists, and how many both. */
  method CountUpto(a: seq<uint64>, b: seq<uint64>, limit: uint64) returns (union: nat, intersection: nat)
    requires Ascending(a) && Ascending(b)
    ensures union == |Upto(Elements(a), limit) + Upto(Elements(b), limit)|
    ensures intersection == |Upto(Elements(a), limit) * Upto(Elements(b), limit)|
  {
    union, intersection := 0, 0;
    var i, j := 0, 0;
    while (i < |a| && a[i] <= limit) || (j < |b| && b[j] <= limit)
      invariant i <= |a| && j <= |b|
      invariant Counted(a, b, limit, i, j, union, intersection)
      decreases |a| - i + |b| - j
    {
      i, j, union, intersection := CountNext(a, b, limit, i, j, union, intersection);
    }
    AllCounted(a, b, limit, i, j, union, intersection);
  }

  /** One turn of the merge. */
  method CountNext(a: seq<uint64>, b: seq<uint64>, limit: uint64, i: nat, j: nat, union: nat, intersection: nat)
    returns (i': nat, j': nat, union': nat, intersection': nat)
    requires Ascending(a) && Ascending(b) && i <= |a| && j <= |b| && Counted(a, b, limit, i, j, union, intersection)
    requires (i < |a| && a[i] <= limit) || (j < |b| && b[j] <= limit)
    ensures i <= i' <= |a| && j <= j' <= |b| && i + j < i' + j'
    ensures Counted(a, b, limit, i', j', union', intersection')
  {
    i', j', union', intersection' := i, j, union + 1, intersection;
    NextCounted(a, b, limit, i, j, union, intersection);
    if j >= |b| || b[j] > limit {
      i' := i + 1;
    } else if i >= |a| || a[i] > limit {
      j' := j + 1;
    } else if a[i] == b[j] {
      i', j', intersection' := i + 1, j + 1, intersection + 1;
    } else if a[i] < b[j] {
      i' := i + 1;
    } else {
      j' := j + 1;
    }
  }

  /** Taking the least hash left, from one list or from both. */
  lemma NextCounted(a: seq<uint64>, b: seq<uint64>, limit: uint64, i: nat, j: nat, union: nat, intersection: nat)
    requires Ascending(a) && Ascending(b) && i <= |a| && j <= |b| && Counted(a, b, limit, i, j, union, intersection)
    ensures i < |a| && a[i] <= limit && (j < |b| ==> a[i] < b[j]) ==>
      Counted(a, b, limit, i + 1, j, union + 1, intersection)
    ensures j < |b| && b[j] <= limit && (i < |a| ==> b[j] < a[i]) ==>
      Counted(a, b, limit, i, j + 1, union + 1, intersection)
    ensures i < |a| && j < |b| && a[i] == b[j] <= limit ==>
      Counted(a, b, limit, i + 1, j + 1, union + 1, intersection + 1)
  {
    if i < |a| && a[i] <= limit && (j < |b| ==> a[i] < b[j]) {
      TakeLeft(a, b, limit, i, j);
    } else if j < |b| && b[j] <= limit && (i < |a| ==> b[j] < a[i]) {
      TakeRight(a, b, limit, i, j);
    } else if i < |a| && j < |b| && a[i] == b[j] <= limit {
      TakeBoth(a, b, limit, i, j);
    }
  }

  lemma AllCounted(a: seq<uint64>, b: seq<uint64>, limit: uint64, i: nat, j: nat, union: nat, intersection: nat)
    requires Ascending(a) && Ascending(b) && i <= |a| && j <= |b| && Counted(a, b, limit, i, j, union, intersection)
    requires (i < |a| ==> a[i] > limit) && (j < |b| ==> b[j] > limit)
    ensures union == |Upto(Elements(a), limit) + Upto(Elements(b), limit)|
    ensures intersection == |Upto(Elements(a), limit) * Upto(Elements(b), limit)|
  {
    MergedAll(a, limit, i);
    MergedAll(b, limit, j);
  }

  ghost function Either(a: seq<uint64>, b: seq<uint64>, i: nat, j: nat): nat
    requires i <= |a| && j <= |b|
  {
    |Elements(a[..i]) + Elements(b[..j])|
  }

  ghost function Both(a: seq<uint64>, b: seq<uint64>, i: nat, j: nat): nat
    requires i <= |a| && j <= |b|
  {
    |Elements(a[..i]) * Elements(b[..j])|
  }

  ghost predicate Counted(a: seq<uint64>, b: seq<uint64>, limit: uint64, i: nat, j: nat, union: nat, intersection: nat)
    requires i <= |a| && j <= |b|
  {
    Merged(a, b, limit, i, j) && union == Either(a, b, i, j) && intersection == Both(a, b, i, j)
  }

  /** What lies before the two positions is within the limit and precedes all that lies after. */
  ghost predicate Merged(a: seq<uint64>, b: seq<uint64>, limit: uint64, i: nat, j: nat)
    requires i <= |a| && j <= |b|
  {
    && (forall p :: 0 <= p < i ==> a[p] <= limit)
    && (forall q :: 0 <= q < j ==> b[q] <= limit)
    && (forall p, q :: 0 <= p < i && j <= q < |b| ==> a[p] < b[q])
    && (forall p, q :: i <= p < |a| && 0 <= q < j ==> b[q] < a[p])
  }

  lemma NextElements(a: seq<uint64>, i: nat)
    requires i < |a|
    ensures Elements(a[..i + 1]) == Elements(a[..i]) + {a[i]}
  {
    assert a[..i + 1] == a[..i] + [a[i]];
  }

  lemma OneMore(x: set<uint64>, y: set<uint64>, v: uint64)
    requires v !in x && v !in y
    ensures |x + {v} + y| == |x + y| + 1 && |x + (y + {v})| == |x + y| + 1
    ensures |(x + {v}) * y| == |x * y| && |x * (y + {v})| == |x * y|
    ensures |(x + {v}) + (y + {v})| == |x + y| + 1 && |(x + {v}) * (y + {v})| == |x * y| + 1
  {
    assert x + {v} + y == x + y + {v} && x + (y + {v}) == x + y + {v} && (x + {v}) + (y + {v}) == x + y + {v};
    assert (x + {v}) * y == x * y && x * (y + {v}) == x * y && (x + {v}) * (y + {v}) == x * y + {v};
  }

  lemma TakeLeft(a: seq<uint64>, b: seq<uint64>, limit: uint64, i: nat, j: nat)
    requires Ascending(a) && Ascending(b) && i < |a| && j <= |b| && Merged(a, b, limit, i, j)
    requires a[i] <= limit && (j < |b| ==> a[i] < b[j])
    ensures Merged(a, b, limit, i + 1, j)
    ensures Either(a, b, i + 1, j) == Either(a, b, i, j) + 1
    ensures Both(a, b, i + 1, j) == Both(a, b, i, j)
  {
    NextElements(a, i);
    OneMore(Elements(a[..i]), Elements(b[..j]), a[i]);
  }

  lemma TakeRight(a: seq<uint64>, b: seq<uint64>, limit: uint64, i: nat, j: nat)
    requires Ascending(a) && Ascending(b) && i <= |a| && j < |b| && Merged(a, b, limit, i, j)
    requires b[j] <= limit && (i < |a| ==> b[j] < a[i])
    ensures Merged(a, b, limit, i, j + 1)
    ensures Either(a, b, i, j + 1) == Either(a, b, i, j) + 1
    ensures Both(a, b, i, j + 1) == Both(a, b, i, j)
  {
    NextElements(b, j);
    OneMore(Elements(a[..i]), Elements(b[..j]), b[j]);
  }

  lemma TakeBoth(a: seq<uint64>, b: seq<uint64>, limit: uint64, i: nat, j: nat)
    requires Ascending(a) && Ascending(b) && i < |a| && j < |b| && Merged(a, b, limit, i, j)
    requires a[i] == b[j] <= limit
    ensures Merged(a, b, limit, i + 1, j + 1)
    ensures Either(a, b, i + 1, j + 1) == Either(a, b, i, j) + 1
    ensures Both(a, b, i + 1, j + 1) == Both(a, b, i, j) + 1
  {
    NextElements(a, i);
    NextElements(b, j);
    OneMore(Elements(a[..i]), Elements(b[..j]), a[i]);
  }

  lemma MergedAll(a: seq<uint64>, limit: uint64, i: nat)
    requires Ascending(a) && i <= |a| && (i < |a| ==> a[i] > limit)
    requires forall p :: 0 <= p < i ==> a[p] <= limit
    ensures Elements(a[..i]) == Upto(Elements(a), limit)
  {}

  // ---------- What the estimate means ----------

  /** Up to the limit a sketch lists its whole set. */
  lemma ListsAllUpto(s: Sketch, all: set<uint64>, limit: uint64)
    requires Represents(s, all) && s.values != []
    requires Complete(s) || limit <= s.values[|s.values| - 1]
    ensures Upto(Elements(s.values), limit) == Upto(all, limit)
  {
    AscendingSize(s.values);
    if Complete(s) {
      SubsetOfEqualSize(Elements(s.values), all);
    } else {
      assert s.values[|s.values| - 1] in Elements(s.values);
    }
  }

  /** The estimate is the exact index of the two sets restricted to the hashes up to the limit. */
  lemma EstimateIsExactUpto(a: Sketch, b: Sketch, setA: set<uint64>, setB: set<uint64>)
    requires Represents(a, setA) && Represents(b, setB) && Comparable(a, b)
    ensures var limit := ExhaustiveLimit(a, b);
            Estimate(a, b) == Ratio(|Upto(setA * setB, limit)|, |Upto(setA + setB, limit)|)
  {
    var limit := ExhaustiveLimit(a, b);
    ListsAllUpto(a, setA, limit);
    ListsAllUpto(b, setB, limit);
    assert Upto(setA, limit) * Upto(setB, limit) == Upto(setA * setB, limit);
    assert Upto(setA, limit) + Upto(setB, limit) == Upto(setA + setB, limit);
  }

  lemma EstimateSymmetric(a: Sketch, b: Sketch)
    ensures Estimate(a, b) == Estimate(b, a)
  {
    if Comparable(a, b) {
      var limit := ExhaustiveLimit(a, b);
      var x, y := Upto(Elements(a.values), limit), Upto(Elements(b.values), limit);
      assert x * y == y * x && x + y == y + x;
    }
  }

  lemma SubsetSize<T>(a: set<T>, b: set<T>)
    requires a <= b
    ensures |a| <= |b|
  {
    assert b == a + (b - a);
  }

  lemma RatioBounds(part: nat, whole: nat)
    requires part <= whole
    ensures 0.0 <= Ratio(part, whole) <= 1.0
  {}

  lemma JaccardBounds(a: set<uint64>, b: set<uint64>)
    ensures 0.0 <= TrueJaccard(a, b) <= 1.0
  {
    SubsetSize(a * b, a + b);
    RatioBounds(|a * b|, |a + b|);
  }

  lemma EstimateBounds(a: Sketch, b: Sketch)
    ensures 0.0 <= Estimate(a, b) <= 1.0
  {
    if Comparable(a, b) {
      var limit := ExhaustiveLimit(a, b);
      JaccardBounds(Upto(Elements(a.values), limit), Upto(Elements(b.values), limit));
    }
  }

  /** Two complete sketches give the index of their sets itself. */
  lemma CompleteIsExact(a: Sketch, b: Sketch, setA: set<uint64>, setB: set<uint64>)
    requires Represents(a, setA) && Represents(b, setB) && Complete(a) && Complete(b)
    ensures Estimate(a, b) == if a.n == b.n && setA != {} && setB != {} then TrueJaccard(setA, setB) else 0.0
  {
    if Comparable(a, b) {
      EstimateIsExactUpto(a, b, setA, setB);
      assert Upto(setA * setB, MAX_UINT64) == setA * setB;
      assert Upto(setA + setB, MAX_UINT64) == setA + setB;
      assert a.values[0] in Elements(a.values) && b.values[0] in Elements(b.values);
    }
  }

  // ---------- The skip bound ----------

  function MaxJaccard(na: int, nb: int): (r: real) {
    var a, b := if na < 0 then 0 else na, if nb < 0 then 0 else nb;
    if a == 0 && b == 0 then 1.0 else Ratio(if a < b then a else b, if a < b then b else a)
  }

  /** No two sets of these sizes are more alike than the bound; the bound is reached when one
      contains the other. */
  lemma MaxJaccardBounds(a: set<uint64>, b: set<uint64>)
    ensures TrueJaccard(a, b) <= MaxJaccard(|a|, |b|)
    ensures a <= b && b != {} ==> TrueJaccard(a, b) == MaxJaccard(|a|, |b|) == MaxJaccard(|b|, |a|)
    ensures MaxJaccard(0, 0) == 1.0
  {
    SubsetSize(a * b, a);
    SubsetSize(a * b, b);
    SubsetSize(a, a + b);
    SubsetSize(b, a + b);
    var lo, hi := if |a| < |b| then |a| else |b|, if |a| < |b| then |b| else |a|;
    if hi > 0 {
      RatioMonotone(|a * b|, |a + b|, lo, hi);
    }
    if a <= b {
      assert a * b == a && a + b == b;
    }
  }

  lemma RatioMonotone(p: nat, w: nat, p': nat, w': nat)
    requires p <= p' && 0 < w' <= w
    ensures Ratio(p, w) <= Ratio(p', w')
  {
    DivideLess(p as real, p' as real, w as real);
    DivideByLess(p' as real, w as real, w' as real);
  }

  lemma DivideLess(p: real, p': real, w: real)
    requires p <= p' && 0.0 < w
    ensures p / w <= p' / w
  {}

  lemma DivideByLess(p: real, w: real, w': real)
    requires 0.0 <= p && 0.0 < w' <= w
    ensures p / w <= p / w'
  {
    var x := p / w;
    assert x >= 0.0 && x * w == p;
    assert x * w' <= x * w;
    DivideLess(x * w', p, w');
    assert x * w' / w' == x;
  }

  // ---------- Containment ----------

  function Clamp01(v: real): (r: real)
    ensures 0.0 <= r <= 1.0 && (0.0 <= v <= 1.0 ==> r == v)
  {
    if v < 0.0 then 0.0 else if v > 1.0 then 1.0 else v
  }

  function ContainmentFrom(a: Sketch, b: Sketch, jaccard: real): (real, real) {
    if a.distinct <= 0 || b.distinct <= 0 then (0.0, 0.0)
    else if jaccard <= 0.0 then (0.0, 0.0)
    else
      var intersection := SharedFrom(jaccard, (a.distinct + b.distinct) as real);
      (PartOf(intersection, a.distinct), PartOf(intersection, b.distinct))
  }

  /** The intersection of two sets with this index and these sizes together. */
  function SharedFrom(jaccard: real, total: real): real
    requires jaccard > 0.0
  {
    jaccard * total / (1.0 + jaccard)
  }

  function PartOf(intersection: real, size: nat): real
    requires size > 0
  {
    Clamp01(intersection / size as real)
  }

  /** The parts that i shared hashes are of either set, where i is what the index and the sizes say
      together: jaccard is i in the |a| + |b| - i hashes of both. No part is reported larger than 1. */
  ghost predicate SharedParts(sizeA: nat, sizeB: nat, jaccard: real, partA: real, partB: real) {
    if sizeA == 0 || sizeB == 0 || jaccard == 0.0 then partA == 0.0 && partB == 0.0
    else exists i: real ::
      IsPart(i, sizeA, partA) && IsPart(i, sizeB, partB) && i == jaccard * ((sizeA + sizeB) as real - i)
  }

  ghost predicate IsPart(i: real, size: nat, part: real) {
    part <= 1.0 && (part * size as real == i || (part == 1.0 && i > size as real))
  }

  lemma ContainmentShares(a: Sketch, b: Sketch, jaccard: real)
    requires 0.0 <= jaccard <= 1.0
    ensures var (partA, partB) := ContainmentFrom(a, b, jaccard);
            SharedParts(a.distinct, b.distinct, jaccard, partA, partB)
  {
    if a.distinct > 0 && b.distinct > 0 && jaccard > 0.0 {
      var total := (a.distinct + b.distinct) as real;
      var i := SharedFrom(jaccard, total);
      SharedOf(jaccard, total);
      PartIs(i, a.distinct);
      PartIs(i, b.distinct);
    }
  }

  lemma SharedOf(jaccard: real, total: real)
    requires 0.0 < jaccard && 0.0 <= total
    ensures var i := SharedFrom(jaccard, total); i == jaccard * (total - i) && i >= 0.0
  {
    var i, whole := SharedFrom(jaccard, total), 1.0 + jaccard;
    assert i * whole == jaccard * total;
    assert i * whole == i + i * jaccard;
  }

  lemma PartIs(i: real, size: nat)
    requires i >= 0.0 && size > 0
    ensures IsPart(i, size, PartOf(i, size))
  {
    var q := i / size as real;
    assert q * size as real == i;
    assert q > 1.0 ==> q * size as real > size as real;
  }

  lemma UnionSize<T>(a: set<T>, b: set<T>)
    ensures |a + b| + |a * b| == |a| + |b|
  {
    assert a + b == a + (b - a) && b == (b - a) + a * b;
  }

  /** From the exact index, containment is exact too: the shared part of each set. */
  lemma ContainmentIsExact(a: Sketch, b: Sketch, setA: set<uint64>, setB: set<uint64>)
    requires a.distinct == |setA| && b.distinct == |setB| && setA != {} && setB != {}
    ensures ContainmentFrom(a, b, TrueJaccard(setA, setB)) ==
            (Ratio(|setA * setB|, |setA|), Ratio(|setA * setB|, |setB|))
  {
    UnionSize(setA, setB);
    SubsetSize(setA, setA + setB);
    SubsetSize(setA * setB, setA);
    SubsetSize(setA * setB, setB);
    var shared, union := |setA * setB| as real, |setA + setB| as real;
    var j := TrueJaccard(setA, setB);
    assert j == shared / union;
    if |setA * setB| == 0 {
      assert j == 0.0;
    } else {
      assert j > 0.0;
      RecoverShared(shared, union, (a.distinct + b.distinct) as real);
      ContainmentOfShared(a, b, j, |setA * setB|);
    }
  }

  lemma ContainmentOfShared(a: Sketch, b: Sketch, jaccard: real, shared: nat)
    requires a.distinct > 0 && b.distinct > 0 && jaccard > 0.0 && shared <= a.distinct && shared <= b.distinct
    requires SharedFrom(jaccard, (a.distinct + b.distinct) as real) == shared as real
    ensures ContainmentFrom(a, b, jaccard) == (Ratio(shared, a.distinct), Ratio(shared, b.distinct))
  {
    PartOfWhole(shared, a.distinct);
    PartOfWhole(shared, b.distinct);
  }

  lemma PartOfWhole(shared: nat, size: nat)
    requires size > 0 && shared <= size
    ensures PartOf(shared as real, size) == Ratio(shared, size)
  {
    RatioBounds(shared, size);
  }

  lemma RecoverShared(shared: real, union: real, total: real)
    requires union > 0.0 && shared >= 0.0 && total == union + shared
    ensures var j := shared / union; j > 0.0 ==> SharedFrom(j, total) == shared
  {
    var j := shared / union;
    assert j * union == shared;
    assert total == union * (1.0 + j);
    assert j * (union * (1.0 + j)) == (j * union) * (1.0 + j);
  }
}
