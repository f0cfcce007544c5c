/** Bottom-k sketches of a text's shingles (internal/sketch): the smallest hashes of all its
    windows of n runes, and how many distinct windows there are. */
module Sketch {
  import opened Basics
  import opened Utf8
  import H = Heap

  const MAX_UINT64 := 0xFFFF_FFFF_FFFF_FFFF
  type uint64 = x: int | 0 <= x <= MAX_UINT64

  const DEFAULT_N := 5
  const DEFAULT_K := 128
  const EXACT_SHINGLE_LIMIT := 5000

  datatype Sketch = Sketch(n: int, distinct: nat, values: seq<uint64>)

  predicate Complete(s: Sketch) {
    |s.values| == s.distinct
  }

  // ---------- Windows ----------

  function Window(s: seq<byte>, n: nat, i: nat): seq<byte>
    requires i + n <= |RuneStarts(s, 0)|
  {
    StartOfOrdered(s, i, i + n);
    s[StartOf(s, i)..StartOf(s, i + n)]
  }

  /** The hashes of all windows of n runes, in order. */
  function WindowHashes(s: seq<byte>, n: nat, hash: seq<byte> -> uint64): seq<uint64> {
    var runes := |RuneStarts(s, 0)|;
    if n < 1 || runes < n then []
      else seq<uint64>(runes - n + 1, i requires 0 <= i <= runes - n => hash(Window(s, n, i)))
  }

  /** A window is n runes long, and there is one for each rune that n runes start from. */
  lemma WindowsHoldNRunes(s: seq<byte>, n: nat, hash: seq<byte> -> uint64)
    requires n >= 1
    ensures forall i :: 0 <= i <= |RuneStarts(s, 0)| - n ==> RuneCount(Window(s, n, i)) == n
    ensures |WindowHashes(s, n, hash)| == if RuneCount(s) < n then 0 else RuneCount(s) - n + 1
  {
    assert s[0..] == s;
    RuneStartsCount(s, 0);
    forall i | 0 <= i <= |RuneStarts(s, 0)| - n ensures RuneCount(Window(s, n, i)) == n {
      SliceRunes(s, i, i + n);
    }
  }

  /** Hashes every window once, in order, remembering only the last n rune starts in a ring. */
  method EachShingle(s: seq<byte>, n: int, hash: seq<byte> -> uint64) returns (hashes: seq<uint64>)
    ensures n < 1 ==> hashes == []
    ensures n >= 1 ==> hashes == WindowHashes(s, n, hash)
  {
    hashes := [];
    if n < 1 || s == [] {
      return;
    }
    var ring := new nat[n];
    var count, offset := 0, 0;
    ghost var at := Boundaries(s);
    while offset < |s|
      invariant count < |at| && offset == at[count]
      invariant RingHolds(ring[..], at, count)
      invariant Emitted(hashes, s, n, hash, at, count)
    {
      if count >= n {
        var oldest := Oldest(ring, count, at);
        hashes := Emit(hashes, s, n, hash, oldest, offset, at, count);
      }
      Remember(ring, offset, count, at);
      count := count + 1;
      offset := offset + RuneSize(s[offset..]);
    }
    if count >= n {
      var oldest := Oldest(ring, count, at);
      hashes := Emit(hashes, s, n, hash, oldest, |s|, at, count);
    }
    AllWindows(s, n, hash, at, hashes);
  }

  /** All windows but the last among the first `count` runes have been hashed. */
  ghost predicate Emitted(hashes: seq<uint64>, s: seq<byte>, n: nat, hash: seq<byte> -> uint64, at: seq<nat>,
                          count: nat)
    requires count <= |at| && n >= 1
  {
    && |hashes| == (if count > n then count - n else 0)
    && forall i {:trigger hashes[i]} :: 0 <= i < |hashes| ==> hashes[i] == hash(Slice(s, at[i], at[i + n]))
  }

  function Slice(s: seq<byte>, from: nat, to: nat): seq<byte> {
    if from <= to <= |s| then s[from..to] else []
  }

  method Emit(hashes: seq<uint64>, s: seq<byte>, n: nat, hash: seq<byte> -> uint64, from: nat, to: nat,
              ghost at: seq<nat>, ghost count: nat)
    returns (r: seq<uint64>)
    requires 1 <= n <= count < |at| && Emitted(hashes, s, n, hash, at, count)
    requires from == at[count - n] && to == at[count] && from <= to <= |s|
    ensures Emitted(r, s, n, hash, at, count + 1)
  {
    r := hashes + [hash(s[from..to])];
  }

  lemma AllWindows(s: seq<byte>, n: nat, hash: seq<byte> -> uint64, at: seq<nat>, hashes: seq<uint64>)
    requires n >= 1 && |at| == |RuneStarts(s, 0)| + 1
    requires forall i :: 0 <= i < |at| ==> at[i] == StartOf(s, i)
    requires forall i, j :: 0 <= i < j < |at| ==> at[i] < at[j] <= |s|
    requires Emitted(hashes, s, n, hash, at, |at|)
    ensures hashes == WindowHashes(s, n, hash)
  {
    forall i | 0 <= i < |hashes| ensures hashes[i] == hash(Window(s, n, i)) {}
  }

  /** The ring holds the starts of the last n runes seen. */
  ghost predicate RingHolds(ring: seq<nat>, at: seq<nat>, count: nat)
    requires |ring| > 0 && count <= |at|
  {
    forall j {:trigger HeldAt(ring, at, j)} :: 0 <= j < count && count - |ring| <= j ==> HeldAt(ring, at, j)
  }

  ghost predicate HeldAt(ring: seq<nat>, at: seq<nat>, j: nat)
    requires |ring| > 0 && j < |at|
  {
    ring[j % |ring|] == at[j]
  }

  lemma RingKeeps(ring: seq<nat>, at: seq<nat>, count: nat)
    requires |ring| > 0 && count < |at| && RingHolds(ring, at, count)
    ensures RingHolds(ring[count % |ring| := at[count]], at, count + 1)
  {
    forall j {:trigger HeldAt(ring[count % |ring| := at[count]], at, j)} | 0 <= j < count && count + 1 - |ring| <= j
      ensures HeldAt(ring[count % |ring| := at[count]], at, j)
    {
      assert HeldAt(ring, at, j);
      DistinctSlots(j, count, |ring|);
    }
  }

  method Oldest(ring: array<nat>, count: nat, ghost at: seq<nat>) returns (start: nat)
    requires 0 < ring.Length <= count <= |at| && RingHolds(ring[..], at, count)
    ensures start == at[count - ring.Length]
  {
    assert HeldAt(ring[..], at, count - ring.Length);
    start := ring[(count - ring.Length) % ring.Length];
  }

  method Remember(ring: array<nat>, offset: nat, count: nat, ghost at: seq<nat>)
    requires 0 < ring.Length && count < |at| && offset == at[count] && RingHolds(ring[..], at, count)
    modifies ring
    ensures RingHolds(ring[..], at, count + 1)
  {
    RingKeeps(ring[..], at, count);
    ring[count % ring.Length] := offset;
  }

  lemma DistinctSlots(j: nat, k: nat, n: nat)
    requires n > 0 && j < k < j + n
    ensures j % n != k % n
  {
    var d := k - j;
    var q, r := k / n, k % n;
    if d <= r {
      ModUnique(j, q, r - d, n);
    } else {
      ModUnique(j, q - 1, r - d + n, n);
    }
  }

  lemma ModUnique(x: int, q: int, r: int, n: int)
    requires n > 0 && 0 <= r < n && x == q * n + r
    ensures x % n == r
  {
    var q' := x / n;
    if q > q' {
      AtLeast(q - q', n);
    } else if q < q' {
      AtLeast(q' - q, n);
    }
  }

  lemma AtLeast(k: int, n: int)
    requires k >= 1 && n >= 0
    ensures k * n >= n
  {}

  // ---------- The smallest hashes ----------

  ghost predicate Ascending(values: seq<uint64>) {
    forall i, j :: 0 <= i < j < |values| ==> values[i] < values[j]
  }

  function Elements(values: seq<uint64>): set<uint64> {
    set v | v in values
  }

  function Min(a: nat, b: nat): nat { if a < b then a else b }

  /** kept holds the k smallest members of all, or all of them when there are fewer. */
  ghost predicate Smallest(kept: set<uint64>, all: set<uint64>, k: nat) {
    && kept <= all && |kept| == Min(k, |all|)
    && forall h, v :: h in all && h !in kept && v in kept ==> v < h
  }

  /** The bottom-k sketch of a set of hashes. */
  ghost predicate IsBottom(values: seq<uint64>, all: set<uint64>, k: nat) {
    Ascending(values) && Smallest(Elements(values), all, k)
  }

  lemma {:induction false} AscendingSize(values: seq<uint64>)
    requires Ascending(values)
    ensures |Elements(values)| == |values|
  {
    if values != [] {
      var last := |values| - 1;
      AscendingSize(values[..last]);
      assert values == values[..last] + [values[last]];
      assert Elements(values) == Elements(values[..last]) + {values[last]};
      assert values[last] !in values[..last];
    }
  }

  /** The smallest k are one set: two ways of choosing them choose the same. */
  lemma SmallestUnique(a: set<uint64>, b: set<uint64>, all: set<uint64>, k: nat)
    requires Smallest(a, all, k) && Smallest(b, all, k)
    ensures a == b
  {
    if x :| x in a && x !in b {
      forall y | y in b ensures y in a {
        assert y !in a ==> x < y && y < x;
      }
      SubsetOfEqualSize(b, a);
    } else {
      SubsetOfEqualSize(a, b);
    }
  }

  lemma SubsetOfEqualSize<T>(a: set<T>, b: set<T>)
    requires a <= b && |a| == |b|
    ensures a == b
  {
    assert |b| == |a| + |b - a| by { assert b == a + (b - a); }
    assert b - a == {};
  }

  /** IsBottom pins the sketch down completely. */
  lemma BottomUnique(a: seq<uint64>, b: seq<uint64>, all: set<uint64>, k: nat)
    requires IsBottom(a, all, k) && IsBottom(b, all, k)
    ensures a == b
  {
    SmallestUnique(Elements(a), Elements(b), all, k);
    AscendingDetermined(a, b);
  }

  lemma {:induction false} AscendingDetermined(a: seq<uint64>, b: seq<uint64>)
    requires Ascending(a) && Ascending(b) && Elements(a) == Elements(b)
    ensures a == b
  {
    AscendingSize(a);
    AscendingSize(b);
    if a != [] {
      var last := |a| - 1;
      assert a[last] in Elements(b) && b[last] in Elements(a);
      assert a[last] == b[last];
      assert Elements(a[..last]) == Elements(a) - {a[last]} by {
        assert a == a[..last] + [a[last]];
      }
      assert Elements(b[..last]) == Elements(b) - {b[last]} by {
        assert b == b[..last] + [b[last]];
      }
      AscendingDetermined(a[..last], b[..last]);
      assert a == a[..last] + [a[last]] && b == b[..last] + [b[last]];
    }
  }

  // ---------- Building ----------

  lemma SmallestGrows(kept: set<uint64>, seen: set<uint64>, k: nat, h: uint64)
    requires Smallest(kept, seen, k) && |kept| < k && h !in seen
    ensures Smallest(kept + {h}, seen + {h}, k)
  {
    SubsetOfEqualSize(kept, seen);
  }

  lemma SmallestReplaces(kept: set<uint64>, seen: set<uint64>, k: nat, largest: uint64, h: uint64)
    requires Smallest(kept, seen, k) && |kept| == k && h !in seen && largest in kept
    requires forall v <- kept :: v <= largest
    ensures Smallest(if h < largest then kept - {largest} + {h} else kept, seen + {h}, k)
  {}

  ghost predicate Ordered(values: seq<uint64>) {
    forall i, j :: 0 <= i < j < |values| ==> values[i] <= values[j]
  }

  /** slices.Sort on the kept hashes. */
  method Sorted(items: seq<uint64>) returns (values: seq<uint64>)
    ensures multiset(values) == multiset(items) && Ordered(values)
  {
    values := [];
    for i := 0 to |items|
      invariant multiset(values) == multiset(items[..i]) && Ordered(values)
    {
      values := InsertOrdered(values, items[i]);
      assert items[..i + 1] == items[..i] + [items[i]];
    }
    assert items[..|items|] == items;
  }

  method InsertOrdered(values: seq<uint64>, v: uint64) returns (r: seq<uint64>)
    requires Ordered(values)
    ensures Ordered(r) && multiset(r) == multiset(values) + multiset{v}
  {
    var at := |values|;
    while at > 0 && values[at - 1] > v
      invariant 0 <= at <= |values|
      invariant forall p :: at <= p < |values| ==> values[p] > v
    {
      at := at - 1;
    }
    r := values[..at] + [v] + values[at..];
    Inserted(values, at, v);
    forall i, j | 0 <= i < j < |r| ensures r[i] <= r[j] {
      assert r[i] == if i < at then values[i] else if i == at then v else values[i - 1];
      assert r[j] == if j < at then values[j] else if j == at then v else values[j - 1];
      if j == at && i < at - 1 {
        assert values[i] <= values[at - 1];
      }
    }
  }

  lemma DistinctAscends(values: seq<uint64>, kept: set<uint64>)
    requires multiset(values) == multiset(kept)
    requires Ordered(values)
    ensures Ascending(values) && Elements(values) == kept
  {
    forall v ensures v in Elements(values) <==> v in kept {
      assert v in values <==> v in multiset(values);
      assert v in kept <==> v in multiset(kept);
    }
    forall i, j | 0 <= i < j < |values| ensures values[i] != values[j] {
      assert multiset(kept)[values[i]] <= 1;
      assert values == values[..j] + [values[j]] + values[j + 1..];
      assert values[i] in multiset(values[..j]) by { assert values[i] == values[..j][i]; }
    }
  }

  /** Keeps the k smallest distinct hashes in a heap whose root is the largest kept. */
  method KeepSmallest(hashes: seq<uint64>, k: nat) returns (values: seq<uint64>, distinct: nat)
    requires k >= 1
    ensures distinct == |Elements(hashes)|
    ensures IsBottom(values, Elements(hashes), k)
  {
    var seen: set<uint64> := {};
    var less := (a: uint64, b: uint64) => a > b;
    var bottom := new H.Heap<uint64>.From([], less);
    ghost var kept: set<uint64> := {};
    for i := 0 to |hashes|
      invariant fresh(bottom) && bottom.Valid() && MaxFirst(bottom)
      invariant seen == Elements(hashes[..i])
      invariant multiset(bottom.items) == multiset(kept) && Smallest(kept, seen, k)
    {
      assert hashes[..i + 1] == hashes[..i] + [hashes[i]];
      if hashes[i] !in seen {
        kept := Offer(bottom, k, hashes[i], seen, kept);
        seen := seen + {hashes[i]};
      }
    }
    assert hashes[..|hashes|] == hashes;
    values := Sorted(bottom.items);
    DistinctAscends(values, kept);
    distinct := |seen|;
  }

  ghost predicate MaxFirst(bottom: H.Heap<uint64>) {
    forall a, b :: bottom.less(a, b) <==> a > b
  }

  lemma Exchanged<T>(after: multiset<T>, before: multiset<T>, gone: T, come: T)
    requires after + multiset{gone} == before + multiset{come} && gone in before
    ensures after == before - multiset{gone} + multiset{come}
  {
    forall x ensures after[x] == (before - multiset{gone} + multiset{come})[x] {
      assert (after + multiset{gone})[x] == (before + multiset{come})[x];
    }
  }

  /** Offers a new hash to the heap: taken while there is room, or in place of the largest. */
  method Offer(bottom: H.Heap<uint64>, k: nat, hash: uint64, ghost seen: set<uint64>, ghost kept: set<uint64>)
    returns (ghost kept': set<uint64>)
    requires k >= 1 && bottom.Valid() && MaxFirst(bottom) && hash !in seen
    requires multiset(bottom.items) == multiset(kept) && Smallest(kept, seen, k)
    modifies bottom
    ensures bottom.Valid()
    ensures multiset(bottom.items) == multiset(kept') && Smallest(kept', seen + {hash}, k)
  {
    assert |bottom.items| == |multiset(bottom.items)| == |kept|;
    kept' := kept;
    if |bottom.items| < k {
      SmallestGrows(kept, seen, k, hash);
      bottom.Push(hash);
      kept' := kept + {hash};
      assert multiset(kept') == multiset(kept) + multiset{hash};
      return;
    }
    var largest := bottom.Peek();
    assert largest.value in multiset(bottom.items);
    forall v | v in kept ensures v <= largest.value {
      assert v in multiset(bottom.items) && v in bottom.items;
      assert !bottom.less(v, largest.value);
    }
    ghost var before := bottom.items;
    SmallestReplaces(kept, seen, k, largest.value, hash);
    if hash < largest.value {
      var dropped := bottom.Replace(hash);
      assert largest.value in before && !bottom.less(largest.value, dropped.value);
      assert dropped.value in multiset(before) + multiset{hash};
      assert dropped.value == largest.value;
      kept' := kept - {largest.value} + {hash};
      assert multiset(kept') == multiset(kept) - multiset{largest.value} + multiset{hash};
      Exchanged(multiset(bottom.items), multiset(before), largest.value, hash);
    }
  }

  /** The sketch of a text: exactly the k smallest hashes of its n-rune windows, ascending, and
      the number of distinct hashes; widths and sizes below one fall back to the defaults. */
  method Build(normalized: seq<byte>, n: int, k: int, hash: seq<byte> -> uint64) returns (r: Sketch)
    ensures r.n == if n < 1 then DEFAULT_N else n
    ensures var all := Elements(WindowHashes(normalized, r.n, hash));
            r.distinct == |all| && IsBottom(r.values, all, if k < 1 then DEFAULT_K else k)
  {
    var width := if n < 1 then DEFAULT_N else n;
    var size := if k < 1 then DEFAULT_K else k;
    var hashes := EachShingle(normalized, width, hash);
    var values, distinct := KeepSmallest(hashes, size);
    return Sketch(width, distinct, values);
  }

  /** Short texts keep every hash: their sketch is complete. */
  method BuildDefault(normalized: seq<byte>, hash: seq<byte> -> uint64) returns (r: Sketch)
    ensures r.n == DEFAULT_N && r.distinct == |Elements(WindowHashes(normalized, DEFAULT_N, hash))|
    ensures RuneCount(normalized) < EXACT_SHINGLE_LIMIT ==>
      Complete(r) && Ascending(r.values) && Elements(r.values) == Elements(WindowHashes(normalized, DEFAULT_N, hash))
    ensures RuneCount(normalized) >= EXACT_SHINGLE_LIMIT ==>
      IsBottom(r.values, Elements(WindowHashes(normalized, DEFAULT_N, hash)), DEFAULT_K)
  {
    var k := DEFAULT_K;
    var size := RuneCount(normalized);
    if size < EXACT_SHINGLE_LIMIT {
      k := size + 1;
    }
    r := Build(normalized, DEFAULT_N, k, hash);
    WindowsHoldNRunes(normalized, DEFAULT_N, hash);
    ElementsAtMost(WindowHashes(normalized, DEFAULT_N, hash));
    AscendingSize(r.values);
    if size < EXACT_SHINGLE_LIMIT {
      SubsetOfEqualSize(Elements(r.values), Elements(WindowHashes(normalized, DEFAULT_N, hash)));
    }
  }

  lemma {:induction false} ElementsAtMost(values: seq<uint64>)
    ensures |Elements(values)| <= |values|
  {
    if values != [] {
      ElementsAtMost(values[1..]);
      assert Elements(values) == {values[0]} + Elements(values[1..]);
    }
  }
}
