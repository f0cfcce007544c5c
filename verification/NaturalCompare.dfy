/** The order of the pages in a comic archive (internal/cbz/cbz.go): text byte by byte, runs of
    digits by their value, the names as given as the last word. Letter case is folded by a function
    that is a parameter here. */
module NaturalCompare {
  import opened Lex

  type Bytes = seq<int>

  predicate Digit(c: int) {
    '0' as int <= c <= '9' as int
  }

  // ---------- Runs of digits and their values ----------

  function Run(s: Bytes): (n: nat)
    ensures n <= |s| && (forall i :: 0 <= i < n ==> Digit(s[i])) && (n < |s| ==> !Digit(s[n]))
  {
    if s != [] && Digit(s[0]) then 1 + Run(s[1..]) else 0
  }

  function Power(n: nat): (p: nat)
    ensures p > 0
  {
    if n == 0 then 1 else 10 * Power(n - 1)
  }

  /** The number a run of digits spells, however long. */
  function Value(digits: Bytes): int {
    if digits == [] then 0 else 10 * Value(digits[..|digits| - 1]) + digits[|digits| - 1] - '0' as int
  }

  predicate AllDigits(s: Bytes) {
    forall c <- s :: Digit(c)
  }

  function WithoutZeros(s: Bytes): (t: Bytes)
    ensures AllDigits(s) ==> AllDigits(t)
    ensures t == [] || t[0] != '0' as int
  {
    if s != [] && s[0] == '0' as int then WithoutZeros(s[1..]) else s
  }

  lemma {:induction false} ZeroAddsNothing(s: Bytes)
    requires s != [] && s[0] == '0' as int
    ensures Value(s) == Value(s[1..])
  {
    var n := |s| - 1;
    if n > 0 {
      ZeroAddsNothing(s[..n]);
      assert s[..n][1..] == s[1..][..n - 1];
    }
  }

  lemma {:induction false} ZerosAddNothing(s: Bytes)
    ensures Value(WithoutZeros(s)) == Value(s)
  {
    if s != [] && s[0] == '0' as int {
      ZeroAddsNothing(s);
      ZerosAddNothing(s[1..]);
    }
  }

  lemma {:induction false} ValueBounds(s: Bytes)
    requires AllDigits(s)
    ensures 0 <= Value(s) < Power(|s|)
    ensures s != [] && s[0] != '0' as int ==> Power(|s| - 1) <= Value(s)
  {
    if s != [] {
      ValueBounds(s[..|s| - 1]);
      assert s[|s| - 1] in s && s[0] in s;
    }
  }

  lemma {:induction false} PowerGrows(m: nat, n: nat)
    requires m <= n
    ensures Power(m) <= Power(n)
  {
    if m < n {
      PowerGrows(m, n - 1);
    }
  }

  lemma ShorterIsSmaller(x: Bytes, y: Bytes)
    requires AllDigits(x) && AllDigits(y) && |x| < |y| && y[0] != '0' as int
    ensures Value(x) < Value(y)
  {
    ValueBounds(x);
    ValueBounds(y);
    PowerGrows(|x|, |y| - 1);
  }

  function Sign(n: int): int {
    if n < 0 then -1 else if n > 0 then 1 else 0
  }

  lemma {:induction false} LastByteDecidesLast(x: Bytes, y: Bytes)
    requires |x| == |y| > 0
    ensures var n := |x| - 1;
            Compare(x, y) == if Compare(x[..n], y[..n]) != 0 then Compare(x[..n], y[..n]) else Sign(x[n] - y[n])
  {
    var n := |x| - 1;
    if n > 0 {
      LastByteDecidesLast(x[1..], y[1..]);
      assert x[1..][..n - 1] == x[..n][1..] && y[1..][..n - 1] == y[..n][1..];
    }
  }

  lemma {:induction false} SameLengthByBytes(x: Bytes, y: Bytes)
    requires AllDigits(x) && AllDigits(y) && |x| == |y|
    ensures Compare(x, y) == Sign(Value(x) - Value(y))
  {
    if x != [] {
      var n := |x| - 1;
      SameLengthByBytes(x[..n], y[..n]);
      LastByteDecidesLast(x, y);
      assert x[n] in x && y[n] in y;
    }
  }

  // ---------- The key a name is sorted by ----------

  /** A byte of text stands for itself; a run of digits for the digits' place among bytes, and then
      its value. */
  function SortKey(s: Bytes): (key: seq<int>)
    ensures key == [] <==> s == []
    decreases |s|
  {
    if s == [] then []
    else if Digit(s[0]) then ['0' as int, Value(s[..Run(s)])] + SortKey(s[Run(s)..])
    else [s[0]] + SortKey(s[1..])
  }

  function Order(fold: Bytes -> Bytes, a: Bytes, b: Bytes): int {
    var c := Compare(SortKey(fold(a)), SortKey(fold(b)));
    if c != 0 then c else Compare(a, b)
  }

  lemma AfterNumbers(v: int, w: int, a: seq<int>, b: seq<int>)
    ensures Compare(['0' as int, v] + a, ['0' as int, w] + b) == if v != w then Sign(v - w) else Compare(a, b)
  {
    var x, y := ['0' as int, v] + a, ['0' as int, w] + b;
    assert x[1..] == [v] + a && y[1..] == [w] + b;
    assert ([v] + a)[1..] == a && ([w] + b)[1..] == b;
  }

  lemma KeyOfNumber(s: Bytes)
    requires s != [] && Digit(s[0])
    ensures SortKey(s) == ['0' as int, Value(s[..Run(s)])] + SortKey(s[Run(s)..])
  {}

  lemma KeysByNumber(a: Bytes, b: Bytes)
    requires a != [] && b != [] && Digit(a[0]) && Digit(b[0])
    ensures Compare(SortKey(a), SortKey(b)) ==
      var c := Sign(Value(a[..Run(a)]) - Value(b[..Run(b)]));
      if c != 0 then c else Compare(SortKey(a[Run(a)..]), SortKey(b[Run(b)..]))
  {
    KeyOfNumber(a);
    KeyOfNumber(b);
    AfterNumbers(Value(a[..Run(a)]), Value(b[..Run(b)]), SortKey(a[Run(a)..]), SortKey(b[Run(b)..]));
  }

  lemma KeysByText(a: Bytes, b: Bytes)
    requires a != [] && b != [] && !(Digit(a[0]) && Digit(b[0]))
    ensures Compare(SortKey(a), SortKey(b)) ==
      var c := Sign(a[0] - b[0]);
      if c != 0 then c else Compare(SortKey(a[1..]), SortKey(b[1..]))
  {}

  /** How far a loop over the leading digits goes. */
  method CountDigits(s: Bytes) returns (n: nat)
    ensures n == Run(s)
  {
    n := 0;
    while n < |s| && Digit(s[n])
      invariant n <= |s| && Run(s) == n + Run(s[n..])
    {
      assert s[n..][1..] == s[n + 1..];
      n := n + 1;
    }
  }

  /** Two runs of digits by length without leading zeros, then by bytes: which is by value. */
  method CompareRuns(a: Bytes, b: Bytes) returns (c: int)
    requires AllDigits(a) && AllDigits(b)
    ensures c == Sign(Value(a) - Value(b))
  {
    var x, y := WithoutZeros(a), WithoutZeros(b);
    ZerosAddNothing(a);
    ZerosAddNothing(b);
    if |x| < |y| {
      ShorterIsSmaller(x, y);
      return -1;
    } else if |x| > |y| {
      ShorterIsSmaller(y, x);
      return 1;
    }
    SameLengthByBytes(x, y);
    return Compare(x, y);
  }

  method NaturalCompare(fold: Bytes -> Bytes, originalA: Bytes, originalB: Bytes) returns (c: int)
    ensures c == Order(fold, originalA, originalB)
  {
    var a, b := fold(originalA), fold(originalB);
    ghost var byKeys := Compare(SortKey(a), SortKey(b));
    while |a| > 0 && |b| > 0
      invariant byKeys == Compare(SortKey(a), SortKey(b))
      decreases |a|
    {
      if Digit(a[0]) && Digit(b[0]) {
        KeysByNumber(a, b);
        var i := CountDigits(a);
        var j := CountDigits(b);
        c := CompareRuns(a[..i], b[..j]);
        if c != 0 {
          return;
        }
        a, b := a[i..], b[j..];
      } else {
        KeysByText(a, b);
        if a[0] != b[0] {
          return if a[0] < b[0] then -1 else 1;
        }
        a, b := a[1..], b[1..];
      }
    }
    c := Compare(a, b);
    if c == 0 {
      c := Compare(originalA, originalB);
    }
  }

  // ---------- What comes first ----------

  /** How a number is written. */
  function Decimal(n: nat): Bytes {
    (if n < 10 then [] else Decimal(n / 10)) + ['0' as int + n % 10]
  }

  function Zeros(n: nat): Bytes {
    seq(n, _ => '0' as int)
  }

  lemma DigitsAreDecimals(c: int)
    ensures Digit(c) <==> exists n: nat :: n < 10 && Decimal(n) == [c]
  {
    if Digit(c) {
      assert Decimal(c - '0' as int) == [c];
    }
    forall n: nat | n < 10 ensures Digit(Decimal(n)[0]) {}
  }

  lemma {:induction false} DecimalReadsBack(n: nat)
    ensures AllDigits(Decimal(n)) && Value(Decimal(n)) == n
  {
    if n >= 10 {
      DecimalReadsBack(n / 10);
      assert Decimal(n)[..|Decimal(n)| - 1] == Decimal(n / 10);
    }
  }

  lemma {:induction false} NumeralReadsBack(zeros: nat, n: nat)
    ensures AllDigits(Zeros(zeros) + Decimal(n)) && Value(Zeros(zeros) + Decimal(n)) == n
  {
    DecimalReadsBack(n);
    if zeros == 0 {
      assert Zeros(0) + Decimal(n) == Decimal(n);
    } else {
      NumeralReadsBack(zeros - 1, n);
      ZeroAddsNothing(Zeros(zeros) + Decimal(n));
      assert (Zeros(zeros) + Decimal(n))[1..] == Zeros(zeros - 1) + Decimal(n);
    }
  }

  /** No run of digits goes across. */
  predicate Apart(s: Bytes, t: Bytes) {
    s == [] || t == [] || !Digit(s[|s| - 1]) || !Digit(t[0])
  }

  lemma {:induction false} RunOfDigits(s: Bytes, t: Bytes)
    requires AllDigits(s) && (t == [] || !Digit(t[0]))
    ensures Run(s + t) == |s|
  {
    if s == [] {
      assert s + t == t;
    } else {
      assert s[0] in s && (s + t)[1..] == s[1..] + t;
      RunOfDigits(s[1..], t);
    }
  }

  lemma KeyAfterNumber(s: Bytes, t: Bytes)
    requires s != [] && AllDigits(s) && (t == [] || !Digit(t[0]))
    ensures SortKey(s + t) == ['0' as int, Value(s)] + SortKey(t)
  {
    RunOfDigits(s, t);
    assert s[0] in s && (s + t)[..|s|] == s && (s + t)[|s|..] == t;
    KeyOfNumber(s + t);
  }

  lemma KeyAfterByte(c: int, t: Bytes)
    requires !Digit(c)
    ensures SortKey([c] + t) == [c] + SortKey(t)
  {
    assert ([c] + t)[1..] == t;
  }

  ghost predicate Joins(s: Bytes, t: Bytes) {
    SortKey(s + t) == SortKey(s) + SortKey(t)
  }

  lemma {:induction false} KeysJoin(s: Bytes, t: Bytes)
    requires Apart(s, t)
    ensures Joins(s, t)
    decreases |s|
  {
    if s == [] {
      assert s + t == t;
    } else {
      var n := if Digit(s[0]) then Run(s) else 1;
      var head, rest := s[..n], s[n..];
      assert s == head + rest && Apart(rest, t);
      KeysJoin(rest, t);
      if Digit(s[0]) {
        NumberJoins(head, rest, t);
      } else {
        assert head == [s[0]];
        ByteJoins(s[0], rest, t);
      }
    }
  }

  lemma Associate(a: seq<int>, b: seq<int>, c: seq<int>)
    ensures a + b + c == a + (b + c)
  {}

  lemma ByteJoins(c: int, u: Bytes, t: Bytes)
    requires !Digit(c) && Joins(u, t)
    ensures Joins([c] + u, t)
  {
    Associate([c], u, t);
    KeyAfterByte(c, u);
    KeyAfterByte(c, u + t);
    Associate([c], SortKey(u), SortKey(t));
  }

  lemma NumberJoins(d: Bytes, u: Bytes, t: Bytes)
    requires d != [] && AllDigits(d) && (u == [] || !Digit(u[0])) && (u == [] && t != [] ==> !Digit(t[0]))
    requires Joins(u, t)
    ensures Joins(d + u, t)
  {
    Associate(d, u, t);
    assert u + t != [] ==> (u + t)[0] == if u != [] then u[0] else t[0];
    KeyAfterNumber(d, u);
    KeyAfterNumber(d, u + t);
    Associate(['0' as int, Value(d)], SortKey(u), SortKey(t));
  }

  lemma {:induction false} SamePrefix(p: seq<int>, s: seq<int>, t: seq<int>)
    ensures Compare(p + s, p + t) == Compare(s, t)
  {
    if p == [] {
      assert p + s == s && p + t == t;
    } else {
      assert (p + s)[1..] == p[1..] + s && (p + t)[1..] == p[1..] + t;
      SamePrefix(p[1..], s, t);
    }
  }

  lemma SamePrefixKeys(p: Bytes, s: Bytes, t: Bytes)
    requires Apart(p, s) && Apart(p, t)
    ensures Compare(SortKey(p + s), SortKey(p + t)) == Compare(SortKey(s), SortKey(t))
  {
    KeysJoin(p, s);
    KeysJoin(p, t);
    assert Joins(p, s) && Joins(p, t);
    SamePrefix(SortKey(p), SortKey(s), SortKey(t));
  }

  /** After the same beginning the smaller number comes first, however many zeros lead either; zeros
      alone leave it to the names as given. */
  lemma NumbersByValue(fold: Bytes -> Bytes, a: Bytes, b: Bytes, p: Bytes, y: nat, z: nat, m: nat, n: nat,
                       r: Bytes, t: Bytes)
    requires fold(a) == p + (Zeros(y) + Decimal(m) + r) && fold(b) == p + (Zeros(z) + Decimal(n) + t)
    requires (p == [] || !Digit(p[|p| - 1])) && (r == [] || !Digit(r[0])) && (t == [] || !Digit(t[0]))
    ensures m < n ==> Order(fold, a, b) == -1
    ensures m == n && r == t ==> Order(fold, a, b) == Compare(a, b)
  {
    var s, u := Zeros(y) + Decimal(m), Zeros(z) + Decimal(n);
    SamePrefixKeys(p, s + r, u + t);
    NumeralReadsBack(y, m);
    NumeralReadsBack(z, n);
    KeyAfterNumber(s, r);
    KeyAfterNumber(u, t);
    AfterNumbers(m, n, SortKey(r), SortKey(t));
    ZeroMeansEqual(SortKey(r), SortKey(t));
  }

  /** After the same beginning the smaller byte comes first, and nothing before anything. */
  lemma TextByBytes(fold: Bytes -> Bytes, a: Bytes, b: Bytes, p: Bytes, s: Bytes, t: Bytes)
    requires fold(a) == p + s && fold(b) == p + t && Apart(p, s) && Apart(p, t)
    ensures s == [] && t != [] ==> Order(fold, a, b) == -1
    ensures s != [] && t != [] && !(Digit(s[0]) && Digit(t[0])) && s[0] < t[0] ==> Order(fold, a, b) == -1
    ensures s == t ==> Order(fold, a, b) == Compare(a, b)
  {
    SamePrefixKeys(p, s, t);
    ZeroMeansEqual(SortKey(s), SortKey(t));
    if s != [] && t != [] && !(Digit(s[0]) && Digit(t[0])) {
      KeysByText(s, t);
    }
  }

  // ---------- A total order ----------

  lemma ZeroOnlyOnTheSameName(fold: Bytes -> Bytes, a: Bytes, b: Bytes)
    ensures Order(fold, a, b) == 0 <==> a == b
  {
    ZeroMeansEqual(a, b);
    ZeroMeansEqual(SortKey(fold(a)), SortKey(fold(b)));
  }

  lemma OrderIsAntisymmetric(fold: Bytes -> Bytes, a: Bytes, b: Bytes)
    ensures Order(fold, b, a) == -Order(fold, a, b)
  {
    Antisymmetric(a, b);
    Antisymmetric(SortKey(fold(a)), SortKey(fold(b)));
  }

  lemma OrderIsTransitive(fold: Bytes -> Bytes, a: Bytes, b: Bytes, c: Bytes)
    requires Order(fold, a, b) <= 0 && Order(fold, b, c) <= 0
    ensures Order(fold, a, c) <= 0
  {
    var x, y, z := SortKey(fold(a)), SortKey(fold(b)), SortKey(fold(c));
    Transitive(x, y, z);
    Transitive(a, b, c);
    ZeroMeansEqual(x, y);
    ZeroMeansEqual(y, z);
    ZeroMeansEqual(x, z);
  }

  ghost predicate Sorted(fold: Bytes -> Bytes, pages: seq<Bytes>) {
    forall i, j :: 0 <= i < j < |pages| ==> Order(fold, pages[i], pages[j]) <= 0
  }

  lemma RestOf(p: seq<Bytes>)
    requires p != []
    ensures p == [p[0]] + p[1..] && multiset(p[1..]) == multiset(p) - multiset{p[0]}
  {}

  lemma FirstIsLeast(fold: Bytes -> Bytes, p: seq<Bytes>, name: Bytes)
    requires Sorted(fold, p) && name in multiset(p)
    ensures Order(fold, p[0], name) <= 0
  {
    var i :| 0 <= i < |p| && p[i] == name;
    ZeroOnlyOnTheSameName(fold, name, name);
  }

  lemma SameFirst(fold: Bytes -> Bytes, p: seq<Bytes>, q: seq<Bytes>)
    requires Sorted(fold, p) && Sorted(fold, q) && multiset(p) == multiset(q) && p != [] && q != []
    ensures p[0] == q[0]
  {
    assert p[0] in multiset(p) && q[0] in multiset(q);
    FirstIsLeast(fold, p, q[0]);
    FirstIsLeast(fold, q, p[0]);
    OrderIsAntisymmetric(fold, p[0], q[0]);
    ZeroOnlyOnTheSameName(fold, p[0], q[0]);
  }

  /** The pages of an archive have one order, whatever order the archive lists them in. */
  lemma {:induction false} PageOrderIsUnique(fold: Bytes -> Bytes, p: seq<Bytes>, q: seq<Bytes>)
    requires Sorted(fold, p) && Sorted(fold, q) && multiset(p) == multiset(q)
    ensures p == q
  {
    assert |p| == |multiset(p)| && |q| == |multiset(q)|;
    if p != [] {
      SameFirst(fold, p, q);
      RestOf(p);
      RestOf(q);
      PageOrderIsUnique(fold, p[1..], q[1..]);
    }
  }
}
