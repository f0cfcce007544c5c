/** UTF-8 as section 4 of RFC 3629 defines it, and the counting Go's unicode/utf8 does with it:
    a well-formed sequence is one rune, any other byte is one rune of its own. */
module Utf8 {
  type byte = x: int | 0 <= x < 256

  // ---------- The syntax of section 4 ----------

  predicate Tail(b: byte) {
    0x80 <= b <= 0xBF
  }

  /** The length a leading byte announces; 0 when no sequence starts with it. */
  function SequenceLength(b: byte): (n: nat)
    ensures n <= 4
  {
    if b <= 0x7F then 1
    else if 0xC2 <= b <= 0xDF then 2
    else if 0xE0 <= b <= 0xEF then 3
    else if 0xF0 <= b <= 0xF4 then 4
    else 0
  }

  /** Overlong forms, surrogates and values past U+10FFFF are excluded at the second byte. */
  predicate SecondByte(first: byte, second: byte) {
    if first == 0xE0 then 0xA0 <= second <= 0xBF
    else if first == 0xED then 0x80 <= second <= 0x9F
    else if first == 0xF0 then 0x90 <= second <= 0xBF
    else if first == 0xF4 then 0x80 <= second <= 0x8F
    else Tail(second)
  }

  predicate WellFormedSoFar(s: seq<byte>)
    requires s != []
  {
    && |s| <= SequenceLength(s[0])
    && (|s| > 1 ==> SecondByte(s[0], s[1]))
    && (|s| > 2 ==> Tail(s[2]))
    && (|s| > 3 ==> Tail(s[3]))
  }

  predicate IsSequence(s: seq<byte>) {
    s != [] && |s| == SequenceLength(s[0]) && WellFormedSoFar(s)
  }

  /** A proper prefix of a sequence. */
  predicate IsPartial(s: seq<byte>) {
    s != [] && |s| < SequenceLength(s[0]) && WellFormedSoFar(s)
  }

  lemma PartialMeansExtensible(s: seq<byte>)
    ensures IsPartial(s) <==> s != [] && exists t: seq<byte> :: t != [] && IsSequence(s + t)
  {
    if IsPartial(s) {
      var second: byte := if s[0] == 0xE0 then 0xA0 else if s[0] == 0xF0 then 0x90 else 0x80;
      var t: seq<byte> := if |s| == 1 then [second, 0x80, 0x80] else [0x80, 0x80];
      assert IsSequence(s + t[..SequenceLength(s[0]) - |s|]);
    }
    forall t: seq<byte> | s != [] && t != [] && IsSequence(s + t) ensures IsPartial(s) {
      assert (s + t)[0] == s[0];
      assert |s| > 1 ==> (s + t)[1] == s[1];
      assert |s| > 2 ==> (s + t)[2] == s[2];
    }
  }

  // ---------- What Go's package does ----------

  predicate RuneStart(b: byte) {
    !Tail(b)
  }

  predicate FullRune(s: seq<byte>) {
    s != [] && !IsPartial(s)
  }

  function RuneSize(s: seq<byte>): (n: nat)
    requires s != []
    ensures 1 <= n <= |s| && n <= 4
  {
    var n := SequenceLength(s[0]);
    if 0 < n <= |s| && IsSequence(s[..n]) then n else 1
  }

  function RuneCount(s: seq<byte>): nat {
    if s == [] then 0 else 1 + RuneCount(s[RuneSize(s)..])
  }

  /** The offsets at which runes begin. */
  function RuneStarts(s: seq<byte>, from: nat): (starts: seq<nat>)
    requires from <= |s|
    ensures forall i :: 0 <= i < |starts| ==> from <= starts[i] < |s|
    ensures forall i, j :: 0 <= i < j < |starts| ==> starts[i] < starts[j]
    decreases |s| - from
  {
    if from == |s| then [] else [from] + RuneStarts(s, from + RuneSize(s[from..]))
  }

  lemma {:induction false} RuneStartsSuffix(s: seq<byte>, from: nat, i: nat)
    requires from <= |s| && i < |RuneStarts(s, from)|
    ensures var starts := RuneStarts(s, from); starts[i..] == RuneStarts(s, starts[i])
    decreases |s| - from
  {
    var starts := RuneStarts(s, from);
    if i > 0 {
      RuneStartsSuffix(s, from + RuneSize(s[from..]), i - 1);
      assert starts[i..] == starts[1..][i - 1..];
    }
  }

  lemma {:induction false} RuneStartsCount(s: seq<byte>, from: nat)
    requires from <= |s|
    ensures |RuneStarts(s, from)| == RuneCount(s[from..])
    decreases |s| - from
  {
    if from < |s| {
      var n := RuneSize(s[from..]);
      assert s[from..][n..] == s[from + n..];
      RuneStartsCount(s, from + n);
    }
  }

  /** Where the i-th rune starts, the end of the text standing after the last. */
  function StartOf(s: seq<byte>, i: nat): (at: nat)
    requires i <= |RuneStarts(s, 0)|
    ensures at <= |s|
  {
    var starts := RuneStarts(s, 0);
    if i < |starts| then starts[i] else |s|
  }

  lemma StartOfNext(s: seq<byte>, i: nat)
    requires i < |RuneStarts(s, 0)|
    ensures StartOf(s, i + 1) == StartOf(s, i) + RuneSize(s[StartOf(s, i)..])
  {
    RuneStartsSuffix(s, 0, i);
    var starts := RuneStarts(s, 0);
    assert starts[i..][1..] == RuneStarts(s, StartOf(s, i) + RuneSize(s[StartOf(s, i)..]));
    assert i + 1 < |starts| ==> starts[i..][1..][0] == starts[i + 1];
  }

  /** The starts of all runes and, after them, the end of the text. */
  lemma Boundaries(s: seq<byte>) returns (at: seq<nat>)
    ensures |at| == |RuneStarts(s, 0)| + 1 && at[|at| - 1] == |s| && at[0] == 0
    ensures forall i :: 0 <= i < |at| ==> at[i] == StartOf(s, i)
    ensures forall i :: 0 <= i < |at| - 1 ==> at[i] < |s| && at[i + 1] == at[i] + RuneSize(s[at[i]..])
    ensures forall i, j :: 0 <= i < j < |at| ==> at[i] < at[j]
  {
    at := RuneStarts(s, 0) + [|s|];
    forall i | 0 <= i < |at| - 1 ensures at[i] < |s| && at[i + 1] == at[i] + RuneSize(s[at[i]..]) {
      StartOfNext(s, i);
    }
  }

  lemma StartOfOrdered(s: seq<byte>, i: nat, j: nat)
    requires i <= j <= |RuneStarts(s, 0)|
    ensures StartOf(s, i) <= StartOf(s, j) && (i < j ==> StartOf(s, i) < StartOf(s, j))
  {}

  /** A slice between two rune starts holds the runes between them. */
  lemma {:induction false} SliceRunes(s: seq<byte>, i: nat, j: nat)
    requires i <= j <= |RuneStarts(s, 0)|
    ensures StartOf(s, i) <= StartOf(s, j) && RuneCount(s[StartOf(s, i)..StartOf(s, j)]) == j - i
    decreases j - i
  {
    StartOfOrdered(s, i, j);
    if i < j {
      StartOfNext(s, i);
      StartOfOrdered(s, i + 1, j);
      var a, next, b := StartOf(s, i), StartOf(s, i + 1), StartOf(s, j);
      SliceRunes(s, i + 1, j);
      assert next == a + RuneSize(s[a..]) && RuneCount(s[next..b]) == j - i - 1;
      CutOneRune(s, a, b);
    } else {
      assert s[StartOf(s, i)..StartOf(s, j)] == [];
    }
  }

  lemma CutOneRune(s: seq<byte>, a: nat, b: nat)
    requires a < b <= |s| && a + RuneSize(s[a..]) <= b
    ensures RuneCount(s[a..b]) == 1 + RuneCount(s[a + RuneSize(s[a..])..b])
  {
    var size := RuneSize(s[a..]);
    assert s[a..][..b - a] == s[a..b];
    SizeOfCut(s[a..], b - a);
    assert s[a..b][size..] == s[a + size..b];
  }

  lemma SizeOfCut(s: seq<byte>, m: nat)
    requires s != [] && RuneSize(s) <= m <= |s|
    ensures RuneSize(s[..m]) == RuneSize(s)
  {}

  // ---------- Cutting ----------

  /** The first rune of a full beginning does not depend on what follows. */
  lemma FullBeginning(a: seq<byte>, b: seq<byte>)
    requires FullRune(a)
    ensures RuneSize(a + b) == RuneSize(a)
  {}

  /** No sequence reaches across a byte that starts one. */
  lemma StartEndsRune(a: seq<byte>, b: seq<byte>)
    requires a != [] && b != [] && RuneStart(b[0])
    ensures RuneSize(a + b) == RuneSize(a)
  {}

  /** Counting may be cut in front of any byte that starts a rune. */
  lemma {:induction false} CutAtStart(a: seq<byte>, b: seq<byte>)
    requires b != [] && RuneStart(b[0])
    ensures RuneCount(a + b) == RuneCount(a) + RuneCount(b)
  {
    if a == [] {
      assert a + b == b;
    } else {
      StartEndsRune(a, b);
      var n := RuneSize(a);
      assert (a + b)[n..] == a[n..] + b;
      CutAtStart(a[n..], b);
    }
  }

  /** Counting may be cut after s: nothing in s waits for more bytes. */
  ghost predicate Settled(s: seq<byte>) {
    forall x: seq<byte> :: RuneCount(s + x) == RuneCount(s) + RuneCount(x)
  }

  lemma {:induction false} TailsSettled(s: seq<byte>, x: seq<byte>)
    requires forall b <- s :: Tail(b)
    ensures RuneCount(s + x) == RuneCount(s) + RuneCount(x)
  {
    if s == [] {
      assert s + x == x;
    } else {
      assert s[0] in s && Tail(s[0]);
      FullBeginning(s, x);
      assert RuneSize(s) == 1;
      assert (s + x)[1..] == s[1..] + x;
      TailsSettled(s[1..], x);
    }
  }

  lemma FullTailSettled(s: seq<byte>, x: seq<byte>)
    requires FullRune(s) && forall b <- s[1..] :: Tail(b)
    ensures RuneCount(s + x) == RuneCount(s) + RuneCount(x)
  {
    FullBeginning(s, x);
    var n := RuneSize(s);
    assert (s + x)[n..] == s[n..] + x;
    forall b | b in s[n..] ensures Tail(b) {
      assert s[n..] == s[1..][n - 1..];
    }
    TailsSettled(s[n..], x);
  }

  /** Decided by the last byte of s that starts a rune, if there is one. */
  lemma SettledBy(s: seq<byte>, at: nat)
    requires at <= |s| && (forall b <- s[at..] :: Tail(b))
    requires at > 0 ==> RuneStart(s[at - 1]) && FullRune(s[at - 1..])
    ensures Settled(s)
  {
    forall x: seq<byte> ensures RuneCount(s + x) == RuneCount(s) + RuneCount(x) {
      if at == 0 {
        assert s[0..] == s;
        TailsSettled(s, x);
      } else {
        var a, t := s[..at - 1], s[at - 1..];
        assert s == a + t && s + x == a + (t + x);
        assert t[1..] == s[at..];
        CutAtStart(a, t);
        CutAtStart(a, t + x);
        FullTailSettled(t, x);
      }
    }
  }

  /** A text is settled when its last three bytes hold no rune start. */
  lemma {:induction false} ThreeTailsSettle(s: seq<byte>, at: nat)
    requires at <= |s| && (forall b <- s[at..] :: Tail(b)) && (|s| - at >= 3 || at == 0)
    ensures Settled(s)
    decreases at
  {
    if at == 0 || RuneStart(s[at - 1]) {
      SettledBy(s, at);
    } else {
      assert s[at - 1..] == [s[at - 1]] + s[at..];
      ThreeTailsSettle(s, at - 1);
    }
  }

  function Flatten(parts: seq<seq<byte>>): seq<byte> {
    if parts == [] then [] else parts[0] + Flatten(parts[1..])
  }

  /** Well-formed text counts one per sequence. */
  lemma {:induction false} WellFormedCount(sequences: seq<seq<byte>>)
    requires forall s <- sequences :: IsSequence(s)
    ensures RuneCount(Flatten(sequences)) == |sequences|
  {
    if sequences != [] {
      var s, rest := sequences[0], Flatten(sequences[1..]);
      assert s in sequences && IsSequence(s);
      FullBeginning(s, rest);
      assert s[..|s|] == s;
      assert (s + rest)[|s|..] == rest;
      WellFormedCount(sequences[1..]);
    }
  }

  // ---------- Section 3 of RFC 3629: what the sequences encode ----------

  /** Every Unicode scalar value: the code points except the surrogates. */
  type scalar = c: int | 0 <= c <= 0x10FFFF && !(0xD800 <= c <= 0xDFFF)

  /** A byte that carries six bits of the code point. */
  function Six(c: nat): byte {
    0x80 + c % 64
  }

  function Encoded(c: scalar): (s: seq<byte>) {
    if c < 0x80 then [c]
    else if c < 0x800 then [0xC0 + c / 64, Six(c)]
    else if c < 0x10000 then [0xE0 + c / 4096, Six(c / 64), Six(c)]
    else [0xF0 + c / 262144, Six(c / 4096), Six(c / 64), Six(c)]
  }

  /** The sequences are the encodings of the scalar values. */
  lemma SequencesEncode(s: seq<byte>)
    ensures IsSequence(s) <==> exists c: scalar :: s == Encoded(c)
  {
    if IsSequence(s) {
      var c := Scalar(s);
      assert s == Encoded(c);
    }
    forall c: scalar | s == Encoded(c) ensures IsSequence(s) {
      EncodedIsSequence(c);
    }
  }

  lemma EncodedIsSequence(c: scalar)
    ensures IsSequence(Encoded(c))
  {}

  lemma Scalar(s: seq<byte>) returns (c: scalar)
    requires IsSequence(s)
    ensures s == Encoded(c)
  {
    if |s| == 1 {
      c := s[0];
    } else if |s| == 2 {
      c := Joined(0, 0, s[0] as int - 0xC0, s[1] as int - 0x80);
    } else if |s| == 3 {
      c := Joined(0, s[0] as int - 0xE0, s[1] as int - 0x80, s[2] as int - 0x80);
    } else {
      c := Joined(s[0] as int - 0xF0, s[1] as int - 0x80, s[2] as int - 0x80, s[3] as int - 0x80);
    }
  }

  /** The number of four digits to the base 64. */
  lemma Joined(a: nat, b: nat, d: nat, e: nat) returns (c: nat)
    requires b < 64 && d < 64 && e < 64
    ensures c == 262144 * a + 4096 * b + 64 * d + e
    ensures c / 262144 == a && c / 4096 == 64 * a + b && c / 64 == 4096 * a + 64 * b + d
    ensures c % 64 == e && c / 64 % 64 == d && c / 4096 % 64 == b
  {
    c := 262144 * a + 4096 * b + 64 * d + e;
  }

  /** What a list of scalar values is written as counts as many runes. */
  lemma EncodedCount(text: seq<scalar>)
    ensures RuneCount(Flatten(seq(|text|, i requires 0 <= i < |text| => Encoded(text[i])))) == |text|
  {
    var sequences := seq(|text|, i requires 0 <= i < |text| => Encoded(text[i]));
    forall s | s in sequences ensures IsSequence(s) {
      SequencesEncode(s);
    }
    WellFormedCount(sequences);
  }

  /** A rune is an encoding the text begins with, and a byte of its own where there is none. */
  lemma RuneSizeMeans(s: seq<byte>)
    requires s != []
    ensures forall c: scalar :: Encoded(c) <= s ==> RuneSize(s) == |Encoded(c)|
    ensures (forall c: scalar :: !(Encoded(c) <= s)) ==> RuneSize(s) == 1
  {
    forall c: scalar | Encoded(c) <= s ensures RuneSize(s) == |Encoded(c)| {
      EncodedIsSequence(c);
      assert Encoded(c)[0] == s[0];
    }
    if RuneSize(s) != 1 {
      SequencesEncode(s[..SequenceLength(s[0])]);
    }
  }
}
