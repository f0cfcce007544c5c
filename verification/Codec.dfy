/** The stored form of a sketch (internal/sketch/codec.go), on the raw bytes inside the base64. */
module Codec {
  import opened Utf8
  import opened Sketch

  const CODEC_VERSION: byte := 1
  const HEADER_LEN := 17
  const MAX_UINT32 := 0xFFFF_FFFF
  const MAX_INT := 0x7FFF_FFFF_FFFF_FFFF

  // ---------- Little-endian numbers ----------

  function Shifted(v: int, bytes: nat): int {
    if bytes == 0 then v else Shifted(v, bytes - 1) / 256
  }

  /** The low bytes of v, lowest first; whatever does not fit is dropped, as a Go conversion
      drops it. */
  function LittleEndian(v: int, width: nat): (s: seq<byte>)
    ensures |s| == width
  {
    seq<byte>(width, i requires 0 <= i < width => Shifted(v, i) % 256)
  }

  function FromLittleEndian(s: seq<byte>): nat {
    if s == [] then 0 else s[0] + 256 * FromLittleEndian(s[1..])
  }

  function Pow256(width: nat): (p: nat)
    ensures p > 0
  {
    if width == 0 then 1 else 256 * Pow256(width - 1)
  }

  lemma {:induction false} LastByte(s: seq<byte>, b: byte)
    ensures FromLittleEndian(s + [b]) == FromLittleEndian(s) + b * Pow256(|s|)
  {
    if s == [] {
      assert s + [b] == [b];
    } else {
      assert (s + [b])[1..] == s[1..] + [b];
      LastByte(s[1..], b);
    }
  }

  lemma {:induction false} WidthAndRest(v: nat, width: nat)
    ensures Shifted(v, width) >= 0
    ensures v == FromLittleEndian(LittleEndian(v, width)) + Shifted(v, width) * Pow256(width)
  {
    if width > 0 {
      var w := width - 1;
      WidthAndRest(v, w);
      var b := Shifted(v, w) % 256;
      assert LittleEndian(v, width) == LittleEndian(v, w) + [b];
      LastByte(LittleEndian(v, w), b);
      Distribute(Shifted(v, w), Pow256(w));
    }
  }

  lemma Distribute(x: int, p: int)
    ensures x * p == x / 256 * (256 * p) + x % 256 * p
  {
    var q, b := x / 256, x % 256;
    assert x == q * 256 + b;
    assert (q * 256 + b) * p == q * 256 * p + b * p;
  }

  lemma NoRest(low: nat, rest: nat, p: nat)
    requires low + rest * p < p
    ensures rest * p == 0
  {
    if rest > 0 {
      assert rest * p == p + (rest - 1) * p;
    }
  }

  lemma ReadsBack(v: nat, width: nat)
    requires v < Pow256(width)
    ensures FromLittleEndian(LittleEndian(v, width)) == v
  {
    WidthAndRest(v, width);
    NoRest(FromLittleEndian(LittleEndian(v, width)), Shifted(v, width), Pow256(width));
  }

  lemma {:induction false} ShiftedTail(s: seq<byte>, i: nat)
    requires i <= |s|
    ensures Shifted(FromLittleEndian(s), i) == FromLittleEndian(s[i..])
  {
    if i > 0 {
      ShiftedTail(s, i - 1);
      assert s[i - 1..][1..] == s[i..];
    } else {
      assert s[0..] == s;
    }
  }

  lemma {:induction false} Bounded(s: seq<byte>)
    ensures FromLittleEndian(s) < Pow256(|s|)
  {
    if s != [] {
      Bounded(s[1..]);
    }
  }

  lemma WritesBack(s: seq<byte>)
    ensures FromLittleEndian(s) < Pow256(|s|) && LittleEndian(FromLittleEndian(s), |s|) == s
  {
    Bounded(s);
    forall i | 0 <= i < |s| ensures LittleEndian(FromLittleEndian(s), |s|)[i] == s[i] {
      ShiftedTail(s, i);
      assert s[i..][0] == s[i];
    }
  }

  lemma Widths()
    ensures Pow256(4) == MAX_UINT32 + 1 && Pow256(8) == MAX_UINT64 + 1
  {
    assert Pow256(2) == 0x1_0000;
    assert Pow256(4) == 256 * (256 * Pow256(2));
    assert Pow256(6) == 256 * (256 * Pow256(4));
    assert Pow256(8) == 256 * (256 * Pow256(6));
  }

  // ---------- The format ----------

  function EncodedValues(values: seq<uint64>): (s: seq<byte>)
    ensures |s| == 8 * |values|
  {
    if values == [] then [] else LittleEndian(values[0], 8) + EncodedValues(values[1..])
  }

  function Header(n: int, distinct: int, count: int): (s: seq<byte>)
    ensures |s| == HEADER_LEN
  {
    [CODEC_VERSION] + LittleEndian(n, 4) + LittleEndian(distinct, 8) + LittleEndian(count, 4)
  }

  function Encoded(s: Sketch): seq<byte> {
    Header(s.n, s.distinct, |s.values|) + EncodedValues(s.values)
  }

  /** Four bytes as one number, the lowest first. */
  function Word(raw: seq<byte>, at: nat): int
    requires at + 4 <= |raw|
  {
    raw[at] as int + 0x100 * raw[at + 1] as int + 0x1_0000 * raw[at + 2] as int + 0x100_0000 * raw[at + 3] as int
  }

  function Long(raw: seq<byte>, at: nat): int
    requires at + 8 <= |raw|
  {
    Word(raw, at) + 0x1_0000_0000 * Word(raw, at + 4)
  }

  /** The layout: the version, the shingle width, the number of shingles, the number of hashes, and
      then the hashes, eight bytes each. */
  lemma Layout(s: Sketch)
    requires Storable(s)
    ensures var raw := Encoded(s);
            && |raw| == 17 + 8 * |s.values| && raw[0] == 1 && Word(raw, 1) == s.n
            && Long(raw, 5) == s.distinct && Word(raw, 13) == |s.values|
            && forall i :: 0 <= i < |s.values| ==> Long(raw, 17 + 8 * i) == s.values[i]
  {
    var raw := Encoded(s);
    FieldsRead(s);
    WordRead(raw, 1);
    LongRead(raw, 5);
    WordRead(raw, 13);
    forall i | 0 <= i < |s.values| ensures Long(raw, 17 + 8 * i) == s.values[i] {
      ValueLayout(s, raw, i);
    }
  }

  lemma ValueLayout(s: Sketch, raw: seq<byte>, i: nat)
    requires Encoded(s) == raw && i < |s.values|
    ensures |raw| >= 25 + 8 * i && Long(raw, 17 + 8 * i) == s.values[i]
  {
    ValueRead(s, raw, i);
    LongRead(raw, 17 + 8 * i);
  }

  lemma WordRead(raw: seq<byte>, at: nat)
    requires at + 4 <= |raw|
    ensures FromLittleEndian(raw[at..at + 4]) == Word(raw, at)
  {
    FourBytes(raw[at..at + 4]);
  }

  lemma LongRead(raw: seq<byte>, at: nat)
    requires at + 8 <= |raw|
    ensures FromLittleEndian(raw[at..at + 8]) == Long(raw, at)
  {
    FourBytes(raw[at..at + 8]);
    assert raw[at..at + 8][4..] == raw[at + 4..at + 8];
    WordRead(raw, at + 4);
  }

  lemma FourBytes(s: seq<byte>)
    requires |s| >= 4
    ensures FromLittleEndian(s) == Word(s, 0) + 0x1_0000_0000 * FromLittleEndian(s[4..])
  {
    assert s[1..][1..] == s[2..] && s[2..][1..] == s[3..] && s[3..][1..] == s[4..];
  }

  /** What Decode accepts: in range, ascending, and no more hashes than distinct shingles. */
  ghost predicate Storable(s: Sketch) {
    && 1 <= s.n <= MAX_UINT32 && s.distinct <= MAX_INT && |s.values| <= MAX_UINT32
    && |s.values| <= s.distinct && (s.values == [] ==> s.distinct == 0)
    && Ascending(s.values)
  }

  lemma {:induction false} EncodedValuesAppend(a: seq<uint64>, b: seq<uint64>)
    ensures EncodedValues(a + b) == EncodedValues(a) + EncodedValues(b)
  {
    if a == [] {
      assert a + b == b;
    } else {
      assert (a + b)[1..] == a[1..] + b;
      EncodedValuesAppend(a[1..], b);
    }
  }

  /** The i-th value sits at its own eight bytes. */
  lemma {:induction false} ValueAt(values: seq<uint64>, i: nat)
    requires i < |values|
    ensures EncodedValues(values)[8 * i..8 * i + 8] == LittleEndian(values[i], 8)
  {
    assert values == values[..i] + ([values[i]] + values[i + 1..]);
    EncodedValuesAppend(values[..i], [values[i]] + values[i + 1..]);
    assert ([values[i]] + values[i + 1..])[1..] == values[i + 1..];
  }

  lemma HeaderParts(n: int, distinct: int, count: int)
    ensures var h := Header(n, distinct, count);
            && h[0] == CODEC_VERSION && h[1..5] == LittleEndian(n, 4)
            && h[5..13] == LittleEndian(distinct, 8) && h[13..17] == LittleEndian(count, 4)
  {}

  method Encode(s: Sketch) returns (raw: seq<byte>)
    ensures raw == Encoded(s)
  {
    raw := [CODEC_VERSION] + LittleEndian(s.n, 4) + LittleEndian(s.distinct, 8) + LittleEndian(|s.values|, 4);
    ghost var header := raw;
    for i := 0 to |s.values|
      invariant raw == header + EncodedValues(s.values[..i])
    {
      EncodedValuesAppend(s.values[..i], [s.values[i]]);
      assert s.values[..i + 1] == s.values[..i] + [s.values[i]];
      assert EncodedValues([s.values[i]]) == LittleEndian(s.values[i], 8);
      raw := raw + LittleEndian(s.values[i], 8);
    }
    assert s.values[..|s.values|] == s.values;
  }

  datatype DecodeError = Truncated | UnsupportedVersion | ZeroWidth | DistinctOutOfRange | TooManyHashes
    | NoHashes | WrongLength | NotAscending(index: nat)
  datatype Result = Ok(sketch: Sketch) | Err(error: DecodeError)

  /** Decode is the exact inverse of Encode: it accepts a byte string when, and only when, that is
      the encoding of a storable sketch, and answers that sketch. */
  method Decode(raw: seq<byte>) returns (r: Result)
    ensures r.Ok? ==> Storable(r.sketch) && Encoded(r.sketch) == raw
    ensures r.Err? ==> forall s: Sketch :: Storable(s) ==> Encoded(s) != raw
  {
    if |raw| < HEADER_LEN {
      return Err(Truncated);
    }
    if raw[0] != CODEC_VERSION {
      return Err(UnsupportedVersion);
    }
    var n := FromLittleEndian(raw[1..5]);
    var distinct := FromLittleEndian(raw[5..13]);
    var count := FromLittleEndian(raw[13..17]);
    forall s: Sketch | Storable(s) && Encoded(s) == raw
      ensures n == s.n && distinct == s.distinct && count == |s.values| {
      FieldsRead(s);
    }
    if n < 1 {
      return Err(ZeroWidth);
    }
    if distinct > MAX_INT {
      return Err(DistinctOutOfRange);
    }
    if count > distinct {
      return Err(TooManyHashes);
    }
    if count == 0 && distinct > 0 {
      return Err(NoHashes);
    }
    if |raw| != HEADER_LEN + count * 8 {
      return Err(WrongLength);
    }
    HeaderWritesBack(raw);
    r := DecodeValues(raw, n, distinct, count);
  }

  lemma FieldsRead(s: Sketch)
    requires Storable(s)
    ensures var raw := Encoded(s);
            && FromLittleEndian(raw[1..5]) == s.n && FromLittleEndian(raw[5..13]) == s.distinct
            && FromLittleEndian(raw[13..17]) == |s.values|
  {
    Widths();
    var h, raw := Header(s.n, s.distinct, |s.values|), Encoded(s);
    HeaderParts(s.n, s.distinct, |s.values|);
    assert raw[1..5] == h[1..5] && raw[5..13] == h[5..13] && raw[13..17] == h[13..17];
    ReadsBack(s.n, 4);
    ReadsBack(s.distinct, 8);
    ReadsBack(|s.values|, 4);
  }

  lemma HeaderWritesBack(raw: seq<byte>)
    requires |raw| >= HEADER_LEN && raw[0] == CODEC_VERSION
    ensures raw[..HEADER_LEN] ==
      Header(FromLittleEndian(raw[1..5]), FromLittleEndian(raw[5..13]), FromLittleEndian(raw[13..17]))
    ensures FromLittleEndian(raw[1..5]) <= MAX_UINT32 && FromLittleEndian(raw[13..17]) <= MAX_UINT32
  {
    Widths();
    WritesBack(raw[1..5]);
    WritesBack(raw[5..13]);
    WritesBack(raw[13..17]);
    assert raw[..HEADER_LEN] == [raw[0]] + raw[1..5] + raw[5..13] + raw[13..17];
  }

  /** The loop over the hashes, stopping at the first that does not ascend. */
  method DecodeValues(raw: seq<byte>, n: nat, distinct: nat, count: nat) returns (r: Result)
    requires |raw| == HEADER_LEN + 8 * count && raw[..HEADER_LEN] == Header(n, distinct, count)
    requires 1 <= n <= MAX_UINT32 && distinct <= MAX_INT && count <= MAX_UINT32
    requires count <= distinct && (count == 0 ==> distinct == 0)
    ensures r.Ok? ==> Storable(r.sketch) && Encoded(r.sketch) == raw
    ensures r.Err? ==> forall s: Sketch :: Storable(s) ==> Encoded(s) != raw
  {
    var values: seq<uint64> := [];
    for i := 0 to count
      invariant |values| == i && Ascending(values) && ValuesRead(raw, values)
    {
      var value := ReadValue(raw, HEADER_LEN + i * 8);
      if i > 0 && value <= values[i - 1] {
        forall s: Sketch | Storable(s) ensures Encoded(s) != raw {
          DescentRejected(raw, values, value, s);
        }
        return Err(NotAscending(i));
      }
      OneMoreRead(raw, values, value);
      values := values + [value];
    }
    assert raw == raw[..HEADER_LEN] + raw[HEADER_LEN..];
    return Ok(Sketch(n, distinct, values));
  }

  method ReadValue(raw: seq<byte>, offset: nat) returns (value: uint64)
    requires offset + 8 <= |raw|
    ensures value == FromLittleEndian(raw[offset..offset + 8]) && LittleEndian(value, 8) == raw[offset..offset + 8]
  {
    Widths();
    WritesBack(raw[offset..offset + 8]);
    value := FromLittleEndian(raw[offset..offset + 8]);
  }

  /** The bytes after the header start with these values. */
  ghost predicate ValuesRead(raw: seq<byte>, values: seq<uint64>) {
    |raw| >= HEADER_LEN + 8 * |values| && raw[HEADER_LEN..HEADER_LEN + 8 * |values|] == EncodedValues(values)
  }

  lemma OneMoreRead(raw: seq<byte>, values: seq<uint64>, value: uint64)
    requires ValuesRead(raw, values)
    requires var offset := HEADER_LEN + 8 * |values|;
             offset + 8 <= |raw| && raw[offset..offset + 8] == LittleEndian(value, 8)
    ensures ValuesRead(raw, values + [value])
  {
    var offset := HEADER_LEN + 8 * |values|;
    EncodedValuesAppend(values, [value]);
    assert EncodedValues([value]) == LittleEndian(value, 8) + EncodedValues([]);
    assert raw[HEADER_LEN..offset + 8] == raw[HEADER_LEN..offset] + raw[offset..offset + 8];
  }

  /** No storable sketch has these bytes once a value fails to ascend. */
  lemma DescentRejected(raw: seq<byte>, values: seq<uint64>, value: uint64, s: Sketch)
    requires ValuesRead(raw, values) && values != [] && value <= values[|values| - 1] && Storable(s)
    requires var offset := HEADER_LEN + 8 * |values|;
             offset + 8 <= |raw| && value == FromLittleEndian(raw[offset..offset + 8])
    ensures Encoded(s) != raw
  {
    var i := |values|;
    Widths();
    ValueAt(values, i - 1);
    assert raw[HEADER_LEN + 8 * (i - 1)..HEADER_LEN + 8 * i] == EncodedValues(values)[8 * (i - 1)..8 * i];
    ReadsBack(values[i - 1], 8);
    if |raw| == HEADER_LEN + 8 * |s.values| && i < |s.values| {
      if Encoded(s) == raw {
        ValueRead(s, raw, i);
        ValueRead(s, raw, i - 1);
      }
    }
  }

  lemma ValueRead(s: Sketch, raw: seq<byte>, i: nat)
    requires Encoded(s) == raw && i < |s.values|
    ensures |raw| >= HEADER_LEN + 8 * i + 8
    ensures FromLittleEndian(raw[HEADER_LEN + 8 * i..HEADER_LEN + 8 * i + 8]) == s.values[i]
  {
    Widths();
    ValueAt(s.values, i);
    var e := EncodedValues(s.values);
    assert raw[HEADER_LEN + 8 * i..HEADER_LEN + 8 * i + 8] == e[8 * i..8 * i + 8];
    ReadsBack(s.values[i], 8);
  }

  /** Two storable sketches with the same bytes are the same sketch. */
  lemma EncodedInjective(s: Sketch, t: Sketch)
    requires Storable(s) && Storable(t) && Encoded(s) == Encoded(t)
    ensures s == t
  {
    FieldsRead(s);
    FieldsRead(t);
    forall i | 0 <= i < |s.values| ensures s.values[i] == t.values[i] {
      ValueRead(s, Encoded(s), i);
      ValueRead(t, Encoded(t), i);
    }
  }

  /** A sketch survives being stored and read again, and stored bytes that are accepted are
      written again byte for byte. */
  method RoundTrip(s: Sketch) returns (back: Result)
    requires Storable(s)
    ensures back == Ok(s)
  {
    var raw := Encode(s);
    back := Decode(raw);
    if back.Ok? {
      EncodedInjective(s, back.sketch);
    }
  }
}
