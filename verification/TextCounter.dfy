/** The streaming line and character counter (internal/util/count.go): the same answer however
    the text is cut into writes. */
module TextCounter {
  import opened Utf8

  const NEWLINE: byte := 10
  const UTF_MAX := 4

  function Newlines(s: seq<byte>): nat {
    if s == [] then 0 else (if s[0] == NEWLINE then 1 else 0) + Newlines(s[1..])
  }

  lemma {:induction false} NewlinesAppend(a: seq<byte>, b: seq<byte>)
    ensures Newlines(a + b) == Newlines(a) + Newlines(b)
  {
    if a == [] {
      assert a + b == b;
    } else {
      assert (a + b)[1..] == a[1..] + b;
      NewlinesAppend(a[1..], b);
    }
  }

  /** The lines of a text: its newlines, and one more for an unterminated last line. */
  function LineCount(s: seq<byte>): nat {
    Newlines(s) + if s != [] && s[|s| - 1] != NEWLINE then 1 else 0
  }

  /** The lines of a text written as such: each ended by a line feed, and what is left over. */
  function Joined(lines: seq<seq<byte>>, rest: seq<byte>): seq<byte> {
    if lines == [] then rest else lines[0] + [10] + Joined(lines[1..], rest)
  }

  lemma {:induction false} LinesCounted(lines: seq<seq<byte>>, rest: seq<byte>)
    requires 10 !in rest && forall line <- lines :: 10 !in line
    ensures LineCount(Joined(lines, rest)) == |lines| + if rest == [] then 0 else 1
  {
    if lines == [] {
      NoNewlines(rest);
    } else {
      assert lines[0] in lines && forall line <- lines[1..] :: line in lines;
      var text, more := lines[0] + [10], Joined(lines[1..], rest);
      LinesCounted(lines[1..], rest);
      NoNewlines(lines[0]);
      NewlinesAppend(lines[0], [10]);
      NewlinesAppend(text, more);
    }
  }

  lemma {:induction false} NoNewlines(s: seq<byte>)
    requires 10 !in s
    ensures Newlines(s) == 0
  {
    if s != [] {
      NoNewlines(s[1..]);
    }
  }

  function Min(a: nat, b: nat): nat { if a < b then a else b }

  class TextCounter {
    var lines: nat
    var chars: nat
    var lineOpen: bool
    var partial: seq<byte>
    ghost var written: seq<byte>

    /** Whatever is written next, counting all of it is what was counted so far plus counting
        the bytes held back together with the new ones. */
    ghost predicate Valid() reads this {
      && lines == Newlines(written)
      && lineOpen == (written != [] && written[|written| - 1] != NEWLINE)
      && (partial == [] || IsPartial(partial))
      && CountsSoFar(written, chars, partial)
    }

    constructor ()
      ensures Valid() && written == []
    {
      lines, chars, lineOpen, partial, written := 0, 0, false, [], [];
    }

    method Write(p: seq<byte>) returns (n: nat)
      requires Valid()
      modifies this
      ensures Valid() && written == old(written) + p && n == |p|
    {
      n := |p|;
      if n == 0 {
        assert written + p == written;
        return;
      }
      var newlines := CountNewlines(p);
      NewlinesAppend(written, p);
      lines := lines + newlines;
      lineOpen := p[n - 1] != NEWLINE;
      assert (written + p)[|written + p| - 1] == p[n - 1];
      CountRunes(p);
    }

    /** The character half of a write. */
    method CountRunes(p: seq<byte>)
      requires p != [] && (partial == [] || IsPartial(partial)) && CountsSoFar(written, chars, partial)
      modifies this`chars, this`partial, this`written
      ensures written == old(written) + p
      ensures (partial == [] || IsPartial(partial)) && CountsSoFar(written, chars, partial)
    {
      ghost var before := written;
      written := written + p;
      var q := p;
      if partial != [] {
        var held, counted, rest := FinishPartial(partial, p);
        CountsAfter(before, chars, partial, p, counted, held + rest);
        assert held + [] == held && [] + rest == rest;
        chars := chars + counted;
        partial := held;
        if held != [] {
          return;
        }
        q := rest;
      } else {
        assert [] + p == p;
        CountsAfter(before, chars, [], p, 0, p);
      }
      var held, whole := HoldBack(q);
      CountsAfterWhole(written, chars, q, whole, held);
      partial := held;
      chars := chars + RuneCount(whole);
    }

    function Lines(): (r: nat)
      requires Valid()
      reads this
      ensures r == LineCount(written)
    {
      if lineOpen then lines + 1 else lines
    }

    function Chars(): (r: nat)
      requires Valid()
      reads this
      ensures r == RuneCount(written)
    {
      assert written + [] == written && partial + [] == partial;
      assert CountsWith(written, chars, partial, []);
      chars + RuneCount(partial)
    }
  }

  ghost predicate CountsSoFar(written: seq<byte>, chars: nat, partial: seq<byte>) {
    forall x: seq<byte> {:trigger CountsWith(written, chars, partial, x)} :: CountsWith(written, chars, partial, x)
  }

  ghost predicate CountsWith(written: seq<byte>, chars: nat, partial: seq<byte>, x: seq<byte>) {
    RuneCount(written + x) == chars + RuneCount(partial + x)
  }

  lemma CountsAfter(before: seq<byte>, chars: nat, partial: seq<byte>, p: seq<byte>, counted: nat, left: seq<byte>)
    requires CountsSoFar(before, chars, partial) && CountsSoFar(partial + p, counted, left)
    ensures CountsSoFar(before + p, chars + counted, left)
  {
    forall x: seq<byte> {:trigger CountsWith(before + p, chars + counted, left, x)}
      ensures CountsWith(before + p, chars + counted, left, x)
    {
      assert CountsWith(before, chars, partial, p + x) && CountsWith(partial + p, counted, left, x);
      CountsAfterAt(before, chars, partial, p, counted, left, x);
    }
  }

  lemma CountsAfterAt(before: seq<byte>, chars: nat, partial: seq<byte>, p: seq<byte>, counted: nat, left: seq<byte>,
                      x: seq<byte>)
    requires CountsWith(before, chars, partial, p + x) && CountsWith(partial + p, counted, left, x)
    ensures CountsWith(before + p, chars + counted, left, x)
  {
    assert before + p + x == before + (p + x);
    assert partial + (p + x) == partial + p + x;
  }

  lemma CountsAfterWhole(written: seq<byte>, chars: nat, q: seq<byte>, whole: seq<byte>, held: seq<byte>)
    requires CountsSoFar(written, chars, q) && CountsSoFar(q, RuneCount(whole), held)
    ensures CountsSoFar(written, chars + RuneCount(whole), held)
  {
    forall x: seq<byte> {:trigger CountsWith(written, chars + RuneCount(whole), held, x)}
      ensures CountsWith(written, chars + RuneCount(whole), held, x)
    {
      assert CountsWith(written, chars, q, x) && CountsWith(q, RuneCount(whole), held, x);
    }
  }

  method CountNewlines(p: seq<byte>) returns (n: nat)
    ensures n == Newlines(p)
  {
    n := 0;
    for i := 0 to |p|
      invariant n == Newlines(p[..i])
    {
      NewlinesAppend(p[..i], [p[i]]);
      assert p[..i + 1] == p[..i] + [p[i]];
      if p[i] == NEWLINE {
        n := n + 1;
      }
    }
    assert p[..|p|] == p;
  }

  /** Completes the bytes held back with at most four new ones: either they still wait, or they
      are counted and the rest of the new bytes begins at a rune boundary. */
  method FinishPartial(partial: seq<byte>, p: seq<byte>) returns (held: seq<byte>, counted: nat, rest: seq<byte>)
    requires partial != [] && p != []
    ensures CountsSoFar(partial + p, counted, held + rest)
    ensures held != [] ==> IsPartial(held) && rest == []
  {
    var head := partial + p[..Min(|p|, UTF_MAX)];
    var all := partial + p;
    counted := 0;
    var i := 0;
    assert all[0..] == all;
    while i < |partial|
      invariant 0 <= i <= |head|
      invariant CountsSoFar(all, counted, all[i..])
    {
      assert all[i..] == head[i..] + p[Min(|p|, UTF_MAX)..];
      if !FullRune(head[i..]) {
        held := head[i..];
        assert |p| < UTF_MAX;
        assert all[i..] == held + [];
        return held, counted, [];
      }
      var size := RuneSize(head[i..]);
      OneRuneCounted(all, counted, i, head[i..]);
      counted := counted + 1;
      i := i + size;
    }
    rest := p[i - |partial|..];
    assert all[i..] == [] + rest;
    return [], counted, rest;
  }

  lemma OneRuneCounted(all: seq<byte>, counted: nat, i: nat, head: seq<byte>)
    requires i <= |all| && head <= all[i..] && FullRune(head) && CountsSoFar(all, counted, all[i..])
    ensures i + RuneSize(head) <= |all| && CountsSoFar(all, counted + 1, all[i + RuneSize(head)..])
  {
    var size := RuneSize(head);
    forall x: seq<byte> {:trigger CountsWith(all, counted + 1, all[i + size..], x)}
      ensures CountsWith(all, counted + 1, all[i + size..], x)
    {
      assert CountsWith(all, counted, all[i..], x);
      var s := all[i..] + x;
      assert s == head + s[|head|..];
      FullBeginning(head, s[|head|..]);
      assert s[size..] == all[i + size..] + x;
    }
  }

  /** Looks among the last three bytes for a rune that is not all there yet. */
  method HoldBack(q: seq<byte>) returns (held: seq<byte>, whole: seq<byte>)
    ensures q == whole + held && (held == [] || IsPartial(held))
    ensures CountsSoFar(q, RuneCount(whole), held)
  {
    var k := 1;
    while k <= Min(|q|, UTF_MAX - 1)
      invariant 1 <= k <= Min(|q|, UTF_MAX - 1) + 1
      invariant forall b <- q[|q| - (k - 1)..] :: Tail(b)
    {
      var tail := q[|q| - k..];
      if RuneStart(tail[0]) {
        if !FullRune(tail) {
          held, whole := tail, q[..|q| - k];
          assert q == whole + held;
          StartHeld(whole, held);
          return;
        }
        SettledBy(q, |q| - (k - 1));
        SettledNothingHeld(q);
        return [], q;
      }
      assert tail == [tail[0]] + q[|q| - (k - 1)..];
      k := k + 1;
    }
    ThreeTailsSettle(q, |q| - (k - 1));
    SettledNothingHeld(q);
    return [], q;
  }

  lemma StartHeld(whole: seq<byte>, held: seq<byte>)
    requires held != [] && RuneStart(held[0])
    ensures CountsSoFar(whole + held, RuneCount(whole), held)
  {
    forall x: seq<byte> ensures CountsWith(whole + held, RuneCount(whole), held, x) {
      assert whole + held + x == whole + (held + x);
      CutAtStart(whole, held + x);
    }
  }

  lemma SettledNothingHeld(q: seq<byte>)
    requires Settled(q)
    ensures CountsSoFar(q, RuneCount(q), [])
  {
    forall x: seq<byte> ensures CountsWith(q, RuneCount(q), [], x) {
      assert RuneCount(q + x) == RuneCount(q) + RuneCount(x);
      assert [] + x == x;
    }
  }

  /** However a text is cut into writes, empty ones included, the counts are those of the whole. */
  method CountParts(parts: seq<seq<byte>>) returns (lines: nat, chars: nat)
    ensures lines == LineCount(Flatten(parts)) && chars == RuneCount(Flatten(parts))
  {
    var c := new TextCounter();
    for i := 0 to |parts|
      invariant c.Valid() && fresh(c) && c.written + Flatten(parts[i..]) == Flatten(parts)
    {
      FlattenStep(c.written, parts, i);
      var n := c.Write(parts[i]);
    }
    assert parts[|parts|..] == [] && c.written + [] == c.written;
    return c.Lines(), c.Chars();
  }

  lemma FlattenStep(written: seq<byte>, parts: seq<seq<byte>>, i: nat)
    requires i < |parts|
    ensures written + Flatten(parts[i..]) == written + parts[i] + Flatten(parts[i + 1..])
  {}
}
