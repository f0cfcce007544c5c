/** Folders of a shelf, named by their segments (shelf/folderpath.go), and the names they are kept
    under in maps. */
module FolderPaths {

  type FolderPath = seq<string>

  /** A path of directory names. */
  ghost predicate IsPath(f: FolderPath) {
    forall s <- f :: s != "" && '/' !in s
  }

  function Join(f: FolderPath): string {
    if f == [] then ""
    else if |f| == 1 then f[0]
    else f[0] + "/" + Join(f[1..])
  }

  predicate HasPrefix(f: FolderPath, prefix: FolderPath) {
    |f| >= |prefix| && f[..|prefix|] == prefix
  }

  lemma HasPrefixMeans(f: FolderPath, prefix: FolderPath)
    ensures HasPrefix(f, prefix) <==> exists rest: FolderPath :: f == prefix + rest
  {
    if HasPrefix(f, prefix) {
      assert f == prefix + f[|prefix|..];
    }
  }

  /** The joined name of a folder below another is that one's, a slash and the last segment. */
  lemma {:induction false} JoinGrows(f: FolderPath, last: string)
    ensures Join(f + [last]) == if f == [] then last else Join(f) + "/" + last
  {
    if |f| == 1 {
      assert (f + [last])[1..] == [last];
    } else if f != [] {
      JoinGrows(f[1..], last);
      assert (f + [last])[1..] == f[1..] + [last];
      assert f[0] + "/" + (Join(f[1..]) + "/" + last) == f[0] + "/" + Join(f[1..]) + "/" + last;
    }
  }

  lemma FirstSegment(a: string, rest: string, b: string, more: string)
    requires '/' !in a && '/' !in b && a + "/" + rest == b + "/" + more
    ensures a == b && rest == more
  {
    var whole := a + "/" + rest;
    assert whole[|a|] == '/' && whole[|b|] == '/';
    assert forall i :: 0 <= i < |a| ==> whole[i] == a[i];
    assert forall i :: 0 <= i < |b| ==> whole[i] == b[i];
    assert a == whole[..|a|] && b == whole[..|b|] && rest == whole[|a| + 1..] && more == whole[|b| + 1..];
  }

  lemma OneSegment(a: string, b: string, more: string)
    requires '/' !in a
    ensures a != b + "/" + more
  {}

  lemma NamesAreNotEmpty(f: FolderPath)
    requires IsPath(f)
    ensures Join(f) == "" <==> f == []
  {
    if f != [] {
      assert f[0] in f;
    }
  }

  /** The joined name tells the path. */
  lemma {:induction false} JoinTellsPath(f: FolderPath, g: FolderPath)
    requires IsPath(f) && IsPath(g) && Join(f) == Join(g)
    ensures f == g
  {
    if f == [] || g == [] {
      NamesAreNotEmpty(f);
      NamesAreNotEmpty(g);
    } else if |f| == 1 && |g| > 1 {
      assert f[0] in f;
      OneSegment(f[0], g[0], Join(g[1..]));
    } else if |g| == 1 && |f| > 1 {
      assert g[0] in g;
      OneSegment(g[0], f[0], Join(f[1..]));
    } else if |f| > 1 {
      assert f[0] in f && g[0] in g;
      FirstSegment(f[0], Join(f[1..]), g[0], Join(g[1..]));
      assert forall s <- f[1..] :: s in f;
      assert forall s <- g[1..] :: s in g;
      JoinTellsPath(f[1..], g[1..]);
      assert f == [f[0]] + f[1..] && g == [g[0]] + g[1..];
    }
  }

  lemma PrefixOfPrefix(f: FolderPath, sub: FolderPath, from: FolderPath)
    requires HasPrefix(sub, from)
    ensures HasPrefix(f, sub) ==> HasPrefix(f, from)
  {
    if HasPrefix(f, sub) {
      assert f[..|from|] == f[..|sub|][..|from|];
    }
  }

  /** Of two prefixes of a path the shorter is one of the longer. */
  lemma PrefixesNest(x: FolderPath, f: FolderPath, g: FolderPath)
    requires HasPrefix(x, f) && HasPrefix(x, g) && |g| <= |f|
    ensures HasPrefix(f, g)
  {
    assert x[..|f|][..|g|] == x[..|g|];
  }

  lemma SameItems(x: FolderPath, y: FolderPath, d: nat)
    requires d <= |x| && d <= |y| && x[..d] == y[..d]
    ensures forall i :: 0 <= i < d ==> x[i] == y[i]
  {
    assert forall i :: 0 <= i < d ==> x[..d][i] == y[..d][i];
  }
}
