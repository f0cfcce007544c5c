/** A double loop over the pairs i < j of a list, each pair contributing what its cell holds. */
module PairTable {

  ghost function Row<P>(cell: (nat, nat) -> seq<P>, n: nat, i: nat, j: nat): seq<P>
    decreases n - j
  {
    if j >= n then [] else cell(i, j) + Row(cell, n, i, j + 1)
  }

  ghost function Table<P>(cell: (nat, nat) -> seq<P>, n: nat, i: nat): seq<P>
    decreases n - i
  {
    if i >= n then [] else Row(cell, n, i, i + 1) + Table(cell, n, i + 1)
  }

  lemma RowStep<P>(cell: (nat, nat) -> seq<P>, n: nat, i: nat, j: nat, done: seq<P>)
    requires j < n
    ensures done + Row(cell, n, i, j) == done + cell(i, j) + Row(cell, n, i, j + 1)
  {}

  lemma {:induction false} RowMembers<P>(cell: (nat, nat) -> seq<P>, n: nat, i: nat, j: nat, e: P)
    ensures e in Row(cell, n, i, j) <==> exists k :: j <= k < n && e in cell(i, k)
    decreases n - j
  {
    if j < n {
      RowMembers(cell, n, i, j + 1, e);
      assert e in Row(cell, n, i, j) <==> e in cell(i, j) || e in Row(cell, n, i, j + 1);
    }
  }

  /** An entry is in the table exactly when some pair's cell holds it. */
  lemma {:induction false} TableMembers<P>(cell: (nat, nat) -> seq<P>, n: nat, i: nat, e: P)
    ensures e in Table(cell, n, i) <==> exists h, k :: i <= h < k < n && e in cell(h, k)
    decreases n - i
  {
    if i < n {
      RowMembers(cell, n, i, i + 1, e);
      TableMembers(cell, n, i + 1, e);
      if h: nat, k: nat :| i <= h < k < n && e in cell(h, k) {
        assert e in Row(cell, n, i, i + 1) || e in Table(cell, n, i + 1);
      }
    }
  }

  ghost predicate Sorted<P>(s: seq<P>, before: (P, P) -> bool) {
    forall h, k :: 0 <= h < k < |s| ==> before(s[h], s[k])
  }

  lemma SortedConcat<P>(s: seq<P>, t: seq<P>, before: (P, P) -> bool)
    requires Sorted(s, before) && Sorted(t, before) && Precedes(s, t, before)
    ensures Sorted(s + t, before)
  {}

  ghost predicate Precedes<P>(s: seq<P>, t: seq<P>, before: (P, P) -> bool) {
    forall p, q :: p in s && q in t ==> before(p, q)
  }

  /** Cells hold at most one entry, and later pairs hold later entries. */
  ghost predicate Ascends<P>(cell: (nat, nat) -> seq<P>, n: nat, before: (P, P) -> bool) {
    && (forall h: nat, k: nat {:trigger cell(h, k)} :: h < k < n ==> |cell(h, k)| <= 1)
    && (forall h: nat, k: nat, h': nat, k': nat {:trigger Precedes(cell(h, k), cell(h', k'), before)} ::
          h < k < n && h' < k' < n && (h < h' || (h == h' && k < k')) ==> Precedes(cell(h, k), cell(h', k'), before))
  }

  lemma {:induction false} RowSorted<P>(cell: (nat, nat) -> seq<P>, n: nat, i: nat, j: nat, before: (P, P) -> bool)
    requires Ascends(cell, n, before) && i < j
    ensures Sorted(Row(cell, n, i, j), before)
    decreases n - j
  {
    if j < n {
      RowSorted(cell, n, i, j + 1, before);
      forall p, q | p in cell(i, j) && q in Row(cell, n, i, j + 1) ensures before(p, q) {
        RowMembers(cell, n, i, j + 1, q);
        var k :| j + 1 <= k < n && q in cell(i, k);
        assert Precedes(cell(i, j), cell(i, k), before);
      }
      SortedConcat(cell(i, j), Row(cell, n, i, j + 1), before);
    }
  }

  lemma RowPrecedesTable<P>(cell: (nat, nat) -> seq<P>, n: nat, i: nat, before: (P, P) -> bool)
    requires Ascends(cell, n, before) && i < n
    ensures Precedes(Row(cell, n, i, i + 1), Table(cell, n, i + 1), before)
  {
    forall p, q | p in Row(cell, n, i, i + 1) && q in Table(cell, n, i + 1) ensures before(p, q) {
      RowMembers(cell, n, i, i + 1, p);
      var j :| i + 1 <= j < n && p in cell(i, j);
      TableMembers(cell, n, i + 1, q);
      var h, k :| i + 1 <= h < k < n && q in cell(h, k);
      assert Precedes(cell(i, j), cell(h, k), before);
    }
  }

  lemma {:induction false} TableSorted<P>(cell: (nat, nat) -> seq<P>, n: nat, i: nat, before: (P, P) -> bool)
    requires Ascends(cell, n, before)
    ensures Sorted(Table(cell, n, i), before)
    decreases n - i
  {
    if i < n {
      TableSorted(cell, n, i + 1, before);
      RowSorted(cell, n, i, i + 1, before);
      RowPrecedesTable(cell, n, i, before);
      SortedConcat(Row(cell, n, i, i + 1), Table(cell, n, i + 1), before);
    }
  }

  lemma {:induction false} RowsAgree<P>(c: (nat, nat) -> seq<P>, d: (nat, nat) -> seq<P>, n: nat, i: nat, j: nat)
    requires i < j && forall h: nat, k: nat :: h < k < n ==> c(h, k) == d(h, k)
    ensures Row(c, n, i, j) == Row(d, n, i, j)
    decreases n - j
  {
    if j < n {
      RowsAgree(c, d, n, i, j + 1);
    }
  }

  lemma {:induction false} TablesAgree<P>(c: (nat, nat) -> seq<P>, d: (nat, nat) -> seq<P>, n: nat, i: nat)
    requires forall h: nat, k: nat :: h < k < n ==> c(h, k) == d(h, k)
    ensures Table(c, n, i) == Table(d, n, i)
    decreases n - i
  {
    if i < n {
      RowsAgree(c, d, n, i, i + 1);
      TablesAgree(c, d, n, i + 1);
    }
  }

  /** A table whose cells never hold more than another's is no longer, and is shorter where one holds less. */
  lemma {:induction false} RowLength<P>(c: (nat, nat) -> seq<P>, d: (nat, nat) -> seq<P>, n: nat, i: nat, j: nat)
    requires i < j && forall h: nat, k: nat :: h < k < n ==> |c(h, k)| <= |d(h, k)|
    ensures |Row(c, n, i, j)| <= |Row(d, n, i, j)|
    ensures (exists k: nat :: j <= k < n && |c(i, k)| < |d(i, k)|) ==> |Row(c, n, i, j)| < |Row(d, n, i, j)|
    decreases n - j
  {
    if j < n {
      RowLength(c, d, n, i, j + 1);
    }
  }

  lemma {:induction false} TableLength<P>(c: (nat, nat) -> seq<P>, d: (nat, nat) -> seq<P>, n: nat, i: nat)
    requires forall h: nat, k: nat :: h < k < n ==> |c(h, k)| <= |d(h, k)|
    ensures |Table(c, n, i)| <= |Table(d, n, i)|
    ensures (exists h: nat, k: nat :: i <= h < k < n && |c(h, k)| < |d(h, k)|) ==> |Table(c, n, i)| < |Table(d, n, i)|
    decreases n - i
  {
    if i < n {
      RowLength(c, d, n, i, i + 1);
      TableLength(c, d, n, i + 1);
    }
  }
}
