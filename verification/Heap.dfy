/** The binary heap of internal/container/heap.go, over any ordering. */
module Heap {
  import opened Basics

  /** less is a strict ordering of equivalence classes: what a heap asks of its comparison. */
  ghost predicate Ordering<T(!new)>(less: (T, T) -> bool) {
    && (forall a, b :: less(a, b) ==> !less(b, a))
    && (forall a, b, c :: !less(b, a) && !less(c, b) ==> !less(c, a))
  }

  function ParentOf(i: nat): (p: nat)
    requires i > 0
    ensures i == 2 * p + 1 || i == 2 * p + 2
  {
    (i - 1) / 2
  }

  function Swap<T>(s: seq<T>, i: nat, j: nat): (r: seq<T>)
    requires i < |s| && j < |s|
    ensures |r| == |s|
  {
    s[i := s[j]][j := s[i]]
  }

  lemma SwapKeepsElements<T>(s: seq<T>, i: nat, j: nat)
    requires i < |s| && j < |s|
    ensures multiset(Swap(s, i, j)) == multiset(s)
  {}

  lemma LastReplacesRoot<T>(s: seq<T>)
    requires |s| > 1
    ensures multiset(s[0 := s[|s| - 1]][..|s| - 1]) + multiset{s[0]} == multiset(s)
  {
    var last := |s| - 1;
    assert s[0 := s[last]][..last] == [s[last]] + s[1..last];
    assert s == [s[0]] + s[1..last] + [s[last]];
  }

  class Heap<T(!new)> {
    const less: (T, T) -> bool
    var items: seq<T>

    ghost predicate Fits(i: nat) reads this {
      0 < i < |items| ==> !less(items[i], items[ParentOf(i)])
    }

    /** No item precedes its parent. */
    ghost predicate Valid() reads this {
      Ordering(less) && forall i: nat {:trigger Fits(i)} :: Fits(i)
    }

    constructor (less: (T, T) -> bool)
      requires Ordering(less)
      ensures Valid() && items == [] && this.less == less
    {
      this.less, items := less, [];
    }

    constructor From(given: seq<T>, less: (T, T) -> bool)
      requires Ordering(less)
      ensures Valid() && multiset(items) == multiset(given) && this.less == less
    {
      this.less, items := less, given;
      new;
      var i := |items| / 2;
      while i > 0
        invariant 0 <= i <= |items| / 2 && this.less == less && multiset(items) == multiset(given)
        invariant FitsFrom(i, |items|)
      {
        i := i - 1;
        Down(i);
      }
      forall j: nat ensures Fits(j) {
        assert j > 0 ==> ParentOf(j) >= 0;
      }
    }

    /** The heap rule for every child of position lo or later, but for the children of hole. */
    ghost predicate FitsFrom(lo: nat, hole: nat) reads this {
      forall j: nat {:trigger Fits(j)} :: j > 0 && lo <= ParentOf(j) && ParentOf(j) != hole ==> Fits(j)
    }

    lemma RootPrecedes(j: nat)
      requires Valid() && j < |items|
      ensures !less(items[j], items[0])
    {
      if j > 0 {
        RootPrecedes(ParentOf(j));
        assert Fits(j);
      }
    }

    method Peek() returns (r: Option<T>)
      requires Valid()
      ensures items == [] ==> r == None
      ensures items != [] ==> r == Some(items[0]) && forall x <- items :: !less(x, items[0])
    {
      if items == [] {
        return None;
      }
      forall x | x in items ensures !less(x, items[0]) {
        var j :| 0 <= j < |items| && items[j] == x;
        RootPrecedes(j);
      }
      return Some(items[0]);
    }

    method Push(v: T)
      requires Valid()
      modifies this
      ensures Valid() && multiset(items) == multiset(old(items)) + multiset{v} && |items| == |old(items)| + 1
    {
      assert forall i: nat :: i < |items| ==> Fits(i);
      items := items + [v];
      forall j: nat | j != |items| - 1 ensures Fits(j) {
        assert old(Fits(j));
      }
      Up(|items| - 1);
    }

    /** Takes out an item no other precedes. */
    method Pop() returns (r: Option<T>)
      requires Valid()
      modifies this
      ensures Valid()
      ensures old(items) == [] ==> r == None && items == []
      ensures old(items) != [] ==>
        && r.Some? && multiset(items) + multiset{r.value} == multiset(old(items))
        && forall x <- old(items) :: !less(x, r.value)
    {
      r := Peek();
      if r == None {
        return;
      }
      var last := |items| - 1;
      items := items[0 := items[last]];
      items := items[..last];
      if last == 0 {
        assert old(items) == [r.value];
      } else {
        LastReplacesRoot(old(items));
        forall j: nat | j > 0 && ParentOf(j) != 0 ensures Fits(j) {
          assert old(Fits(j));
        }
        Down(0);
      }
    }

    /** Pop then push, in one pass. */
    method Replace(v: T) returns (r: Option<T>)
      requires Valid()
      modifies this
      ensures Valid()
      ensures old(items) == [] ==> r == None && items == [v]
      ensures old(items) != [] ==>
        && r.Some? && multiset(items) + multiset{r.value} == multiset(old(items)) + multiset{v}
        && forall x <- old(items) :: !less(x, r.value)
    {
      r := Peek();
      if r == None {
        Push(v);
        assert items[0] in multiset(items);
        return;
      }
      assert items == [items[0]] + items[1..];
      items := items[0 := v];
      assert items == [v] + old(items)[1..];
      forall j: nat | j > 0 && ParentOf(j) != 0 ensures Fits(j) {
        assert old(Fits(j));
      }
      Down(0);
    }

    /** Moves the item at position k towards the root until its parent may stay above it. */
    method Up(k: nat)
      requires Ordering(less) && k < |items|
      requires forall j: nat {:trigger Fits(j)} :: j != k ==> Fits(j)
      requires forall j: nat {:trigger ParentOf(j)} :: 0 < j < |items| ==> ParentOf(j) != k
      modifies this
      ensures Valid() && multiset(items) == multiset(old(items)) && |items| == |old(items)|
    {
      var i := k;
      while i > 0
        invariant 0 <= i < |items| == |old(items)| && multiset(items) == multiset(old(items))
        invariant forall j: nat {:trigger Fits(j)} :: j != i ==> Fits(j)
        invariant forall j: nat {:trigger Fits(j)} :: 0 < j < |items| && i > 0 && ParentOf(j) == i ==>
          !less(items[j], items[ParentOf(i)])
      {
        var parent := ParentOf(i);
        if !less(items[i], items[parent]) {
          return;
        }
        SwapKeepsElements(items, parent, i);
        assert Fits(parent);
        ghost var before := items;
        label swap:
        items := Swap(items, parent, i);
        forall j: nat | j != parent ensures Fits(j) {
          assert old@swap(Fits(j)) || j == i;
        }
        forall j: nat | 0 < j < |items| && parent > 0 && ParentOf(j) == parent
          ensures !less(items[j], items[ParentOf(parent)])
        {
          assert old@swap(Fits(parent));
          assert j != i ==> old@swap(Fits(j));
        }
        i := parent;
      }
    }

    /** The position, of i and its children, whose item none of the others precedes. */
    function Smallest(i: nat): (s: nat)
      requires Ordering(less) && i < |items|
      reads this
      ensures s < |items| && (s == i || s == 2 * i + 1 || s == 2 * i + 2)
      ensures s != i ==> less(items[s], items[i])
      ensures 2 * i + 1 < |items| ==> !less(items[2 * i + 1], items[s])
      ensures 2 * i + 2 < |items| ==> !less(items[2 * i + 2], items[s])
    {
      var left, right := 2 * i + 1, 2 * i + 2;
      var s := if left < |items| && less(items[left], items[i]) then left else i;
      if right < |items| && less(items[right], items[s]) then right else s
    }

    /** The children of i may hang below i's own parent. */
    ghost predicate HangBelow(i: nat) reads this {
      forall j: nat {:trigger ParentOf(j)} :: i > 0 && 0 < j < |items| && ParentOf(i) < |items| && ParentOf(j) == i ==>
        !less(items[j], items[ParentOf(i)])
    }

    /** Moves the item at position k away from the root until no child precedes it. */
    method Down(k: nat)
      requires Ordering(less) && k < |items| && FitsFrom(k, k)
      modifies this
      ensures FitsFrom(k, |items|) && multiset(items) == multiset(old(items))
      ensures k == 0 ==> Valid()
    {
      var i := k;
      var sinking := true;
      while sinking
        invariant k <= i < |items| && multiset(items) == multiset(old(items))
        invariant if sinking then FitsFrom(k, i) && (i > k && k <= ParentOf(i) ==> HangBelow(i))
                  else FitsFrom(k, |items|)
        decreases sinking, |items| - i
      {
        var next := SinkOnce(i, k);
        sinking := next != i;
        i := next;
      }
    }

    method SinkOnce(i: nat, ghost lo: nat) returns (smallest: nat)
      requires Ordering(less) && lo <= i < |items|
      requires FitsFrom(lo, i) && (i > lo && lo <= ParentOf(i) ==> HangBelow(i))
      modifies this
      ensures |items| == |old(items)| && multiset(items) == multiset(old(items))
      ensures i <= smallest < |items|
      ensures smallest == i ==> FitsFrom(lo, |items|)
      ensures smallest != i ==> FitsFrom(lo, smallest) && HangBelow(smallest)
    {
      var left, right := 2 * i + 1, 2 * i + 2;
      smallest := Smallest(i);
      if smallest == i {
        forall j: nat | j > 0 && lo <= ParentOf(j) ensures Fits(j) {
          assert ParentOf(j) == i ==> j == left || j == right;
        }
        return;
      }
      SwapKeepsElements(items, smallest, i);
      items := Swap(items, smallest, i);
      forall j: nat | j > 0 && lo <= ParentOf(j) && ParentOf(j) != smallest ensures Fits(j) {
        if ParentOf(j) == i {
          assert j == left || j == right;
        } else if j == i {
          assert ParentOf(smallest) == i;
        } else {
          assert old(Fits(j));
        }
      }
      forall j: nat | 0 < j < |items| && ParentOf(j) == smallest ensures !less(items[j], items[i]) {
        assert old(Fits(j));
      }
      assert ParentOf(smallest) == i;
    }
  }
}
