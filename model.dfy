/** The older index of package `model` (infrastructure/model/xkcd.go): a slice
    of comics with a deduplicating Add and first-match lookups. In the source
    the methods take the slice as a value receiver while Add and Remove write
    the package-level `Comics`; every caller invokes them on `Comics` itself,
    so here both are the one `comics` field of a Collection object. */
module Model {
  import opened Wrappers
  import opened Xkcd
  import Sorting

  /** The contents after adding `x` the way Add does: unchanged when the
      number is already present, otherwise `x` appended. */
  ghost function Added(s: seq<Comic>, x: Comic): (r: seq<Comic>)
    ensures HasNumber(r, x.number)
    ensures forall m :: HasNumber(r, m) <==> HasNumber(s, m) || m == x.number
    ensures DistinctNumbers(s) ==> DistinctNumbers(r)
    ensures |s| <= |r| <= |s| + 1 && r[..|s|] == s
  {
    if HasNumber(s, x.number) then s
    else
      var r := s + [x];
      assert r[|s|] == x;
      assert forall m :: HasNumber(s, m) ==> HasNumber(r, m) by {
        forall m | HasNumber(s, m) ensures HasNumber(r, m) {
          var k :| 0 <= k < |s| && s[k].number == m;
          assert r[k] == s[k];
        }
      }
      r
  }

  /** The contents after Remove(index) on a valid index: each later comic
      moves one place left and the last slot keeps its old comic. */
  function ShiftedLeft(s: seq<Comic>, index: int): (r: seq<Comic>)
    requires 0 <= index < |s|
    ensures |r| == |s|
    ensures forall k :: 0 <= k < index ==> r[k] == s[k]
    ensures forall k :: index <= k < |s| - 1 ==> r[k] == s[k + 1]
    ensures r[|s| - 1] == s[|s| - 1]
  {
    s[..index] + s[index + 1..] + [s[|s| - 1]]
  }

  class Collection {
    var comics: seq<Comic>

    /** The zero value: a nil slice. */
    constructor ()
      ensures comics == []
    {
      comics := [];
    }

    /** Add appends `x` unless a comic with its number is already held. */
    method Add(x: Comic)
      modifies this
      ensures comics == Added(old(comics), x)
      ensures old(DistinctNumbers(comics)) ==> DistinctNumbers(comics)
    {
      var present := Contains(x.number);
      if !present {
        comics := comics + [x];
      }
    }

    /** Contains is true exactly when Get finds a comic. */
    method Contains(n: int) returns (b: bool)
      ensures b <==> HasNumber(comics, n)
    {
      var x := Get(n);
      b := x != None;
    }

    /** Get returns the first comic with number `n`, or None. */
    method Get(n: int) returns (r: Option<Comic>)
      ensures r == None <==> !HasNumber(comics, n)
      ensures r != None ==> r == Some(comics[FirstIndex(comics, n)])
    {
      for i := 0 to |comics|
        invariant forall k :: 0 <= k < i ==> comics[k].number != n
      {
        if comics[i].number == n {
          return Some(comics[i]);
        }
      }
      return None;
    }

    /** Index returns the smallest position holding number `n`, or -1. */
    method Index(n: int) returns (r: int)
      ensures -1 <= r < |comics|
      ensures r == -1 <==> !HasNumber(comics, n)
      ensures r != -1 ==> comics[r].number == n && forall k :: 0 <= k < r ==> comics[k].number != n
    {
      r := -1;
      var i := 0;
      while i < |comics|
        invariant 0 <= i <= |comics|
        invariant r == -1
        invariant forall k :: 0 <= k < i ==> comics[k].number != n
      {
        if comics[i].number == n {
          r := i;
          break;
        }
        i := i + 1;
      }
    }

    /** Remove shifts the comics after `index` one place left without
        shrinking the slice; -1 and indices past the end are ignored. */
    method Remove(index: int)
      requires -1 <= index && index != |comics|
      modifies this
      ensures 0 <= index < |old(comics)| ==> comics == ShiftedLeft(old(comics), index)
      ensures !(0 <= index < |old(comics)|) ==> comics == old(comics)
    {
      if index == -1 || index > |comics| {
        return;
      }
      // shift the comics after index one place left; the length stays
      ghost var was := comics;
      var i := index;
      while i < |comics| - 1
        invariant index <= i < |comics| == |was|
        invariant forall k :: 0 <= k < index ==> comics[k] == was[k]
        invariant forall k :: index <= k < i ==> comics[k] == was[k + 1]
        invariant forall k :: i <= k < |comics| ==> comics[k] == was[k]
      {
        comics := comics[i := comics[i + 1]];
        i := i + 1;
      }
    }

    /** Len is the number of comics held. */
    function Len(): (r: int)
      reads this
      ensures r == |comics|
    {
      |comics|
    }

    /** Less compares two positions by comic number only. */
    function Less(i: int, j: int): (b: bool)
      reads this
      requires 0 <= i < |comics| && 0 <= j < |comics|
      ensures b <==> comics[i].number < comics[j].number
    {
      comics[i].number < comics[j].number
    }

    /** Swap exchanges two positions and leaves everything else alone. */
    method Swap(i: int, j: int)
      requires 0 <= i < |comics| && 0 <= j < |comics|
      modifies this
      ensures comics == Sorting.Swapped(old(comics), i, j)
    {
      comics := comics[i := comics[j]][j := comics[i]];
    }
  }
}
