/** Ordering a sequence of comics by number, as `sort.Sort` does through the
    Len/Less/Swap methods of both collections. */
module Sorting {
  import opened Xkcd

  /** `s` with the comics at `i` and `j` exchanged: the effect of Swap(i, j). */
  function Swapped(s: seq<Comic>, i: int, j: int): (r: seq<Comic>)
    requires 0 <= i < |s| && 0 <= j < |s|
    ensures |r| == |s| && r[i] == s[j] && r[j] == s[i]
    ensures forall k :: 0 <= k < |s| && k != i && k != j ==> r[k] == s[k]
    ensures multiset(r) == multiset(s)
  {
    s[i := s[j]][j := s[i]]
  }

  /** Sorts by number with Less/Swap steps (an insertion sort). The order of
      comics with equal numbers is not promised. */
  method SortByNumber(s: seq<Comic>) returns (r: seq<Comic>)
    ensures NonDecreasing(r)
    ensures multiset(r) == multiset(s)
  {
    r := s;
    var i := 0;
    while i < |r|
      invariant 0 <= i <= |r| == |s|
      invariant multiset(r) == multiset(s)
      invariant forall a, b :: 0 <= a < b < i ==> r[a].number <= r[b].number
    {
      var j := i;
      while 0 < j && r[j].number < r[j - 1].number
        invariant 0 <= j <= i < |r| == |s|
        invariant multiset(r) == multiset(s)
        invariant forall a, b :: 0 <= a < b <= i && a != j && b != j ==> r[a].number <= r[b].number
        invariant forall b :: j < b <= i ==> r[j].number < r[b].number
      {
        r := Swapped(r, j, j - 1);
        j := j - 1;
      }
      forall a, b | 0 <= a < b <= i
        ensures r[a].number <= r[b].number
      {
        if b == j && a < j - 1 {
          assert r[a].number <= r[j - 1].number;
        }
      }
      i := i + 1;
    }
  }
}
