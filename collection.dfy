/** The in-memory index of package `comic` (comic/collection.go): a slice of
    comics plus a `sorted` flag that selects binary or linear lookup. The
    mutex that guards it is not modelled; the model is single-threaded. */
module ComicCollection {
  import opened Wrappers
  import opened Xkcd
  import Sorting

  /** What Get returns: the index found (-1 when absent) and the comic there. */
  datatype Lookup = Lookup(index: int, comic: Option<Comic>)

  const NotFound := Lookup(-1, None)

  /** `r` names a position of `s` that holds number `n`, and carries that comic. */
  ghost predicate IsHit(s: seq<Comic>, n: int, r: Lookup) {
    0 <= r.index < |s| && s[r.index].number == n && r.comic == Some(s[r.index])
  }

  /** getSequentialSearch: scan from position `k` to the end, stopping at the
      first comic with number `n`. */
  function SequentialSearch(s: seq<Comic>, n: int, k: nat): (r: Lookup)
    requires k <= |s|
    ensures r == NotFound <==> forall i :: k <= i < |s| ==> s[i].number != n
    ensures r != NotFound ==> k <= r.index && IsHit(s, n, r)
    ensures r != NotFound ==> forall i :: k <= i < r.index ==> s[i].number != n
    decreases |s| - k
  {
    if k == |s| then NotFound
    else if s[k].number == n then Lookup(k, Some(s[k]))
    else SequentialSearch(s, n, k + 1)
  }

  /** getBinarySearch: search the closed interval [lo, hi]; an empty interval
      (lo > hi) is a miss. Any hit is genuine; on a non-decreasing sequence
      every number present in the interval is found. */
  function BinarySearch(s: seq<Comic>, lo: int, hi: int, n: int): (r: Lookup)
    requires 0 <= lo <= hi + 1 <= |s|
    ensures r == NotFound || (lo <= r.index <= hi && IsHit(s, n, r))
    ensures NonDecreasing(s) && (exists i :: lo <= i <= hi && s[i].number == n) ==> r != NotFound
    decreases hi - lo + 1
  {
    if lo > hi then NotFound
    else
      var mid := (lo + hi) / 2;
      if s[mid].number == n then Lookup(mid, Some(s[mid]))
      else if s[mid].number < n then BinarySearch(s, mid + 1, hi, n)
      else BinarySearch(s, lo, mid - 1, n)
  }

  /** On a non-decreasing sequence the two search paths agree on whether `n`
      is present. */
  lemma SearchPathsAgree(s: seq<Comic>, n: int)
    requires NonDecreasing(s)
    ensures (BinarySearch(s, 0, |s| - 1, n) == NotFound) == (SequentialSearch(s, n, 0) == NotFound)
  {
  }

  /** When the numbers are also distinct, the two paths return the same
      index and the same comic. */
  lemma SearchPathsAgreeExactly(s: seq<Comic>, n: int)
    requires NonDecreasing(s) && DistinctNumbers(s)
    ensures BinarySearch(s, 0, |s| - 1, n) == SequentialSearch(s, n, 0)
  {
  }

  /** Deleting one position keeps a non-decreasing sequence non-decreasing. */
  lemma RemovedStaysOrdered(s: seq<Comic>, i: int)
    requires 0 <= i < |s| && NonDecreasing(s)
    ensures NonDecreasing(s[..i] + s[i + 1..])
  {
    var t := s[..i] + s[i + 1..];
    forall a, b | 0 <= a < b < |t|
      ensures t[a].number <= t[b].number
    {
      var a', b' := if a < i then a else a + 1, if b < i then b else b + 1;
      assert t[a] == s[a'] && t[b] == s[b'];
    }
  }

  class Comics {
    var comics: seq<Comic>
    var sorted: bool

    /** The invariant the flag stands for. */
    ghost predicate Valid()
      reads this
    {
      sorted ==> NonDecreasing(comics)
    }

    /** The zero value `Comics{}`: empty and not marked sorted. */
    constructor ()
      ensures comics == [] && !sorted && Valid()
    {
      comics := [];
      sorted := false;
    }

    /** Load fills an empty collection with `items`, in order, and marks it
        sorted; on a non-empty collection it does nothing. The items are
        expected to come sorted, as the invariant then needs. */
    method Load(items: seq<Comic>)
      modifies this
      ensures old(|comics|) == 0 ==> comics == items && sorted
      ensures old(|comics|) != 0 ==> comics == old(comics) && sorted == old(sorted)
      ensures old(Valid()) && (old(|comics|) != 0 || NonDecreasing(items)) ==> Valid()
    {
      if Len() == 0 {
        comics := items;
        sorted := true;
      }
    }

    /** Add appends `x`, and clears `sorted` when the previous last comic has a
        larger number. */
    method Add(x: Comic)
      modifies this
      ensures comics == old(comics) + [x]
      ensures sorted == (old(sorted) && !(|old(comics)| > 0 && old(comics)[|old(comics)| - 1].number > x.number))
      ensures old(Valid()) ==> Valid()
    {
      var size := Len();
      if size > 0 && comics[size - 1].number > x.number {
        sorted := false;
      }
      comics := comics + [x];
    }

    /** Get: binary search over [0, len-1] when sorted, a linear scan
        otherwise. A hit is always genuine; under the invariant a miss means
        the number is absent; the linear path finds the first match. */
    function Get(n: int): (r: Lookup)
      reads this
      ensures r == NotFound || IsHit(comics, n, r)
      ensures Valid() ==> (r == NotFound <==> !HasNumber(comics, n))
      ensures !sorted ==> r.index == FirstIndex(comics, n)
    {
      if sorted then BinarySearch(comics, 0, |comics| - 1, n)
      else SequentialSearch(comics, n, 0)
    }

    /** Contains reports whether Get found a position. */
    function Contains(n: int): (b: bool)
      reads this
      ensures b ==> HasNumber(comics, n)
      ensures Valid() ==> (b <==> HasNumber(comics, n))
      ensures b <==> Index(n) > -1
    {
      Get(n).index > -1
    }

    /** Index is the position component of Get. */
    function Index(n: int): (r: int)
      reads this
      ensures r == Get(n).index
      ensures r == -1 || (0 <= r < |comics| && comics[r].number == n)
    {
      Get(n).index
    }

    /** GetAll hands out the contents in their current order. */
    function GetAll(): (r: seq<Comic>)
      reads this
      ensures r == comics
    {
      comics
    }

    /** Remove deletes the comic at `index` by shifting the later ones left
        and dropping the last slot. It refuses -1 and any index past the end. */
    method Remove(index: int) returns (ok: bool)
      requires -1 <= index
      modifies this
      ensures ok <==> index != -1 && index < |old(comics)|
      ensures ok ==> comics == old(comics)[..index] + old(comics)[index + 1..]
      ensures !ok ==> comics == old(comics)
      ensures sorted == old(sorted)
      ensures old(Valid()) ==> Valid()
    {
      if index == -1 || index >= |comics| {
        return false;
      }
      // shift the comics after index one place left, then drop the last slot
      ghost var was := comics;
      var i := index;
      while i < |comics| - 1
        invariant index <= i < |comics| == |was|
        invariant sorted == old(sorted)
        invariant forall k :: 0 <= k < index ==> comics[k] == was[k]
        invariant forall k :: index <= k < i ==> comics[k] == was[k + 1]
        invariant forall k :: i <= k < |comics| ==> comics[k] == was[k]
      {
        comics := comics[i := comics[i + 1]];
        i := i + 1;
      }
      comics := comics[..|comics| - 1];
      assert comics == was[..index] + was[index + 1..];
      if old(Valid()) && sorted {
        RemovedStaysOrdered(was, index);
      }
      return true;
    }

    /** Sort orders the comics by number and sets `sorted`, whatever it was. */
    method Sort()
      modifies this
      ensures NonDecreasing(comics) && multiset(comics) == multiset(old(comics))
      ensures sorted && Valid()
    {
      comics := Sorting.SortByNumber(comics);
      sorted := true;
    }

    /** Len is the number of comics held. */
    function Len(): (r: int)
      reads this
      ensures r == |comics|
    {
      |comics|
    }

    /** Less compares two positions by comic number only. */
    function Less(i: int, j: int): (b: bool)
      reads this
      requires 0 <= i < |comics| && 0 <= j < |comics|
      ensures b <==> comics[i].number < comics[j].number
    {
      comics[i].number < comics[j].number
    }

    /** Swap exchanges two positions and leaves everything else alone. */
    method Swap(i: int, j: int)
      requires 0 <= i < |comics| && 0 <= j < |comics|
      modifies this
      ensures comics == Sorting.Swapped(old(comics), i, j)
      ensures sorted == old(sorted)
    {
      comics := comics[i := comics[j]][j := comics[i]];
    }
  }
}
