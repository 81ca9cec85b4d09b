/** The comic record that both generations of the index store (comic.XKCD and
    model.XKCD declare the same fields), and the facts about sequences of
    comics that the collections are specified with. */
module Xkcd {

  /** One comic. `number` is the key; `image` holds the base64 text of the
      downloaded picture, or "" when none was attached. */
  datatype Comic = Comic(
    day: string,
    month: string,
    year: string,
    number: int,
    title: string,
    safeTitle: string,
    transcript: string,
    imageUrl: string,
    imageAlt: string,
    news: string,
    link: string,
    image: string)

  /** Some comic of `s` carries number `n`. */
  ghost predicate HasNumber(s: seq<Comic>, n: int) {
    exists k :: 0 <= k < |s| && s[k].number == n
  }

  /** The comics of `s` are in ascending (not necessarily strict) order of number. */
  ghost predicate NonDecreasing(s: seq<Comic>) {
    forall a, b :: 0 <= a < b < |s| ==> s[a].number <= s[b].number
  }

  /** No two comics of `s` share a number. */
  ghost predicate DistinctNumbers(s: seq<Comic>) {
    forall a, b :: 0 <= a < b < |s| ==> s[a].number != s[b].number
  }

  /** Reference definition of a first-match scan: the smallest index of `s`
      holding number `n`, or -1 when there is none. */
  ghost function FirstIndex(s: seq<Comic>, n: int): (r: int)
    ensures -1 <= r < |s|
    ensures r == -1 <==> !HasNumber(s, n)
    ensures r != -1 ==> s[r].number == n && forall k :: 0 <= k < r ==> s[k].number != n
  {
    if |s| == 0 then -1
    else if s[|s| - 1].number == n && FirstIndex(s[..|s| - 1], n) == -1 then |s| - 1
    else FirstIndex(s[..|s| - 1], n)
  }
}
