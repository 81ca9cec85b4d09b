/** One synchronisation run of main.go (doSync, getLastComicNum, synchronize),
    as a sequential abstraction. In the source every Contains check of the
    scheduling loop runs before the drain loop performs any Add, so the ids
    downloaded are fixed by the index as it stood after the latest comic was
    added; the model runs the three phases (schedule, download, drain) one
    after the other. Goroutines, the wait group, the 20-slot semaphore and the
    result channel are not modelled. */
module Sync {
  import opened Wrappers
  import opened Xkcd
  import Model
  import IndexManager

  /** The ids in [1, hi) that `s` does not hold, in ascending order. */
  ghost function Missing(s: seq<Comic>, hi: int): seq<int>
    decreases hi
  {
    if hi <= 1 then []
    else Missing(s, hi - 1) + (if HasNumber(s, hi - 1) then [] else [hi - 1])
  }

  /** Missing holds exactly the absent ids of [1, hi), each once, ascending. */
  lemma {:induction false} MissingExactly(s: seq<Comic>, hi: int)
    ensures forall x :: x in Missing(s, hi) <==> 1 <= x < hi && !HasNumber(s, x)
    ensures forall a, b :: 0 <= a < b < |Missing(s, hi)| ==> Missing(s, hi)[a] < Missing(s, hi)[b]
    decreases hi
  {
    if hi > 1 {
      MissingExactly(s, hi - 1);
      var m := Missing(s, hi - 1);
      forall a | 0 <= a < |m| ensures m[a] < hi - 1 {
        assert m[a] in m;
      }
    }
  }

  /** The comics that downloading `ids` yields, in order; failures add nothing. */
  ghost function Fetched(web: IndexManager.Web, ids: seq<int>): seq<Comic>
  {
    if ids == [] then []
    else
      Fetched(web, ids[..|ids| - 1]) +
      match IndexManager.DownloadComic(web, ids[|ids| - 1])
      case Success(x) => [x]
      case Failure(_) => []
  }

  /** A comic is fetched exactly when some scheduled id downloads to it. */
  lemma {:induction false} FetchedExactly(web: IndexManager.Web, ids: seq<int>)
    ensures |Fetched(web, ids)| <= |ids|
    ensures forall x :: x in Fetched(web, ids) <==>
              exists i :: 0 <= i < |ids| && IndexManager.DownloadComic(web, ids[i]) == Success(x)
  {
    if ids != [] {
      var init := ids[..|ids| - 1];
      FetchedExactly(web, init);
      forall x ensures x in Fetched(web, ids) <==>
        exists i :: 0 <= i < |ids| && IndexManager.DownloadComic(web, ids[i]) == Success(x)
      {
        if x in Fetched(web, init) {
          var i :| 0 <= i < |init| && IndexManager.DownloadComic(web, init[i]) == Success(x);
          assert ids[i] == init[i];
        }
        if exists i :: 0 <= i < |ids| && IndexManager.DownloadComic(web, ids[i]) == Success(x) {
          var i :| 0 <= i < |ids| && IndexManager.DownloadComic(web, ids[i]) == Success(x);
          if i < |init| {
            assert init[i] == ids[i];
          }
        }
      }
    }
  }

  /** The index after adding every comic of `xs`, in order, with Model's Add. */
  ghost function AddAll(s: seq<Comic>, xs: seq<Comic>): seq<Comic>
  {
    if xs == [] then s else Model.Added(AddAll(s, xs[..|xs| - 1]), xs[|xs| - 1])
  }

  /** Adding keeps what was there, in place, and afterwards a number is held
      exactly when it was held before or some added comic carries it;
      distinct numbers stay distinct. */
  lemma {:induction false} AddAllExactly(s: seq<Comic>, xs: seq<Comic>)
    ensures |s| <= |AddAll(s, xs)| && AddAll(s, xs)[..|s|] == s
    ensures forall m :: HasNumber(AddAll(s, xs), m) <==>
              HasNumber(s, m) || exists x :: x in xs && x.number == m
    ensures DistinctNumbers(s) ==> DistinctNumbers(AddAll(s, xs))
  {
    if xs != [] {
      var init := xs[..|xs| - 1];
      var last := xs[|xs| - 1];
      AddAllExactly(s, init);
      var before := AddAll(s, init);
      assert AddAll(s, xs) == Model.Added(before, last);
      assert AddAll(s, xs)[..|before|] == before;
      assert AddAll(s, xs)[..|s|] == before[..|s|];
      forall m ensures HasNumber(AddAll(s, xs), m) <==>
        HasNumber(s, m) || exists x :: x in xs && x.number == m
      {
        if exists x :: x in init && x.number == m {
          var x :| x in init && x.number == m;
          assert x in xs;
        }
        if exists x :: x in xs && x.number == m {
          var x :| x in xs && x.number == m;
          if x != last {
            assert x in init;
          }
        }
      }
    }
  }

  /** getLastComicNum: fetch the latest comic (id 0), add it to the index and
      return its number. A failure aborts (log.Fatal) before the index is
      touched; the model returns it as a Failure. */
  method GetLastComicNum(web: IndexManager.Web, c: Model.Collection)
    returns (r: Result<int, IndexManager.Error>)
    modifies c
    ensures match IndexManager.DownloadComic(web, 0)
            case Failure(e) => r == Failure(e) && c.comics == old(c.comics)
            case Success(x) => r == Success(x.number) && c.comics == Model.Added(old(c.comics), x)
  {
    var latest := IndexManager.DownloadComic(web, 0);
    match latest
    case Failure(e) =>
      return Failure(e);
    case Success(x) =>
      IndexManager.AddToCollection(c, x);
      return Success(x.number);
  }

  /** The scheduling loop of synchronize: every id of [1, last) that the
      index does not contain is scheduled, in ascending order. */
  method Schedule(c: Model.Collection, last: int) returns (ids: seq<int>)
    ensures ids == Missing(c.comics, last)
    ensures forall i :: i in ids <==> 1 <= i < last && !HasNumber(c.comics, i)
  {
    ids := [];
    var i := 1;
    while i < last
      invariant 1 <= i <= if last < 1 then 1 else last
      invariant ids == Missing(c.comics, i)
    {
      var present := IndexManager.Contains(c, i);
      if !present {
        ids := ids + [i];
      }
      i := i + 1;
    }
    MissingExactly(c.comics, last);
  }

  /** The workers of synchronize: download every scheduled id once; a
      failure contributes nothing and is not retried. */
  method DownloadAll(web: IndexManager.Web, ids: seq<int>) returns (results: seq<Comic>)
    ensures results == Fetched(web, ids)
    ensures forall x :: x in results <==>
              exists i :: 0 <= i < |ids| && IndexManager.DownloadComic(web, ids[i]) == Success(x)
  {
    results := [];
    for k := 0 to |ids|
      invariant results == Fetched(web, ids[..k])
    {
      assert ids[..k + 1][..k] == ids[..k];
      var outcome := IndexManager.DownloadComic(web, ids[k]);
      if outcome.Success? {
        results := results + [outcome.value];
      }
    }
    assert ids[..|ids|] == ids;
    FetchedExactly(web, ids);
  }

  /** The drain loop of synchronize: each successful result goes to
      AddToCollection. */
  method Drain(c: Model.Collection, results: seq<Comic>)
    modifies c
    ensures c.comics == AddAll(old(c.comics), results)
  {
    for k := 0 to |results|
      invariant c.comics == AddAll(old(c.comics), results[..k])
    {
      assert results[..k + 1][..k] == results[..k];
      IndexManager.AddToCollection(c, results[k]);
    }
    assert results[..|results|] == results;
  }

  /** synchronize: schedule against the index as it stands, download, then
      add every success. */
  method Synchronize(web: IndexManager.Web, c: Model.Collection, last: int)
    modifies c
    ensures c.comics == AddAll(old(c.comics), Fetched(web, Missing(old(c.comics), last)))
  {
    var ids := Schedule(c, last);
    var results := DownloadAll(web, ids);
    Drain(c, results);
  }

  /** The index contents (before the final sort) that a run starting from `s`
      produces, or the error that aborts it. */
  ghost function RunResult(web: IndexManager.Web, s: seq<Comic>): Result<seq<Comic>, IndexManager.Error>
  {
    match IndexManager.DownloadComic(web, 0)
    case Failure(e) => Failure(e)
    case Success(latest) =>
      var withLatest := Model.Added(s, latest);
      Success(AddAll(withLatest, Fetched(web, Missing(withLatest, latest.number))))
  }

  /** doSync: find the latest comic, synchronise up to it, sort the index
      and hand it to the writer (the returned sequence). */
  method DoSync(web: IndexManager.Web, c: Model.Collection)
    returns (written: Result<seq<Comic>, IndexManager.Error>)
    modifies c
    ensures RunResult(web, old(c.comics)).Failure? ==>
              written == Failure(RunResult(web, old(c.comics)).error) && c.comics == old(c.comics)
    ensures RunResult(web, old(c.comics)).Success? ==>
              && written == Success(c.comics)
              && NonDecreasing(c.comics)
              && multiset(c.comics) == multiset(RunResult(web, old(c.comics)).value)
  {
    var last := GetLastComicNum(web, c);
    if last.Failure? {
      return Failure(last.error);
    }
    Synchronize(web, c, last.value);
    IndexManager.Sort(c);
    return Success(c.comics);
  }

  /** What a run promises about the ids below the latest, for a server that
      answers each id with the comic of that number: afterwards an id is held
      exactly when it was held before or its download succeeded. */
  lemma RunCoversMissing(web: IndexManager.Web, s: seq<Comic>, id: int)
    requires forall n :: IndexManager.DownloadComic(web, n).Success? ==>
               n == 0 || IndexManager.DownloadComic(web, n).value.number == n
    requires IndexManager.DownloadComic(web, 0).Success?
    requires 1 <= id < IndexManager.DownloadComic(web, 0).value.number
    ensures RunResult(web, s).Success?
    ensures HasNumber(RunResult(web, s).value, id) <==>
              HasNumber(s, id) || IndexManager.DownloadComic(web, id).Success?
  {
    var latest := IndexManager.DownloadComic(web, 0).value;
    var withLatest := Model.Added(s, latest);
    var ids := Missing(withLatest, latest.number);
    MissingExactly(withLatest, latest.number);
    FetchedExactly(web, ids);
    AddAllExactly(withLatest, Fetched(web, ids));
    if IndexManager.DownloadComic(web, id).Success? && !HasNumber(s, id) {
      var x := IndexManager.DownloadComic(web, id).value;
      assert id in ids;
      var i :| 0 <= i < |ids| && ids[i] == id;
      assert x in Fetched(web, ids);
    }
    if HasNumber(RunResult(web, s).value, id) && !HasNumber(s, id) {
      assert !HasNumber(withLatest, id);
      var x :| x in Fetched(web, ids) && x.number == id;
      var i :| 0 <= i < |ids| && IndexManager.DownloadComic(web, ids[i]) == Success(x);
      assert ids[i] == id;
    }
  }
}
