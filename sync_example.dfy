/** An end-to-end scenario: the latest comic is number 5, and
    downloads succeed for 1, 2 and 4 but fail for 3. A first run from an empty
    index ends holding 5, 1, 2, 4; a second run against a server on which 3
    now succeeds schedules only 3. */
module SyncExample {
  import opened Wrappers
  import opened Xkcd
  import IndexManager
  import Model
  import Sync

  function Plain(n: int): Comic {
    Comic("", "", "", n, "", "", "", "", "", "", "", "")
  }

  /** A server whose JSON body is the comic number as one byte. */
  function Server(up: set<int>): IndexManager.Web {
    IndexManager.Web(
      (res: IndexManager.Resource) =>
        match res
        case LatestJson => Success([5])
        case ComicJson(n) => if n in up && 0 <= n < 256 then Success([n as bv8]) else Failure("404 Not Found")
        case ImageFile(_) => Failure("404 Not Found"),
      (body: IndexManager.Bytes) => if |body| == 1 then Success(Plain(body[0] as int)) else Failure("bad body"),
      (body: IndexManager.Bytes) => "")
  }

  lemma ServerAnswers(up: set<int>, n: int)
    requires 0 < n < 256
    ensures n in up ==> IndexManager.DownloadComic(Server(up), n) == Success(Plain(n))
    ensures n !in up ==> IndexManager.DownloadComic(Server(up), n).Failure?
    ensures IndexManager.DownloadComic(Server(up), 0) == Success(Plain(5))
  {
  }

  lemma FirstRunSchedule()
    ensures Sync.Missing([Plain(5)], 5) == [1, 2, 3, 4]
  {
    var s := [Plain(5)];
    assert !HasNumber(s, 1) && !HasNumber(s, 2) && !HasNumber(s, 3) && !HasNumber(s, 4);
  }

  lemma FirstRunDownloads()
    ensures Sync.Fetched(Server({1, 2, 4}), [1, 2, 3, 4]) == [Plain(1), Plain(2), Plain(4)]
  {
    var web := Server({1, 2, 4});
    ServerAnswers({1, 2, 4}, 1);
    ServerAnswers({1, 2, 4}, 2);
    ServerAnswers({1, 2, 4}, 3);
    ServerAnswers({1, 2, 4}, 4);
    assert [1, 2, 3, 4][..3] == [1, 2, 3];
    assert [1, 2, 3][..2] == [1, 2];
    assert [1, 2][..1] == [1];
    assert [1][..0] == [];
  }

  lemma FirstRunDrain()
    ensures Sync.AddAll([Plain(5)], [Plain(1), Plain(2), Plain(4)]) == [Plain(5), Plain(1), Plain(2), Plain(4)]
  {
    var xs := [Plain(1), Plain(2), Plain(4)];
    assert xs[..2] == [Plain(1), Plain(2)];
    assert xs[..2][..1] == [Plain(1)];
    assert xs[..2][..1][..0] == [];
    assert !HasNumber([Plain(5)], 1);
    assert Sync.AddAll([Plain(5)], [Plain(1)]) == [Plain(5), Plain(1)];
    assert !HasNumber([Plain(5), Plain(1)], 2);
    assert Sync.AddAll([Plain(5)], xs[..2]) == [Plain(5), Plain(1), Plain(2)];
    assert !HasNumber([Plain(5), Plain(1), Plain(2)], 4);
  }

  lemma FirstRunSkipsFailedId()
    ensures Sync.RunResult(Server({1, 2, 4}), []) == Success([Plain(5), Plain(1), Plain(2), Plain(4)])
  {
    ServerAnswers({1, 2, 4}, 1);
    assert Model.Added([], Plain(5)) == [Plain(5)];
    FirstRunSchedule();
    FirstRunDownloads();
    FirstRunDrain();
  }

  lemma SecondRunTriesOnlyTheMissingId()
    ensures Sync.Missing([Plain(1), Plain(2), Plain(4), Plain(5)], 5) == [3]
  {
    var s := [Plain(1), Plain(2), Plain(4), Plain(5)];
    assert s[0].number == 1 && s[1].number == 2 && s[2].number == 4;
    assert !HasNumber(s, 3);
  }

  lemma SecondRunDownloads()
    ensures Sync.Fetched(Server({1, 2, 3, 4}), [3]) == [Plain(3)]
  {
    ServerAnswers({1, 2, 3, 4}, 3);
    assert [3][..0] == [];
  }

  lemma SecondRunDrain()
    ensures Sync.AddAll([Plain(1), Plain(2), Plain(4), Plain(5)], [Plain(3)])
         == [Plain(1), Plain(2), Plain(4), Plain(5), Plain(3)]
  {
    var s := [Plain(1), Plain(2), Plain(4), Plain(5)];
    assert [Plain(3)][..0] == [];
    assert s[0].number == 1 && s[1].number == 2 && s[2].number == 4;
    assert !HasNumber(s, 3);
  }

  lemma SecondRunCompletes()
    ensures Sync.RunResult(Server({1, 2, 3, 4}), [Plain(1), Plain(2), Plain(4), Plain(5)])
         == Success([Plain(1), Plain(2), Plain(4), Plain(5), Plain(3)])
  {
    var s := [Plain(1), Plain(2), Plain(4), Plain(5)];
    ServerAnswers({1, 2, 3, 4}, 3);
    assert s[3].number == 5;
    assert Model.Added(s, Plain(5)) == s;
    SecondRunTriesOnlyTheMissingId();
    SecondRunDownloads();
    SecondRunDrain();
  }
}
