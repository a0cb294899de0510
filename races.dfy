/** The best-race-time query behind a map's `topraces`: among the player rows
    of the map's games that finished a timed race, keep each handle's best
    (lowest) score, rank by score and cut to the configured number of results.

    The store answers "has game `id` mode `m`" and "has game `id` mutator `m`"
    with two custom predicates whose encoding is not visible here; they are
    parameters `reMode` and `reMut`.

    SQL leaves two choices open, and this model fixes them: within a handle,
    the earliest row (in table order) of minimal score is kept; between
    handles of equal score, the ranking keeps the earlier of them first. */
module Races {
  import opened Common
  import opened Store

  /** A row that counts as a completed timed race on one of the given games
      (a score of 0 or less means the race was never completed). */
  predicate Finished(r: GamePlayer, gameIds: seq<int>, reMode: (int, string) -> bool, reMut: (int, string) -> bool) {
    r.gameId in gameIds && reMode(r.gameId, "race") && reMut(r.gameId, "timed") && r.score > 0
  }

  /** The rows the four filters of the query let through, in table order. */
  function Finishers(rows: seq<GamePlayer>, gameIds: seq<int>, reMode: (int, string) -> bool, reMut: (int, string) -> bool)
    : (fs: seq<GamePlayer>)
    ensures forall r :: r in fs <==> r in rows && Finished(r, gameIds, reMode, reMut)
  {
    if rows == [] then []
    else
      var rest := Finishers(rows[1..], gameIds, reMode, reMut);
      assert forall r :: r in rows <==> r == rows[0] || r in rows[1..];
      if Finished(rows[0], gameIds, reMode, reMut) then [rows[0]] + rest else rest
  }

  function HandlesOf(rows: seq<GamePlayer>): (hs: seq<string>)
    ensures forall h :: h in hs <==> exists r :: r in rows && r.handle == h
  {
    if rows == [] then []
    else
      assert forall r :: r in rows <==> r == rows[0] || r in rows[1..];
      [rows[0].handle] + HandlesOf(rows[1..])
  }

  /** The row kept for `handle`: of minimal score among the handle's rows,
      the earliest such row. */
  function Best(rows: seq<GamePlayer>, handle: string): (b: GamePlayer)
    requires exists r :: r in rows && r.handle == handle
    ensures b in rows && b.handle == handle
    ensures forall r :: r in rows && r.handle == handle ==> b.score <= r.score
  {
    assert forall r :: r in rows <==> r == rows[0] || r in rows[1..];
    if !(exists r :: r in rows[1..] && r.handle == handle) then rows[0]
    else
      var b := Best(rows[1..], handle);
      if rows[0].handle == handle && rows[0].score <= b.score then rows[0] else b
  }

  predicate UniqueHandles(s: seq<GamePlayer>) {
    forall i, j :: 0 <= i < j < |s| ==> s[i].handle != s[j].handle
  }

  predicate Ascending(s: seq<GamePlayer>) {
    forall i, j :: 0 <= i < j < |s| ==> s[i].score <= s[j].score
  }

  /** `GROUP BY handle HAVING min(score)`: one row per handle, the best. */
  function BestPerHandle(rows: seq<GamePlayer>): (bs: seq<GamePlayer>)
    ensures UniqueHandles(bs)
    ensures forall b :: b in bs ==> b in rows && b == Best(rows, b.handle)
    ensures forall r :: r in rows ==> exists b :: b in bs && b.handle == r.handle
  {
    var hs := Distinct(HandlesOf(rows));
    assert forall i :: 0 <= i < |hs| ==> hs[i] in hs;
    var bs := seq(|hs|, i requires 0 <= i < |hs| => Best(rows, hs[i]));
    assert forall i :: 0 <= i < |bs| ==> bs[i].handle == hs[i];
    assert forall r :: r in rows ==> bs[IndexOf(hs, r.handle)].handle == r.handle;
    bs
  }

  function IndexOf(s: seq<string>, x: string): (i: nat)
    requires x in s
    ensures i < |s| && s[i] == x
  {
    if s[0] == x then 0 else 1 + IndexOf(s[1..], x)
  }

  /** Insert `x` into a ranking before the first row that does not beat it. */
  function Insert(x: GamePlayer, s: seq<GamePlayer>): (r: seq<GamePlayer>)
    ensures multiset(r) == multiset(s) + multiset{x}
  {
    if s == [] || x.score <= s[0].score then [x] + s
    else
      assert s == [s[0]] + s[1..];
      [s[0]] + Insert(x, s[1..])
  }

  lemma InsertMembers(x: GamePlayer, s: seq<GamePlayer>)
    ensures forall y :: y in Insert(x, s) <==> y in s || y == x
  {
    var r := Insert(x, s);
    forall y ensures y in r <==> y in s || y == x {
      assert y in r <==> y in multiset(r);
      assert y in s <==> y in multiset(s);
    }
  }

  lemma {:induction false} InsertAscending(x: GamePlayer, s: seq<GamePlayer>)
    requires Ascending(s)
    ensures Ascending(Insert(x, s))
  {
    if s == [] || x.score <= s[0].score {
      var r := [x] + s;
      forall i, j | 0 <= i < j < |r| ensures r[i].score <= r[j].score {
        if i == 0 { assert r[j] == s[j - 1]; } else { assert r[i] == s[i - 1] && r[j] == s[j - 1]; }
      }
    } else {
      var rest := Insert(x, s[1..]);
      InsertAscending(x, s[1..]);
      InsertMembers(x, s[1..]);
      var r := [s[0]] + rest;
      forall i, j | 0 <= i < j < |r| ensures r[i].score <= r[j].score {
        if i == 0 {
          assert r[j] == rest[j - 1] && rest[j - 1] in rest;
          if rest[j - 1] != x {
            var k :| 0 <= k < |s[1..]| && s[1..][k] == rest[j - 1];
            assert s[k + 1] == rest[j - 1];
          }
        } else {
          assert r[i] == rest[i - 1] && r[j] == rest[j - 1];
        }
      }
    }
  }

  lemma {:induction false} InsertUnique(x: GamePlayer, s: seq<GamePlayer>)
    requires UniqueHandles(s)
    requires forall y :: y in s ==> y.handle != x.handle
    ensures UniqueHandles(Insert(x, s))
  {
    if s == [] || x.score <= s[0].score {
      var r := [x] + s;
      forall i, j | 0 <= i < j < |r| ensures r[i].handle != r[j].handle {
        if i == 0 { assert r[j] == s[j - 1] && s[j - 1] in s; } else { assert r[i] == s[i - 1] && r[j] == s[j - 1]; }
      }
    } else {
      var rest := Insert(x, s[1..]);
      assert UniqueHandles(s[1..]);
      InsertUnique(x, s[1..]);
      InsertMembers(x, s[1..]);
      var r := [s[0]] + rest;
      forall i, j | 0 <= i < j < |r| ensures r[i].handle != r[j].handle {
        if i == 0 {
          assert r[j] == rest[j - 1] && rest[j - 1] in rest;
          if rest[j - 1] != x {
            var k :| 0 <= k < |s[1..]| && s[1..][k] == rest[j - 1];
            assert s[k + 1] == rest[j - 1];
          } else {
            assert s[0] in s;
          }
        } else {
          assert r[i] == rest[i - 1] && r[j] == rest[j - 1];
        }
      }
    }
  }

  /** `ORDER BY score ASC`: insertion sort, a permutation of its input. */
  function SortByScore(s: seq<GamePlayer>): (r: seq<GamePlayer>)
    ensures multiset(r) == multiset(s)
  {
    if s == [] then []
    else
      assert s == [s[0]] + s[1..];
      Insert(s[0], SortByScore(s[1..]))
  }

  /** The ranking is ascending, holds exactly the rows it was given, and
      keeps handles unique when they were. */
  lemma {:induction false} SortByScoreSpec(s: seq<GamePlayer>)
    ensures forall y :: y in SortByScore(s) <==> y in s
    ensures Ascending(SortByScore(s))
    ensures UniqueHandles(s) ==> UniqueHandles(SortByScore(s))
  {
    var r := SortByScore(s);
    forall y ensures y in r <==> y in s {
      assert y in r <==> y in multiset(r);
      assert y in s <==> y in multiset(s);
    }
    if s != [] {
      var rest := SortByScore(s[1..]);
      SortByScoreSpec(s[1..]);
      InsertAscending(s[0], rest);
      if UniqueHandles(s) {
        assert UniqueHandles(s[1..]);
        forall y | y in rest ensures y.handle != s[0].handle {
          var k :| 0 <= k < |s[1..]| && s[1..][k] == y;
          assert s[k + 1] == y;
        }
        InsertUnique(s[0], rest);
      }
    }
  }

  /** `LIMIT n`. */
  function Take(s: seq<GamePlayer>, n: nat): (r: seq<GamePlayer>)
    ensures |r| == Min(|s|, n)
    ensures r == s[..|r|]
    ensures forall y :: y in r ==> y in s
    ensures Ascending(s) ==> Ascending(r)
    ensures UniqueHandles(s) ==> UniqueHandles(r)
  {
    if |s| <= n then s else s[..n]
  }

  /** The whole query: filter, keep each handle's best row, rank, cut. */
  function TopRaces(rows: seq<GamePlayer>, gameIds: seq<int>, reMode: (int, string) -> bool, reMut: (int, string) -> bool, limit: nat)
    : seq<GamePlayer>
  {
    Take(SortByScore(BestPerHandle(Finishers(rows, gameIds, reMode, reMut))), limit)
  }

  /** What the ranking promises: at most `limit` rows, all of them completed
      timed races on the given games, at most one per handle and that one the
      handle's best, in ascending order of score. */
  lemma TopRacesSound(rows: seq<GamePlayer>, gameIds: seq<int>, reMode: (int, string) -> bool, reMut: (int, string) -> bool, limit: nat)
    ensures |TopRaces(rows, gameIds, reMode, reMut, limit)| <= limit
    ensures forall t :: t in TopRaces(rows, gameIds, reMode, reMut, limit) ==> t in rows && Finished(t, gameIds, reMode, reMut)
    ensures UniqueHandles(TopRaces(rows, gameIds, reMode, reMut, limit))
    ensures forall t, r ::
      (t in TopRaces(rows, gameIds, reMode, reMut, limit) && r in rows &&
       Finished(r, gameIds, reMode, reMut) && r.handle == t.handle) ==> t.score <= r.score
    ensures Ascending(TopRaces(rows, gameIds, reMode, reMut, limit))
  {
    var fs := Finishers(rows, gameIds, reMode, reMut);
    var bs := BestPerHandle(fs);
    var top := TopRaces(rows, gameIds, reMode, reMut, limit);
    SortByScoreSpec(bs);
    assert forall t :: t in top ==> t in bs;
    forall t, r | t in top && r in rows && Finished(r, gameIds, reMode, reMut) && r.handle == t.handle
      ensures t.score <= r.score
    {
      assert t == Best(fs, t.handle);
      assert r in fs;
    }
  }

  /** And it is the top: every handle with a completed race is listed, unless
      the limit was reached by rows at least as fast as that race. */
  lemma {:induction false} TopRacesComplete(rows: seq<GamePlayer>, gameIds: seq<int>, reMode: (int, string) -> bool, reMut: (int, string) -> bool, limit: nat, r: GamePlayer)
    requires r in rows && Finished(r, gameIds, reMode, reMut)
    ensures || (exists t :: t in TopRaces(rows, gameIds, reMode, reMut, limit) && t.handle == r.handle)
            || (&& |TopRaces(rows, gameIds, reMode, reMut, limit)| == limit
                && forall t :: t in TopRaces(rows, gameIds, reMode, reMut, limit) ==> t.score <= r.score)
  {
    var fs := Finishers(rows, gameIds, reMode, reMut);
    var bs := BestPerHandle(fs);
    var sorted := SortByScore(bs);
    var top := Take(sorted, limit);
    if !exists t :: t in top && t.handle == r.handle {
      SortByScoreSpec(bs);
      assert r in fs;
      var b :| b in bs && b.handle == r.handle;
      assert b == Best(fs, r.handle);
      assert b.score <= r.score;
      assert b in sorted;
      var k :| 0 <= k < |sorted| && sorted[k] == b;
      assert b !in top;
      assert k >= |top|;
      assert |top| == limit;
      forall t | t in top ensures t.score <= r.score {
        var i :| 0 <= i < |top| && top[i] == t;
        assert sorted[i] == t;
      }
    }
  }
}
