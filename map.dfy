/** Maps: the catalog of map names taken from the game table, the map view
    built for one name, its games and its best race times. Unlike players and
    servers, map names are not filtered for emptiness and a map's game ids are
    not re-checked against the game table (they come from it directly). */
module Maps {
  import opened Common
  import opened Store
  import Races

  /** A map view: the name and the ids of the games played on it. */
  datatype Map = Map(name: string, gameIds: seq<int>)

  function MapNames(games: seq<Game>): (ns: seq<string>)
    ensures |ns| == |games|
    ensures forall n :: n in ns <==> exists g :: g in games && g.mapName == n
  {
    if games == [] then []
    else
      assert forall g :: g in games <==> g == games[0] || g in games[1..];
      [games[0].mapName] + MapNames(games[1..])
  }

  /** `Map.map_list()`: the grouped map names of the game table. */
  function MapList(db: Db): (ns: seq<string>)
    ensures NoDuplicates(ns)
    ensures forall n :: n in ns <==> exists g :: g in db.games && g.mapName == n
  {
    Distinct(MapNames(db.games))
  }

  /** `Map.count()`: computed by its own grouped query, it agrees with the
      length of the map list. */
  function Count(db: Db): (n: nat)
    ensures n == |MapList(db)|
  {
    var ns := MapList(db);
    NoDuplicatesCardinality(ns);
    assert (set g | g in db.games :: g.mapName) == (set n | n in ns);
    |set g | g in db.games :: g.mapName|
  }

  /** The ids of the games played on map `name`, in table order. */
  function IdsOnMap(games: seq<Game>, name: string): (ids: seq<int>)
    ensures forall id :: id in ids <==> exists g :: g in games && g.mapName == name && g.id == id
    ensures forall id :: multiset(ids)[id] == MapGames(games, name, id)
    ensures |ids| <= |games|
  {
    if games == [] then []
    else
      var rest := IdsOnMap(games[1..], name);
      assert forall g :: g in games <==> g == games[0] || g in games[1..];
      if games[0].mapName == name then [games[0].id] + rest else rest
  }

  /** `Map(name)`: exactly the ids of the games whose map is `name`; no
      existence re-check, as the ids come from the game table itself. */
  function New(db: Db, name: string): (m: Map)
    ensures m.name == name
    ensures forall id :: id in m.gameIds <==> exists g :: g in db.games && g.mapName == name && g.id == id
    ensures forall id :: id in m.gameIds ==> HasGame(db.games, id)
    ensures forall id :: multiset(m.gameIds)[id] == MapGames(db.games, name, id)
  {
    Map(name, IdsOnMap(db.games, name))
  }

  /** `Map.get_or_404(name)`. */
  function GetOr404(db: Db, name: string): (r: Result<Map>)
    ensures r.Ok? <==> name in MapList(db)
    ensures r.Ok? <==> exists g :: g in db.games && g.mapName == name
    ensures r.Ok? ==> r.value == New(db, name) && r.value.name == name
    ensures r.Err? ==> r.error == NotFound
  {
    if name in MapList(db) then Ok(New(db, name)) else Err(NotFound)
  }

  /** `Map.all(page, pagesize)`: one map per name of the requested slice of
      the map list, in order; the whole list when no page size is given. */
  function All(db: Db, page: int, pageSize: Option<int>): (ms: seq<Map>)
    ensures |ms| == |Page(MapList(db), page, pageSize)|
    ensures forall i :: 0 <= i < |ms| ==>
      ms[i].name == Page(MapList(db), page, pageSize)[i] && ms[i] == New(db, ms[i].name)
    ensures forall m :: m in ms ==> m.name in MapList(db)
    ensures pageSize.None? ==> |ms| == Count(db)
  {
    var slice := Page(MapList(db), page, pageSize);
    assert forall n :: n in slice ==> n in MapList(db);
    seq(|slice|, i requires 0 <= i < |slice| => New(db, slice[i]))
  }

  /** `Map.paginate`: the page of maps and the catalog's count. */
  function Paginate(db: Db, page: int, perPage: int): (pg: Pagination<Map>)
    ensures pg.total == |MapList(db)|
    ensures |pg.items| == |Page(MapList(db), page, Some(perPage))|
    ensures forall i :: 0 <= i < |pg.items| ==>
      pg.items[i].name == Page(MapList(db), page, Some(perPage))[i] && pg.items[i] == New(db, pg.items[i].name)
    ensures forall m :: m in pg.items ==> m.name in MapList(db)
  {
    Pagination(All(db, page, Some(perPage)), Count(db))
  }

  /** `Map.games(page, pagesize)`: the games of the requested slice of the
      map's game ids; an empty slice gives no games. */
  function Games(db: Db, m: Map, page: int, pageSize: Option<int>): (gs: seq<Game>)
    ensures Page(m.gameIds, page, pageSize) == [] ==> gs == []
    ensures forall g :: g in gs <==> g in db.games && g.id in Page(m.gameIds, page, pageSize)
    ensures forall g :: multiset(gs)[g] == if g.id in Page(m.gameIds, page, pageSize) then multiset(db.games)[g] else 0
  {
    FetchGames(db.games, m.gameIds, page, pageSize)
  }

  /** `Map.games_paginate`: the total is the number of game ids. */
  function GamesPaginate(db: Db, m: Map, page: int, perPage: int): (pg: Pagination<Game>)
    ensures pg.total == |m.gameIds|
    ensures Page(m.gameIds, page, Some(perPage)) == [] ==> pg.items == []
    ensures forall g :: g in pg.items <==> g in db.games && g.id in Page(m.gameIds, page, Some(perPage))
    ensures forall g :: multiset(pg.items)[g] == if g.id in Page(m.gameIds, page, Some(perPage)) then multiset(db.games)[g] else 0
    ensures forall g :: g in pg.items ==> g in db.games && g.id in m.gameIds
  {
    var gs := Games(db, m, page, Some(perPage));
    assert forall id :: id in Page(m.gameIds, page, Some(perPage)) ==> id in m.gameIds;
    Pagination(gs, |m.gameIds|)
  }

  /** `Map.topraces()`: the best completed timed race per handle on this
      map's games, best first, at most `limit` rows (the configured number of
      high-score results). */
  function TopRaces(db: Db, m: Map, reMode: (int, string) -> bool, reMut: (int, string) -> bool, limit: nat)
    : (top: seq<GamePlayer>)
    ensures |top| <= limit
    ensures forall t :: t in top ==> t in db.players && Races.Finished(t, m.gameIds, reMode, reMut)
    ensures Races.UniqueHandles(top)
    ensures Races.Ascending(top)
    ensures forall t, r ::
      (t in top && r in db.players && Races.Finished(r, m.gameIds, reMode, reMut) && r.handle == t.handle) ==>
      t.score <= r.score
  {
    Races.TopRacesSound(db.players, m.gameIds, reMode, reMut, limit);
    Races.TopRaces(db.players, m.gameIds, reMode, reMut, limit)
  }

  /** Every handle with a completed timed race on the map is listed by
      `topraces`, unless the limit was reached by rows at least as fast. */
  lemma TopRacesAreTheBest(db: Db, m: Map, reMode: (int, string) -> bool, reMut: (int, string) -> bool, limit: nat, r: GamePlayer)
    requires r in db.players && Races.Finished(r, m.gameIds, reMode, reMut)
    ensures || (exists t :: t in TopRaces(db, m, reMode, reMut, limit) && t.handle == r.handle)
            || (&& |TopRaces(db, m, reMode, reMut, limit)| == limit
                && forall t :: t in TopRaces(db, m, reMode, reMut, limit) ==> t.score <= r.score)
  {
    Races.TopRacesComplete(db.players, m.gameIds, reMode, reMut, limit, r);
  }

  /** The store's mode and mutator test, answering yes for every game. */
  function AnyGame(id: int, rule: string): bool { true }

  /** When every completed timed race on the map belongs to one handle and one
      of them is strictly the fastest, `topraces` is exactly that race. */
  lemma TopRacesSingleHandle(db: Db, m: Map, reMode: (int, string) -> bool, reMut: (int, string) -> bool, limit: nat, best: GamePlayer)
    requires limit >= 1
    requires best in db.players && Races.Finished(best, m.gameIds, reMode, reMut)
    requires forall r :: r in db.players && Races.Finished(r, m.gameIds, reMode, reMut) ==>
      r.handle == best.handle && (r == best || best.score < r.score)
    ensures TopRaces(db, m, reMode, reMut, limit) == [best]
  {
    var top := TopRaces(db, m, reMode, reMut, limit);
    TopRacesAreTheBest(db, m, reMode, reMut, limit, best);
    assert top != [];
    forall t | t in top ensures t == best {
      assert t.handle == best.handle;
    }
    assert top[0] in top;
    assert NoDuplicates(top);
    NoDuplicatesCardinality(top);
    assert (set x | x in top) == {best};
  }

  /** Three finishes of "a" (50, 30, 90) and an unfinished race of "b" on one
      timed race: "a" is listed once, with 30, and "b" is not listed, whatever
      the limit (at least 1). */
  lemma TopRacesExample(db: Db, limit: nat)
    requires db.games == [Game(1, "dutility")]
    requires db.players == [GamePlayer(1, "a", "A", 50), GamePlayer(1, "a", "A", 30),
                            GamePlayer(1, "a", "A", 90), GamePlayer(1, "b", "B", 0)]
    requires limit >= 1
    ensures TopRaces(db, New(db, "dutility"), AnyGame, AnyGame, limit) == [GamePlayer(1, "a", "A", 30)]
  {
    var m := New(db, "dutility");
    assert db.games[0] in db.games;
    assert 1 in m.gameIds;
    TopRacesSingleHandle(db, m, AnyGame, AnyGame, limit, db.players[1]);
  }
}
