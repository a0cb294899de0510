/** Players: the catalog of registered player handles, the player view built
    for one handle, its games and its per-weapon statistics. */
module Players {
  import opened Common
  import opened Store
  import Participation
  import WeaponStats

  /** A player view: the handle and the ids of the live games it played. */
  datatype Player = Player(handle: string, gameIds: seq<int>)

  /** The player participation table seen as (game id, handle) links. */
  function Links(rows: seq<GamePlayer>): (links: seq<Participation.Link>)
    ensures |links| == |rows|
    ensures forall r :: r in rows ==> Participation.Link(r.gameId, r.handle) in links
    ensures forall l :: l in links ==> exists r :: r in rows && l == Participation.Link(r.gameId, r.handle)
    ensures forall id, h :: multiset(links)[Participation.Link(id, h)] == PlayerRows(rows, h, id)
  {
    if rows == [] then []
    else
      assert forall r :: r in rows <==> r == rows[0] || r in rows[1..];
      [Participation.Link(rows[0].gameId, rows[0].handle)] + Links(rows[1..])
  }

  /** `Player.handle_list()`. */
  function HandleList(db: Db): (hs: seq<string>)
    ensures NoDuplicates(hs)
    ensures "" !in hs
    ensures forall h :: h in hs <==> h != "" && exists r :: r in db.players && r.handle == h
  {
    var links := Links(db.players);
    Participation.HandleList(links)
  }

  /** `Player.count()`: computed by its own grouped query, it agrees with the
      length of the handle list. */
  function Count(db: Db): (n: nat)
    ensures n == |HandleList(db)|
  {
    Participation.CountIsLength(Links(db.players));
    Participation.HandleCount(Links(db.players))
  }

  /** `Player(handle)`: the game ids of the handle's participation rows, in
      row order, kept only while the game table still has that game. */
  function New(db: Db, handle: string): (p: Player)
    ensures p.handle == handle
    ensures forall id :: id in p.gameIds ==> HasGame(db.games, id)
    ensures forall id :: id in p.gameIds <==>
      HasGame(db.games, id) && exists r :: r in db.players && r.handle == handle && r.gameId == id
    ensures forall id :: multiset(p.gameIds)[id] == if HasGame(db.games, id) then PlayerRows(db.players, handle, id) else 0
    ensures |p.gameIds| <= |db.players|
  {
    var links := Links(db.players);
    assert forall id :: Participation.Link(id, handle) in links <==>
      exists r :: r in db.players && r.handle == handle && r.gameId == id;
    Player(handle, Participation.LiveGameIds(links, handle, db.games))
  }

  /** `Player.get_or_404(handle)`. */
  function GetOr404(db: Db, handle: string): (r: Result<Player>)
    ensures r.Ok? <==> handle in HandleList(db)
    ensures r.Ok? <==> handle != "" && exists row :: row in db.players && row.handle == handle
    ensures r.Ok? ==> r.value == New(db, handle) && r.value.handle == handle
    ensures r.Err? ==> r.error == NotFound
  {
    if handle in HandleList(db) then Ok(New(db, handle)) else Err(NotFound)
  }

  /** `Player.all(page, pagesize)`: one player per handle of the requested
      slice of the handle list, in order; the whole list when no page size is
      given. */
  function All(db: Db, page: int, pageSize: Option<int>): (ps: seq<Player>)
    ensures |ps| == |Page(HandleList(db), page, pageSize)|
    ensures forall i :: 0 <= i < |ps| ==>
      ps[i].handle == Page(HandleList(db), page, pageSize)[i] && ps[i] == New(db, ps[i].handle)
    ensures forall p :: p in ps ==> p.handle in HandleList(db)
    ensures pageSize.None? ==> |ps| == Count(db)
  {
    var slice := Page(HandleList(db), page, pageSize);
    assert forall h :: h in slice ==> h in HandleList(db);
    seq(|slice|, i requires 0 <= i < |slice| => New(db, slice[i]))
  }

  /** `Player.paginate`: the page of players and the catalog's count. */
  function Paginate(db: Db, page: int, perPage: int): (pg: Pagination<Player>)
    ensures pg.total == |HandleList(db)|
    ensures |pg.items| == |Page(HandleList(db), page, Some(perPage))|
    ensures forall i :: 0 <= i < |pg.items| ==>
      pg.items[i].handle == Page(HandleList(db), page, Some(perPage))[i] && pg.items[i] == New(db, pg.items[i].handle)
    ensures forall p :: p in pg.items ==> p.handle in HandleList(db)
  {
    Pagination(All(db, page, Some(perPage)), Count(db))
  }

  /** `Player.games(page, pagesize)`: the games of the requested slice of the
      player's game ids; an empty slice gives no games. */
  function Games(db: Db, p: Player, page: int, pageSize: Option<int>): (gs: seq<Game>)
    ensures Page(p.gameIds, page, pageSize) == [] ==> gs == []
    ensures forall g :: g in gs <==> g in db.games && g.id in Page(p.gameIds, page, pageSize)
    ensures forall g :: multiset(gs)[g] == if g.id in Page(p.gameIds, page, pageSize) then multiset(db.games)[g] else 0
  {
    FetchGames(db.games, p.gameIds, page, pageSize)
  }

  /** `Player.games_paginate`: the total is the number of game ids. */
  function GamesPaginate(db: Db, p: Player, page: int, perPage: int): (pg: Pagination<Game>)
    ensures pg.total == |p.gameIds|
    ensures Page(p.gameIds, page, Some(perPage)) == [] ==> pg.items == []
    ensures forall g :: g in pg.items <==> g in db.games && g.id in Page(p.gameIds, page, Some(perPage))
    ensures forall g :: multiset(pg.items)[g] == if g.id in Page(p.gameIds, page, Some(perPage)) then multiset(db.games)[g] else 0
    ensures forall g :: g in pg.items ==> g in db.games && g.id in p.gameIds
  {
    var gs := Games(db, p, page, Some(perPage));
    assert forall id :: id in Page(p.gameIds, page, Some(perPage)) ==> id in p.gameIds;
    Pagination(gs, |p.gameIds|)
  }

  /** `Player.weapons()`: a dictionary holding, for every registry weapon,
      the player's aggregate for it. */
  method Weapons(db: Db, registry: seq<string>, p: Player) returns (ret: map<string, WeaponStats.Weapon>)
    ensures forall w :: w in ret <==> w in registry
    ensures forall w :: w in ret ==> ret[w] == WeaponStats.Stats(db.weapons, w, WeaponStats.ByPlayer(p.handle))
  {
    ret := map[];
    for i := 0 to |registry|
      invariant forall w :: w in ret <==> w in registry[..i]
      invariant forall w :: w in ret ==> ret[w] == WeaponStats.Stats(db.weapons, w, WeaponStats.ByPlayer(p.handle))
    {
      var weapon := registry[i];
      var agg := WeaponStats.FromPlayer(db.weapons, weapon, p.handle);
      ret := ret[weapon := agg];
      assert registry[..i + 1] == registry[..i] + [weapon];
    }
    assert registry[..|registry|] == registry;
  }
}
