/** Servers: the catalog of registered server handles, the server view built
    for one handle and its games. The same shape as the player catalog, over
    the server participation table. */
module Servers {
  import opened Common
  import opened Store
  import Participation
  
  /** A server view: the handle and the ids of the live games it hosted. */
  datatype Server = Server(handle: string, gameIds: seq<int>)

  /** The server participation table seen as (game id, handle) links. */
  function Links(rows: seq<GameServer>): (links: seq<Participation.Link>)
    ensures |links| == |rows|
    ensures forall r :: r in rows ==> Participation.Link(r.gameId, r.handle) in links
    ensures forall l :: l in links ==> exists r :: r in rows && l == Participation.Link(r.gameId, r.handle)
    ensures forall id, h :: multiset(links)[Participation.Link(id, h)] == ServerRows(rows, h, id)
  {
    if rows == [] then []
    else
      assert forall r :: r in rows <==> r == rows[0] || r in rows[1..];
      [Participation.Link(rows[0].gameId, rows[0].handle)] + Links(rows[1..])
  }

  /** `Server.handle_list()`. */
  function HandleList(db: Db): (hs: seq<string>)
    ensures NoDuplicates(hs)
    ensures "" !in hs
    ensures forall h :: h in hs <==> h != "" && exists r :: r in db.servers && r.handle == h
  {
    var links := Links(db.servers);
    Participation.HandleList(links)
  }

  /** `Server.count()`: computed by its own grouped query, it agrees with the
      length of the handle list. */
  function Count(db: Db): (n: nat)
    ensures n == |HandleList(db)|
  {
    Participation.CountIsLength(Links(db.servers));
    Participation.HandleCount(Links(db.servers))
  }

  /** `Server(handle)`: the game ids of the handle's participation rows, in
      row order, kept only while the game table still has that game. */
  function New(db: Db, handle: string): (s: Server)
    ensures s.handle == handle
    ensures forall id :: id in s.gameIds ==> HasGame(db.games, id)
    ensures forall id :: id in s.gameIds <==>
      HasGame(db.games, id) && exists r :: r in db.servers && r.handle == handle && r.gameId == id
    ensures forall id :: multiset(s.gameIds)[id] == if HasGame(db.games, id) then ServerRows(db.servers, handle, id) else 0
    ensures |s.gameIds| <= |db.servers|
  {
    var links := Links(db.servers);
    assert forall id :: Participation.Link(id, handle) in links <==>
      exists r :: r in db.servers && r.handle == handle && r.gameId == id;
    Server(handle, Participation.LiveGameIds(links, handle, db.games))
  }

  /** `Server.get_or_404(handle)`. */
  function GetOr404(db: Db, handle: string): (r: Result<Server>)
    ensures r.Ok? <==> handle in HandleList(db)
    ensures r.Ok? <==> handle != "" && exists row :: row in db.servers && row.handle == handle
    ensures r.Ok? ==> r.value == New(db, handle) && r.value.handle == handle
    ensures r.Err? ==> r.error == NotFound
  {
    if handle in HandleList(db) then Ok(New(db, handle)) else Err(NotFound)
  }

  /** `Server.all(page, pagesize)`: one server per handle of the requested
      slice of the handle list, in order; the whole list when no page size is
      given. */
  function All(db: Db, page: int, pageSize: Option<int>): (ss: seq<Server>)
    ensures |ss| == |Page(HandleList(db), page, pageSize)|
    ensures forall i :: 0 <= i < |ss| ==>
      ss[i].handle == Page(HandleList(db), page, pageSize)[i] && ss[i] == New(db, ss[i].handle)
    ensures forall s :: s in ss ==> s.handle in HandleList(db)
    ensures pageSize.None? ==> |ss| == Count(db)
  {
    var slice := Page(HandleList(db), page, pageSize);
    assert forall h :: h in slice ==> h in HandleList(db);
    seq(|slice|, i requires 0 <= i < |slice| => New(db, slice[i]))
  }

  /** `Server.paginate`: the page of servers and the catalog's count. */
  function Paginate(db: Db, page: int, perPage: int): (pg: Pagination<Server>)
    ensures pg.total == |HandleList(db)|
    ensures |pg.items| == |Page(HandleList(db), page, Some(perPage))|
    ensures forall i :: 0 <= i < |pg.items| ==>
      pg.items[i].handle == Page(HandleList(db), page, Some(perPage))[i] && pg.items[i] == New(db, pg.items[i].handle)
    ensures forall s :: s in pg.items ==> s.handle in HandleList(db)
  {
    Pagination(All(db, page, Some(perPage)), Count(db))
  }

  /** `Server.games(page, pagesize)`: the games of the requested slice of the
      server's game ids; an empty slice gives no games. */
  function Games(db: Db, s: Server, page: int, pageSize: Option<int>): (gs: seq<Game>)
    ensures Page(s.gameIds, page, pageSize) == [] ==> gs == []
    ensures forall g :: g in gs <==> g in db.games && g.id in Page(s.gameIds, page, pageSize)
    ensures forall g :: multiset(gs)[g] == if g.id in Page(s.gameIds, page, pageSize) then multiset(db.games)[g] else 0
  {
    FetchGames(db.games, s.gameIds, page, pageSize)
  }

  /** `Server.games_paginate`: the total is the number of game ids. */
  function GamesPaginate(db: Db, s: Server, page: int, perPage: int): (pg: Pagination<Game>)
    ensures pg.total == |s.gameIds|
    ensures Page(s.gameIds, page, Some(perPage)) == [] ==> pg.items == []
    ensures forall g :: g in pg.items <==> g in db.games && g.id in Page(s.gameIds, page, Some(perPage))
    ensures forall g :: multiset(pg.items)[g] == if g.id in Page(s.gameIds, page, Some(perPage)) then multiset(db.games)[g] else 0
    ensures forall g :: g in pg.items ==> g in db.games && g.id in s.gameIds
  {
    var gs := Games(db, s, page, Some(perPage));
    assert forall id :: id in Page(s.gameIds, page, Some(perPage)) ==> id in s.gameIds;
    Pagination(gs, |s.gameIds|)
  }
}
