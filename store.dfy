/** The four tables the read model derives its views from, as one immutable
    value: recorded games, player participations, server participations and
    per-weapon usage rows. Row order is table order. */
module Store {
  import opened Common

  datatype Game = Game(id: int, mapName: string)

  /** A player's participation in a game. An empty handle marks a player
      without a registered identity. */
  datatype GamePlayer = GamePlayer(gameId: int, handle: string, name: string, score: int)

  /** A server's participation in a game. */
  datatype GameServer = GameServer(gameId: int, handle: string)

  /** The fourteen counter columns of a weapon usage row. */
  datatype Column =
    | TimeWielded | TimeLoadout
    | Damage1 | Frags1 | Hits1 | FlakHits1 | Shots1 | FlakShots1
    | Damage2 | Frags2 | Hits2 | FlakHits2 | Shots2 | FlakShots2

  /** One player's use of one weapon in one game. */
  datatype GameWeapon = GameWeapon(
    gameId: int, playerHandle: string, weapon: string,
    timewielded: int, timeloadout: int,
    damage1: int, frags1: int, hits1: int, flakhits1: int, shots1: int, flakshots1: int,
    damage2: int, frags2: int, hits2: int, flakhits2: int, shots2: int, flakshots2: int)
  {
    /** The value of column `c` in this row. */
    function Value(c: Column): int {
      match c
      case TimeWielded => timewielded
      case TimeLoadout => timeloadout
      case Damage1 => damage1
      case Frags1 => frags1
      case Hits1 => hits1
      case FlakHits1 => flakhits1
      case Shots1 => shots1
      case FlakShots1 => flakshots1
      case Damage2 => damage2
      case Frags2 => frags2
      case Hits2 => hits2
      case FlakHits2 => flakhits2
      case Shots2 => shots2
      case FlakShots2 => flakshots2
    }
  }

  datatype Db = Db(
    games: seq<Game>,
    players: seq<GamePlayer>,
    servers: seq<GameServer>,
    weapons: seq<GameWeapon>)

  /** How many player rows record `handle` in game `id`. */
  function PlayerRows(rows: seq<GamePlayer>, handle: string, id: int): nat {
    if rows == [] then 0
    else (if rows[0].handle == handle && rows[0].gameId == id then 1 else 0) + PlayerRows(rows[1..], handle, id)
  }

  /** How many server rows record `handle` in game `id`. */
  function ServerRows(rows: seq<GameServer>, handle: string, id: int): nat {
    if rows == [] then 0
    else (if rows[0].handle == handle && rows[0].gameId == id then 1 else 0) + ServerRows(rows[1..], handle, id)
  }

  /** How many games of the table were played on map `name` with id `id`. */
  function MapGames(games: seq<Game>, name: string, id: int): nat {
    if games == [] then 0
    else (if games[0].mapName == name && games[0].id == id then 1 else 0) + MapGames(games[1..], name, id)
  }

  /** The per-row existence check: some game of the table has this id. */
  predicate HasGame(games: seq<Game>, id: int) {
    exists g :: g in games && g.id == id
  }

  /** `Game.query.filter(Game.id.in_(ids)).all()`: the games of the table,
      in table order, whose id is one of `ids`. */
  function GamesWithIds(games: seq<Game>, ids: seq<int>): (r: seq<Game>)
    ensures forall g :: g in r <==> g in games && g.id in ids
    ensures forall g :: multiset(r)[g] == if g.id in ids then multiset(games)[g] else 0
    ensures |r| <= |games|
  {
    if games == [] then []
    else
      var rest := GamesWithIds(games[1..], ids);
      assert forall g :: g in games <==> g == games[0] || g in games[1..];
      assert games == [games[0]] + games[1..];
      if games[0].id in ids then [games[0]] + rest else rest
  }

  /** The `games(page, pagesize)` operation shared by players, servers and maps:
      page the entity's game ids, answer an empty page with `[]` without a
      lookup, otherwise fetch the games whose id is on the page. */
  function FetchGames(games: seq<Game>, gameIds: seq<int>, page: int, pageSize: Option<int>): (r: seq<Game>)
    ensures Page(gameIds, page, pageSize) == [] ==> r == []
    ensures forall g :: g in r <==> g in games && g.id in Page(gameIds, page, pageSize)
    ensures forall g :: multiset(r)[g] == if g.id in Page(gameIds, page, pageSize) then multiset(games)[g] else 0
  {
    var ids := Page(gameIds, page, pageSize);
    if ids == [] then [] else GamesWithIds(games, ids)
  }
}
