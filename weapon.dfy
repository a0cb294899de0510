/** Weapon statistics: one aggregate per weapon name, each counter column
    summed over the usage rows of a scope (a player, a game, a player in a
    game, or everything). The weapon registry of the game version is a
    parameter. */
module WeaponStats {
  import opened Common
  import opened Store

  /** `Weapon.columns`, in the order the aggregate query selects them. */
  const Columns: seq<Column> := [
    TimeWielded, TimeLoadout,
    Damage1, Frags1, Hits1, FlakHits1, Shots1, FlakShots1,
    Damage2, Frags2, Hits2, FlakHits2, Shots2, FlakShots2]

  /** A weapon aggregate: its name and one value per counter column. A value
      is `None` when SQL `SUM` ran over no rows and returned NULL. */
  datatype Weapon = Weapon(name: string, stats: map<Column, Option<int>>)

  /** The four scoping filters composed with `weapon == name`. */
  datatype Scope = Everything | ByPlayer(handle: string) | ByGame(gameId: int) | ByGamePlayer(game: int, player: string)

  predicate InScope(r: GameWeapon, weapon: string, scope: Scope) {
    r.weapon == weapon &&
    match scope
    case Everything => true
    case ByPlayer(h) => r.playerHandle == h
    case ByGame(g) => r.gameId == g
    case ByGamePlayer(g, h) => r.gameId == g && r.playerHandle == h
  }

  /** The usage rows the scoped query sees, in table order. */
  function Select(rows: seq<GameWeapon>, weapon: string, scope: Scope): (sel: seq<GameWeapon>)
    ensures forall r :: r in sel <==> r in rows && InScope(r, weapon, scope)
    ensures forall r :: multiset(sel)[r] == if InScope(r, weapon, scope) then multiset(rows)[r] else 0
  {
    if rows == [] then []
    else
      var rest := Select(rows[1..], weapon, scope);
      assert forall r :: r in rows <==> r == rows[0] || r in rows[1..];
      assert rows == [rows[0]] + rows[1..];
      if InScope(rows[0], weapon, scope) then [rows[0]] + rest else rest
  }

  /** The plain sum of column `c` over `rows`. */
  function Sum(rows: seq<GameWeapon>, c: Column): int {
    if rows == [] then 0 else rows[0].Value(c) + Sum(rows[1..], c)
  }

  /** SQL `SUM(c)`: NULL over no rows, the sum otherwise. */
  function ColumnSum(rows: seq<GameWeapon>, c: Column): Option<int> {
    if rows == [] then None else Some(Sum(rows, c))
  }

  /** Adding two SQL sums: NULL is the neutral element. */
  function AddSums(a: Option<int>, b: Option<int>): Option<int> {
    match (a, b)
    case (None, _) => b
    case (_, None) => a
    case (Some(x), Some(y)) => Some(x + y)
  }

  /** The aggregate `finish_query` produces for the rows of a query. */
  function Aggregate(name: string, rows: seq<GameWeapon>): Weapon {
    Weapon(name, map c | c in Columns :: ColumnSum(rows, c))
  }

  /** The aggregate of weapon `weapon` over `scope`. */
  function Stats(rows: seq<GameWeapon>, weapon: string, scope: Scope): Weapon {
    Aggregate(weapon, Select(rows, weapon, scope))
  }

  /** `weapon_list()` has no logic of its own; `count()` is its length. */
  function Count(registry: seq<string>): nat {
    |registry|
  }

  /** `finish_query`: build the aggregate named `name`, setting each counter
      column from the single result row of the `SUM` query over `rows`. */
  method FinishQuery(name: string, rows: seq<GameWeapon>) returns (w: Weapon)
    ensures w == Aggregate(name, rows)
  {
    var qret := seq(|Columns|, i requires 0 <= i < |Columns| => ColumnSum(rows, Columns[i]));
    var stats: map<Column, Option<int>> := map[];
    for i := 0 to |Columns|
      invariant stats == map c | c in Columns[..i] :: ColumnSum(rows, c)
    {
      assert Columns[..i + 1] == Columns[..i] + [Columns[i]];
      stats := stats[Columns[i] := qret[i]];
    }
    assert Columns[..|Columns|] == Columns;
    w := Weapon(name, stats);
  }

  method FromPlayer(rows: seq<GameWeapon>, weapon: string, player: string) returns (w: Weapon)
    ensures w == Stats(rows, weapon, ByPlayer(player))
  {
    w := FinishQuery(weapon, Select(rows, weapon, ByPlayer(player)));
  }

  method FromGame(rows: seq<GameWeapon>, weapon: string, game: int) returns (w: Weapon)
    ensures w == Stats(rows, weapon, ByGame(game))
  {
    w := FinishQuery(weapon, Select(rows, weapon, ByGame(game)));
  }

  method FromGamePlayer(rows: seq<GameWeapon>, weapon: string, game: int, player: string) returns (w: Weapon)
    ensures w == Stats(rows, weapon, ByGamePlayer(game, player))
  {
    w := FinishQuery(weapon, Select(rows, weapon, ByGamePlayer(game, player)));
  }

  method FromWeapon(rows: seq<GameWeapon>, weapon: string) returns (w: Weapon)
    ensures w == Stats(rows, weapon, Everything)
  {
    w := FinishQuery(weapon, Select(rows, weapon, Everything));
  }

  /** `get_or_404`: the global aggregate of a registered weapon, otherwise
      not-found. */
  method GetOr404(rows: seq<GameWeapon>, registry: seq<string>, name: string) returns (r: Result<Weapon>)
    ensures r.Ok? <==> name in registry
    ensures r.Ok? ==> r.value == Stats(rows, name, Everything) && r.value.name == name
    ensures r.Err? ==> r.error == NotFound
  {
    if name in registry {
      var w := FromWeapon(rows, name);
      r := Ok(w);
    } else {
      r := Err(NotFound);
    }
  }

  /** `all()`: one global aggregate per registry name, in registry order. */
  method All(rows: seq<GameWeapon>, registry: seq<string>) returns (ws: seq<Weapon>)
    ensures |ws| == Count(registry)
    ensures forall i :: 0 <= i < |ws| ==> ws[i].name == registry[i] && ws[i] == Stats(rows, registry[i], Everything)
  {
    ws := [];
    for i := 0 to |registry|
      invariant |ws| == i
      invariant forall k :: 0 <= k < i ==> ws[k] == Stats(rows, registry[k], Everything)
    {
      var w := FromWeapon(rows, registry[i]);
      ws := ws + [w];
    }
  }

  // ---------------------------------------------------------------------
  // What an aggregate means

  lemma AllColumnsListed(c: Column)
    ensures c in Columns
  {
    match c
    case TimeWielded => assert Columns[0] == c;
    case TimeLoadout => assert Columns[1] == c;
    case Damage1 => assert Columns[2] == c;
    case Frags1 => assert Columns[3] == c;
    case Hits1 => assert Columns[4] == c;
    case FlakHits1 => assert Columns[5] == c;
    case Shots1 => assert Columns[6] == c;
    case FlakShots1 => assert Columns[7] == c;
    case Damage2 => assert Columns[8] == c;
    case Frags2 => assert Columns[9] == c;
    case Hits2 => assert Columns[10] == c;
    case FlakHits2 => assert Columns[11] == c;
    case Shots2 => assert Columns[12] == c;
    case FlakShots2 => assert Columns[13] == c;
  }

  /** Every counter column is present in an aggregate, and its value is the
      sum of that column over the rows of the weapon that the scope admits;
      NULL exactly when the scope admits no row of that weapon. */
  lemma StatsMeaning(rows: seq<GameWeapon>, weapon: string, scope: Scope, c: Column)
    ensures c in Stats(rows, weapon, scope).stats
    ensures Stats(rows, weapon, scope).stats[c].None? <==> forall r :: r in rows ==> !InScope(r, weapon, scope)
    ensures Stats(rows, weapon, scope).stats[c] == ColumnSum(Select(rows, weapon, scope), c)
    ensures Stats(rows, weapon, scope).name == weapon
  {
    AllColumnsListed(c);
    var sel := Select(rows, weapon, scope);
    if sel != [] {
      assert sel[0] in sel;
    }
  }

  /** A registered weapon nobody has used aggregates to NULL in every column,
      not to an error. */
  lemma UnusedWeaponIsNull(rows: seq<GameWeapon>, weapon: string, c: Column)
    requires forall r :: r in rows ==> r.weapon != weapon
    ensures Stats(rows, weapon, Everything).stats[c] == None
  {
    StatsMeaning(rows, weapon, Everything, c);
  }

  lemma ColumnSumSingleton(r: GameWeapon, c: Column)
    ensures ColumnSum([r], c) == Some(r.Value(c))
  {
    assert [r][1..] == [];
    assert Sum([r], c) == r.Value(c) + Sum([], c);
  }

  /** Sums are additive over concatenation of row sets. */
  lemma {:induction false} SumConcat(a: seq<GameWeapon>, b: seq<GameWeapon>, c: Column)
    ensures Sum(a + b, c) == Sum(a, c) + Sum(b, c)
  {
    if a == [] {
      assert a + b == b;
    } else {
      assert (a + b)[1..] == a[1..] + b;
      SumConcat(a[1..], b, c);
    }
  }

  /** SQL sums are additive too, with NULL as the empty sum. */
  lemma ColumnSumConcat(a: seq<GameWeapon>, b: seq<GameWeapon>, c: Column)
    ensures ColumnSum(a + b, c) == AddSums(ColumnSum(a, c), ColumnSum(b, c))
  {
    SumConcat(a, b, c);
    if a == [] { assert a + b == b; }
    if b == [] { assert a + b == a; }
  }

  /** The sum of `from_game` over a list of game ids. */
  function GameTotal(rows: seq<GameWeapon>, weapon: string, games: seq<int>, c: Column): Option<int> {
    if games == [] then None
    else AddSums(ColumnSum(Select(rows, weapon, ByGame(games[0])), c), GameTotal(rows, weapon, games[1..], c))
  }

  lemma AddSumsAssociative(a: Option<int>, b: Option<int>, c: Option<int>)
    ensures AddSums(AddSums(a, b), c) == AddSums(a, AddSums(b, c))
    ensures AddSums(a, AddSums(b, c)) == AddSums(b, AddSums(a, c))
  {
  }

  /** Taking the first row off the table takes its value off the game total
      of the one game it belongs to. */
  lemma {:induction false} GameTotalPeel(r: GameWeapon, rest: seq<GameWeapon>, weapon: string, games: seq<int>, c: Column)
    requires NoDuplicates(games)
    ensures GameTotal([r] + rest, weapon, games, c) ==
      if r.weapon == weapon && r.gameId in games then AddSums(Some(r.Value(c)), GameTotal(rest, weapon, games, c))
      else GameTotal(rest, weapon, games, c)
  {
    var rows := [r] + rest;
    assert rows[1..] == rest;
    if games != [] {
      var g := games[0];
      assert NoDuplicates(games[1..]);
      GameTotalPeel(r, rest, weapon, games[1..], c);
      var here := Select(rows, weapon, ByGame(g));
      var hereRest := Select(rest, weapon, ByGame(g));
      var tail := GameTotal(rest, weapon, games[1..], c);
      if InScope(r, weapon, ByGame(g)) {
        assert here == [r] + hereRest;
        ColumnSumConcat([r], hereRest, c);
        ColumnSumSingleton(r, c);
        assert r.gameId !in games[1..];
        AddSumsAssociative(Some(r.Value(c)), ColumnSum(hereRest, c), tail);
      } else {
        assert here == hereRest;
        if r.weapon == weapon && r.gameId in games {
          assert r.gameId in games[1..];
          AddSumsAssociative(ColumnSum(hereRest, c), Some(r.Value(c)), tail);
        }
      }
    }
  }

  lemma {:induction false} GameTotalEmpty(weapon: string, games: seq<int>, c: Column)
    ensures GameTotal([], weapon, games, c) == None
  {
    if games != [] {
      GameTotalEmpty(weapon, games[1..], c);
    }
  }

  /** The rows of a weapon, summed, are the per-game sums added up, when the
      game list is duplicate-free and covers every game the weapon was used in. */
  lemma {:induction false} SelectedSumIsGameTotal(rows: seq<GameWeapon>, weapon: string, games: seq<int>, c: Column)
    requires NoDuplicates(games)
    requires forall r :: r in rows && r.weapon == weapon ==> r.gameId in games
    ensures ColumnSum(Select(rows, weapon, Everything), c) == GameTotal(rows, weapon, games, c)
  {
    if rows == [] {
      GameTotalEmpty(weapon, games, c);
    } else {
      var r, rest := rows[0], rows[1..];
      assert rows == [r] + rest;
      SelectedSumIsGameTotal(rest, weapon, games, c);
      GameTotalPeel(r, rest, weapon, games, c);
      var sel := Select(rows, weapon, Everything);
      var selRest := Select(rest, weapon, Everything);
      if r.weapon == weapon {
        assert sel == [r] + selRest;
        ColumnSumConcat([r], selRest, c);
        ColumnSumSingleton(r, c);
      } else {
        assert sel == selRest;
      }
    }
  }

  /** Additivity: the global aggregate of a weapon is, column by column, the
      sum of its per-game aggregates over any duplicate-free list of game ids
      that covers every game the weapon was used in. */
  lemma FromWeaponIsSumOfFromGame(rows: seq<GameWeapon>, weapon: string, games: seq<int>, c: Column)
    requires NoDuplicates(games)
    requires forall r :: r in rows && r.weapon == weapon ==> r.gameId in games
    ensures Stats(rows, weapon, Everything).stats[c] == GameTotal(rows, weapon, games, c)
  {
    StatsMeaning(rows, weapon, Everything, c);
    SelectedSumIsGameTotal(rows, weapon, games, c);
  }

  /** The distinct game ids of the usage rows. */
  function GameIdsOf(rows: seq<GameWeapon>): (ids: seq<int>)
    ensures forall r :: r in rows ==> r.gameId in ids
  {
    if rows == [] then [] else [rows[0].gameId] + GameIdsOf(rows[1..])
  }

  /** `from_weapon(w)` is the column-wise sum of `from_game(w, g)` over the
      distinct game ids of the usage table. */
  lemma FromWeaponIsSumOverTable(rows: seq<GameWeapon>, weapon: string, c: Column)
    ensures Stats(rows, weapon, Everything).stats[c] == GameTotal(rows, weapon, Distinct(GameIdsOf(rows)), c)
  {
    FromWeaponIsSumOfFromGame(rows, weapon, Distinct(GameIdsOf(rows)), c);
  }
}
