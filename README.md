# Stats database read model

This project models the read-side aggregation layer of the Red Eclipse
statistics server, `statsdbinterface/extmodels.py`. The layer does not own any
table. It derives four kinds of views from the recorded games:

- **Player** and **Server** catalogs: the grouped non-empty handles of the
  participation tables. For one handle, the view holds the ids of the games
  it took part in; for players it also computes the per-weapon statistics on
  demand.
- **Map** catalog: the grouped map names of the game table. For one map, the
  view holds its game ids and computes on demand its best completed
  timed-race times, one per handle.
- **Weapon** aggregates: for each weapon of the game version's registry, the
  SQL `SUM` of the fourteen usage counters, over all rows, one player, one
  game, or one player in one game.

The database is one immutable value, `Store.Db`, holding the rows of the four
tables in table order. Each read operation is a function of that value, or a
method where the source builds its result step by step (`finish_query`
setting the columns one by one, `weapons` and `Weapon.all` filling a
dictionary or list in a loop). Each is proved against a specification:

- catalog membership is exactly "some row has this non-empty handle / map",
  with no duplicates;
- `count` equals the length of the catalog;
- `get_or_404` succeeds exactly for catalog members;
- paging follows Python slice semantics;
- every listed game id refers to a live game;
- the ranking is filtered, one best row per handle, ascending, limited and
  complete;
- a weapon aggregate is the column sum over its scope, NULL exactly when the
  scope is empty, and the global aggregate is the sum of the per-game ones.

Modules: `Common` (Option, Result, de-duplication, Python slicing), `Store`
(tables and game lookup), `Participation` (the handle catalog shared by
players and servers), `Players`, `Servers`, `Maps`, `Races` (the `topraces`
query) and `WeaponStats`.

Two facts of the code shape the weapon model:

- Weapons carry fourteen counters: `timewielded`, `timeloadout` and six per
  firing mode (`extmodels.py:247-252`).
- `SUM` over no rows is SQL NULL, and `finish_query` stores it as is
  (`extmodels.py:268-271`). A counter of a weapon with no usage rows in scope
  is therefore `None`.

## Model

| member | source | states |
|---|---|---|
| Common.Distinct | statsdbinterface/extmodels.py:16-18 | GROUP BY on one column: the result has no duplicates and holds exactly the values of the input, and is no longer than the input |
| Common.NoDuplicatesCardinality | statsdbinterface/extmodels.py:21-24 | a duplicate-free list has as many elements as the set of its values, so the number of groups is the length of the grouped list |
| Common.SliceBound | statsdbinterface/extmodels.py:41-42 | a Python slice bound is clamped into `0..n`: kept when already inside, `n` when past the end, counted from the end when negative, and 0 when more negative than `-n` |
| Common.PageOfMinusOne | statsdbinterface/extmodels.py:40-42 | a negative page size is not rejected: page 0 with page size -1 is every element but the last |
| Common.PageWindow | statsdbinterface/extmodels.py:40-42 | for non-negative page and size, page `p` of size `n` is the window of `min(n, len - p*n)` elements starting at `p*n`, and a page past the end is empty |
| Common.PageOfIndex | statsdbinterface/extmodels.py:40-42 | paging loses nothing: element `i` of the list is element `i % n` of page `i / n` |
| Store.GamesWithIds | statsdbinterface/extmodels.py:63 | `Game.id.in_(ids)` returns exactly the games of the table whose id is listed, each table row once even when an id is listed twice, never more rows than the table |
| Store.FetchGames | statsdbinterface/extmodels.py:57-63 | an empty id page gives `[]` without a lookup; otherwise a game is returned exactly when it is in the table and its id is on the page, as many times as the table holds it (a repeated id on the page does not repeat the game) |
| Participation.NonEmptyHandles | statsdbinterface/extmodels.py:16-18 | the filter `handle != ''` keeps exactly the non-empty handles that occur in the table |
| Participation.HandleList | statsdbinterface/extmodels.py:16-18 | the grouped handle list has no duplicates, never holds `''`, and holds exactly the non-empty handles of the table |
| Participation.CountIsLength | statsdbinterface/extmodels.py:21-24 | the number of groups of the filtered query equals the length of the handle list |
| Participation.LiveGameIds | statsdbinterface/extmodels.py:52-55 | an id is kept exactly when a link carries it for this handle and the game table still has that game; each live id appears once per such link, duplicates included |
| Players.HandleList | statsdbinterface/extmodels.py:14-18 | `Player.handle_list()` is duplicate-free, excludes `''`, and holds exactly the non-empty handles of some player row |
| Players.Count | statsdbinterface/extmodels.py:21-24 | `Player.count()` equals the length of `handle_list()` |
| Players.GetOr404 | statsdbinterface/extmodels.py:27-33 | succeeds exactly when the handle is in the handle list (non-empty and has a row), with `Player(handle)`; otherwise not-found |
| Players.All | statsdbinterface/extmodels.py:36-43 | one `Player(h)` per handle of the requested slice, in slice order; every handle is a catalog handle; with no page size, as many players as `count()` |
| Players.Paginate | statsdbinterface/extmodels.py:46-47 | the pager's total is the catalog size and its items are `Player(h)` for the handles of the requested page, in order |
| Players.New | statsdbinterface/extmodels.py:49-55 | keeps the handle; an id is listed exactly when a row of this handle carries it and the game still exists, so no id is dangling; a live id is listed as many times as the handle has rows in that game, and the list is no longer than the table |
| Players.Games | statsdbinterface/extmodels.py:57-63 | an empty page of ids gives no games; otherwise exactly the table's games whose id is on the page, each table row once |
| Players.GamesPaginate | statsdbinterface/extmodels.py:65-67 | the total is the number of the player's game ids (duplicates included); the items are exactly the table's games whose id is on the requested page, none for an empty page; each table row appears once, however often its id is on the page |
| Players.Weapons | statsdbinterface/extmodels.py:69-73 | the dictionary has exactly the registry's weapons as keys, each mapped to `from_player(weapon, handle)` |
| Servers.HandleList | statsdbinterface/extmodels.py:84-88 | `Server.handle_list()` is duplicate-free, excludes `''`, and holds exactly the non-empty handles of some server row |
| Servers.Count | statsdbinterface/extmodels.py:91-94 | `Server.count()` equals the length of `handle_list()` |
| Servers.GetOr404 | statsdbinterface/extmodels.py:97-103 | succeeds exactly for handles in the handle list, with `Server(handle)`; otherwise not-found |
| Servers.All | statsdbinterface/extmodels.py:106-113 | one `Server(h)` per handle of the requested slice, in order; with no page size, as many servers as `count()` |
| Servers.Paginate | statsdbinterface/extmodels.py:116-117 | the pager's total is the catalog size and its items are `Server(h)` for the handles of the requested page, in order |
| Servers.New | statsdbinterface/extmodels.py:119-125 | keeps the handle; an id is listed exactly when a server row of this handle carries it and the game still exists; a live id is listed as many times as the handle has rows in that game |
| Servers.Games | statsdbinterface/extmodels.py:127-134 | an empty page of ids gives no games; otherwise exactly the table's games whose id is on the page, each table row once |
| Servers.GamesPaginate | statsdbinterface/extmodels.py:136-138 | the total is the number of the server's game ids; the items are exactly the table's games whose id is on the requested page, none for an empty page; each table row appears once, however often its id is on the page |
| Maps.MapNames | statsdbinterface/extmodels.py:150-151 | the selected map column has one entry per game and holds exactly the map names of the table |
| Maps.MapList | statsdbinterface/extmodels.py:148-151 | `Map.map_list()` is duplicate-free and holds exactly the map names of some game (the empty name included) |
| Maps.Count | statsdbinterface/extmodels.py:154-156 | `Map.count()` equals the length of `map_list()` |
| Maps.GetOr404 | statsdbinterface/extmodels.py:159-165 | succeeds exactly when some game was played on the map, with `Map(name)`; otherwise not-found |
| Maps.All | statsdbinterface/extmodels.py:167-174 | one `Map(n)` per name of the requested slice, in order; with no page size, as many maps as `count()` |
| Maps.Paginate | statsdbinterface/extmodels.py:177-178 | the pager's total is the catalog size and its items are `Map(n)` for the names of the requested page, in order |
| Maps.IdsOnMap | statsdbinterface/extmodels.py:183-188 | an id is listed exactly when a game of the table with that id was played on the map, once per such game row |
| Maps.New | statsdbinterface/extmodels.py:180-188 | keeps the name; its ids are exactly those of the games on that map, one per game row on the map, and all of them exist |
| Maps.Games | statsdbinterface/extmodels.py:190-197 | an empty page of ids gives no games; otherwise exactly the table's games whose id is on the page, each table row once |
| Maps.GamesPaginate | statsdbinterface/extmodels.py:199-201 | the total is the number of the map's game ids; the items are exactly the table's games whose id is on the requested page, none for an empty page; each table row appears once, however often its id is on the page |
| Maps.TopRaces | statsdbinterface/extmodels.py:203-235 | at most `limit` rows, each a player row of a completed timed race on the map; one row per handle, the handle's best score; ascending by score |
| Maps.TopRacesAreTheBest | statsdbinterface/extmodels.py:203-235 | every handle with a completed timed race on the map is listed, unless `limit` rows were listed, all at least as fast as that race |
| Maps.TopRacesSingleHandle | statsdbinterface/extmodels.py:225-232 | when all completed races belong to one handle and one of them is strictly fastest, the ranking is exactly that race |
| Maps.TopRacesExample | statsdbinterface/extmodels.py:225-232 | finishes of 50, 30 and 90 by one handle and an unfinished race (score 0) by another give the single row with 30, for any limit of at least 1 |
| Races.Finishers | statsdbinterface/extmodels.py:221-226 | a row passes exactly when its game is on the map, the game is a race with the timed mutator, and its score is positive |
| Races.Best | statsdbinterface/extmodels.py:228-229 | the row kept for a handle is one of its rows with a score no greater than any other of its rows |
| Races.BestPerHandle | statsdbinterface/extmodels.py:228-229 | grouping by handle keeps one row per handle, that row is the handle's best, and every handle of the input is represented |
| Races.Insert | statsdbinterface/extmodels.py:231 | inserting into the ranking adds exactly one row and loses none (multiset) |
| Races.InsertMembers | statsdbinterface/extmodels.py:231 | after an insertion the ranking holds exactly the old rows and the new one |
| Races.InsertAscending | statsdbinterface/extmodels.py:231 | inserting into an ascending ranking keeps it ascending |
| Races.InsertUnique | statsdbinterface/extmodels.py:231 | inserting a row of a new handle keeps handles unique |
| Races.SortByScore | statsdbinterface/extmodels.py:231 | `ORDER BY score ASC` is a permutation of its input |
| Races.SortByScoreSpec | statsdbinterface/extmodels.py:231 | the sorted ranking holds exactly the input rows, is ascending, and keeps handles unique when they were |
| Races.Take | statsdbinterface/extmodels.py:232 | `LIMIT n` keeps the first `min(len, n)` rows and preserves ascending order and unique handles |
| Races.TopRacesSound | statsdbinterface/extmodels.py:214-233 | the ranking has at most `limit` rows, all completed timed races on the given games, one per handle and that handle's best, in ascending order |
| Races.TopRacesComplete | statsdbinterface/extmodels.py:214-233 | every handle with a completed race is listed, unless the ranking is full with rows at least as fast |
| WeaponStats.Select | statsdbinterface/extmodels.py:276-296 | the scoped query sees exactly the usage rows of the weapon that the player, game, player-and-game or no extra filter admits, each as often as it occurs in the table, so repeated rows are all summed |
| WeaponStats.FinishQuery | statsdbinterface/extmodels.py:264-272 | setting each column from the `SUM` row builds exactly the aggregate: the name and, for every one of the fourteen columns, the column sum of the query's rows |
| WeaponStats.FromPlayer | statsdbinterface/extmodels.py:274-278 | the aggregate of the weapon over the player's usage rows |
| WeaponStats.FromGame | statsdbinterface/extmodels.py:280-284 | the aggregate of the weapon over the game's usage rows |
| WeaponStats.FromGamePlayer | statsdbinterface/extmodels.py:286-291 | the aggregate of the weapon over the player's usage rows in that game |
| WeaponStats.FromWeapon | statsdbinterface/extmodels.py:293-296 | the aggregate of the weapon over all its usage rows |
| WeaponStats.GetOr404 | statsdbinterface/extmodels.py:298-304 | succeeds exactly for names in the weapon list, with the global aggregate under that name; otherwise not-found |
| WeaponStats.All | statsdbinterface/extmodels.py:306-308 | one global aggregate per weapon of the list, in list order, and `len(all()) == count()` (`count()`, lines 260-262, is the length of the list) |
| WeaponStats.AllColumnsListed | statsdbinterface/extmodels.py:247-252 | every counter column is in `Weapon.columns` |
| WeaponStats.StatsMeaning | statsdbinterface/extmodels.py:264-272 | every column is present in an aggregate, its value is the sum of the admitted rows, and it is NULL exactly when the scope admits no row; the name is the weapon's |
| WeaponStats.UnusedWeaponIsNull | statsdbinterface/extmodels.py:293-296 | a weapon that nobody has used aggregates to NULL in every column |
| WeaponStats.ColumnSumSingleton | statsdbinterface/extmodels.py:268 | `SUM` over one row is that row's value |
| WeaponStats.SumConcat | statsdbinterface/extmodels.py:268 | column sums are additive over a union of row sets |
| WeaponStats.ColumnSumConcat | statsdbinterface/extmodels.py:268 | SQL sums are additive too, with NULL as the sum of no rows |
| WeaponStats.GameTotalPeel | statsdbinterface/extmodels.py:280-284 | removing one usage row removes its value from the per-game total of the one game it belongs to |
| WeaponStats.GameTotalEmpty | statsdbinterface/extmodels.py:280-284 | with no usage rows, the sum of per-game aggregates is NULL |
| WeaponStats.SelectedSumIsGameTotal | statsdbinterface/extmodels.py:280-296 | the sum of a weapon's rows is the sum of its per-game sums over any duplicate-free covering list of games |
| WeaponStats.FromWeaponIsSumOfFromGame | statsdbinterface/extmodels.py:280-296 | `from_weapon(w)` is, column by column, the sum of `from_game(w, g)` over any duplicate-free list of games covering the weapon's usage |
| WeaponStats.FromWeaponIsSumOverTable | statsdbinterface/extmodels.py:280-296 | `from_weapon(w)` is the sum of `from_game(w, g)` over the distinct game ids of the usage table |

## Left out

- Flask's `abort(404)` is the `NotFound` failure of a `Result`. The HTTP layer is not part of this model.
- SQLAlchemy sessions, query building and the database engine are not modelled. A query is a function over the table rows. The per-row `scalar() is not None` existence check is `Store.HasGame`.
- `to_pagination` is reduced to its inputs: the page of items and the total. The page-count arithmetic and `modelutils` are not part of this model.
- `to_dict` and `direct_to_dict` (JSON serialisation) are not modelled.
- `Weapon.weapon_list` returns the game version's registry unchanged, and `redeclipse` is not part of this model. The registry is a parameter, `registry`, of every weapon operation and of `Players.Weapons`.
- The limit of `topraces` (`config.API_HIGHSCORE_RESULTS`) is a parameter, `limit`.
- The store's `re_mode` and `re_mut` SQL functions are parameters `reMode` and `reMut`. Their encoding of modes and mutators is not visible here.
- GROUP BY does not fix an order. The catalogs list values in order of first occurrence. The properties proved speak only of membership, absence of duplicates and counts.
- `Races.Best`: `HAVING min(score)` relies on SQLite choosing the minimal row's bare columns. Among several rows of equal minimal score, the model keeps the earliest row in table order. The engine may pick another one.
- `Races.SortByScore`: `ORDER BY score` leaves ties unordered. The model's insertion sort fixes one order among equal scores. The properties proved do not depend on it.
- Players.Weapons: the result is a Dafny `map`, which has no order; the Python dictionary's key order (registry order, by insertion) is not modelled.
- Participation.LiveGameIds, Players.New, Servers.New: the game ids keep the participation rows' order in the body, but the contracts state only which ids appear and how often, not their order.
- Rows returned by `Game.id.in_(ids)` are in table order. The engine does not promise an order.
- Integers are unbounded. The database's `SUM` fails with an integer-overflow error when a sum leaves the 64-bit range; the model leaves that error out and returns the exact sum.
- Entities are values built by functions (`Players.New` for `Player(handle)` and so on), not Python objects with attributes. `finish_query`'s `setattr` loop fills a map from columns to values.
- `Map.all` lacks `@staticmethod` in the source. Within `extmodels.py` it is only called through the class (`cls.all`, line 178), where it behaves like the static variants, and is modelled that way.
