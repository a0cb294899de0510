/** The handle catalog shared by players and servers: both derive their
    catalog and their game lists from a participation table, seen here as
    (game id, handle) links. */
module Participation {
  import opened Common
  import opened Store

  datatype Link = Link(gameId: int, handle: string)

  /** `SELECT handle ... WHERE handle != ''`, before grouping. */
  function NonEmptyHandles(links: seq<Link>): (hs: seq<string>)
    ensures forall h :: h in hs <==> h != "" && exists l :: l in links && l.handle == h
  {
    if links == [] then []
    else
      var rest := NonEmptyHandles(links[1..]);
      assert forall l :: l in links <==> l == links[0] || l in links[1..];
      if links[0].handle != "" then [links[0].handle] + rest else rest
  }

  /** `handle_list()`: the grouped non-empty handles. */
  function HandleList(links: seq<Link>): (hs: seq<string>)
    ensures NoDuplicates(hs)
    ensures "" !in hs
    ensures forall h :: h in hs <==> h != "" && exists l :: l in links && l.handle == h
  {
    Distinct(NonEmptyHandles(links))
  }

  /** `count()`: the number of groups of the same filtered query. */
  function HandleCount(links: seq<Link>): nat {
    |set l | l in links && l.handle != "" :: l.handle|
  }

  lemma CountIsLength(links: seq<Link>)
    ensures HandleCount(links) == |HandleList(links)|
  {
    var hs := HandleList(links);
    NoDuplicatesCardinality(hs);
    assert (set l | l in links && l.handle != "" :: l.handle) == (set h | h in hs);
  }

  /** The game ids of the links carrying `handle`, in row order, keeping only
      ids for which the game table still has a game: one id per such link, so
      an id appears as often as the handle's links to that live game. */
  function LiveGameIds(links: seq<Link>, handle: string, games: seq<Game>): (ids: seq<int>)
    ensures forall id :: id in ids <==> HasGame(games, id) && Link(id, handle) in links
    ensures forall id :: multiset(ids)[id] == if HasGame(games, id) then multiset(links)[Link(id, handle)] else 0
    ensures |ids| <= |links|
  {
    if links == [] then []
    else
      var rest := LiveGameIds(links[1..], handle, games);
      assert forall l :: l in links <==> l == links[0] || l in links[1..];
      assert links == [links[0]] + links[1..];
      if links[0].handle == handle && HasGame(games, links[0].gameId) then [links[0].gameId] + rest
      else rest
  }
}
