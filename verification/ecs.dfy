/**
 * The parts of the entity store the game relies on: issuing fresh handles,
 * the order in which a join visits entities, the deferred-deletion barrier,
 * and the sets of entities carrying a given component.
 */
module Ecs {
  import opened Options
  import opened Components

  /** The handles of `m` below `n`, in increasing order. */
  function HandlesBelow(m: map<Id, Entity>, n: nat): (s: seq<Id>)
    ensures forall i, j :: 0 <= i < j < |s| ==> s[i] < s[j]
    ensures forall id :: id in s <==> id in m && id < n
    ensures forall i :: 0 <= i < |s| ==> s[i] < n
  {
    if n == 0 then []
    else
      var below := HandlesBelow(m, n - 1);
      if n - 1 in m then below + [n - 1] else below
  }

  /** The order in which a join visits the live entities: every handle once, ascending. */
  function JoinOrder(w: World): (s: seq<Id>)
    requires w.Valid()
    ensures forall i, j :: 0 <= i < j < |s| ==> s[i] < s[j]
    ensures forall id :: id in s <==> id in w.entities
  {
    HandlesBelow(w.entities, w.nextId)
  }

  /** The last handle of `ids` in `s`, if any: what a loop that overwrites a variable on every match leaves behind. */
  function LastWhere(ids: seq<Id>, s: set<Id>): Option<Id> {
    if |ids| == 0 then None
    else if ids[|ids| - 1] in s then Some(ids[|ids| - 1])
    else LastWhere(ids[..|ids| - 1], s)
  }

  /** In an increasing sequence, the last match is the greatest handle of `s` in it, and there is none exactly when no handle is in `s`. */
  lemma {:induction false} LastWhereIsGreatest(ids: seq<Id>, s: set<Id>)
    requires forall i, j :: 0 <= i < j < |ids| ==> ids[i] < ids[j]
    ensures LastWhere(ids, s).None? <==> forall id :: id in ids ==> id !in s
    ensures LastWhere(ids, s).Some? ==>
              && LastWhere(ids, s).value in ids && LastWhere(ids, s).value in s
              && forall id :: id in ids && id in s ==> id <= LastWhere(ids, s).value
  {
    if |ids| > 0 {
      var front := ids[..|ids| - 1];
      var last := ids[|ids| - 1];
      assert ids == front + [last];
      LastWhereIsGreatest(front, s);
      if last !in s {
        assert forall id :: id in ids ==> id in front || id == last;
      } else {
        forall id | id in ids
          ensures id <= last
        {
          var k :| 0 <= k < |ids| && ids[k] == id;
          if k < |ids| - 1 {
            assert ids[k] < ids[|ids| - 1];
          }
        }
      }
    }
  }

  /**
   * A loop over the join that keeps overwriting its variable with each
   * handle of `s` ends with the greatest live handle of `s`, or with nothing
   * when no live entity is in `s`.
   */
  lemma GreatestInJoin(w: World, s: set<Id>)
    requires w.Valid()
    ensures LastWhere(JoinOrder(w), s).None? ==> forall id :: id in w.entities ==> id !in s
    ensures LastWhere(JoinOrder(w), s).Some? ==>
              var last := LastWhere(JoinOrder(w), s).value;
              last in w.entities && last in s && forall id :: id in w.entities && id in s ==> id <= last
  {
    LastWhereIsGreatest(JoinOrder(w), s);
  }

  /** Building an entity: it gets a handle no live entity has, greater than all of them. */
  function Create(w: World, e: Entity): (r: (World, Id))
    requires w.Valid()
    ensures r.0.Valid()
    ensures r.1 !in w.entities
    ensures forall id :: id in w.entities ==> id < r.1
    ensures r.0.entities == w.entities[r.1 := e]
    ensures r.0.nextId > r.1
  {
    (World(w.entities[w.nextId := e], w.nextId + 1), w.nextId)
  }

  /** `World::delete_all`: every entity goes, the allocator keeps counting. */
  function Cleared(w: World): (r: World)
    requires w.Valid()
    ensures r.Valid() && r.entities == map[]
    ensures forall id :: id in w.entities ==> id < r.nextId
  {
    World(map[], w.nextId)
  }

  /** The `maintain` barrier: deletions queued during a dispatch take effect. */
  function Maintain(w: World, deleted: set<Id>): (r: World)
    requires w.Valid()
    ensures r.Valid()
    ensures r.entities.Keys == w.entities.Keys - deleted
    ensures forall id :: id in r.entities ==> r.entities[id] == w.entities[id]
  {
    World(w.entities - deleted, w.nextId)
  }

  function Players(w: World): set<Id> {
    set id | id in w.entities && w.entities[id].player.Some?
  }

  function Asteroids(w: World): set<Id> {
    set id | id in w.entities && w.entities[id].asteroid.Some?
  }

  function Rockets(w: World): set<Id> {
    set id | id in w.entities && w.entities[id].rocket.Some?
  }

  function GameDatas(w: World): set<Id> {
    set id | id in w.entities && w.entities[id].gameData.Some?
  }

  /** Two entities play the same roles: they carry the same kinds among Player, Asteroid, Rocket and GameData. */
  predicate SameRoles(a: Entity, b: Entity) {
    && a.player.Some? == b.player.Some?
    && a.asteroid.Some? == b.asteroid.Some?
    && a.rocket.Some? == b.rocket.Some?
    && a.gameData.Some? == b.gameData.Some?
  }

  /** A change that keeps every handle and every entity's roles keeps the role populations. */
  lemma RolesKept(w: World, r: World)
    requires r.entities.Keys == w.entities.Keys
    requires forall id :: id in w.entities ==> SameRoles(w.entities[id], r.entities[id])
    ensures Players(r) == Players(w) && Asteroids(r) == Asteroids(w)
    ensures Rockets(r) == Rockets(w) && GameDatas(r) == GameDatas(w)
  {
  }

  /** Adding entity `n` and leaving the others alone adds `n` to exactly the populations of its roles. */
  lemma RolesAfterAdd(w: World, r: World, n: Id)
    requires n !in w.entities && n in r.entities && r.entities == w.entities[n := r.entities[n]]
    ensures Players(r) == Players(w) + (if r.entities[n].player.Some? then {n} else {})
    ensures Asteroids(r) == Asteroids(w) + (if r.entities[n].asteroid.Some? then {n} else {})
    ensures Rockets(r) == Rockets(w) + (if r.entities[n].rocket.Some? then {n} else {})
    ensures GameDatas(r) == GameDatas(w) + (if r.entities[n].gameData.Some? then {n} else {})
  {
  }

  /** A population of at most one that contains `p` is exactly `{p}`. */
  lemma AtMostOne(s: set<Id>, p: Id)
    requires |s| <= 1 && p in s
    ensures s == {p}
  {
    if q :| q in s && q != p {
      assert {p, q} <= s;
      assert |{p, q}| == 2;
      SubsetCard({p, q}, s);
    }
  }

  lemma SubsetCard(a: set<Id>, b: set<Id>)
    requires a <= b
    ensures |a| <= |b|
  {
    assert b == a + (b - a);
  }
}
