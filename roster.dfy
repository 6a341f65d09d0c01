/** Facts about the list of live circles that the session keeps: their ids,
    their states, and how a batch of freshly spawned circles sits at its end. */
module Roster {
  import opened Circles
  import opened Cooldown

  /** The ids of the circles, in array order. */
  function IdsOf(cs: seq<Circle>): (ids: seq<int>)
    ensures |ids| == |cs| && forall k :: 0 <= k < |cs| ==> ids[k] == cs[k].id
  {
    seq(|cs|, k requires 0 <= k < |cs| => cs[k].id)
  }

  /** The circles' states, in array order. */
  function ViewsOf(cs: seq<Circle>): (vs: seq<CircleView>)
    reads cs
    ensures |vs| == |cs| && forall k :: 0 <= k < |cs| ==> vs[k] == cs[k].View()
  {
    seq(|cs|, k requires 0 <= k < |cs| reads cs => cs[k].View())
  }

  /** The state of the circle with the given id spawned from draw d: its
      centre is at the drawn x and the drawn offset below the bottom edge. */
  function Spawned(id: int, d: SpawnDraw, speed: real, height: real): CircleView
  {
    SpawnView(id, d.x, height + d.yOffset, d.radius, speed, d.ux, d.uy)
  }

  ghost predicate AllValid(cs: seq<Circle>)
    reads cs
  {
    forall k :: 0 <= k < |cs| ==> cs[k].Valid()
  }

  /** Every id lies in [lo, hi). */
  predicate IdsIn(cs: seq<Circle>, lo: int, hi: int)
  {
    forall k :: 0 <= k < |cs| ==> lo <= cs[k].id < hi
  }

  /** From position `from` on, the circles are the ones spawned with the ids
      firstId, firstId + 1, ... from the draws for those ids. */
  ghost predicate SpawnedFrom(cs: seq<Circle>, from: nat, firstId: int, speed: real,
                              rng: int -> SpawnDraw, height: real)
    reads cs
  {
    forall k :: from <= k < |cs| ==>
      cs[k].View() == Spawned(firstId + (k - from), rng(firstId + (k - from)), speed, height)
  }

  /** Appending a circle spawned with the next id keeps the ids increasing,
      the circles valid and the batch description up to date. */
  lemma Extend(cs: seq<Circle>, c: Circle, from: nat, firstId: int, speed: real,
               rng: int -> SpawnDraw, height: real)
    requires from <= |cs|
    requires Increasing(IdsOf(cs)) && IdsIn(cs, 1, c.id) && 1 <= c.id
    requires AllValid(cs) && c.Valid()
    requires SpawnedFrom(cs, from, firstId, speed, rng, height)
    requires c.View() == Spawned(firstId + (|cs| - from), rng(firstId + (|cs| - from)), speed, height)
    ensures Increasing(IdsOf(cs + [c])) && IdsIn(cs + [c], 1, c.id + 1)
    ensures AllValid(cs + [c])
    ensures SpawnedFrom(cs + [c], from, firstId, speed, rng, height)
  {
    var ds := cs + [c];
    assert forall k :: 0 <= k < |cs| ==> ds[k] == cs[k];
    assert IdsOf(ds) == IdsOf(cs) + [c.id];
  }

  /** Circles at distinct positions are distinct objects when their ids
      increase. */
  lemma DistinctIds(cs: seq<Circle>)
    requires Increasing(IdsOf(cs))
    ensures forall x, y :: 0 <= x < y < |cs| ==> cs[x] != cs[y]
  {
    forall x, y | 0 <= x < y < |cs|
      ensures cs[x] != cs[y]
    {
      assert IdsOf(cs)[x] < IdsOf(cs)[y];
    }
  }

  /** Circles whose opacity only dropped, to no less than zero, since the
      states v0 that were valid are still valid. */
  lemma AllValidKeeps(cs: seq<Circle>, v0: seq<CircleView>)
    requires |cs| == |v0|
    requires forall k :: 0 <= k < |v0| ==> ValidView(v0[k])
    requires forall k :: 0 <= k < |cs| ==> 0 <= cs[k].View().alpha <= v0[k].alpha
    ensures AllValid(cs)
  {
    forall k | 0 <= k < |cs|
      ensures cs[k].Valid()
    {
      ValidViewKeeps(v0[k], cs[k].View());
    }
  }
}
