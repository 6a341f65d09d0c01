/** Pointer selection: the circle under the pointer is the last one in array
    order (the most recently spawned) that is still visible and contains the
    point. */
module Hover {
  import opened Options
  import opened Circles

  /** A circle can be hovered when it is visible and the point is inside. */
  predicate Hoverable(v: CircleView, px: real, py: real)
  {
    v.alpha > 0 && InDisk(v.posX, v.posY, v.radius, px, py)
  }

  /** Position of the hovered circle: the highest hoverable position, or
      None when no circle is hoverable. */
  function TopmostHit(vs: seq<CircleView>, px: real, py: real): (r: Option<nat>)
    ensures r.None? <==> forall k :: 0 <= k < |vs| ==> !Hoverable(vs[k], px, py)
    ensures r.Some? ==> r.value < |vs| && Hoverable(vs[r.value], px, py)
    ensures r.Some? ==> forall k :: r.value < k < |vs| ==> !Hoverable(vs[k], px, py)
    decreases |vs|
  {
    if vs == [] then None
    else if Hoverable(vs[|vs| - 1], px, py) then Some(|vs| - 1)
    else TopmostHit(vs[..|vs| - 1], px, py)
  }

  /** Id of the hovered circle, if any. */
  function HoverId(vs: seq<CircleView>, px: real, py: real): Option<int>
  {
    match TopmostHit(vs, px, py)
    case None => None
    case Some(k) => Some(vs[k].id)
  }

  /** When circles overlap under the pointer, the one later in array order
      wins; a circle that has faded to nothing is never hovered. */
  lemma LaterCircleWins(vs: seq<CircleView>, px: real, py: real, k: nat)
    requires k < |vs| && Hoverable(vs[k], px, py)
    ensures TopmostHit(vs, px, py).Some? && TopmostHit(vs, px, py).value >= k
    ensures forall k :: 0 <= k < |vs| && vs[k].alpha <= 0 ==> TopmostHit(vs, px, py) != Some(k)
  {
  }
}
