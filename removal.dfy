/** What the per-frame removal loop keeps and counts: the circles whose update
    reported them alive survive in their original order, and every other one
    is counted once, as killed or as escaped. */
module Removal {
  import opened Circles

  /** What each circle's update reports, in array order. */
  function Fates(vs: seq<CircleView>, width: real): (fs: seq<Fate>)
    ensures |fs| == |vs|
    ensures forall k :: 0 <= k < |vs| ==> fs[k] == Advance(vs[k], width).fate
  {
    seq(|vs|, k requires 0 <= k < |vs| => Advance(vs[k], width).fate)
  }

  /** Each circle's state after its update, in array order. */
  function Advanced(vs: seq<CircleView>, width: real): (ws: seq<CircleView>)
    ensures |ws| == |vs|
    ensures forall k :: 0 <= k < |vs| ==> ws[k] == Advance(vs[k], width).view
  {
    seq(|vs|, k requires 0 <= k < |vs| => Advance(vs[k], width).view)
  }

  /** The update does not look at the collision flag: states that differ
      only in their flags get the same fates. */
  lemma FatesIgnoreFlags(vs: seq<CircleView>, ws: seq<CircleView>, width: real)
    requires |vs| == |ws|
    requires forall k :: 0 <= k < |vs| ==> ws[k].(colliding := vs[k].colliding) == vs[k]
    ensures Fates(ws, width) == Fates(vs, width)
  {
  }

  /** The elements whose fate is Alive, in their original order. */
  function Keep<T>(s: seq<T>, fates: seq<Fate>): seq<T>
    requires |s| == |fates|
  {
    if s == [] then []
    else (if fates[0] == Alive then [s[0]] else []) + Keep(s[1..], fates[1..])
  }

  function Count(fates: seq<Fate>, f: Fate): nat
  {
    if fates == [] then 0 else (if fates[0] == f then 1 else 0) + Count(fates[1..], f)
  }

  /** Keep and Count on a suffix, one element at a time: the form in which a
      loop over the positions from the last to the first builds them. */
  lemma KeepFrom<T>(s: seq<T>, fates: seq<Fate>, i: nat)
    requires |s| == |fates| && i < |s|
    ensures Keep(s[i..], fates[i..]) == (if fates[i] == Alive then [s[i]] else []) + Keep(s[i + 1..], fates[i + 1..])
    ensures forall f :: Count(fates[i..], f) == (if fates[i] == f then 1 else 0) + Count(fates[i + 1..], f)
  {
    assert s[i..][1..] == s[i + 1..];
    assert fates[i..][1..] == fates[i + 1..];
  }

  /** One step of a loop that walks down from the last position: the list
      built so far, `cur`, holds s[i] at position i, and dropping it or not
      according to its fate gives the list one position further down. */
  lemma KeepStep<T>(s: seq<T>, fates: seq<Fate>, i: nat)
    requires |s| == |fates| && i < |s|
    ensures var cur := s[..i + 1] + Keep(s[i + 1..], fates[i + 1..]);
            && i < |cur| && cur[i] == s[i]
            && s[..i] + Keep(s[i..], fates[i..]) == if fates[i] == Alive then cur else cur[..i] + cur[i + 1..]
  {
    KeepFrom(s, fates, i);
    var rest := Keep(s[i + 1..], fates[i + 1..]);
    var cur := s[..i + 1] + rest;
    assert s[..i + 1] == s[..i] + [s[i]];
    assert cur[..i] == s[..i];
    assert cur[i + 1..] == rest;
  }

  /** Positions of the Alive fates, in increasing order. */
  function AliveAt(fates: seq<Fate>): seq<nat>
  {
    if fates == [] then []
    else (if fates[0] == Alive then [0] else []) + Shift(AliveAt(fates[1..]))
  }

  function Shift(s: seq<nat>): (r: seq<nat>)
    ensures |r| == |s| && forall t :: 0 <= t < |s| ==> r[t] == s[t] + 1
  {
    seq(|s|, t requires 0 <= t < |s| => s[t] + 1)
  }

  /** Every element is either kept or counted as killed or escaped, exactly
      once. */
  lemma {:induction false} KeepAccounting<T>(s: seq<T>, fates: seq<Fate>)
    requires |s| == |fates|
    ensures |Keep(s, fates)| + Count(fates, Killed) + Count(fates, Escaped) == |s|
  {
    if s != [] {
      KeepAccounting(s[1..], fates[1..]);
    }
  }

  /** `at` lists, in strictly increasing order, positions whose fate is
      Alive. */
  predicate AliveList(at: seq<nat>, fates: seq<Fate>)
  {
    && (forall t :: 0 <= t < |at| ==> at[t] < |fates| && fates[at[t]] == Alive)
    && (forall t, u :: 0 <= t < u < |at| ==> at[t] < at[u])
  }

  /** AliveAt lists only positions whose fate is Alive, in strictly
      increasing order. */
  lemma {:induction false} AliveAtSound(fates: seq<Fate>)
    ensures AliveList(AliveAt(fates), fates)
  {
    if fates != [] {
      AliveAtSound(fates[1..]);
      ConsAlive(fates, AliveAt(fates[1..]));
      ConsOrdered(fates, AliveAt(fates[1..]));
    }
  }

  /** Putting the first position in front of a shifted list of the tail's
      Alive positions lists only Alive positions. */
  lemma ConsAlive(fates: seq<Fate>, rest: seq<nat>)
    requires fates != [] && AliveList(rest, fates[1..])
    ensures var at := (if fates[0] == Alive then [0] else []) + Shift(rest);
            forall t :: 0 <= t < |at| ==> at[t] < |fates| && fates[at[t]] == Alive
  {
    var tail := fates[1..];
    var head: seq<nat> := if fates[0] == Alive then [0] else [];
    var at := head + Shift(rest);
    forall t | 0 <= t < |at|
      ensures at[t] < |fates| && fates[at[t]] == Alive
    {
      if t >= |head| {
        var r := rest[t - |head|];
        assert at[t] == r + 1;
        assert r < |tail| && tail[r] == Alive;
      }
    }
  }

  /** ... and keeps the list in strictly increasing order. */
  lemma ConsOrdered(fates: seq<Fate>, rest: seq<nat>)
    requires fates != [] && AliveList(rest, fates[1..])
    ensures var at := (if fates[0] == Alive then [0] else []) + Shift(rest);
            forall t, u :: 0 <= t < u < |at| ==> at[t] < at[u]
  {
    var head: seq<nat> := if fates[0] == Alive then [0] else [];
    var at := head + Shift(rest);
    forall t, u | 0 <= t < u < |at|
      ensures at[t] < at[u]
    {
      assert at[u] == rest[u - |head|] + 1;
      if t >= |head| {
        assert at[t] == rest[t - |head|] + 1;
      }
    }
  }

  /** Every position whose fate is Alive is listed by AliveAt. */
  lemma {:induction false} AliveAtComplete(fates: seq<Fate>, k: nat)
    requires k < |fates| && fates[k] == Alive
    ensures k in AliveAt(fates)
  {
    var rest := AliveAt(fates[1..]);
    var head: seq<nat> := if fates[0] == Alive then [0] else [];
    assert AliveAt(fates) == head + Shift(rest);
    if k > 0 {
      assert fates[1..][k - 1] == Alive;
      AliveAtComplete(fates[1..], k - 1);
      var t :| 0 <= t < |rest| && rest[t] == k - 1;
      assert (head + Shift(rest))[|head| + t] == k;
    }
  }

  /** `kept` holds the elements of `s` at the positions `at`. */
  ghost predicate PicksAt<T>(kept: seq<T>, s: seq<T>, at: seq<nat>)
  {
    |kept| == |at| && forall t :: 0 <= t < |at| ==> at[t] < |s| && kept[t] == s[at[t]]
  }

  /** Keep picks the elements at the Alive positions: survivors keep their
      relative order and are exactly the elements reported alive. */
  lemma {:induction false} KeepPicksAlive<T>(s: seq<T>, fates: seq<Fate>)
    requires |s| == |fates|
    ensures PicksAt(Keep(s, fates), s, AliveAt(fates))
  {
    if s != [] {
      KeepPicksAlive(s[1..], fates[1..]);
      ConsPicks(s, fates, Keep(s[1..], fates[1..]), AliveAt(fates[1..]));
    }
  }

  /** Every kept element is an element of the original sequence. */
  lemma KeptAreFrom<T>(s: seq<T>, fates: seq<Fate>)
    requires |s| == |fates|
    ensures forall x :: x in Keep(s, fates) ==> x in s
  {
    KeepPicksAlive(s, fates);
  }

  /** Putting the first element, when it survives, in front of the picks from
      the tail picks from the whole sequence at the shifted positions. */
  lemma ConsPicks<T>(s: seq<T>, fates: seq<Fate>, kept: seq<T>, rest: seq<nat>)
    requires |s| == |fates| && s != []
    requires PicksAt(kept, s[1..], rest)
    ensures PicksAt((if fates[0] == Alive then [s[0]] else []) + kept, s,
                    (if fates[0] == Alive then [0] else []) + Shift(rest))
  {
    var tail := s[1..];
    var head: seq<nat> := if fates[0] == Alive then [0] else [];
    var front: seq<T> := if fates[0] == Alive then [s[0]] else [];
    var at := head + Shift(rest);
    forall t | 0 <= t < |at|
      ensures at[t] < |s| && (front + kept)[t] == s[at[t]]
    {
      if t >= |head| {
        var r := rest[t - |head|];
        assert (front + kept)[t] == kept[t - |head|] == tail[r];
        assert at[t] == r + 1;
      }
    }
  }
}
