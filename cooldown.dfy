/** The per-pair collision cooldown table. A pair of circles is keyed by the
    ordered pair of their ids (the smaller first); the table maps a key to the
    time of the pair's last recorded collision, and a pair is recorded again
    only once the cooldown window has passed. The second half of the module
    describes, in closed form, what one all-pairs pass over the live circles
    does to the table and to the circles' collision flags. */
module Cooldown {

  /** Minimum time between two recorded collisions of one pair, in ms. */
  const COLLISION_COOLDOWN_MS: real := 80.0
  /** What a pair that was never recorded reads as: -1e9 ms. */
  const NEVER_COLLIDED: real := -1000000000.0

  datatype PairKey = PairKey(lo: int, hi: int)

  /** The key of the pair of circles with ids a and b. */
  function KeyOf(a: int, b: int): (k: PairKey)
    ensures k.lo <= k.hi
    ensures (k.lo == a && k.hi == b) || (k.lo == b && k.hi == a)
  {
    PairKey(if a <= b then a else b, if a <= b then b else a)
  }

  /** The key does not depend on the order of the two ids, and two pairs of
      distinct ids share a key only if they are the same pair. */
  lemma KeyOfSymmetric(a: int, b: int, c: int, d: int)
    ensures KeyOf(a, b) == KeyOf(b, a)
    ensures a < b && c < d ==> (KeyOf(a, b) == KeyOf(c, d) <==> a == c && b == d)
  {
  }

  type Table = map<PairKey, real>

  /** The time of the pair's last recorded collision, -1e9 if none. */
  function LastAt(t: Table, k: PairKey): real
  {
    if k in t then t[k] else NEVER_COLLIDED
  }

  /** A pair's collision is recorded at time `now` when the cooldown window
      has passed since its last one. */
  predicate GateOpen(t: Table, k: PairKey, now: real)
  {
    now - LastAt(t, k) >= COLLISION_COOLDOWN_MS
  }

  /** A pair never recorded (or recorded long ago) opens the gate at any
      non-negative time; a pair just recorded at `at` stays closed exactly
      until the window has passed, and other pairs are not affected. */
  lemma GateTiming(t: Table, k: PairKey, other: PairKey, at: real, now: real)
    ensures k !in t && now >= 0.0 ==> GateOpen(t, k, now)
    ensures GateOpen(t[k := at], k, now) <==> now >= at + COLLISION_COOLDOWN_MS
    ensures other != k ==> (GateOpen(t[k := at], other, now) <==> GateOpen(t, other, now))
  {
  }

  // ---------------------------------------------------------------------
  // One pass over all pairs (a, b), a < b, of the live circles, in the order
  // a = 0, 1, ...; b = a + 1, a + 2, ...  `ids` are the circles' ids in
  // array order, `t0` the table before the pass, `overlap(a, b)` whether
  // the circles at positions a and b touch when the pass reaches them.
  // ---------------------------------------------------------------------

  /** Ids in array order are strictly increasing. */
  predicate Increasing(ids: seq<int>)
  {
    forall a, b :: 0 <= a < b < |ids| ==> ids[a] < ids[b]
  }

  /** The pass visits pair (a, b) before it reaches pair (i, j). As a
      relation between pairs this is the lexicographic order. */
  predicate Before(a: nat, b: nat, i: nat, j: nat)
  {
    a < i || (a == i && b < j)
  }

  /** The pass records the collision of the pair at positions a < b. */
  predicate Opens(ids: seq<int>, t0: Table, overlap: (nat, nat) -> bool, now: real, a: nat, b: nat)
    requires a < b < |ids|
  {
    overlap(a, b) && GateOpen(t0, KeyOf(ids[a], ids[b]), now)
  }

  /** Keys the pass has stamped with `now` by the time it reaches (i, j). */
  ghost function StampedKeys(ids: seq<int>, t0: Table, overlap: (nat, nat) -> bool, now: real,
                             i: nat, j: nat): set<PairKey>
  {
    set a: nat, b: nat | a < b < |ids| && Before(a, b, i, j) && Opens(ids, t0, overlap, now, a, b)
      :: KeyOf(ids[a], ids[b])
  }

  /** What key `key` of the table reads when the pass that started from t0
      reaches (i, j): stamped keys are present and read `now`; any other key
      is present and reads exactly as in t0. */
  ghost predicate KeyAt(table: Table, key: PairKey, ids: seq<int>, t0: Table, overlap: (nat, nat) -> bool,
                        now: real, i: nat, j: nat)
  {
    && (key in table <==> key in t0 || key in StampedKeys(ids, t0, overlap, now, i, j))
    && LastAt(table, key) == if key in StampedKeys(ids, t0, overlap, now, i, j) then now else LastAt(t0, key)
  }

  /** The whole table when the pass reaches (i, j), key by key. */
  ghost predicate TableAt(table: Table, ids: seq<int>, t0: Table, overlap: (nat, nat) -> bool,
                          now: real, i: nat, j: nat)
  {
    forall key :: KeyAt(table, key, ids, t0, overlap, now, i, j)
  }

  /** Circle k has a partner m whose pair with it was recorded before (i, j). */
  ghost predicate Partner(ids: seq<int>, t0: Table, overlap: (nat, nat) -> bool, now: real,
                          k: nat, m: nat, i: nat, j: nat)
  {
    && k < |ids| && m < |ids| && k != m
    && var (a, b) := if k < m then (k, m) else (m, k);
       Before(a, b, i, j) && Opens(ids, t0, overlap, now, a, b)
  }

  /** Circle k's collision flag has been set by the time the pass reaches
      (i, j). */
  ghost predicate Flagged(ids: seq<int>, t0: Table, overlap: (nat, nat) -> bool, now: real,
                          k: nat, i: nat, j: nat)
  {
    exists m: nat :: Partner(ids, t0, overlap, now, k, m, i, j)
  }

  /** Two positions of the pass that have visited the same pairs have stamped
      the same keys and set the same flags. */
  lemma SameProgress(ids: seq<int>, t0: Table, overlap: (nat, nat) -> bool, now: real,
                     i: nat, j: nat, i': nat, j': nat)
    requires forall a: nat, b: nat :: a < b < |ids| ==> (Before(a, b, i, j) <==> Before(a, b, i', j'))
    ensures StampedKeys(ids, t0, overlap, now, i, j) == StampedKeys(ids, t0, overlap, now, i', j')
    ensures forall k: nat :: Flagged(ids, t0, overlap, now, k, i, j) <==> Flagged(ids, t0, overlap, now, k, i', j')
  {
    forall k: nat
      ensures Flagged(ids, t0, overlap, now, k, i, j) <==> Flagged(ids, t0, overlap, now, k, i', j')
    {
      if Flagged(ids, t0, overlap, now, k, i, j) {
        var m: nat :| Partner(ids, t0, overlap, now, k, m, i, j);
        assert Partner(ids, t0, overlap, now, k, m, i', j');
      }
      if Flagged(ids, t0, overlap, now, k, i', j') {
        var m: nat :| Partner(ids, t0, overlap, now, k, m, i', j');
        assert Partner(ids, t0, overlap, now, k, m, i, j);
      }
    }
  }

  /** Before the pass reaches a pair, its key is still unstamped (keys of
      distinct pairs differ because the ids increase); visiting the pair adds
      its key exactly when the pass records it. */
  lemma StampStep(ids: seq<int>, t0: Table, overlap: (nat, nat) -> bool, now: real, i: nat, j: nat)
    requires Increasing(ids) && i < j < |ids|
    ensures KeyOf(ids[i], ids[j]) !in StampedKeys(ids, t0, overlap, now, i, j)
    ensures StampedKeys(ids, t0, overlap, now, i, j + 1) ==
            StampedKeys(ids, t0, overlap, now, i, j) +
            (if Opens(ids, t0, overlap, now, i, j) then {KeyOf(ids[i], ids[j])} else {})
  {
    var key := KeyOf(ids[i], ids[j]);
    var s0 := StampedKeys(ids, t0, overlap, now, i, j);
    var s1 := StampedKeys(ids, t0, overlap, now, i, j + 1);
    var added := if Opens(ids, t0, overlap, now, i, j) then {key} else {};
    forall k | k in s1 ensures k in s0 + added {
      var a: nat, b: nat :| a < b < |ids| && Before(a, b, i, j + 1) && Opens(ids, t0, overlap, now, a, b)
                           && KeyOf(ids[a], ids[b]) == k;
      if !Before(a, b, i, j) {
        assert a == i && b == j;
      }
    }
    forall k | k in s0 + added ensures k in s1 {
      if k in s0 {
        var a: nat, b: nat :| a < b < |ids| && Before(a, b, i, j) && Opens(ids, t0, overlap, now, a, b)
                             && KeyOf(ids[a], ids[b]) == k;
        assert Before(a, b, i, j + 1);
      } else {
        assert Before(i, j, i, j + 1);
      }
    }
  }

  /** Visiting pair (i, j) sets the flags of its two circles exactly when
      the pass records it, and no other flag. */
  lemma FlagStep(ids: seq<int>, t0: Table, overlap: (nat, nat) -> bool, now: real, i: nat, j: nat, k: nat)
    requires i < j < |ids|
    ensures Flagged(ids, t0, overlap, now, k, i, j + 1) <==>
            Flagged(ids, t0, overlap, now, k, i, j) ||
            (Opens(ids, t0, overlap, now, i, j) && (k == i || k == j))
  {
    if Flagged(ids, t0, overlap, now, k, i, j + 1) {
      var m: nat :| Partner(ids, t0, overlap, now, k, m, i, j + 1);
      if !Partner(ids, t0, overlap, now, k, m, i, j) {
        assert (k == i && m == j) || (k == j && m == i);
      }
    }
    if Flagged(ids, t0, overlap, now, k, i, j) {
      var m: nat :| Partner(ids, t0, overlap, now, k, m, i, j);
      assert Partner(ids, t0, overlap, now, k, m, i, j + 1);
    }
    if Opens(ids, t0, overlap, now, i, j) && k == i {
      assert Partner(ids, t0, overlap, now, k, j, i, j + 1);
    }
    if Opens(ids, t0, overlap, now, i, j) && k == j {
      assert Partner(ids, t0, overlap, now, k, i, i, j + 1);
    }
  }

  /** After the whole pass: a key was stamped exactly when it belongs to a
      pair of circles that touched while the pair was out of its cooldown
      window, and a circle's flag is set exactly when it was in such a pair.
      A touching pair still inside its window keeps its old time and sets no
      flag. */
  lemma PassOutcome(ids: seq<int>, t0: Table, overlap: (nat, nat) -> bool, now: real, a: nat, b: nat)
    requires Increasing(ids) && a < b < |ids|
    ensures KeyOf(ids[a], ids[b]) in StampedKeys(ids, t0, overlap, now, |ids|, 0) <==> Opens(ids, t0, overlap, now, a, b)
    ensures Opens(ids, t0, overlap, now, a, b) ==>
              Flagged(ids, t0, overlap, now, a, |ids|, 0) && Flagged(ids, t0, overlap, now, b, |ids|, 0)
  {
    var key := KeyOf(ids[a], ids[b]);
    forall a': nat, b': nat | a' < b' < |ids| && KeyOf(ids[a'], ids[b']) == key
      ensures a' == a && b' == b
    {
      KeyOfSymmetric(ids[a'], ids[b'], ids[a], ids[b]);
    }
    if Opens(ids, t0, overlap, now, a, b) {
      assert Partner(ids, t0, overlap, now, a, b, |ids|, 0);
      assert Partner(ids, t0, overlap, now, b, a, |ids|, 0);
    }
  }
}
