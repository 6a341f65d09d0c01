/** Wave and level arithmetic: batch sizes within the spawn budget, the level
    cap and the linear speed ramp. Everything here is pure; the session class
    in module Game applies it. The lemmas are stated for any batch size and
    budget, so they cover the configured 10 per level and 150 in all as well
    as other budgets such as 145. */
module Waves {

  /** Circles spawned per level (one batch). */
  const PER_LEVEL: nat := 10
  /** Total spawn budget of a session. */
  const TOTAL_ELEMENTS: nat := 150
  /** Number of levels: the budget divided by the batch size, rounded up. */
  const TOTAL_LEVELS: nat := CeilDiv(TOTAL_ELEMENTS, PER_LEVEL)
  /** The next batch is mixed in once at most this many circles are live. */
  const MIX_AT: nat := 2

  const BASE_SPEED: real := 0.60
  const SPEED_INC: real := 0.22

  function Min(a: int, b: int): (m: int)
    ensures m <= a && m <= b && (m == a || m == b)
  {
    if a <= b then a else b
  }

  /** Integer division rounding up, as Math.ceil(n / d) for positive d. */
  function CeilDiv(n: nat, d: nat): nat
    requires d > 0
  {
    (n + d - 1) / d
  }

  lemma CeilDivBounds(n: nat, d: nat)
    requires d > 0
    ensures CeilDiv(n, d) * d >= n
    ensures CeilDiv(n, d) > 0 ==> (CeilDiv(n, d) - 1) * d < n
  {
    var q, r := (n + d - 1) / d, (n + d - 1) % d;
    assert n + d - 1 == q * d + r && 0 <= r < d;
    if q > 0 {
      assert (q - 1) * d == q * d - d;
    }
  }

  lemma MulMonotone(a: int, b: int, d: int)
    requires a <= b && d >= 0
    ensures a * d <= b * d
  {
  }

  lemma MulSucc(a: int, d: int)
    ensures (a + 1) * d == a * d + d
  {
  }

  lemma MulCancel(a: int, b: int, d: int)
    requires d > 0 && a * d < b * d
    ensures a < b
  {
    if a >= b {
      MulMonotone(b, a, d);
    }
  }

  /** q is the quotient of m by d when q * d <= m < (q + 1) * d. */
  lemma DivUnique(m: nat, d: nat, q: int)
    requires d > 0 && q * d <= m < (q + 1) * d
    ensures m / d == q
  {
    var q', r := m / d, m % d;
    assert m == q' * d + r && 0 <= r < d;
    assert (q' + 1) * d == q' * d + d;
    MulCancel(q', q + 1, d);
    MulCancel(q, q' + 1, d);
  }

  /** The rounded-up quotient is the only count q with q * d >= n whose
      predecessor falls short of n. */
  lemma CeilDivUnique(n: nat, d: nat, q: nat)
    requires d > 0
    requires q * d >= n && (q == 0 || (q - 1) * d < n)
    ensures CeilDiv(n, d) == q
  {
    if q == 0 {
      assert n == 0;
      DivUnique(d - 1, d, 0);
    } else {
      assert (q - 1) * d == q * d - d;
      DivUnique(n + d - 1, d, q);
    }
  }

  /** Speed scale of the circles spawned for a level: 0.60 at level 1 and 0.22
      more per level. */
  function LevelSpeed(level: int): real
  {
    BASE_SPEED + (level - 1) as real * SPEED_INC
  }

  lemma LevelSpeedRamp(a: int, b: int)
    requires a < b
    ensures LevelSpeed(1) == BASE_SPEED
    ensures LevelSpeed(a) < LevelSpeed(b)
    ensures LevelSpeed(b) - LevelSpeed(a) == (b - a) as real * SPEED_INC
  {
  }

  /** Number of circles one batch spawns when `spawned` circles were spawned
      so far: nothing once the budget is spent, otherwise a full batch or the
      remainder of the budget, whichever is smaller. */
  function BatchCount(spawned: nat, per: nat, total: nat): (count: nat)
    ensures spawned >= total ==> count == 0
    ensures spawned < total ==> count == Min(per, total - spawned)
    ensures spawned < total ==> spawned + count <= total && count <= per
    ensures spawned < total && per > 0 ==> count > 0
    ensures spawned < total ==> count == per || spawned + count == total
  {
    if spawned >= total then 0 else Min(per, total - spawned)
  }

  /** The level the game moves to next: one more, capped at the last level. */
  function NextLevel(level: int, levels: int): (next: int)
    ensures next <= levels
    ensures next == level + 1 <==> level < levels
    ensures 1 <= level <= levels ==> 1 <= next && level <= next <= level + 1
  {
    Min(level + 1, levels)
  }

  /** The level after `advances` level-ups from level 1. */
  function LevelAfter(advances: nat, levels: int): int
  {
    if advances == 0 then 1 else NextLevel(LevelAfter(advances - 1, levels), levels)
  }

  /** However often the level goes up, it is one more per level-up until it
      reaches the last level, and stays there. */
  lemma {:induction false} LevelAfterIsCapped(advances: nat, levels: int)
    requires levels >= 1
    ensures LevelAfter(advances, levels) == Min(1 + advances, levels)
    ensures 1 <= LevelAfter(advances, levels) <= levels
  {
    if advances > 0 {
      LevelAfterIsCapped(advances - 1, levels);
    }
  }

  /** Circles spawned by the time a level has had its batch: every level up to
      it spawned a full batch, unless the budget ran out first. */
  function SpawnedBy(level: int, per: nat, total: nat): int
  {
    Min(level * per, total)
  }

  /** Advancing a level while budget remains moves exactly one level up and
      keeps "spawned == SpawnedBy(level)": the batch for the new level is the
      difference between the two levels' totals. */
  lemma AdvanceKeepsSpawnedBy(level: int, per: nat, total: nat)
    requires per > 0
    requires 1 <= level <= CeilDiv(total, per)
    requires SpawnedBy(level, per, total) < total
    ensures level < CeilDiv(total, per)
    ensures NextLevel(level, CeilDiv(total, per)) == level + 1
    ensures var spawned := SpawnedBy(level, per, total);
            spawned >= 0 &&
            spawned + BatchCount(spawned, per, total) == SpawnedBy(level + 1, per, total)
  {
    var levels := CeilDiv(total, per);
    CeilDivBounds(total, per);
    assert level * per < total;
    if level == levels {
      assert false;
    }
    assert (level + 1) * per == level * per + per;
  }

  /** The sizes of the batches still to come after `spawned` circles, one per
      level, until the budget is spent. */
  function Batches(spawned: nat, per: nat, total: nat): seq<nat>
    requires per > 0
    decreases total - spawned
  {
    if spawned >= total then []
    else [BatchCount(spawned, per, total)] + Batches(spawned + BatchCount(spawned, per, total), per, total)
  }

  function Sum(s: seq<nat>): nat
  {
    if s == [] then 0 else s[0] + Sum(s[1..])
  }

  /** The remaining batches add up to what is left of the budget; there are
      just enough of them to cover it; all but the last are full and the last holds
      the remainder. */
  lemma {:induction false} BatchesShape(spawned: nat, per: nat, total: nat)
    requires per > 0 && spawned <= total
    ensures var b := Batches(spawned, per, total);
            && Sum(b) == total - spawned
            && |b| * per >= total - spawned
            && (|b| > 0 ==> (|b| - 1) * per < total - spawned)
            && (forall k :: 0 <= k < |b| - 1 ==> b[k] == per)
            && (|b| > 0 ==> b[|b| - 1] == total - spawned - (|b| - 1) * per)
    decreases total - spawned
  {
    var b := Batches(spawned, per, total);
    if spawned == total {
      assert b == [];
    } else if total - spawned <= per {
      assert BatchCount(spawned, per, total) == total - spawned;
      assert Batches(total, per, total) == [];
      assert b == [total - spawned];
      assert Sum(b) == total - spawned + Sum([]);
    } else {
      var rest := Batches(spawned + per, per, total);
      BatchesShape(spawned + per, per, total);
      assert b == [per] + rest;
      assert b[1..] == rest;
      assert total - (spawned + per) == total - spawned - per;
      assert |b| == |rest| + 1;
      MulSucc(|rest|, per);
      if |rest| > 0 {
        assert b[|b| - 1] == rest[|rest| - 1];
        MulSucc(|rest| - 1, per);
      }
    }
  }

  /** A budget of exactly n full batches is spawned in n batches of `per`,
      over ceil(total / per) == n levels. */
  lemma FullBatches(per: nat, total: nat, n: nat)
    requires per > 0 && total == n * per
    ensures CeilDiv(total, per) == n
    ensures var b := Batches(0, per, total);
            |b| == n && forall k :: 0 <= k < |b| ==> b[k] == per
  {
    var b := Batches(0, per, total);
    BatchesShape(0, per, total);
    if |b| > n {
      MulMonotone(n, |b| - 1, per);
    }
    if |b| < n {
      MulCancel(|b|, n, per);
      MulMonotone(|b|, n - 1, per);
    }
    assert |b| == n;
    if n > 0 {
      assert b[n - 1] == total - (n - 1) * per == per;
    }
    CeilDivUnique(total, per, n);
  }

  /** A budget of n full batches and a remainder r needs n + 1 batches:
      n full ones, then one of r. */
  lemma PartialBatches(per: nat, total: nat, n: nat, r: nat)
    requires 0 < r < per && total == n * per + r
    ensures CeilDiv(total, per) == n + 1
    ensures var b := Batches(0, per, total);
            && |b| == n + 1 && b[n] == r
            && forall k :: 0 <= k < n ==> b[k] == per
  {
    var b := Batches(0, per, total);
    BatchesShape(0, per, total);
    assert (n + 1) * per == n * per + per;
    if |b| > n + 1 {
      MulMonotone(n + 1, |b| - 1, per);
    }
    if |b| < n + 1 {
      MulMonotone(|b|, n, per);
    }
    assert |b| == n + 1;
    assert b[n] == total - n * per == r;
    CeilDivUnique(total, per, n + 1);
  }

  /** With the configured constants there are 15 levels and every batch is
      full. */
  lemma ConfiguredBatches()
    ensures TOTAL_LEVELS == 15
    ensures var b := Batches(0, PER_LEVEL, TOTAL_ELEMENTS);
            |b| == 15 && forall k :: 0 <= k < |b| ==> b[k] == 10
  {
    FullBatches(PER_LEVEL, TOTAL_ELEMENTS, 15);
  }

  /** A budget of 145 with 10 per level needs 15 batches, the last of 5. */
  lemma RemainderBatch()
    ensures CeilDiv(145, 10) == 15
    ensures var b := Batches(0, 10, 145);
            |b| == 15 && b[14] == 5 && forall k :: 0 <= k < 14 ==> b[k] == 10
  {
    PartialBatches(10, 145, 14, 5);
  }
}
