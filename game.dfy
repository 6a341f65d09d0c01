/** The game session: the live circles, the level and spawn counters, the
    hovered circle and the collision cooldown table, with the operations that
    change them: starting a session, spawning a level's batch, mixing in the
    next level, the per-frame step and the pointer handlers. */
module Game {
  import opened Options
  import opened Waves
  import opened Circles
  import opened Cooldown
  import opened Removal
  import opened Hover
  import opened Roster
  import opened Pass

  /** What one frame did besides changing the state: the pairs handed to the
      collision resolver, in order, and whether the level mix and the
      empty-board failsafe spawned a batch. */
  datatype FrameEvents = FrameEvents(resolved: seq<(nat, nat)>, mixed: bool, failsafe: bool)

  class Session {
    var circles: seq<Circle>
    var currentLevel: int
    var spawnedTotal: nat
    var killedTotal: nat
    var escapedTotal: nat
    var nextId: int
    var injectedLevelUpTo: int
    var hoverId: Option<int>
    var lastCollisionAt: Table

    /** Every spawned circle is live, killed or escaped; ids are handed out
        consecutively from 1, so the live ones increase in array order and are
        below nextId; each live circle is valid. */
    ghost predicate Consistent()
      reads this, circles
    {
      && killedTotal + escapedTotal + |circles| == spawnedTotal <= TOTAL_ELEMENTS
      && nextId == spawnedTotal + 1
      && Increasing(IdsOf(circles))
      && IdsIn(circles, 1, nextId)
      && AllValid(circles)
    }

    /** Consistent() from its parts; calling it spares a caller's proof from
        unfolding the invariant next to its other goals. */
    lemma Establish()
      requires killedTotal + escapedTotal + |circles| == spawnedTotal <= TOTAL_ELEMENTS
      requires nextId == spawnedTotal + 1
      requires Increasing(IdsOf(circles)) && IdsIn(circles, 1, nextId) && AllValid(circles)
      ensures Consistent()
    {
    }

    /** Between frames, additionally: the level is in range, its batch has
        been injected, and every level so far spawned a full batch unless the
        budget ran out. */
    ghost predicate Valid()
      reads this, circles
    {
      && Consistent()
      && 1 <= currentLevel <= TOTAL_LEVELS
      && injectedLevelUpTo == currentLevel
      && spawnedTotal == SpawnedBy(currentLevel, PER_LEVEL, TOTAL_ELEMENTS)
    }

    /** The circles are `before` followed by `count` circles spawned with the
        ids firstId, firstId + 1, ... from the draws for those ids. */
    ghost predicate Appended(before: seq<Circle>, firstId: int, count: nat, speed: real,
                             rng: int -> SpawnDraw, height: real)
      reads this, circles
    {
      && |circles| == |before| + count
      && circles[..|before|] == before
      && SpawnedFrom(circles, |before|, firstId, speed, rng, height)
    }

    /** A session as the page load starts it: reset, with the first batch. */
    constructor (rng: int -> SpawnDraw, height: real)
      ensures Valid()
      ensures currentLevel == 1 && spawnedTotal == PER_LEVEL && nextId == PER_LEVEL + 1
      ensures killedTotal == 0 && escapedTotal == 0 && hoverId == None && lastCollisionAt == map[]
      ensures Appended([], 1, PER_LEVEL, LevelSpeed(1), rng, height)
      ensures forall k :: 0 <= k < |circles| ==> fresh(circles[k])
    {
      circles := [];
      currentLevel := 1;
      spawnedTotal := 0;
      killedTotal := 0;
      escapedTotal := 0;
      nextId := 1;
      injectedLevelUpTo := 1;
      hoverId := None;
      lastCollisionAt := map[];
      new;
      ResetGame(rng, height);
    }

    /** Spawn the batch of a level: nothing once the budget is spent;
        otherwise the smaller of a full batch and the rest of the budget, with
        consecutive ids, at the level's speed, appended after the live
        circles; the cooldown table is cleared. */
    method AddBatchForLevel(level: int, rng: int -> SpawnDraw, height: real)
      requires Consistent()
      requires 1 <= level <= TOTAL_LEVELS
      modifies this`circles, this`spawnedTotal, this`nextId, this`lastCollisionAt
      ensures Consistent()
      ensures var count := BatchCount(old(spawnedTotal), PER_LEVEL, TOTAL_ELEMENTS);
              && spawnedTotal == old(spawnedTotal) + count
              && Appended(old(circles), old(nextId), count, LevelSpeed(level), rng, height)
      ensures forall k :: |old(circles)| <= k < |circles| ==> fresh(circles[k])
      ensures lastCollisionAt == if old(spawnedTotal) < TOTAL_ELEMENTS then map[] else old(lastCollisionAt)
    {
      if spawnedTotal >= TOTAL_ELEMENTS {
        assert circles[..|circles|] == circles;
      } else {
        var remaining := TOTAL_ELEMENTS - spawnedTotal;
        var count := Min(PER_LEVEL, remaining);
        var spd := LevelSpeed(level);
        if level < TOTAL_LEVELS {
          LevelSpeedRamp(level, TOTAL_LEVELS);
        }
        assert 0.0 <= spd <= LevelSpeed(TOTAL_LEVELS);
        SpawnBatch(count, spd, rng, height);
        spawnedTotal := spawnedTotal + count;
        lastCollisionAt := map[];
      }
      Establish();
    }

    /** The spawning loop of a batch: `count` new circles at the given speed,
        with the ids nextId, nextId + 1, ..., each from the draw for its id,
        appended in id order. */
    method SpawnBatch(count: nat, spd: real, rng: int -> SpawnDraw, height: real)
      requires Increasing(IdsOf(circles)) && IdsIn(circles, 1, nextId) && AllValid(circles)
      requires 1 <= nextId && 0.0 <= spd <= LevelSpeed(TOTAL_LEVELS)
      modifies this`circles, this`nextId
      ensures nextId == old(nextId) + count
      ensures Appended(old(circles), old(nextId), count, spd, rng, height)
      ensures forall k :: |old(circles)| <= k < |circles| ==> fresh(circles[k])
      ensures Increasing(IdsOf(circles)) && IdsIn(circles, 1, nextId) && AllValid(circles)
    {
      ghost var before := circles;
      ghost var firstId := nextId;
      assert circles[..|before|] == before;
      for i := 0 to count
        invariant |circles| == |before| + i && nextId == firstId + i
        invariant circles[..|before|] == before
        invariant forall k :: |before| <= k < |circles| ==> fresh(circles[k])
        invariant SpawnedFrom(circles, |before|, firstId, spd, rng, height)
        invariant Increasing(IdsOf(circles)) && IdsIn(circles, 1, nextId) && AllValid(circles)
      {
        SpawnOne(before, firstId, spd, rng, height);
      }
    }

    /** One iteration of the spawning loop: append the circle for the next
        id, drawn for that id, and move nextId on. */
    method SpawnOne(ghost before: seq<Circle>, ghost firstId: int, spd: real, rng: int -> SpawnDraw, height: real)
      requires |before| <= |circles| && circles[..|before|] == before
      requires nextId == firstId + (|circles| - |before|)
      requires SpawnedFrom(circles, |before|, firstId, spd, rng, height)
      requires Increasing(IdsOf(circles)) && IdsIn(circles, 1, nextId) && AllValid(circles)
      requires 1 <= nextId && 0.0 <= spd <= LevelSpeed(TOTAL_LEVELS)
      modifies this`circles, this`nextId
      ensures |circles| == |old(circles)| + 1 && nextId == old(nextId) + 1
      ensures circles[..|old(circles)|] == old(circles) && fresh(circles[|old(circles)|])
      ensures circles[..|before|] == before
      ensures SpawnedFrom(circles, |before|, firstId, spd, rng, height)
      ensures Increasing(IdsOf(circles)) && IdsIn(circles, 1, nextId) && AllValid(circles)
    {
      var d := rng(nextId);
      var c := new Circle(nextId, d.x, height + d.yOffset, d.radius, spd, d.ux, d.uy);
      Extend(circles, c, |before|, firstId, spd, rng, height);
      assert (circles + [c])[..|before|] == before;
      assert (circles + [c])[..|circles|] == circles;
      circles := circles + [c];
      nextId := nextId + 1;
    }

    /** Start a new session: no circles, level 1, all counters zero, ids
        from 1 again, nothing hovered, an empty cooldown table; then the first
        batch. */
    method ResetGame(rng: int -> SpawnDraw, height: real)
      modifies this
      ensures Valid()
      ensures currentLevel == 1 && spawnedTotal == PER_LEVEL && nextId == PER_LEVEL + 1
      ensures killedTotal == 0 && escapedTotal == 0 && hoverId == None && lastCollisionAt == map[]
      ensures Appended([], 1, PER_LEVEL, LevelSpeed(1), rng, height)
      ensures forall k :: 0 <= k < |circles| ==> fresh(circles[k])
    {
      circles := [];
      currentLevel := 1;
      injectedLevelUpTo := 1;
      spawnedTotal := 0;
      killedTotal := 0;
      escapedTotal := 0;
      hoverId := None;
      nextId := 1;
      lastCollisionAt := map[];
      AddBatchForLevel(1, rng, height);
    }

    /** Mix in the next level once at most MIX_AT circles are live and budget
        remains: the level goes up by one and its batch is appended to the
        survivors. Otherwise nothing changes. Afterwards the board is empty
        only when the whole budget has been spawned. */
    method MixNextLevelIfNeeded(rng: int -> SpawnDraw, height: real) returns (advanced: bool)
      requires Valid()
      modifies this`circles, this`spawnedTotal, this`nextId, this`lastCollisionAt,
               this`currentLevel, this`injectedLevelUpTo
      ensures Valid()
      ensures advanced <==> old(spawnedTotal) < TOTAL_ELEMENTS && |old(circles)| <= MIX_AT
      ensures advanced ==>
                && currentLevel == old(currentLevel) + 1
                && spawnedTotal == old(spawnedTotal) + BatchCount(old(spawnedTotal), PER_LEVEL, TOTAL_ELEMENTS)
                && Appended(old(circles), old(nextId), BatchCount(old(spawnedTotal), PER_LEVEL, TOTAL_ELEMENTS),
                            LevelSpeed(currentLevel), rng, height)
                && lastCollisionAt == map[]
      ensures forall k :: |old(circles)| <= k < |circles| ==> fresh(circles[k])
      ensures !advanced ==>
                && circles == old(circles) && currentLevel == old(currentLevel)
                && spawnedTotal == old(spawnedTotal) && lastCollisionAt == old(lastCollisionAt)
                && nextId == old(nextId)
      ensures |circles| == 0 ==> spawnedTotal == TOTAL_ELEMENTS
    {
      if spawnedTotal >= TOTAL_ELEMENTS {
        return false;
      }
      if injectedLevelUpTo != currentLevel {
        return false;
      }
      if |circles| <= MIX_AT {
        AdvanceKeepsSpawnedBy(currentLevel, PER_LEVEL, TOTAL_ELEMENTS);
        var nextLevel := NextLevel(currentLevel, TOTAL_LEVELS);
        currentLevel := nextLevel;
        injectedLevelUpTo := nextLevel;
        AddBatchForLevel(nextLevel, rng, height);
        return true;
      }
      return false;
    }

    /** The empty-board failsafe: when no circle is live and budget remains,
        move up a level and spawn its batch. Otherwise nothing changes. */
    method Failsafe(rng: int -> SpawnDraw, height: real) returns (fired: bool)
      requires Valid()
      modifies this`circles, this`spawnedTotal, this`nextId, this`lastCollisionAt,
               this`currentLevel, this`injectedLevelUpTo
      ensures Valid()
      ensures fired <==> |old(circles)| == 0 && old(spawnedTotal) < TOTAL_ELEMENTS
      ensures fired ==>
                && currentLevel == old(currentLevel) + 1
                && spawnedTotal == old(spawnedTotal) + BatchCount(old(spawnedTotal), PER_LEVEL, TOTAL_ELEMENTS)
                && Appended(old(circles), old(nextId), BatchCount(old(spawnedTotal), PER_LEVEL, TOTAL_ELEMENTS),
                            LevelSpeed(currentLevel), rng, height)
                && lastCollisionAt == map[]
      ensures forall k :: |old(circles)| <= k < |circles| ==> fresh(circles[k])
      ensures !fired ==>
                && circles == old(circles) && currentLevel == old(currentLevel)
                && spawnedTotal == old(spawnedTotal) && lastCollisionAt == old(lastCollisionAt)
                && nextId == old(nextId)
    {
      if |circles| == 0 && spawnedTotal < TOTAL_ELEMENTS {
        AdvanceKeepsSpawnedBy(currentLevel, PER_LEVEL, TOTAL_ELEMENTS);
        var nextLevel := NextLevel(currentLevel, TOTAL_LEVELS);
        currentLevel := nextLevel;
        injectedLevelUpTo := nextLevel;
        AddBatchForLevel(nextLevel, rng, height);
        return true;
      }
      return false;
    }

    /** Every frame starts with all collision flags cleared. */
    method ResetFlags()
      requires Consistent()
      modifies circles
      ensures Consistent()
      ensures forall k :: 0 <= k < |circles| ==> circles[k].View() == old(circles[k].View()).(colliding := false)
    {
      ghost var v0 := ViewsOf(circles);
      DistinctIds(circles);
      for i := 0 to |circles|
        invariant forall k :: 0 <= k < i ==> circles[k].View() == v0[k].(colliding := false)
        invariant forall k :: i <= k < |circles| ==> circles[k].View() == v0[k]
      {
        circles[i].isColliding := false;
      }
      AllValidKeeps(circles, v0);
    }

    /** The circles' states, the cooldown table and the pairs resolved so
        far: what the all-pairs pass works on. */
    ghost function Snapshot(resolved: seq<(nat, nat)>): (st: PassState)
      reads this, circles
      ensures |st.views| == |circles|
    {
      PassState(ViewsOf(circles), lastCollisionAt, resolved)
    }

    /** One pair of the pass: when the circles at i and j overlap, the pair
        goes to the resolver, and when it is also out of its cooldown window
        its time is stamped and both flags are set. */
    method VisitPair(ghost before: PassState, ghost ids: seq<int>, overlap: (nat, nat) -> bool, now: real,
                     i: nat, j: nat, resolved: seq<(nat, nat)>) returns (resolved': seq<(nat, nat)>)
      requires Snapshot(resolved) == before
      requires ids == IdsOf(circles) && Increasing(ids) && i < j < |circles|
      modifies this`lastCollisionAt, circles[i], circles[j]
      ensures Snapshot(resolved') == Visit(before, ids, overlap, now, i, j)
    {
      ghost var vs := ViewsOf(circles);
      var a, b := circles[i], circles[j];
      resolved' := resolved;
      if overlap(i, j) {
        var key := KeyOf(a.id, b.id);
        var last := LastAt(lastCollisionAt, key);
        if now - last >= COLLISION_COOLDOWN_MS {
          DistinctIds(circles);
          lastCollisionAt := lastCollisionAt[key := now];
          a.isColliding := true;
          b.isColliding := true;
          assert ViewsOf(circles) == Mark(vs, i, j);
        }
        resolved' := resolved + [(i, j)];
      }
    }

    /** Row i of the pass: the pairs (i, j) for j = i + 1, i + 2, ... */
    method PassRow(ghost before: PassState, ghost ids: seq<int>, overlap: (nat, nat) -> bool, now: real, i: nat,
                   resolved: seq<(nat, nat)>) returns (resolved': seq<(nat, nat)>)
      requires Snapshot(resolved) == before
      requires ids == IdsOf(circles) && Increasing(ids) && i < |circles|
      modifies this`lastCollisionAt, circles
      ensures Snapshot(resolved') == Row(before, ids, overlap, now, i, |circles|)
    {
      var n := |circles|;
      resolved' := resolved;
      for j := i + 1 to n
        invariant Snapshot(resolved') == Row(before, ids, overlap, now, i, j)
      {
        ghost var cur := Row(before, ids, overlap, now, i, j);
        RowNext(before, ids, overlap, now, i, j);
        resolved' := VisitPair(cur, ids, overlap, now, i, j, resolved');
      }
    }

    /** The rows of the pass, i = 0, 1, ..., from its start to its end. */
    method PassRows(ghost before: PassState, ghost ids: seq<int>, overlap: (nat, nat) -> bool, now: real)
      returns (resolved: seq<(nat, nat)>)
      requires Snapshot([]) == before
      requires ids == IdsOf(circles) && Increasing(ids)
      modifies this`lastCollisionAt, circles
      ensures Snapshot(resolved) == Rows(before, ids, overlap, now, |circles|)
    {
      var n := |circles|;
      resolved := [];
      for i := 0 to n
        invariant Snapshot(resolved) == Rows(before, ids, overlap, now, i)
      {
        ghost var cur := Rows(before, ids, overlap, now, i);
        RowsNext(before, ids, overlap, now, i);
        resolved := PassRow(cur, ids, overlap, now, i, resolved);
      }
    }

    /** The all-pairs pass, pair (i, j) for i < j in lexicographic order:
        every overlapping pair goes to the resolver; one outside its cooldown
        window also has its time stamped with `now` and both flags set. What
        it leaves is the pass function Rows run from the state before the
        pass, whose outcome PassResult describes. */
    method CollisionPass(overlap: (nat, nat) -> bool, now: real) returns (resolved: seq<(nat, nat)>)
      requires Consistent()
      modifies this`lastCollisionAt, circles
      ensures Consistent()
      ensures Snapshot(resolved) ==
                Rows(PassState(old(ViewsOf(circles)), old(lastCollisionAt), []), IdsOf(circles), overlap, now, |circles|)
    {
      ghost var ids := IdsOf(circles);
      ghost var v0 := ViewsOf(circles);
      ghost var t0 := lastCollisionAt;
      assert forall k :: 0 <= k < |v0| ==> ValidView(v0[k]);
      resolved := PassRows(PassState(v0, t0, []), ids, overlap, now);
      PassResult(ids, t0, v0, overlap, now);
      PassKeepsValid(circles, v0);
      Establish();
    }

    /** Circles that differ from valid states only in their collision flags
        are valid. */
    static lemma PassKeepsValid(cs: seq<Circle>, v0: seq<CircleView>)
      requires |cs| == |v0|
      requires forall k :: 0 <= k < |v0| ==> ValidView(v0[k])
      requires forall k :: 0 <= k < |v0| ==> ViewsOf(cs)[k].(colliding := v0[k].colliding) == v0[k]
      ensures AllValid(cs)
    {
      forall k | 0 <= k < |cs|
        ensures 0 <= cs[k].View().alpha <= v0[k].alpha
      {
        assert ViewsOf(cs)[k].(colliding := v0[k].colliding) == v0[k];
      }
      AllValidKeeps(cs, v0);
    }

    /** Where the removal loop stands at position i, walking down over the
        circles `start`, whose states before the frame are `views`, whose
        updates report `fates` and leave the states `updated`: the array holds
        the untouched front start[..i] followed by the survivors of
        start[i..], each circle taken out of start[i..] is counted once, and
        only the circles from i on have been updated. */
    ghost predicate RemovalAt(start: seq<Circle>, views: seq<CircleView>, fates: seq<Fate>, updated: seq<CircleView>,
                              killed0: nat, escaped0: nat, i: nat)
      reads this, start
    {
      && |start| == |views| == |fates| == |updated| && i <= |start|
      && circles == start[..i] + Keep(start[i..], fates[i..])
      && killedTotal == killed0 + Count(fates[i..], Killed)
      && escapedTotal == escaped0 + Count(fates[i..], Escaped)
      && (forall k :: 0 <= k < i ==> start[k].View() == views[k])
      && (forall k :: i <= k < |start| ==> start[k].View() == updated[k])
    }

    /** One iteration of the removal loop: update the circle at i and take
        it out, counting it, unless its update reported it alive. */
    method RemoveStep(ghost start: seq<Circle>, ghost views: seq<CircleView>, ghost fates: seq<Fate>, ghost updated: seq<CircleView>,
                      ghost killed0: nat, ghost escaped0: nat, i: nat, width: real)
      requires RemovalAt(start, views, fates, updated, killed0, escaped0, i + 1)
      requires Stepped(updated[i], fates[i]) == Advance(views[i], width) && ValidView(views[i])
      requires forall k :: 0 <= k < |start| && k != i ==> start[k] != start[i]
      modifies this`circles, this`killedTotal, this`escapedTotal, start[i]
      ensures RemovalAt(start, views, fates, updated, killed0, escaped0, i)
    {
      KeepStep(start, fates, i);
      KeepFrom(start, fates, i);
      var c := circles[i];
      var fate := c.Update(width);
      assert fate == fates[i] && c.View() == updated[i];
      if fate != Alive {
        circles := circles[..i] + circles[i + 1..];
        if fate == Killed {
          killedTotal := killedTotal + 1;
        }
        if fate == Escaped {
          escapedTotal := escapedTotal + 1;
        }
      }
    }

    /** Update every circle, from the last to the first, and take out the
        ones whose update reported them killed or escaped, counting each.
        The survivors keep their order. */
    method UpdateAndRemove(width: real)
      requires Consistent()
      modifies this`circles, this`killedTotal, this`escapedTotal, circles
      ensures Consistent()
      ensures var fates := Fates(old(ViewsOf(circles)), width);
              && circles == Keep(old(circles), fates)
              && killedTotal == old(killedTotal) + Count(fates, Killed)
              && escapedTotal == old(escapedTotal) + Count(fates, Escaped)
      ensures ViewsOf(old(circles)) == Advanced(old(ViewsOf(circles)), width)
    {
      ghost var start := circles;
      ghost var views := ViewsOf(circles);
      ghost var fates := Fates(views, width);
      ghost var updated := Advanced(views, width);
      ghost var n := nextId;
      assert Increasing(IdsOf(start)) && IdsIn(start, 1, n);
      assert forall k :: 0 <= k < |views| ==> ValidView(views[k]);
      assert start[|start|..] == [] && fates[|start|..] == [];
      assert start[..|start|] == start;
      var i := |circles|;
      DistinctIds(start);
      while i > 0
        invariant 0 <= i <= |start|
        invariant RemovalAt(start, views, fates, updated, old(killedTotal), old(escapedTotal), i)
        invariant nextId == n && spawnedTotal == old(spawnedTotal)
      {
        i := i - 1;
        assert Stepped(updated[i], fates[i]) == Advance(views[i], width);
        RemoveStep(start, views, fates, updated, old(killedTotal), old(escapedTotal), i, width);
      }
      AdvancedValid(views, updated, width);
      ViewsValid(start, updated);
      Survivors(start, fates, n);
      Establish();
    }

    /** Updating valid circles leaves them valid. */
    static lemma AdvancedValid(views: seq<CircleView>, updated: seq<CircleView>, width: real)
      requires updated == Advanced(views, width)
      requires forall k :: 0 <= k < |views| ==> ValidView(views[k])
      ensures forall k :: 0 <= k < |updated| ==> ValidView(updated[k])
    {
      forall k | 0 <= k < |updated|
        ensures ValidView(updated[k])
      {
        ValidViewKeeps(views[k], updated[k]);
      }
    }

    /** Circles whose states are `updated`, all valid, are valid and show those states. */
    static lemma ViewsValid(start: seq<Circle>, updated: seq<CircleView>)
      requires |start| == |updated|
      requires forall k :: 0 <= k < |start| ==> start[k].View() == updated[k]
      requires forall k :: 0 <= k < |updated| ==> ValidView(updated[k])
      ensures ViewsOf(start) == updated && AllValid(start)
    {
      assert ViewsOf(start) == updated;
    }

    /** What the removal loop leaves is consistent again: it is the
        survivors, which are valid, whose ids still increase and stay below
        `nextId`, and each circle taken out is counted once. */
    static lemma Survivors(start: seq<Circle>, fates: seq<Fate>, nextId: int)
      requires |start| == |fates|
      requires Increasing(IdsOf(start)) && IdsIn(start, 1, nextId) && AllValid(start)
      ensures start[..0] + Keep(start[0..], fates[0..]) == Keep(start, fates) && fates[0..] == fates
      ensures |Keep(start, fates)| + Count(fates, Killed) + Count(fates, Escaped) == |start|
      ensures Increasing(IdsOf(Keep(start, fates))) && IdsIn(Keep(start, fates), 1, nextId) && AllValid(Keep(start, fates))
    {
      assert start[0..] == start && start[..0] == [];
      KeepAccounting(start, fates);
      KeepPicksAlive(start, fates);
      AliveAtSound(fates);
      var at := AliveAt(fates);
      var kept := Keep(start, fates);
      forall t | 0 <= t < |kept|
        ensures 1 <= kept[t].id < nextId && kept[t].Valid()
      {
        assert kept[t] == start[at[t]];
      }
      forall x, y | 0 <= x < y < |kept|
        ensures IdsOf(kept)[x] < IdsOf(kept)[y]
      {
        assert kept[x] == start[at[x]] && kept[y] == start[at[y]];
        assert IdsOf(start)[at[x]] < IdsOf(start)[at[y]];
      }
    }

    /** The circle half of a frame: clear the flags, run the collision pass,
        then update and remove. Every overlapping pair of the circles live at
        the start goes to the resolver; the survivors are the circles whose
        update reported them alive, in order, and the others are counted as
        killed or escaped; each old circle ends up with its state updated
        from a flag set exactly when the pass stamped one of its pairs. */
    method StepCircles(now: real, overlap: (nat, nat) -> bool, width: real) returns (resolved: seq<(nat, nat)>)
      requires Consistent()
      modifies this`circles, this`killedTotal, this`escapedTotal, this`lastCollisionAt, circles
      ensures Consistent()
      ensures var fates := Fates(old(ViewsOf(circles)), width);
              && circles == Keep(old(circles), fates)
              && killedTotal == old(killedTotal) + Count(fates, Killed)
              && escapedTotal == old(escapedTotal) + Count(fates, Escaped)
      ensures ViewsOf(old(circles)) ==
                Advanced(PassViews(old(ViewsOf(circles)), IdsOf(old(circles)), old(lastCollisionAt), overlap, now), width)
      ensures forall p :: p in resolved <==> p.0 < p.1 < |old(circles)| && overlap(p.0, p.1)
      ensures InPassOrder(resolved)
      ensures TableAt(lastCollisionAt, IdsOf(old(circles)), old(lastCollisionAt), overlap, now, |old(circles)|, 0)
      ensures forall c :: c in circles ==> c in old(circles)
    {
      ghost var start, v0 := circles, ViewsOf(circles);
      resolved := ClearAndPass(overlap, now);
      ghost var after := ViewsOf(circles);
      FatesIgnoreFlags(v0, after, width);
      UpdateAndRemove(width);
      assert circles == Keep(start, Fates(after, width));
      KeptAreFrom(start, Fates(after, width));
    }

    /** Clear the flags, then run the pass: every circle's state is the old
        one with its flag set exactly when the pass stamped one of its
        pairs. */
    method ClearAndPass(overlap: (nat, nat) -> bool, now: real) returns (resolved: seq<(nat, nat)>)
      requires Consistent()
      modifies this`lastCollisionAt, circles
      ensures Consistent()
      ensures ViewsOf(circles) == PassViews(old(ViewsOf(circles)), IdsOf(circles), old(lastCollisionAt), overlap, now)
      ensures forall p :: p in resolved <==> p.0 < p.1 < |circles| && overlap(p.0, p.1)
      ensures InPassOrder(resolved)
      ensures TableAt(lastCollisionAt, IdsOf(circles), old(lastCollisionAt), overlap, now, |circles|, 0)
    {
      ghost var v0 := ViewsOf(circles);
      ResetFlags();
      ghost var ids, t0, cleared := IdsOf(circles), lastCollisionAt, ViewsOf(circles);
      resolved := CollisionPass(overlap, now);
      PassResult(ids, t0, cleared, overlap, now);
      ghost var after := ViewsOf(circles);
      assert after == Rows(PassState(cleared, t0, []), ids, overlap, now, |ids|).views;
      ClearedPass(v0, cleared, after, ids, t0, overlap, now);
    }

    /** A pass that starts from the states `v0` with their flags cleared
        leaves the states PassViews describes. */
    static lemma ClearedPass(v0: seq<CircleView>, cleared: seq<CircleView>, after: seq<CircleView>,
                             ids: seq<int>, t0: Table, overlap: (nat, nat) -> bool, now: real)
      requires |v0| == |cleared| == |after| == |ids|
      requires forall k :: 0 <= k < |v0| ==> cleared[k] == v0[k].(colliding := false)
      requires forall k :: 0 <= k < |v0| ==> after[k].(colliding := cleared[k].colliding) == cleared[k]
      requires forall k :: 0 <= k < |v0| ==>
                 after[k].colliding == (cleared[k].colliding || Flagged(ids, t0, overlap, now, k, |ids|, 0))
      ensures after == PassViews(v0, ids, t0, overlap, now)
    {
    }

    /** The spawning half of a frame: the level mix, then the empty-board
        failsafe. When the mix fires, the next level's batch follows the
        survivors and the cooldown table is cleared; otherwise nothing
        changes, because the failsafe never fires: the mix has already
        refilled an empty board while budget remains. */
    method Refill(rng: int -> SpawnDraw, height: real) returns (mixed: bool, fired: bool)
      requires Valid()
      modifies this`circles, this`spawnedTotal, this`nextId, this`lastCollisionAt,
               this`currentLevel, this`injectedLevelUpTo
      ensures Valid()
      ensures mixed <==> old(spawnedTotal) < TOTAL_ELEMENTS && |old(circles)| <= MIX_AT
      ensures currentLevel == old(currentLevel) + (if mixed then 1 else 0)
      ensures mixed ==>
                var count := BatchCount(old(spawnedTotal), PER_LEVEL, TOTAL_ELEMENTS);
                && spawnedTotal == old(spawnedTotal) + count
                && Appended(old(circles), old(nextId), count, LevelSpeed(currentLevel), rng, height)
                && lastCollisionAt == map[]
      ensures !mixed ==>
                && circles == old(circles) && spawnedTotal == old(spawnedTotal)
                && nextId == old(nextId) && lastCollisionAt == old(lastCollisionAt)
      ensures forall k :: |old(circles)| <= k < |circles| ==> fresh(circles[k])
      ensures forall c :: c in circles ==> c in old(circles) || fresh(c)
      ensures !fired
      ensures |circles| == 0 ==> spawnedTotal == TOTAL_ELEMENTS
    {
      mixed := MixNextLevelIfNeeded(rng, height);
      fired := Failsafe(rng, height);
    }

    /** One unpaused frame: the circle half, then the spawning half. The
        board afterwards is the survivors of the update, followed by the next
        level's batch when the mix fired; the cooldown table is cleared when
        it fired and is the pass's table otherwise. */
    method Animate(now: real, overlap: (nat, nat) -> bool, width: real, height: real,
                   rng: int -> SpawnDraw) returns (ev: FrameEvents)
      requires Valid()
      modifies this, circles
      ensures Valid()
      ensures var fates := Fates(old(ViewsOf(circles)), width);
              var kept := Keep(old(circles), fates);
              && killedTotal == old(killedTotal) + Count(fates, Killed)
              && escapedTotal == old(escapedTotal) + Count(fates, Escaped)
              && (ev.mixed <==> old(spawnedTotal) < TOTAL_ELEMENTS && |kept| <= MIX_AT)
              && (ev.mixed ==>
                    var count := BatchCount(old(spawnedTotal), PER_LEVEL, TOTAL_ELEMENTS);
                    && spawnedTotal == old(spawnedTotal) + count
                    && Appended(kept, old(nextId), count, LevelSpeed(currentLevel), rng, height)
                    && lastCollisionAt == map[])
              && (!ev.mixed ==>
                    && circles == kept && spawnedTotal == old(spawnedTotal) && nextId == old(nextId)
                    && TableAt(lastCollisionAt, IdsOf(old(circles)), old(lastCollisionAt), overlap, now, |old(circles)|, 0))
      ensures currentLevel == old(currentLevel) + (if ev.mixed then 1 else 0)
      ensures ViewsOf(old(circles)) ==
                Advanced(PassViews(old(ViewsOf(circles)), IdsOf(old(circles)), old(lastCollisionAt), overlap, now), width)
      ensures forall p :: p in ev.resolved <==> p.0 < p.1 < |old(circles)| && overlap(p.0, p.1)
      ensures InPassOrder(ev.resolved)
      ensures forall k :: 0 <= k < |circles| ==> circles[k] in old(circles) || fresh(circles[k])
      ensures !ev.failsafe
      ensures |circles| == 0 ==> killedTotal + escapedTotal == spawnedTotal == TOTAL_ELEMENTS
      ensures hoverId == old(hoverId)
    {
      ghost var start := circles;
      var resolved := StepCircles(now, overlap, width);
      ghost var stepped, killed, escaped := ViewsOf(start), killedTotal, escapedTotal;
      var mixed, fired := Refill(rng, height);
      assert ViewsOf(start) == stepped;
      assert killedTotal == killed && escapedTotal == escaped;
      assert killedTotal + escapedTotal + |circles| == spawnedTotal;
      ev := FrameEvents(resolved, mixed, fired);
    }

    /** The pointer moved to (px, py): the hovered circle is the last one in
        array order that is visible and contains the point. */
    method PointerMove(px: real, py: real)
      modifies this`hoverId
      ensures hoverId == HoverId(ViewsOf(circles), px, py)
    {
      ghost var vs := ViewsOf(circles);
      hoverId := None;
      var i := |circles|;
      while i > 0
        invariant 0 <= i <= |circles|
        invariant hoverId == None
        invariant forall k :: i <= k < |circles| ==> !Hoverable(vs[k], px, py)
      {
        i := i - 1;
        var c := circles[i];
        if c.alpha > 0 && c.Contains(px, py) {
          assert Hoverable(vs[i], px, py);
          hoverId := Some(c.id);
          return;
        }
      }
    }

    /** The pointer left the canvas: nothing is hovered. */
    method PointerLeave()
      modifies this`hoverId
      ensures hoverId == None
    {
      hoverId := None;
    }

    /** Position of the first circle with the given id, if any. */
    method FindById(id: int) returns (idx: Option<nat>)
      ensures idx.Some? ==> idx.value < |circles| && circles[idx.value].id == id
      ensures idx.Some? ==> forall k :: 0 <= k < idx.value ==> circles[k].id != id
      ensures idx.None? ==> forall k :: 0 <= k < |circles| ==> circles[k].id != id
    {
      for i := 0 to |circles|
        invariant forall k :: 0 <= k < i ==> circles[k].id != id
      {
        if circles[i].id == id {
          return Some(i);
        }
      }
      return None;
    }

    /** A click starts the fade of the hovered circle, if it is still live,
        and changes nothing else. */
    method Click()
      requires Consistent()
      modifies circles
      ensures Consistent()
      ensures forall k :: 0 <= k < |circles| ==>
                circles[k].View() ==
                  if hoverId == Some(circles[k].id) then old(circles[k].View()).(fading := true)
                  else old(circles[k].View())
    {
      ghost var v0 := ViewsOf(circles);
      // an id of 0 reads as "nothing hovered"; live ids start at 1
      if hoverId.None? || hoverId.value == 0 {
        return;
      }
      var idx := FindById(hoverId.value);
      if idx.Some? {
        DistinctIds(circles);
        circles[idx.value].StartFade();
        AllValidKeeps(circles, v0);
      }
    }
  }
}
