/** The all-pairs collision pass of one frame, on the circles' states: which
    flags are set and which pairs have gone to the resolver by the time the
    pass reaches pair (i, j). The cooldown table's side is in module
    Cooldown. */
module Pass {
  import opened Circles
  import opened Cooldown

  /** Pairs listed in the order the pass visits them. */
  predicate InPassOrder(resolved: seq<(nat, nat)>)
  {
    forall x, y :: 0 <= x < y < |resolved| ==>
      Before(resolved[x].0, resolved[x].1, resolved[y].0, resolved[y].1)
  }

  /** The circle states vs when the pass started from v0 reaches (i, j):
      each flag is its old value or-ed with "recorded in a visited pair". */
  ghost predicate FlagsAt(vs: seq<CircleView>, v0: seq<CircleView>, ids: seq<int>, t0: Table,
                          overlap: (nat, nat) -> bool, now: real, i: nat, j: nat)
  {
    && |vs| == |v0| == |ids|
    && forall k :: 0 <= k < |vs| ==>
         vs[k] == v0[k].(colliding := v0[k].colliding || Flagged(ids, t0, overlap, now, k, i, j))
  }

  /** `resolved` lists, in visiting order, exactly the overlapping pairs of
      n circles the pass has visited before (i, j). */
  ghost predicate ResolvedAt(resolved: seq<(nat, nat)>, n: nat, overlap: (nat, nat) -> bool, i: nat, j: nat)
  {
    && (forall p: (nat, nat) :: p in resolved <==> p.0 < p.1 < n && Before(p.0, p.1, i, j) && overlap(p.0, p.1))
    && InPassOrder(resolved)
  }

  /** Both circles of pair (i, j) flagged. */
  function Mark(vs: seq<CircleView>, i: nat, j: nat): (ws: seq<CircleView>)
    requires i < |vs| && j < |vs|
    ensures |ws| == |vs|
    ensures forall k :: 0 <= k < |vs| ==>
              ws[k] == if k == i || k == j then vs[k].(colliding := true) else vs[k]
  {
    vs[i := vs[i].(colliding := true)][j := vs[j].(colliding := true)]
  }

  /** Visiting pair (i, j) flags its two circles exactly when the pair is
      recorded. */
  lemma FlagsAtStep(vs: seq<CircleView>, v0: seq<CircleView>, ids: seq<int>, t0: Table,
                    overlap: (nat, nat) -> bool, now: real, i: nat, j: nat)
    requires FlagsAt(vs, v0, ids, t0, overlap, now, i, j) && i < j < |ids|
    ensures FlagsAt(if Opens(ids, t0, overlap, now, i, j) then Mark(vs, i, j) else vs,
                    v0, ids, t0, overlap, now, i, j + 1)
  {
    forall k: nat | k < |ids|
      ensures Flagged(ids, t0, overlap, now, k, i, j + 1) <==>
              Flagged(ids, t0, overlap, now, k, i, j) || (Opens(ids, t0, overlap, now, i, j) && (k == i || k == j))
    {
      FlagStep(ids, t0, overlap, now, i, j, k);
    }
  }

  /** Visiting pair (i, j) adds it to the resolved list exactly when the two
      circles overlap, and the list stays in visiting order. */
  lemma ResolvedStep(resolved: seq<(nat, nat)>, n: nat, overlap: (nat, nat) -> bool, i: nat, j: nat)
    requires ResolvedAt(resolved, n, overlap, i, j) && i < j < n
    ensures ResolvedAt(if overlap(i, j) then resolved + [(i, j)] else resolved, n, overlap, i, j + 1)
  {
    var r := if overlap(i, j) then resolved + [(i, j)] else resolved;
    forall x | 0 <= x < |resolved|
      ensures Before(resolved[x].0, resolved[x].1, i, j)
    {
      assert resolved[x] in resolved;
    }
    forall p: (nat, nat)
      ensures p in r <==> p.0 < p.1 < n && Before(p.0, p.1, i, j + 1) && overlap(p.0, p.1)
    {
      assert Before(p.0, p.1, i, j + 1) <==> Before(p.0, p.1, i, j) || p == (i, j);
    }
  }

  /** What the pass works on: the circles' states, the cooldown table, and
      the pairs handed to the resolver so far, in order. */
  datatype PassState = PassState(views: seq<CircleView>, table: Table, resolved: seq<(nat, nat)>)

  /** Pair (i, j) of the pass, ids being the circles' ids: when the two
      circles overlap the pair goes to the resolver, and when also the pair's
      cooldown window has passed in the current table, its key is stamped
      with `now` and both circles are flagged. */
  function Visit(st: PassState, ids: seq<int>, overlap: (nat, nat) -> bool, now: real, i: nat, j: nat): (r: PassState)
    requires i < j < |st.views| && |ids| == |st.views|
    ensures |r.views| == |st.views|
  {
    if !overlap(i, j) then st
    else
      var key := KeyOf(ids[i], ids[j]);
      if GateOpen(st.table, key, now) then
        PassState(Mark(st.views, i, j), st.table[key := now], st.resolved + [(i, j)])
      else
        st.(resolved := st.resolved + [(i, j)])
  }

  /** Row i of the pass from the state st, up to (not including) pair
      (i, j): the pairs (i, i + 1), ..., (i, j - 1) in turn. */
  function Row(st: PassState, ids: seq<int>, overlap: (nat, nat) -> bool, now: real, i: nat, j: nat): (r: PassState)
    requires i < j <= |st.views| && |ids| == |st.views|
    ensures |r.views| == |st.views|
    decreases j
  {
    if j == i + 1 then st
    else Visit(Row(st, ids, overlap, now, i, j - 1), ids, overlap, now, i, j - 1)
  }

  /** The first i rows of the pass from the state st. */
  function Rows(st: PassState, ids: seq<int>, overlap: (nat, nat) -> bool, now: real, i: nat): (r: PassState)
    requires i <= |st.views| && |ids| == |st.views|
    ensures |r.views| == |st.views|
  {
    if i == 0 then st
    else Row(Rows(st, ids, overlap, now, i - 1), ids, overlap, now, i - 1, |st.views|)
  }

  /** Row i one pair further is one more visit. */
  lemma RowNext(st: PassState, ids: seq<int>, overlap: (nat, nat) -> bool, now: real, i: nat, j: nat)
    requires i < j < |st.views| && |ids| == |st.views|
    ensures Row(st, ids, overlap, now, i, j + 1) == Visit(Row(st, ids, overlap, now, i, j), ids, overlap, now, i, j)
  {
  }

  /** One row more is the next row run on the rows so far. */
  lemma RowsNext(st: PassState, ids: seq<int>, overlap: (nat, nat) -> bool, now: real, i: nat)
    requires i < |st.views| && |ids| == |st.views|
    ensures Rows(st, ids, overlap, now, i + 1) == Row(Rows(st, ids, overlap, now, i), ids, overlap, now, i, |st.views|)
  {
  }

  /** The table side of a visit: the key of pair (i, j) reads as it did
      before the pass, and stamping it exactly when the pair is recorded
      gives the table at (i, j + 1). */
  lemma VisitTable(table: Table, ids: seq<int>, t0: Table, overlap: (nat, nat) -> bool, now: real, i: nat, j: nat)
    requires Increasing(ids) && i < j < |ids|
    requires TableAt(table, ids, t0, overlap, now, i, j)
    ensures var key := KeyOf(ids[i], ids[j]);
            && (Opens(ids, t0, overlap, now, i, j) <==> overlap(i, j) && GateOpen(table, key, now))
            && TableAt(if Opens(ids, t0, overlap, now, i, j) then table[key := now] else table,
                       ids, t0, overlap, now, i, j + 1)
  {
    var key := KeyOf(ids[i], ids[j]);
    StampStep(ids, t0, overlap, now, i, j);
    assert KeyAt(table, key, ids, t0, overlap, now, i, j);
    var next := if Opens(ids, t0, overlap, now, i, j) then table[key := now] else table;
    var j' := j + 1;
    forall k
      ensures KeyAt(next, k, ids, t0, overlap, now, i, j')
    {
      assert KeyAt(table, k, ids, t0, overlap, now, i, j);
    }
  }

  /** A visit from the table the pass has built by (i, j) builds the table
      at (i, j + 1). */
  lemma VisitTableStep(st: PassState, ids: seq<int>, t0: Table, overlap: (nat, nat) -> bool, now: real, i: nat, j: nat)
    requires Increasing(ids) && i < j < |ids| == |st.views|
    requires TableAt(st.table, ids, t0, overlap, now, i, j)
    ensures TableAt(Visit(st, ids, overlap, now, i, j).table, ids, t0, overlap, now, i, j + 1)
  {
    VisitTable(st.table, ids, t0, overlap, now, i, j);
  }

  /** A visit from the table and the flags the pass has built by (i, j)
      sets the flags of (i, j + 1). */
  lemma VisitFlags(st: PassState, ids: seq<int>, t0: Table, v0: seq<CircleView>,
                   overlap: (nat, nat) -> bool, now: real, i: nat, j: nat)
    requires Increasing(ids) && i < j < |ids| == |st.views|
    requires TableAt(st.table, ids, t0, overlap, now, i, j)
    requires FlagsAt(st.views, v0, ids, t0, overlap, now, i, j)
    ensures FlagsAt(Visit(st, ids, overlap, now, i, j).views, v0, ids, t0, overlap, now, i, j + 1)
  {
    VisitTable(st.table, ids, t0, overlap, now, i, j);
    FlagsAtStep(st.views, v0, ids, t0, overlap, now, i, j);
  }

  /** Row i, from the closed-form table at its start, builds the closed-form
      table at (i, j). */
  lemma {:induction false} RowTable(st: PassState, ids: seq<int>, t0: Table,
                                    overlap: (nat, nat) -> bool, now: real, i: nat, j: nat)
    requires Increasing(ids) && |ids| == |st.views| && i < j <= |ids|
    requires TableAt(st.table, ids, t0, overlap, now, i, i + 1)
    ensures TableAt(Row(st, ids, overlap, now, i, j).table, ids, t0, overlap, now, i, j)
    decreases j
  {
    if j > i + 1 {
      RowTable(st, ids, t0, overlap, now, i, j - 1);
      VisitTableStep(Row(st, ids, overlap, now, i, j - 1), ids, t0, overlap, now, i, j - 1);
    }
  }

  /** Row i, from flags in closed form at its start, sets the flags the
      closed form gives at (i, j). */
  lemma {:induction false} RowFlags(st: PassState, ids: seq<int>, t0: Table, v0: seq<CircleView>,
                                    overlap: (nat, nat) -> bool, now: real, i: nat, j: nat)
    requires Increasing(ids) && |ids| == |st.views| && i < j <= |ids|
    requires TableAt(st.table, ids, t0, overlap, now, i, i + 1)
    requires FlagsAt(st.views, v0, ids, t0, overlap, now, i, i + 1)
    ensures FlagsAt(Row(st, ids, overlap, now, i, j).views, v0, ids, t0, overlap, now, i, j)
    decreases j
  {
    if j > i + 1 {
      RowFlags(st, ids, t0, v0, overlap, now, i, j - 1);
      RowTable(st, ids, t0, overlap, now, i, j - 1);
      RowFlagsStep(st, ids, t0, v0, overlap, now, i, j);
    }
  }

  /** One more pair of row i keeps the flags in closed form. */
  lemma RowFlagsStep(st: PassState, ids: seq<int>, t0: Table, v0: seq<CircleView>,
                     overlap: (nat, nat) -> bool, now: real, i: nat, j: nat)
    requires Increasing(ids) && |ids| == |st.views| && i + 1 < j <= |ids|
    requires TableAt(Row(st, ids, overlap, now, i, j - 1).table, ids, t0, overlap, now, i, j - 1)
    requires FlagsAt(Row(st, ids, overlap, now, i, j - 1).views, v0, ids, t0, overlap, now, i, j - 1)
    ensures FlagsAt(Row(st, ids, overlap, now, i, j).views, v0, ids, t0, overlap, now, i, j)
  {
    VisitFlags(Row(st, ids, overlap, now, i, j - 1), ids, t0, v0, overlap, now, i, j - 1);
  }

  /** Row i, from a resolved list in closed form at its start, resolves the
      pairs the closed form gives at (i, j). */
  lemma {:induction false} RowResolved(st: PassState, ids: seq<int>, overlap: (nat, nat) -> bool,
                                       now: real, i: nat, j: nat)
    requires |ids| == |st.views| && i < j <= |ids|
    requires ResolvedAt(st.resolved, |ids|, overlap, i, i + 1)
    ensures ResolvedAt(Row(st, ids, overlap, now, i, j).resolved, |ids|, overlap, i, j)
    decreases j
  {
    if j > i + 1 {
      var prev := Row(st, ids, overlap, now, i, j - 1);
      RowResolved(st, ids, overlap, now, i, j - 1);
      ResolvedStep(prev.resolved, |ids|, overlap, i, j - 1);
    }
  }

  /** Two positions of the pass that have visited the same pairs give the
      same resolved list. */
  lemma ResolvedSame(resolved: seq<(nat, nat)>, n: nat, overlap: (nat, nat) -> bool, i: nat, j: nat, i': nat, j': nat)
    requires forall a: nat, b: nat :: a < b < n ==> (Before(a, b, i, j) <==> Before(a, b, i', j'))
    requires ResolvedAt(resolved, n, overlap, i, j)
    ensures ResolvedAt(resolved, n, overlap, i', j')
  {
  }

  /** Two positions of the pass that have visited the same pairs have the
      same table. */
  lemma TableSame(table: Table, ids: seq<int>, t0: Table, overlap: (nat, nat) -> bool, now: real,
                  i: nat, j: nat, i': nat, j': nat)
    requires forall a: nat, b: nat :: a < b < |ids| ==> (Before(a, b, i, j) <==> Before(a, b, i', j'))
    requires TableAt(table, ids, t0, overlap, now, i, j)
    ensures TableAt(table, ids, t0, overlap, now, i', j')
  {
    SameProgress(ids, t0, overlap, now, i, j, i', j');
    forall key
      ensures KeyAt(table, key, ids, t0, overlap, now, i', j')
    {
      assert KeyAt(table, key, ids, t0, overlap, now, i, j);
    }
  }

  /** Two positions of the pass that have visited the same pairs have set
      the same flags. */
  lemma FlagsSame(vs: seq<CircleView>, v0: seq<CircleView>, ids: seq<int>, t0: Table,
                  overlap: (nat, nat) -> bool, now: real, i: nat, j: nat, i': nat, j': nat)
    requires forall a: nat, b: nat :: a < b < |ids| ==> (Before(a, b, i, j) <==> Before(a, b, i', j'))
    requires FlagsAt(vs, v0, ids, t0, overlap, now, i, j)
    ensures FlagsAt(vs, v0, ids, t0, overlap, now, i', j')
  {
    SameProgress(ids, t0, overlap, now, i, j, i', j');
  }

  /** The first i rows from the table t0 build the closed-form table at
      (i, 0). */
  lemma {:induction false} RowsTable(ids: seq<int>, t0: Table, v0: seq<CircleView>,
                                     overlap: (nat, nat) -> bool, now: real, i: nat)
    requires Increasing(ids) && |ids| == |v0| && i <= |ids|
    ensures TableAt(Rows(PassState(v0, t0, []), ids, overlap, now, i).table, ids, t0, overlap, now, i, 0)
  {
    if i == 0 {
      assert StampedKeys(ids, t0, overlap, now, 0, 0) == {};
    } else {
      var n := |ids|;
      var st := Rows(PassState(v0, t0, []), ids, overlap, now, i - 1);
      RowsTable(ids, t0, v0, overlap, now, i - 1);
      TableSame(st.table, ids, t0, overlap, now, i - 1, 0, i - 1, i);
      RowTable(st, ids, t0, overlap, now, i - 1, n);
      TableSame(Row(st, ids, overlap, now, i - 1, n).table, ids, t0, overlap, now, i - 1, n, i, 0);
    }
  }

  /** The first i rows from the states v0 set the flags the closed form
      gives at (i, 0). */
  lemma {:induction false} RowsFlags(ids: seq<int>, t0: Table, v0: seq<CircleView>,
                                     overlap: (nat, nat) -> bool, now: real, i: nat)
    requires Increasing(ids) && |ids| == |v0| && i <= |ids|
    ensures FlagsAt(Rows(PassState(v0, t0, []), ids, overlap, now, i).views, v0, ids, t0, overlap, now, i, 0)
  {
    if i == 0 {
      FlagsStart(ids, t0, v0, overlap, now);
    } else {
      RowsFlags(ids, t0, v0, overlap, now, i - 1);
      RowsTable(ids, t0, v0, overlap, now, i - 1);
      RowsFlagsStep(ids, t0, v0, overlap, now, i);
    }
  }

  /** Before the first pair no flag has been set by the pass. */
  lemma FlagsStart(ids: seq<int>, t0: Table, v0: seq<CircleView>, overlap: (nat, nat) -> bool, now: real)
    requires |ids| == |v0|
    ensures FlagsAt(v0, v0, ids, t0, overlap, now, 0, 0)
  {
    forall k | 0 <= k < |v0|
      ensures v0[k] == v0[k].(colliding := v0[k].colliding || Flagged(ids, t0, overlap, now, k, 0, 0))
    {
      assert !Flagged(ids, t0, overlap, now, k, 0, 0);
    }
  }

  /** Row i - 1 takes the flags in closed form at (i - 1, 0) to those at
      (i, 0). */
  lemma RowsFlagsStep(ids: seq<int>, t0: Table, v0: seq<CircleView>, overlap: (nat, nat) -> bool, now: real, i: nat)
    requires Increasing(ids) && |ids| == |v0| && 0 < i <= |ids|
    requires TableAt(Rows(PassState(v0, t0, []), ids, overlap, now, i - 1).table, ids, t0, overlap, now, i - 1, 0)
    requires FlagsAt(Rows(PassState(v0, t0, []), ids, overlap, now, i - 1).views, v0, ids, t0, overlap, now, i - 1, 0)
    ensures FlagsAt(Rows(PassState(v0, t0, []), ids, overlap, now, i).views, v0, ids, t0, overlap, now, i, 0)
  {
    var n := |ids|;
    var st := Rows(PassState(v0, t0, []), ids, overlap, now, i - 1);
    TableSame(st.table, ids, t0, overlap, now, i - 1, 0, i - 1, i);
    FlagsSame(st.views, v0, ids, t0, overlap, now, i - 1, 0, i - 1, i);
    RowFlags(st, ids, t0, v0, overlap, now, i - 1, n);
    FlagsSame(Row(st, ids, overlap, now, i - 1, n).views, v0, ids, t0, overlap, now, i - 1, n, i, 0);
  }

  /** The first i rows resolve the pairs the closed form gives at (i, 0). */
  lemma {:induction false} RowsResolved(ids: seq<int>, t0: Table, v0: seq<CircleView>,
                                        overlap: (nat, nat) -> bool, now: real, i: nat)
    requires |ids| == |v0| && i <= |ids|
    ensures ResolvedAt(Rows(PassState(v0, t0, []), ids, overlap, now, i).resolved, |ids|, overlap, i, 0)
  {
    if i > 0 {
      var n := |ids|;
      var st := Rows(PassState(v0, t0, []), ids, overlap, now, i - 1);
      RowsResolved(ids, t0, v0, overlap, now, i - 1);
      ResolvedSame(st.resolved, n, overlap, i - 1, 0, i - 1, i);
      RowResolved(st, ids, overlap, now, i - 1, n);
      ResolvedSame(Row(st, ids, overlap, now, i - 1, n).resolved, n, overlap, i - 1, n, i, 0);
    }
  }

  /** The whole pass over n circles with increasing ids, from the states v0
      and the table t0: the resolver sees exactly the overlapping pairs, in
      visiting order; a circle's flag ends up set exactly when it was set
      before or the circle was in a pair recorded out of its cooldown window;
      nothing else about any circle changes; and every key of the table
      reads `now` if the pass stamped it and as in t0 otherwise. */
  lemma PassResult(ids: seq<int>, t0: Table, v0: seq<CircleView>, overlap: (nat, nat) -> bool, now: real)
    requires Increasing(ids) && |ids| == |v0|
    ensures var r := Rows(PassState(v0, t0, []), ids, overlap, now, |ids|);
            && (forall p :: p in r.resolved <==> p.0 < p.1 < |ids| && overlap(p.0, p.1))
            && InPassOrder(r.resolved)
            && |r.views| == |v0|
            && (forall k :: 0 <= k < |v0| ==> r.views[k].(colliding := v0[k].colliding) == v0[k])
            && (forall k :: 0 <= k < |v0| ==>
                  r.views[k].colliding == (v0[k].colliding || Flagged(ids, t0, overlap, now, k, |ids|, 0)))
            && TableAt(r.table, ids, t0, overlap, now, |ids|, 0)
  {
    RowsTable(ids, t0, v0, overlap, now, |ids|);
    RowsFlags(ids, t0, v0, overlap, now, |ids|);
    RowsResolved(ids, t0, v0, overlap, now, |ids|);
  }

  /** The circles' states after a pass that started with every flag cleared:
      a circle is flagged exactly when the pass stamped one of its pairs, and
      nothing else of it differs from `v0`. */
  ghost function PassViews(v0: seq<CircleView>, ids: seq<int>, t0: Table,
                           overlap: (nat, nat) -> bool, now: real): (vs: seq<CircleView>)
    requires |ids| == |v0|
    ensures |vs| == |v0|
    ensures forall k :: 0 <= k < |v0| ==> vs[k].(colliding := v0[k].colliding) == v0[k]
    ensures forall k :: 0 <= k < |v0| ==> vs[k].colliding == Flagged(ids, t0, overlap, now, k, |ids|, 0)
  {
    seq(|v0|, k requires 0 <= k < |v0| => v0[k].(colliding := Flagged(ids, t0, overlap, now, k, |ids|, 0)))
  }
}
