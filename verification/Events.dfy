/** Runs of the engine's events over the shadow: what the speculative overlay means after any of them. */
module Events {
  import opened Arith
  import opened Amm
  import opened Wrappers
  import opened Shadow

  datatype Event =
    | Register(tokenX: nat, tokenY: nat, x: nat, y: nat, feeNum: nat, feeDen: nat, regSlot: nat)
    | PendingSwap(pool: nat, amount: nat, xToY: bool)
    | NewBlock(slot: nat)
    | PoolUpdate(updated: nat, newX: nat, newY: nat, updSlot: nat)

  /** The index is known, and a swap does not panic. */
  ghost predicate Enabled(s: State, e: Event)
  {
    match e
    case PendingSwap(i, a, d) => i < |s.pools| && CanSwap(s.pools[i], a, d)
    case PoolUpdate(i, _, _, _) => i < |s.pools|
    case _ => true
  }

  ghost function Next(s: State, e: Event): State
    requires Enabled(s, e)
  {
    match e
    case Register(tx, ty, x, y, num, den, slot) =>
      if |s.pools| >= MAX_POOLS then s else s.(pools := s.pools + [Fresh(tx, ty, x, y, num, den, slot)])
    case PendingSwap(i, a, d) => AfterSwap(s, i, a, d)
    case NewBlock(slot) => AfterBlock(s, slot)
    case PoolUpdate(i, x, y, slot) => AfterUpdate(s, i, x, y, slot)
  }

  /** The state after a whole run from the empty shadow; None once an event is not enabled. */
  ghost function StateAfter(es: seq<Event>): Option<State>
  {
    if |es| == 0 then Some(State([], 0, 0))
    else
      var r := StateAfter(es[..|es| - 1]);
      if r.Some? && Enabled(r.value, es[|es| - 1]) then Some(Next(r.value, es[|es| - 1])) else None
  }

  // ── What each event does, field by field ─────────────────────────

  lemma RegisterEffect(s: State, e: Event)
    requires e.Register?
    ensures var t, n := Next(s, e), |s.pools|;
            if n < MAX_POOLS then
              && |t.pools| == n + 1 && t.pools[..n] == s.pools && t.dirtyCount == s.dirtyCount && t.slot == s.slot
              && var p := t.pools[n];
                 && p.tokenX == e.tokenX && p.tokenY == e.tokenY && p.x == p.specX == e.x && p.y == p.specY == e.y
                 && p.feeNum == e.feeNum && p.feeDen == e.feeDen && p.slot == e.regSlot && p.active && !p.dirty
            else t == s
  {}

  /** Only the swapped row changes, and the counter rises if the row was clean. */
  lemma PendingSwapEffect(s: State, e: Event)
    requires e.PendingSwap? && Enabled(s, e)
    ensures var t := Next(s, e);
            && t.pools == s.pools[e.pool := t.pools[e.pool]] && t.slot == s.slot
            && t.dirtyCount == s.dirtyCount + (if s.pools[e.pool].dirty then 0 else 1)
            && var p, q := s.pools[e.pool], t.pools[e.pool];
               && q == p.(specX := q.specX, specY := q.specY, dirty := true)
               && if e.xToY then Exchanged(p.specX, p.specY, q.specX, q.specY, e.amount, p.feeNum, p.feeDen)
                  else Exchanged(p.specY, p.specX, q.specY, q.specX, e.amount, p.feeNum, p.feeDen)
  {
    hide SwapEffect, Exchanged, SwapOutput;
    SwapIsExact(s.pools[e.pool], e.amount, e.xToY);
  }

  /** Every row shows its confirmed reserves, clean. */
  lemma NewBlockEffect(s: State, slot: nat, i: nat)
    ensures var t := Next(s, NewBlock(slot));
            && |t.pools| == |s.pools| && t.dirtyCount == 0 && t.slot == slot
            && (i < |s.pools| ==>
                  var p, q := s.pools[i], t.pools[i];
                  q.specX == p.x && q.specY == p.y && !q.dirty && q.(specX := p.specX, specY := p.specY, dirty := p.dirty) == p)
  {}

  /** The row shows the new reserves, confirmed and speculative, clean; the counter stands. */
  lemma PoolUpdateEffect(s: State, e: Event)
    requires e.PoolUpdate? && Enabled(s, e)
    ensures var t := Next(s, e);
            && t.pools == s.pools[e.updated := t.pools[e.updated]] && t.dirtyCount == s.dirtyCount && t.slot == s.slot
            && var p, q := s.pools[e.updated], t.pools[e.updated];
               && q.x == q.specX == e.newX && q.y == q.specY == e.newY && q.slot == e.updSlot && !q.dirty
               && (q.tokenX, q.tokenY, q.feeNum, q.feeDen, q.active) == (p.tokenX, p.tokenY, p.feeNum, p.feeDen, p.active)
  {}

  // ── The swaps a pool has pending ─────────────────────────────────

  datatype Swap = Swap(amount: nat, xToY: bool)

  /** What one event does to the pending swaps of pool i. */
  function PendingAfter(before: seq<Swap>, e: Event, i: nat): seq<Swap>
  {
    match e
    case Register(_, _, _, _, _, _, _) => before
    case PendingSwap(j, a, d) => if j == i then before + [Swap(a, d)] else before
    case NewBlock(_) => []
    case PoolUpdate(j, _, _, _) => if j == i then [] else before
  }

  /** Read off the events alone: the swaps on pool i since it was last reset. */
  function Pending(es: seq<Event>, i: nat): seq<Swap>
  {
    if |es| == 0 then []
    else
      PendingAfter(Pending(es[..|es| - 1], i), es[|es| - 1], i)
  }

  /** The swaps applied, in order, to the confirmed reserves of p. */
  ghost function Replay(p: Pool, swaps: seq<Swap>): Option<Pool>
  {
    if |swaps| == 0 then Some(Reverted(p))
    else
      var r, last := Replay(p, swaps[..|swaps| - 1]), swaps[|swaps| - 1];
      if r.Some? && CanSwap(r.value, last.amount, last.xToY) then Some(SwapEffect(r.value, last.amount, last.xToY)) else None
  }

  /** Only the confirmed part of a row matters to a replay. */
  lemma {:induction false} ReplayFromConfirmed(p: Pool, q: Pool, swaps: seq<Swap>)
    requires Reverted(p) == Reverted(q)
    ensures Replay(p, swaps) == Replay(q, swaps)
  {
    if |swaps| > 0 { ReplayFromConfirmed(p, q, swaps[..|swaps| - 1]); }
  }

  lemma {:induction false} NothingPendingYet(es: seq<Event>, i: nat)
    requires StateAfter(es).Some? && i >= |StateAfter(es).value.pools|
    ensures Pending(es, i) == []
  {
    if |es| > 0 { NothingPendingYet(es[..|es| - 1], i); }
  }

  /** After every run, each pool's speculative row is the replay of its pending swaps on its confirmed reserves. */
  lemma {:induction false} OverlayIsReplay(es: seq<Event>, i: nat)
    requires StateAfter(es).Some? && i < |StateAfter(es).value.pools|
    ensures Replay(StateAfter(es).value.pools[i], Pending(es, i)) == Some(StateAfter(es).value.pools[i])
  {
    var init, e := es[..|es| - 1], es[|es| - 1];
    var s, s' := StateAfter(init).value, StateAfter(es).value;
    if i >= |s.pools| {
      NothingPendingYet(init, i);
    } else {
      OverlayIsReplay(init, i);
      StepReplays(s, e, i, Pending(init, i));
    }
  }

  lemma StepReplays(s: State, e: Event, i: nat, before: seq<Swap>)
    requires Enabled(s, e) && i < |s.pools| && Replay(s.pools[i], before) == Some(s.pools[i])
    ensures var s' := Next(s, e);
            i < |s'.pools| && Replay(s'.pools[i], PendingAfter(before, e, i)) == Some(s'.pools[i])
  {
    if e.PendingSwap? && e.pool == i {
      var q := SwapEffect(s.pools[i], e.amount, e.xToY);
      ReplayFromConfirmed(s.pools[i], q, before);
      assert (before + [Swap(e.amount, e.xToY)])[..|before|] == before;
    }
  }

  lemma {:induction false} ReplayDirty(p: Pool, swaps: seq<Swap>)
    requires Replay(p, swaps).Some?
    ensures Replay(p, swaps).value.dirty <==> swaps != []
    ensures swaps == [] ==> Replay(p, swaps).value.specX == p.x && Replay(p, swaps).value.specY == p.y
  {}

  /** The dirty flag is set exactly while swaps are pending; a clean row shows its confirmed reserves. */
  lemma DirtyMeansPending(es: seq<Event>, i: nat)
    requires StateAfter(es).Some? && i < |StateAfter(es).value.pools|
    ensures var p := StateAfter(es).value.pools[i];
            && (p.dirty <==> Pending(es, i) != [])
            && (!p.dirty ==> p.specX == p.x && p.specY == p.y)
  {
    OverlayIsReplay(es, i);
    ReplayDirty(StateAfter(es).value.pools[i], Pending(es, i));
  }

  /** One swap: the reserves move along the curve, never gaining, and losing less than the new input reserve. */
  lemma SwapKeepsProduct(p: Pool, amount: nat, xToY: bool)
    requires CanSwap(p, amount, xToY)
    ensures var q := SwapEffect(p, amount, xToY);
            var newIn := if xToY then q.specX else q.specY;
            && p.specX * p.specY - newIn < q.specX * q.specY <= p.specX * p.specY
            && (q.x, q.y) == (p.x, p.y)
            && SwapOutput(p, amount, xToY) == (if xToY then p.specY - q.specY else p.specX - q.specX)
  {
    var e := AfterFee(amount, p.feeNum, p.feeDen);
    if xToY {
      ProductKept(p.specX, p.specY, e);
    } else {
      ProductKept(p.specY, p.specX, e);
    }
  }

  lemma {:induction false} ReplayNeverGains(p: Pool, swaps: seq<Swap>)
    requires Replay(p, swaps).Some?
    ensures var q := Replay(p, swaps).value; q.specX * q.specY <= p.x * p.y
  {
    if |swaps| > 0 {
      var last := swaps[|swaps| - 1];
      ReplayNeverGains(p, swaps[..|swaps| - 1]);
      SwapKeepsProduct(Replay(p, swaps[..|swaps| - 1]).value, last.amount, last.xToY);
    }
  }

  /** In every reachable state no pool's speculative product exceeds its confirmed one. */
  lemma {:induction false} ProductNeverGrows(es: seq<Event>, i: nat)
    requires StateAfter(es).Some? && i < |StateAfter(es).value.pools|
    ensures var p := StateAfter(es).value.pools[i]; p.specX * p.specY <= p.x * p.y
  {
    OverlayIsReplay(es, i);
    ReplayNeverGains(StateAfter(es).value.pools[i], Pending(es, i));
  }

  // ── The dirty counter ────────────────────────────────────────────

  function CountDirty(pools: seq<Pool>): nat
  {
    if |pools| == 0 then 0 else CountDirty(pools[..|pools| - 1]) + if pools[|pools| - 1].dirty then 1 else 0
  }

  /** Updates since the last block that hit a pool with pending swaps. */
  function StaleCounts(es: seq<Event>): nat
  {
    if |es| == 0 then 0
    else
      var init := es[..|es| - 1];
      match es[|es| - 1]
      case NewBlock(_) => 0
      case PoolUpdate(j, _, _, _) => StaleCounts(init) + if Pending(init, j) != [] then 1 else 0
      case _ => StaleCounts(init)
  }

  lemma {:induction false} CountAfterUpdate(pools: seq<Pool>, i: nat, p: Pool)
    requires i < |pools|
    ensures CountDirty(pools[i := p]) + (if pools[i].dirty then 1 else 0) == CountDirty(pools) + if p.dirty then 1 else 0
  {
    var n := |pools| - 1;
    if i < n {
      CountAfterUpdate(pools[..n], i, p);
      assert pools[i := p][..n] == pools[..n][i := p];
    } else {
      assert pools[i := p][..n] == pools[..n];
    }
  }

  lemma {:induction false} NoneDirty(pools: seq<Pool>)
    requires forall i :: 0 <= i < |pools| ==> !pools[i].dirty
    ensures CountDirty(pools) == 0
  {
    if |pools| > 0 { NoneDirty(pools[..|pools| - 1]); }
  }

  /** The counter exceeds the number of dirty flags by exactly the updates that cleared one without decrementing. */
  lemma {:induction false} DirtyCounterDrift(es: seq<Event>)
    requires StateAfter(es).Some?
    ensures StateAfter(es).value.dirtyCount == CountDirty(StateAfter(es).value.pools) + StaleCounts(es)
  {
    if |es| > 0 {
      var init, e := es[..|es| - 1], es[|es| - 1];
      var s, s' := StateAfter(init).value, StateAfter(es).value;
      DirtyCounterDrift(init);
      match e
      case Register(_, _, _, _, _, _, _) =>
        if |s'.pools| > |s.pools| { assert s'.pools[..|s.pools|] == s.pools; }
      case NewBlock(_) =>
        NoneDirty(s'.pools);
      case PendingSwap(i, a, d) =>
        CountAfterUpdate(s.pools, i, s'.pools[i]);
      case PoolUpdate(i, _, _, _) =>
        CountAfterUpdate(s.pools, i, s'.pools[i]);
        DirtyMeansPending(init, i);
    }
  }

  /** Counter and flags agree exactly when no such update happened since the last block. */
  lemma DirtyCounterExact(es: seq<Event>)
    requires StateAfter(es).Some?
    ensures StateAfter(es).value.dirtyCount >= CountDirty(StateAfter(es).value.pools)
    ensures StateAfter(es).value.dirtyCount == CountDirty(StateAfter(es).value.pools) <==> StaleCounts(es) == 0
  {
    DirtyCounterDrift(es);
  }

  /** The shortest drift: one pool, one swap, one update. */
  lemma DriftExample()
    ensures var es := [Register(1, 2, 1, 1, 0, 1, 0), PendingSwap(0, 1, true), PoolUpdate(0, 1, 1, 1)];
            StateAfter(es).Some? && StateAfter(es).value.dirtyCount == 1 && CountDirty(StateAfter(es).value.pools) == 0
  {
    hide StateAfter, CanSwap, SwapEffect, CountDirty;
    var p := Fresh(1, 2, 1, 1, 0, 1, 0);
    var e1, e2, e3 := Register(1, 2, 1, 1, 0, 1, 0), PendingSwap(0, 1, true), PoolUpdate(0, 1, 1, 1);
    AfterNothing();
    AfterOneMore([], e1);
    assert [] + [e1] == [e1] && [e1] + [e2] == [e1, e2] && [e1, e2] + [e3] == [e1, e2, e3];
    assert [] + [p] == [p];
    SwapOneUnit(State([p], 0, 0), p);
    AfterOneMore([e1], e2);
    var s := AfterSwap(State([p], 0, 0), 0, 1, true);
    AfterOneMore([e1, e2], e3);
    NoneDirty(AfterUpdate(s, 0, 1, 1, 1).pools);
  }

  lemma SwapOneUnit(s: State, p: Pool)
    requires p == Fresh(1, 2, 1, 1, 0, 1, 0) && s == State([p], 0, 0)
    ensures Enabled(s, PendingSwap(0, 1, true)) && Next(s, PendingSwap(0, 1, true)) == AfterSwap(s, 0, 1, true)
    ensures AfterSwap(s, 0, 1, true).dirtyCount == 1 && |AfterSwap(s, 0, 1, true).pools| == 1
  {}

  lemma AfterNothing()
    ensures StateAfter([]) == Some(State([], 0, 0))
  {}

  lemma AfterOneMore(es: seq<Event>, e: Event)
    requires StateAfter(es).Some? && Enabled(StateAfter(es).value, e)
    ensures StateAfter(es + [e]) == Some(Next(StateAfter(es).value, e))
  {
    assert (es + [e])[..|es|] == es;
  }
}
