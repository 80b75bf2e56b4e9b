/** The state shadow: confirmed pool reserves with a speculative overlay, kept in one array per column. */
module Shadow {
  import opened Amm
  import opened Wrappers

  const MAX_POOLS: nat := 4096

  /** One row across the columns. */
  datatype Pool = Pool(tokenX: nat, tokenY: nat, x: nat, y: nat, feeNum: nat, feeDen: nat,
                       specX: nat, specY: nat, dirty: bool, active: bool, slot: nat)

  /** The registered rows, the counter of dirty rows, and the confirmed slot. */
  datatype State = State(pools: seq<Pool>, dirtyCount: nat, slot: nat)

  // ── Transitions ──────────────────────────────────────────────────

  ghost predicate FeeOk(p: Pool)
  {
    0 < p.feeDen && p.feeNum <= p.feeDen
  }

  /** The fee formula neither divides by zero nor underflows, and the new input reserve is not zero. */
  ghost predicate CanSwap(p: Pool, amount: nat, xToY: bool)
  {
    FeeOk(p) && (if xToY then p.specX else p.specY) + AfterFee(amount, p.feeNum, p.feeDen) > 0
  }

  function SwapEffect(p: Pool, amount: nat, xToY: bool): (p': Pool)
    requires CanSwap(p, amount, xToY)
  {
    var e := AfterFee(amount, p.feeNum, p.feeDen);
    if xToY then p.(specX := p.specX + e, specY := Remaining(p.specX, p.specY, e), dirty := true)
    else p.(specY := p.specY + e, specX := Remaining(p.specY, p.specX, e), dirty := true)
  }

  function SwapOutput(p: Pool, amount: nat, xToY: bool): nat
    requires CanSwap(p, amount, xToY)
  {
    var e := AfterFee(amount, p.feeNum, p.feeDen);
    if xToY then Output(p.specX, p.specY, e) else Output(p.specY, p.specX, e)
  }

  /** rin grows by what the fee leaves of the amount, rounded up; rout becomes the old product over the new rin,
      rounded down. */
  predicate Exchanged(rin: nat, rout: nat, rin': nat, rout': nat, amount: nat, num: nat, den: nat)
  {
    && rin <= rin' <= rin + amount && (rin' - rin - 1) * den < amount * (den - num) <= (rin' - rin) * den
    && rin' * rout' <= rin * rout < rin' * (rout' + 1)
  }

  /** The row after a swap in terms of the row before: the reserves are exchanged, the output is the difference,
      the row is marked dirty, and nothing else in it changes. */
  lemma SwapIsExact(p: Pool, amount: nat, xToY: bool)
    requires CanSwap(p, amount, xToY)
    ensures var q, out := SwapEffect(p, amount, xToY), SwapOutput(p, amount, xToY);
            && (if xToY then Exchanged(p.specX, p.specY, q.specX, q.specY, amount, p.feeNum, p.feeDen) && out == p.specY - q.specY
                else Exchanged(p.specY, p.specX, q.specY, q.specX, amount, p.feeNum, p.feeDen) && out == p.specX - q.specX)
            && q == p.(specX := q.specX, specY := q.specY, dirty := true)
  {
    hide AfterFee, Remaining, Exchanged;
    var e := AfterFee(amount, p.feeNum, p.feeDen);
    if xToY { ReservesExchanged(p.specX, p.specY, amount, p.feeNum, p.feeDen); }
    else { ReservesExchanged(p.specY, p.specX, amount, p.feeNum, p.feeDen); }
  }

  lemma ReservesExchanged(rin: nat, rout: nat, amount: nat, num: nat, den: nat)
    requires 0 < den && num <= den && rin + AfterFee(amount, num, den) > 0
    ensures var e := AfterFee(amount, num, den); Exchanged(rin, rout, rin + e, Remaining(rin, rout, e), amount, num, den)
  {
    hide AfterFee, Remaining;
    AfterFeeIsCeiling(amount, num, den);
    ProductKept(rin, rout, AfterFee(amount, num, den));
  }

  function Fresh(tokenX: nat, tokenY: nat, x: nat, y: nat, feeNum: nat, feeDen: nat, slot: nat): Pool
  {
    Pool(tokenX, tokenY, x, y, feeNum, feeDen, x, y, false, true, slot)
  }

  function Updated(p: Pool, x: nat, y: nat, slot: nat): Pool
  {
    p.(x := x, y := y, specX := x, specY := y, slot := slot, dirty := false)
  }

  function Reverted(p: Pool): Pool
  {
    p.(specX := p.x, specY := p.y, dirty := false)
  }

  function AllReverted(pools: seq<Pool>): (r: seq<Pool>)
    ensures |r| == |pools| && forall i :: 0 <= i < |r| ==> r[i] == Reverted(pools[i])
  {
    seq(|pools|, i requires 0 <= i < |pools| => Reverted(pools[i]))
  }

  function AfterSwap(s: State, idx: nat, amount: nat, xToY: bool): State
    requires idx < |s.pools| && CanSwap(s.pools[idx], amount, xToY)
  {
    s.(pools := s.pools[idx := SwapEffect(s.pools[idx], amount, xToY)],
       dirtyCount := s.dirtyCount + if s.pools[idx].dirty then 0 else 1)
  }

  function AfterUpdate(s: State, idx: nat, x: nat, y: nat, slot: nat): State
    requires idx < |s.pools|
  {
    s.(pools := s.pools[idx := Updated(s.pools[idx], x, y, slot)])
  }

  function AfterBlock(s: State, slot: nat): State
  {
    State(AllReverted(s.pools), 0, slot)
  }

  /** The read-only swap of the solver: nothing when either speculative reserve is empty. */
  function SimSwap(p: Pool, amount: nat, xToY: bool): (out: nat)
    requires FeeOk(p)
  {
    if p.specX == 0 || p.specY == 0 then 0
    else if xToY then SwapOut(p.specX, p.specY, p.feeNum, p.feeDen, amount)
    else SwapOut(p.specY, p.specX, p.feeNum, p.feeDen, amount)
  }

  class StateShadow {
    const tokenX: array<nat>
    const tokenY: array<nat>
    const reserveX: array<nat>
    const reserveY: array<nat>
    const feeNum: array<nat>
    const feeDen: array<nat>
    const specX: array<nat>
    const specY: array<nat>
    const lastSlot: array<nat>
    const specDirty: array<bool>
    const active: array<bool>
    var poolCount: nat
    var specDirtyCount: nat
    var confirmedSlot: nat

    ghost function Columns(): set<object>
    {
      {tokenX as object, tokenY, reserveX, reserveY, feeNum, feeDen, specX, specY, lastSlot, specDirty, active}
    }

    /** The columns are full-sized and distinct, and no unused row is marked dirty. */
    ghost predicate Valid()
      reads this, Columns()
    {
      && Shaped() && poolCount <= MAX_POOLS
      && forall i :: poolCount <= i < MAX_POOLS ==> !specDirty[i]
    }

    ghost predicate Shaped()
    {
      && tokenX.Length == tokenY.Length == reserveX.Length == reserveY.Length == MAX_POOLS
      && feeNum.Length == feeDen.Length == specX.Length == specY.Length == lastSlot.Length == MAX_POOLS
      && specDirty.Length == active.Length == MAX_POOLS && specDirty != active
      && tokenX != tokenY && tokenX != reserveX && tokenX != reserveY && tokenX != feeNum && tokenX != feeDen && tokenX != specX && tokenX != specY && tokenX != lastSlot
      && tokenY != reserveX && tokenY != reserveY && tokenY != feeNum && tokenY != feeDen && tokenY != specX && tokenY != specY && tokenY != lastSlot
      && reserveX != reserveY && reserveX != feeNum && reserveX != feeDen && reserveX != specX && reserveX != specY && reserveX != lastSlot
      && reserveY != feeNum && reserveY != feeDen && reserveY != specX && reserveY != specY && reserveY != lastSlot
      && feeNum != feeDen && feeNum != specX && feeNum != specY && feeNum != lastSlot
      && feeDen != specX && feeDen != specY && feeDen != lastSlot
      && specX != specY && specX != lastSlot
      && specY != lastSlot
    }

    ghost function Row(i: nat): Pool
      reads this, Columns()
      requires Shaped() && i < MAX_POOLS
    {
      Pool(tokenX[i], tokenY[i], reserveX[i], reserveY[i], feeNum[i], feeDen[i],
           specX[i], specY[i], specDirty[i], active[i], lastSlot[i])
    }

    ghost function View(): (s: State)
      reads this, Columns()
      requires Valid()
      ensures |s.pools| == poolCount && forall i :: 0 <= i < poolCount ==> s.pools[i] == Row(i)
      ensures s.dirtyCount == specDirtyCount && s.slot == confirmedSlot
    {
      State(seq(poolCount, i requires 0 <= i < MAX_POOLS && Shaped() reads this, Columns() => Row(i)), specDirtyCount, confirmedSlot)
    }

    constructor ()
      ensures Valid() && View() == State([], 0, 0) && fresh(Columns())
    {
      tokenX := new nat[MAX_POOLS](_ => 0);
      tokenY := new nat[MAX_POOLS](_ => 0);
      reserveX := new nat[MAX_POOLS](_ => 0);
      reserveY := new nat[MAX_POOLS](_ => 0);
      feeNum := new nat[MAX_POOLS](_ => 0);
      feeDen := new nat[MAX_POOLS](_ => 0);
      specX := new nat[MAX_POOLS](_ => 0);
      specY := new nat[MAX_POOLS](_ => 0);
      lastSlot := new nat[MAX_POOLS](_ => 0);
      specDirty := new bool[MAX_POOLS](_ => false);
      active := new bool[MAX_POOLS](_ => false);
      poolCount, specDirtyCount, confirmedSlot := 0, 0, 0;
    }

    method RegisterPool(tx: nat, ty: nat, x: nat, y: nat, num: nat, den: nat, slot: nat) returns (r: Option<nat>)
      requires Valid()
      modifies this, Columns()
      ensures Valid()
      ensures |old(View()).pools| == MAX_POOLS ==> r == None && View() == old(View())
      ensures |old(View()).pools| < MAX_POOLS ==>
        && r == Some(|old(View()).pools|)
        && View() == old(View()).(pools := old(View()).pools + [Fresh(tx, ty, x, y, num, den, slot)])
      ensures r.Some? ==>
        var p := View().pools[r.value];
        && p.tokenX == tx && p.tokenY == ty && p.x == p.specX == x && p.y == p.specY == y
        && p.feeNum == num && p.feeDen == den && p.slot == slot && p.active && !p.dirty
    {
      if poolCount >= MAX_POOLS { return None; }
      var idx := poolCount;
      tokenX[idx], tokenY[idx] := tx, ty;
      reserveX[idx], reserveY[idx] := x, y;
      specX[idx], specY[idx] := x, y;
      feeNum[idx], feeDen[idx] := num, den;
      lastSlot[idx] := slot;
      active[idx] := true;
      poolCount := poolCount + 1;
      r := Some(idx);
    }

    method UpdateReserves(idx: nat, x: nat, y: nat, slot: nat)
      requires Valid() && idx < |View().pools|
      modifies reserveX, reserveY, specX, specY, lastSlot, specDirty
      ensures Valid() && View() == AfterUpdate(old(View()), idx, x, y, slot)
      ensures
        var p, q := View().pools[idx], old(View()).pools[idx];
        && p.x == p.specX == x && p.y == p.specY == y && p.slot == slot && !p.dirty
        && (p.tokenX, p.tokenY, p.feeNum, p.feeDen, p.active) == (q.tokenX, q.tokenY, q.feeNum, q.feeDen, q.active)
    {
      reserveX[idx], reserveY[idx] := x, y;
      specX[idx], specY[idx] := x, y;
      lastSlot[idx] := slot;
      specDirty[idx] := false;
    }

    method ApplySpeculativeSwap(idx: nat, amountIn: nat, xToY: bool) returns (out: nat)
      requires Valid() && idx < |View().pools| && CanSwap(View().pools[idx], amountIn, xToY)
      modifies this`specDirtyCount, specX, specY, specDirty
      ensures Valid() && View() == AfterSwap(old(View()), idx, amountIn, xToY)
      ensures out == SwapOutput(old(View()).pools[idx], amountIn, xToY)
    {
      var rx, ry := specX[idx], specY[idx];
      var afterFee := AfterFee(amountIn, feeNum[idx], feeDen[idx]);
      var newRx, newRy;
      if xToY {
        newRx := rx + afterFee;
        RemainingBound(rx, ry, afterFee);
        newRy := rx * ry / newRx;
        out := ry - newRy;
      } else {
        newRy := ry + afterFee;
        RemainingBound(ry, rx, afterFee);
        newRx := ry * rx / newRy;
        out := rx - newRx;
      }
      specX[idx], specY[idx] := newRx, newRy;
      if !specDirty[idx] {
        specDirty[idx] := true;
        specDirtyCount := specDirtyCount + 1;
      }
    }

    method RevertSpeculative()
      requires Valid()
      modifies this`specDirtyCount, specX, specY, specDirty
      ensures Valid() && View() == State(AllReverted(old(View()).pools), 0, old(View()).slot)
    {
      for i := 0 to poolCount
        invariant Valid()
        invariant specDirtyCount == old(specDirtyCount)
        invariant forall j :: 0 <= j < i ==> Row(j) == Reverted(old(Row(j)))
        invariant forall j :: i <= j < poolCount ==> Row(j) == old(Row(j))
      {
        specX[i], specY[i] := reserveX[i], reserveY[i];
        specDirty[i] := false;
      }
      specDirtyCount := 0;
    }

    method OnNewBlock(slot: nat)
      requires Valid()
      modifies this`confirmedSlot, this`specDirtyCount, specX, specY, specDirty
      ensures Valid() && View() == AfterBlock(old(View()), slot) && View().slot == slot
    {
      confirmedSlot := slot;
      RevertSpeculative();
    }

    method SimSwapAt(idx: nat, amountIn: nat, xToY: bool) returns (out: nat)
      requires Valid() && idx < |View().pools| && FeeOk(View().pools[idx])
      ensures out == SimSwap(View().pools[idx], amountIn, xToY)
    {
      var rx, ry := specX[idx], specY[idx];
      if rx == 0 || ry == 0 { return 0; }
      var afterFee := AfterFee(amountIn, feeNum[idx], feeDen[idx]);
      RemainingBound(rx, ry, afterFee);
      RemainingBound(ry, rx, afterFee);
      out := if xToY then ry - rx * ry / (rx + afterFee) else rx - ry * rx / (ry + afterFee);
    }
  }
}
