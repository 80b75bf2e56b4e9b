/** The bump allocator: a shared cursor moved by compare-exchange, under every interleaving. */
module Arena {
  import opened Arith
  import opened Bits
  import opened Amm
  import opened Wrappers

  const USIZE: nat := 64

  /** Machine words wrap around: the release profile leaves overflow checks off. */
  function Wrap(v: int): (w: nat)
    ensures w < Pow(2, USIZE)
  {
    v % Pow(2, USIZE)
  }

  lemma WrapIs(v: int)
    ensures 0 <= v < Pow(2, USIZE) ==> Wrap(v) == v
    ensures Pow(2, USIZE) <= v < 2 * Pow(2, USIZE) ==> Wrap(v) == v - Pow(2, USIZE)
    ensures v == -1 ==> Wrap(v) == Pow(2, USIZE) - 1
    ensures v >= 0 ==> Wrap(v) <= v
  {
    hide Pow;
    var p := Pow(2, USIZE);
    if 0 <= v < p { DivUnique(v, p, 0, v); }
    if p <= v < 2 * p { DivUnique(v, p, 1, v - p); }
    if v == -1 { DivUnique(v, p, -1, p - 1); }
    if v >= 0 { QuotientAtLeast(v, p, 0); assert v == p * (v / p) + v % p; MulMonotone(0, v / p, p); }
  }

  /** (current + align - 1) & !(align - 1) */
  function AlignUp(current: nat, align: nat): nat
  {
    And(Wrap(current + align - 1), Not(Wrap(align - 1), USIZE))
  }

  function NewCursor(current: nat, size: nat, align: nat): nat
  {
    Wrap(AlignUp(current, align) + size)
  }

  /** The alignment does not wrap. */
  ghost predicate Fits(current: nat, align: nat)
  {
    align >= 1 && current + align - 1 < Pow(2, USIZE)
  }

  /** Neither the alignment nor the end of the region wraps; alignment 0 does no harm to an empty arena. */
  ghost predicate NoWrap(current: nat, size: nat, align: nat)
  {
    (if align == 0 then current == 0 else Fits(current, align)) && AlignUp(current, align) + size < Pow(2, USIZE)
  }

  lemma AlignFits(current: nat, align: nat)
    requires Fits(current, align)
    ensures AlignUp(current, align) == And(current + align - 1, Not(align - 1, USIZE))
  {
    hide Pow;
    WrapIs(current + align - 1);
    WrapIs(align - 1);
  }

  lemma {:induction false} AndSplits(x: nat, m: nat, width: nat)
    requires x < Pow(2, width) && m < Pow(2, width)
    ensures And(x, Not(m, width)) + And(x, m) == x
  {
    if width > 0 {
      AndSplits(x / 2, m / 2, width - 1);
      NotHalf(m, width);
      AndDigits(x, m);
      AndDigits(x, Not(m, width));
    }
  }

  lemma NotHalf(m: nat, width: nat)
    requires width > 0 && m < Pow(2, width)
    ensures Not(m, width) / 2 == Not(m / 2, width - 1) && Not(m, width) % 2 == 1 - m % 2
  {}

  lemma AndDigits(x: nat, y: nat)
    ensures And(x, y) == (if x % 2 == 1 && y % 2 == 1 then 1 else 0) + 2 * And(x / 2, y / 2)
  {
    if x == 0 { assert And(0, y / 2) == 0; }
    if x != 0 && y != 0 { BitProduct(x % 2, y % 2); }
  }

  lemma BitProduct(a: nat, b: nat)
    requires a < 2 && b < 2
    ensures a * b == if a == 1 && b == 1 then 1 else 0
  {}

  lemma {:induction false} AndAtMost(x: nat, m: nat)
    ensures And(x, m) <= m
  {
    if x != 0 && m != 0 {
      AndAtMost(x / 2, m / 2);
      AndDigits(x, m);
    }
  }

  /** Alignment only ever moves forward, by less than align, whether or not align is a power of two. */
  lemma AlignUpBounds(current: nat, align: nat)
    requires Fits(current, align)
    ensures current <= AlignUp(current, align) <= current + align - 1
  {
    hide Pow, And, AlignUp;
    AlignFits(current, align);
    AndSplits(current + align - 1, align - 1, USIZE);
    AndAtMost(current + align - 1, align - 1);
  }

  /** An alignment that wraps moves back. */
  lemma AlignWraps(current: nat, align: nat)
    requires current < Pow(2, USIZE) && align < Pow(2, USIZE) && !Fits(current, align)
    ensures if align == 0 then AlignUp(current, align) == 0 else AlignUp(current, align) < current
  {
    hide Pow, And;
    WrapIs(align - 1);
    WrapIs(current + align - 1);
    if align == 0 {
      AndWithNothing(Wrap(current + align - 1));
    } else {
      AndSplits(Wrap(current + align - 1), Wrap(align - 1), USIZE);
    }
  }

  lemma AndWithNothing(x: nat)
    ensures Not(Pow(2, USIZE) - 1, USIZE) == 0 && And(x, 0) == 0
  {}

  /** For a power of two it is the next multiple. */
  lemma AlignUpIsMultiple(current: nat, k: nat)
    requires Fits(current, Pow(2, k)) && k <= USIZE
    ensures AlignUp(current, Pow(2, k)) == Pow(2, k) * ((current + Pow(2, k) - 1) / Pow(2, k))
    ensures Cong(AlignUp(current, Pow(2, k)), 0, Pow(2, k))
  {
    hide Pow, And, Cong, AlignUp;
    AlignFits(current, Pow(2, k));
    ClearLowBits(current + Pow(2, k) - 1, k, USIZE);
    MultipleOf(Pow(2, k), (current + Pow(2, k) - 1) / Pow(2, k));
  }

  lemma MultipleOf(a: nat, q: int)
    ensures Cong(a * q, 0, a)
  {
    CongIntro(a * q, 0, q, a);
  }

  lemma AlignUpMonotone(c: nat, d: nat, k: nat)
    requires Fits(d, Pow(2, k)) && k <= USIZE && c <= d
    ensures AlignUp(c, Pow(2, k)) <= AlignUp(d, Pow(2, k))
  {
    hide Pow, AlignUp, Cong;
    AlignUpIsMultiple(c, k);
    AlignUpIsMultiple(d, k);
    MultipleMonotone(c + Pow(2, k) - 1, d + Pow(2, k) - 1, Pow(2, k));
  }

  lemma MultipleMonotone(x: nat, y: nat, a: nat)
    requires a > 0 && x <= y
    ensures a * (x / a) <= a * (y / a)
  {
    Quotient(x, a);
    QuotientAtLeast(y, a, x / a);
    MulMonotone(x / a, y / a, a);
  }

  // ── Interleaved steps ────────────────────────────────────────────

  datatype Region = Region(lo: nat, hi: nat, align: nat)

  /** Between its load and its compare-exchange a thread remembers what it read. */
  datatype Thread = Idle | Loaded(current: nat, size: nat, align: nat, epoch: nat)

  /** regions: what was handed out since the last reset, oldest first; epoch counts resets. Slicing the buffer past
      its end aborts the process. */
  datatype State = State(cursor: nat, capacity: nat, threads: seq<Thread>, regions: seq<Region>, epoch: nat, aborted: bool)

  datatype Step =
    | Load(t: nat, size: nat, align: nat)       // also the reload after a failed exchange
    | Exchange(t: nat)                          // succeeds: the cursor still holds what was loaded
    | Fail(t: nat)                              // the cursor has moved, or the weak exchange failed spuriously
    | GiveUp(t: nat)                            // no room above the loaded cursor: None
    | Reset

  ghost predicate Enabled(s: State, step: Step)
  {
    && !s.aborted
    && match step
       case Load(t, size, align) =>
         t < |s.threads| && s.threads[t].Idle? && size < Pow(2, USIZE) && align < Pow(2, USIZE)
       case Exchange(t) => t < |s.threads| && HasRoom(s, s.threads[t]) && s.threads[t].current == s.cursor
       case Fail(t) => t < |s.threads| && HasRoom(s, s.threads[t])
       case GiveUp(t) => t < |s.threads| && s.threads[t].Loaded? && !HasRoom(s, s.threads[t])
       case Reset => true
  }

  ghost predicate HasRoom(s: State, th: Thread)
  {
    th.Loaded? && NewCursor(th.current, th.size, th.align) <= s.capacity
  }

  ghost function Next(s: State, step: Step): State
    requires Enabled(s, step)
  {
    match step
    case Load(t, size, align) => s.(threads := s.threads[t := Loaded(s.cursor, size, align, s.epoch)])
    case Exchange(t) =>
      var th := s.threads[t];
      var aligned := AlignUp(th.current, th.align);
      var s' := s.(cursor := NewCursor(th.current, th.size, th.align), threads := s.threads[t := Idle]);
      if aligned > s.capacity then s'.(aborted := true)
      else s'.(regions := s.regions + [Region(aligned, aligned + th.size, th.align)])
    case Fail(t) => s.(threads := s.threads[t := Idle])
    case GiveUp(t) => s.(threads := s.threads[t := Idle])
    case Reset => s.(cursor := 0, regions := [], epoch := s.epoch + 1)
  }

  ghost function Start(capacity: nat, n: nat): State
  {
    State(0, capacity, seq(n, _ => Idle), [], 0, false)
  }

  /** The state after the given steps of n threads; None once a step is not enabled. */
  ghost function Run(capacity: nat, n: nat, steps: seq<Step>): Option<State>
  {
    if |steps| == 0 then Some(Start(capacity, n))
    else
      var r := Run(capacity, n, steps[..|steps| - 1]);
      if r.Some? && Enabled(r.value, steps[|steps| - 1]) then Some(Next(r.value, steps[|steps| - 1])) else None
  }

  /** Regions lie one after the other, aligned when align is a power of two, and end at the cursor. */
  ghost predicate Safe(s: State)
  {
    && s.cursor <= s.capacity < Pow(2, USIZE) && !s.aborted
    && s.cursor == (if |s.regions| == 0 then 0 else s.regions[|s.regions| - 1].hi)
    && (forall i :: 0 <= i < |s.regions| ==> RegionOk(s, s.regions[i]))
    && (forall i, j :: 0 <= i < j < |s.regions| ==> s.regions[i].hi <= s.regions[j].lo)
  }

  ghost predicate RegionOk(s: State, r: Region)
  {
    r.lo <= r.hi <= s.cursor && (forall k: nat :: k <= USIZE && r.align == Pow(2, k) ==> Cong(r.lo, 0, r.align))
  }

  ghost predicate Unwrapped(th: Thread)
  {
    th.Loaded? ==> NoWrap(th.current, th.size, th.align)
  }

  lemma EmptyAlign()
    ensures AlignUp(0, 0) == 0
  {
    hide Pow, And;
    WrapIs(-1);
    AndWithNothing(Wrap(-1));
  }

  lemma NewRegion(s: State, t: nat)
    requires Safe(s) && Enabled(s, Exchange(t)) && Unwrapped(s.threads[t])
    ensures Safe(Next(s, Exchange(t)))
  {
    hide Cong, AlignUp, Fits, Pow;
    var th, s' := s.threads[t], Next(s, Exchange(t));
    WrapIs(AlignUp(th.current, th.align) + th.size);
    if th.align == 0 { EmptyAlign(); } else { AlignUpBounds(th.current, th.align); }
    var r := s'.regions[|s.regions|];
    forall k: nat | k <= USIZE && r.align == Pow(2, k) ensures Cong(r.lo, 0, r.align) {
      AlignUpIsMultiple(th.current, k);
    }
    forall i | 0 <= i < |s'.regions| ensures RegionOk(s', s'.regions[i]) {
      if i < |s.regions| { assert RegionOk(s, s.regions[i]); }
    }
    forall i, j | 0 <= i < j < |s'.regions| ensures s'.regions[i].hi <= s'.regions[j].lo {
      assert RegionOk(s, s.regions[i]);
    }
  }

  /** A wrapped sum starts a region below the last one, or ends it past the capacity. */
  lemma WrappedRegion(s: State, t: nat)
    requires Safe(s) && Enabled(s, Exchange(t)) && !Unwrapped(s.threads[t]) && s.threads[t].align < Pow(2, USIZE)
    ensures !Safe(Next(s, Exchange(t)))
  {
    hide Cong, AlignUp, Pow;
    var th, s', m := s.threads[t], Next(s, Exchange(t)), |s.regions|;
    if !Fits(th.current, th.align) {
      AlignWraps(th.current, th.align);
    }
    if !s'.aborted {
      var r := s'.regions[m];
      assert r.lo == AlignUp(th.current, th.align) && r.hi == r.lo + th.size;
      assert RegionOk(s', r) ==> r.hi <= s'.cursor;
      if m > 0 { assert s'.regions[m - 1].hi == s.cursor; }
    }
  }

  /** An exchange keeps the arena safe if and only if neither of its sums wraps. */
  lemma ExchangeSafeExactly(s: State, t: nat)
    requires Safe(s) && Enabled(s, Exchange(t)) && s.threads[t].align < Pow(2, USIZE)
    ensures Safe(Next(s, Exchange(t))) <==> NoWrap(s.threads[t].current, s.threads[t].size, s.threads[t].align)
  {
    hide Safe, NoWrap;
    if Unwrapped(s.threads[t]) { NewRegion(s, t); } else { WrappedRegion(s, t); }
  }

  /** No exchange of the run wraps. */
  ghost predicate Clean(capacity: nat, n: nat, steps: seq<Step>)
  {
    |steps| > 0 ==>
      var init, step := steps[..|steps| - 1], steps[|steps| - 1];
      && Clean(capacity, n, init)
      && (step.Exchange? && Run(capacity, n, init).Some? && step.t < |Run(capacity, n, init).value.threads| ==>
            Unwrapped(Run(capacity, n, init).value.threads[step.t]))
  }

  ghost predicate SizesFit(s: State)
  {
    forall t :: 0 <= t < |s.threads| && s.threads[t].Loaded? ==> s.threads[t].align < Pow(2, USIZE)
  }

  lemma {:induction false} SizesAlwaysFit(capacity: nat, n: nat, steps: seq<Step>)
    requires Run(capacity, n, steps).Some?
    ensures SizesFit(Run(capacity, n, steps).value)
  {
    hide Pow;
    if |steps| > 0 { SizesAlwaysFit(capacity, n, steps[..|steps| - 1]); }
  }

  /** Under every interleaving of loads, exchanges, failures and resets, by any number of threads, the regions
      handed out since the last reset are disjoint, aligned and inside the capacity, as long as no sum wraps. */
  lemma {:induction false} AlwaysSafe(capacity: nat, n: nat, steps: seq<Step>)
    requires Run(capacity, n, steps).Some? && capacity < Pow(2, USIZE) && Clean(capacity, n, steps)
    ensures Safe(Run(capacity, n, steps).value) && Run(capacity, n, steps).value.capacity == capacity
  {
    hide Pow;
    if |steps| > 0 {
      var init, step := steps[..|steps| - 1], steps[|steps| - 1];
      AlwaysSafe(capacity, n, init);
      var s := Run(capacity, n, init).value;
      if step.Exchange? { NewRegion(s, step.t); } else { OtherSteps(s, step); }
    }
  }

  lemma OtherSteps(s: State, step: Step)
    requires Safe(s) && Enabled(s, step) && !step.Exchange?
    ensures Safe(Next(s, step)) && Next(s, step).capacity == s.capacity
  {
    hide Pow;
    var s' := Next(s, step);
    forall i | 0 <= i < |s'.regions| ensures RegionOk(s', s'.regions[i]) {
      assert RegionOk(s, s.regions[i]);
    }
  }

  ghost predicate SafeAt(capacity: nat, n: nat, steps: seq<Step>, k: nat)
    requires k <= |steps|
  {
    Run(capacity, n, steps[..k]).Some? && Safe(Run(capacity, n, steps[..k]).value)
  }

  /** and only then: a run is safe throughout if and only if no exchange wraps. */
  lemma {:induction false} SafeThroughoutExactly(capacity: nat, n: nat, steps: seq<Step>)
    requires Run(capacity, n, steps).Some? && capacity < Pow(2, USIZE)
    ensures (forall k: nat :: k <= |steps| ==> SafeAt(capacity, n, steps, k)) <==> Clean(capacity, n, steps)
  {
    hide Pow, Safe, Enabled, Unwrapped;
    if |steps| == 0 {
      StartIsSafe(capacity, n);
      assert steps[..0] == [];
    } else {
      var m := |steps| - 1;
      var init, step := steps[..m], steps[m];
      SafeThroughoutExactly(capacity, n, init);
      assert steps[..|steps|] == steps;
      forall k: nat | k <= m ensures SafeAt(capacity, n, steps, k) <==> SafeAt(capacity, n, init, k) {
        assert steps[..k] == init[..k];
      }
      if Clean(capacity, n, init) {
        LastStepExactly(capacity, n, steps);
        assert SafeAt(capacity, n, steps, m + 1) <==> Clean(capacity, n, steps);
      } else {
        var k: nat :| k <= m && !SafeAt(capacity, n, init, k);
        assert !SafeAt(capacity, n, steps, k);
      }
    }
  }

  lemma StartIsSafe(capacity: nat, n: nat)
    requires capacity < Pow(2, USIZE)
    ensures Safe(Start(capacity, n)) && Run(capacity, n, []) == Some(Start(capacity, n))
  {}

  lemma LastStepExactly(capacity: nat, n: nat, steps: seq<Step>)
    requires |steps| > 0 && Run(capacity, n, steps).Some? && capacity < Pow(2, USIZE)
    requires Clean(capacity, n, steps[..|steps| - 1])
    ensures Safe(Run(capacity, n, steps).value) <==> Clean(capacity, n, steps)
  {
    hide Pow, Safe, NoWrap;
    var init, step := steps[..|steps| - 1], steps[|steps| - 1];
    var s := Run(capacity, n, init).value;
    AlwaysSafe(capacity, n, init);
    SizesAlwaysFit(capacity, n, init);
    if step.Exchange? { ExchangeSafeExactly(s, step.t); } else { OtherSteps(s, step); }
  }

  /** Any two of them are disjoint. */
  lemma RegionsDisjoint(capacity: nat, n: nat, steps: seq<Step>, i: nat, j: nat, x: nat)
    requires Run(capacity, n, steps).Some? && capacity < Pow(2, USIZE) && Clean(capacity, n, steps)
    requires i < j < |Run(capacity, n, steps).value.regions|
    ensures var rs := Run(capacity, n, steps).value.regions;
            !(rs[i].lo <= x < rs[i].hi && rs[j].lo <= x < rs[j].hi) && rs[j].hi <= capacity
  {
    hide Pow;
    AlwaysSafe(capacity, n, steps);
    var s := Run(capacity, n, steps).value;
    assert RegionOk(s, s.regions[j]);
  }

  // ── Refusals ─────────────────────────────────────────────────────

  /** Within one epoch the cursor never moves back. */
  ghost predicate LoadsBehind(s: State)
  {
    forall t :: 0 <= t < |s.threads| ==> LoadBehind(s, s.threads[t])
  }

  ghost predicate LoadBehind(s: State, th: Thread)
  {
    th.Loaded? ==> th.epoch <= s.epoch && (th.epoch == s.epoch ==> th.current <= s.cursor)
  }

  lemma {:induction false} AlwaysBehind(capacity: nat, n: nat, steps: seq<Step>)
    requires Run(capacity, n, steps).Some? && Clean(capacity, n, steps)
    ensures LoadsBehind(Run(capacity, n, steps).value)
  {
    if |steps| > 0 {
      var init, step := steps[..|steps| - 1], steps[|steps| - 1];
      AlwaysBehind(capacity, n, init);
      var s, s' := Run(capacity, n, init).value, Run(capacity, n, steps).value;
      if step.Exchange? { MovesForward(s, step.t); }
      StepBehind(s, s', step);
    }
  }

  lemma MovesForward(s: State, t: nat)
    requires Enabled(s, Exchange(t)) && Unwrapped(s.threads[t])
    ensures s.cursor <= Next(s, Exchange(t)).cursor
  {
    hide Pow, AlignUp;
    var th := s.threads[t];
    WrapIs(AlignUp(th.current, th.align) + th.size);
    if th.align != 0 { AlignUpBounds(th.current, th.align); }
  }

  lemma StepBehind(s: State, s': State, step: Step)
    requires LoadsBehind(s) && Enabled(s, step) && s' == Next(s, step)
    requires step.Exchange? ==> s.cursor <= s'.cursor
    ensures LoadsBehind(s')
  {
    hide AlignUp, Fits;
    forall t | 0 <= t < |s'.threads| ensures LoadBehind(s', s'.threads[t]) {
      assert LoadBehind(s, s.threads[t]);
    }
  }

  /** A refusal is justified, for a power-of-two alignment, if no reset came between load and refusal. */
  lemma RefusalJustified(capacity: nat, n: nat, steps: seq<Step>, t: nat, k: nat)
    requires Run(capacity, n, steps).Some? && capacity < Pow(2, USIZE) && Clean(capacity, n, steps)
    requires Enabled(Run(capacity, n, steps).value, GiveUp(t)) && k <= USIZE
    requires var s := Run(capacity, n, steps).value;
             s.threads[t].align == Pow(2, k) && s.threads[t].epoch == s.epoch && Fits(s.cursor, Pow(2, k))
    ensures var s := Run(capacity, n, steps).value;
            AlignUp(s.cursor, s.threads[t].align) + s.threads[t].size > capacity
  {
    hide AlignUp, Fits, Run, Clean, Pow;
    AlwaysSafe(capacity, n, steps);
    AlwaysBehind(capacity, n, steps);
    var s := Run(capacity, n, steps).value;
    var th := s.threads[t];
    assert LoadBehind(s, th);
    WrapIs(AlignUp(th.current, th.align) + th.size);
    AlignUpMonotone(th.current, s.cursor, k);
  }

  lemma RunMore(capacity: nat, n: nat, steps: seq<Step>, step: Step)
    requires Run(capacity, n, steps).Some? && Enabled(Run(capacity, n, steps).value, step)
    ensures Run(capacity, n, steps + [step]) == Some(Next(Run(capacity, n, steps).value, step))
  {
    assert (steps + [step])[..|steps|] == steps;
  }

  lemma AlignToByte(c: nat)
    requires c < Pow(2, USIZE)
    ensures Fits(c, 1) && AlignUp(c, 1) == c && 1 < Pow(2, USIZE)
    ensures forall size: nat :: c + size < Pow(2, USIZE) ==> NewCursor(c, size, 1) == c + size
  {
    hide AlignUp;
    assert Pow(2, 0) == 1;
    PowMonotone(2, 0, USIZE);
    AlignUpIsMultiple(c, 0);
    forall size: nat | c + size < Pow(2, USIZE) ensures NewCursor(c, size, 1) == c + size { WrapIs(c + size); }
  }

  /** After a reset in between it need not be: a thread that saw a full arena refuses although it is now empty. */
  lemma StaleRefusal(capacity: nat)
    requires 1 <= capacity && 2 * capacity < Pow(2, USIZE)
    ensures var r := Run(capacity, 2, [Load(0, capacity, 1), Exchange(0), Load(1, capacity, 1), Reset]);
            r.Some? && Enabled(r.value, GiveUp(1)) && r.value.cursor == 0 && AlignUp(0, 1) + capacity <= capacity
  {
    hide Run, AlignUp, Pow;
    var l0, l1 := Load(0, capacity, 1), Load(1, capacity, 1);
    assert [] + [l0] == [l0] && [l0] + [Exchange(0)] == [l0, Exchange(0)];
    assert [l0, Exchange(0)] + [l1] == [l0, Exchange(0), l1];
    assert [l0, Exchange(0), l1] + [Reset] == [l0, Exchange(0), l1, Reset];
    AlignToByte(0);
    AlignToByte(capacity);
    RunNone(capacity, 2);
    RunMore(capacity, 2, [], l0);
    RunMore(capacity, 2, [l0], Exchange(0));
    RunMore(capacity, 2, [l0, Exchange(0)], l1);
    RunMore(capacity, 2, [l0, Exchange(0), l1], Reset);
  }

  lemma RunNone(capacity: nat, n: nat)
    ensures Run(capacity, n, []) == Some(Start(capacity, n))
  {}

  /** A size that wraps: the second allocation runs to the end of the address space, brings the cursor back to 0, and
      the third is handed the bytes of the first. */
  lemma WrapOverlaps(capacity: nat)
    requires 64 <= capacity < Pow(2, USIZE)
    ensures var big := Pow(2, USIZE) - 64;
            var steps := [Load(0, 64, 1), Exchange(0), Load(0, big, 1), Exchange(0), Load(0, 64, 1), Exchange(0)];
            big >= 0 && AtRest(capacity, steps, 64, [Region(0, 64, 1), Region(64, 64 + big, 1), Region(0, 64, 1)])
  {
    hide *;
    var big := Pow(2, USIZE) - 64;
    var x, one, two := Exchange(0), Region(0, 64, 1), Region(64, 64 + big, 1);
    AlignToByte(0);
    AlignToByte(64);
    BackToZero();
    assert NewCursor(0, 64, 1) == 64;
    AllocRuns(capacity, [], 0, [], 64);
    assert [] + [Load(0, 64, 1), x] == [Load(0, 64, 1), x] && [] + [one] == [one];
    AllocRuns(capacity, [Load(0, 64, 1), x], 64, [one], big);
    assert [Load(0, 64, 1), x] + [Load(0, big, 1), x] == [Load(0, 64, 1), x, Load(0, big, 1), x] && [one] + [two] == [one, two];
    AllocRuns(capacity, [Load(0, 64, 1), x, Load(0, big, 1), x], 0, [one, two], 64);
    assert [Load(0, 64, 1), x, Load(0, big, 1), x] + [Load(0, 64, 1), x]
        == [Load(0, 64, 1), x, Load(0, big, 1), x, Load(0, 64, 1), x];
    assert [one, two] + [one] == [one, two, one];
  }

  /** The only thread, not in the middle of an allocation. */
  ghost predicate AtRest(capacity: nat, steps: seq<Step>, cursor: nat, regions: seq<Region>)
  {
    Run(capacity, 1, steps) == Some(State(cursor, capacity, [Idle], regions, 0, false))
  }

  lemma AllocRuns(capacity: nat, steps: seq<Step>, cursor: nat, regions: seq<Region>, size: nat)
    requires if steps == [] then cursor == 0 && regions == [] else AtRest(capacity, steps, cursor, regions)
    requires size < Pow(2, USIZE) && 1 < Pow(2, USIZE) && AlignUp(cursor, 1) == cursor <= capacity
    requires NewCursor(cursor, size, 1) <= capacity
    ensures AtRest(capacity, steps + [Load(0, size, 1), Exchange(0)], NewCursor(cursor, size, 1),
                   regions + [Region(cursor, cursor + size, 1)])
  {
    hide Run, AlignUp, Pow, NewCursor;
    if steps == [] {
      RunNone(capacity, 1);
      assert seq(1, _ => Idle) == [Idle];
    }
    var load, loaded := Load(0, size, 1), Loaded(cursor, size, 1, 0);
    assert [Idle][0 := loaded] == [loaded] && [loaded][0 := Idle] == [Idle];
    RunMore(capacity, 1, steps, load);
    RunMore(capacity, 1, steps + [load], Exchange(0));
    assert steps + [load] + [Exchange(0)] == steps + [load, Exchange(0)];
  }

  lemma BackToZero()
    requires 64 < Pow(2, USIZE)
    ensures NewCursor(64, Pow(2, USIZE) - 64, 1) == 0
  {
    hide AlignUp, Pow;
    AlignToByte(64);
    WrapIs(Pow(2, USIZE));
  }

  // ── One caller ───────────────────────────────────────────────────

  datatype Outcome = Handed(offset: nat) | Exhausted | Aborted

  class BumpArena {
    const capacity: nat
    var cursor: nat

    constructor (capacity: nat)
      ensures this.capacity == capacity && cursor == 0
    {
      this.capacity, cursor := capacity, 0;
    }

    method CompareExchangeWeak(expected: nat, value: nat, spurious: bool) returns (ok: bool)
      modifies this
      ensures ok <==> old(cursor) == expected && !spurious
      ensures cursor == if ok then value else old(cursor)
    {
      ok := cursor == expected && !spurious;
      if ok { cursor := value; }
    }

    /** With nobody else running, however often the weak exchange fails spuriously: the aligned offset if the new
        cursor is within the capacity, and no change otherwise; an offset past the buffer aborts. */
    method Alloc(size: nat, align: nat, failures: nat) returns (r: Outcome)
      modifies this
      ensures var aligned, next := AlignUp(old(cursor), align), NewCursor(old(cursor), size, align);
              if next > capacity then r == Exhausted && cursor == old(cursor)
              else cursor == next && r == if aligned > capacity then Aborted else Handed(aligned)
    {
      hide AlignUp, Wrap;
      var left := failures;
      while true
        invariant cursor == old(cursor)
        decreases left
      {
        var current := cursor;
        var aligned := AlignUp(current, align);
        var newCursor := Wrap(aligned + size);
        if newCursor > capacity { return Exhausted; }
        var ok := CompareExchangeWeak(current, newCursor, left > 0);
        if ok { return if aligned > capacity then Aborted else Handed(aligned); }
        left := left - 1;
      }
    }

    method Reset()
      modifies this
      ensures cursor == 0
    {
      cursor := 0;
    }
  }
}
