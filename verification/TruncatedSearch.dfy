/** A graph with a negative cycle of two hops that the search misses at the shipped hop limit. */
module TruncatedSearch {
  import opened Arith
  import opened Wrappers
  import opened GraphTheory
  import opened Relaxation
  import opened Graph
  import opened Completeness

  const MAX_HOPS: nat := 4

  function Hop(i: nat): PriceEdge
    requires i < 7
  {
    match i
    case 0 => PriceEdge(1, 0, 0, -3, true)
    case 1 => PriceEdge(2, 3, 1, -2, true)
    case 2 => PriceEdge(0, 2, 2, -4, true)
    case 3 => PriceEdge(3, 4, 3, 2, true)
    case 4 => PriceEdge(4, 5, 4, -3, true)
    case 5 => PriceEdge(5, 1, 5, -28, true)
    case 6 => PriceEdge(0, 1, 6, -1, true)
  }

  /** The loop 0, 1 weighs -4; the loop through all six nodes -38. */
  function Hops7(): (edges: seq<PriceEdge>)
    ensures |edges| == 7 && WellFormed(edges, 6)
    ensures forall i :: 0 <= i < 7 ==> edges[i] == Hop(i)
  {
    [Hop(0), Hop(1), Hop(2), Hop(3), Hop(4), Hop(5), Hop(6)]
  }

  /** The entry that edge i writes. */
  function Via(i: nat): Pred
    requires i < 7
  {
    Pred(Hop(i).src, i, true)
  }

  ghost predicate Sized(r: Run)
  {
    |r.dist| == |r.pred| == 6
  }

  function Pass7(r: Run): (r': Run)
    requires Sized(r)
    ensures Sized(r')
  {
    Relaxed(Relaxed(Relaxed(Relaxed(Relaxed(Relaxed(Relaxed(r, Hop(0)), Hop(1)), Hop(2)), Hop(3)), Hop(4)), Hop(5)), Hop(6))
  }

  lemma PassIs(r: Run)
    requires Sized(r)
    ensures PassTo(Hops7(), r, 7) == Pass7(r)
  {
    hide Relaxed, Hop;
    var h := Hops7();
    assert PassTo(h, r, 1) == Relaxed(r, Hop(0));
    assert PassTo(h, r, 2) == Relaxed(PassTo(h, r, 1), Hop(1));
    assert PassTo(h, r, 3) == Relaxed(PassTo(h, r, 2), Hop(2));
    assert PassTo(h, r, 4) == Relaxed(PassTo(h, r, 3), Hop(3));
    assert PassTo(h, r, 5) == Relaxed(PassTo(h, r, 4), Hop(4));
    assert PassTo(h, r, 6) == Relaxed(PassTo(h, r, 5), Hop(5));
  }

  /** One pass leads from a to b. */
  ghost predicate Goes(a: Run, b: Run)
  {
    Sized(a) && Pass7(a) == b
  }

  /** The predecessors run once around all six nodes. */
  ghost predicate EndsInLongCycle(s: nat)
    requires s < 6
  {
    RunOf(Hops7(), 6, s, MAX_HOPS).pred == LongCycle()
  }

  function LongCycle(): seq<Pred> { [Via(0), Via(5), Via(2), Via(1), Via(3), Via(4)] }

  /** The state in which the long cycle has closed, at any distance. */
  function Around(d: int): Run
  {
    Run([d - 4, d - 35, d - 8, d - 6, d - 4, d - 7], LongCycle())
  }

  function Between(d: int): Run
  {
    Run([d - 38, d - 39, d - 42, d - 10, d - 8, d - 11], LongCycle())
  }

  /** From there two passes lower every distance by the weight of the cycle. */
  lemma Onward(d: int)
    requires -1000 < d < 1000
    ensures Goes(Around(d), Between(d))
  {}

  lemma Further(d: int)
    requires -1000 < d < 1000
    ensures Goes(Between(d), Around(d - 38))
  {}

  lemma PassesGo(a: Run, k: nat, b: Run, c: Run)
    requires Shaped(Hops7(), a) && Passes(Hops7(), a, k) == b && Goes(b, c)
    ensures Passes(Hops7(), a, k + 1) == c
  {
    PassIs(b);
  }

  /** The long cycle after two passes. */
  lemma Finish2(s: nat, a: Run, b: Run, d: int)
    requires s < 6 && a == Start(6, s) && Goes(a, b) && Goes(b, Around(d)) && -1000 < d < 1000
    ensures EndsInLongCycle(s)
  {
    hide Goes, Passes;
    NoPass(a);
    PassesGo(a, 0, a, b);
    PassesGo(a, 1, b, Around(d));
    Onward(d);
    PassesGo(a, 2, Around(d), Between(d));
    Further(d);
    PassesGo(a, 3, Between(d), Around(d - 38));
  }

  /** The long cycle after three passes. */
  lemma Finish3(s: nat, a: Run, b: Run, c: Run, d: int)
    requires s < 6 && a == Start(6, s) && Goes(a, b) && Goes(b, c) && Goes(c, Around(d)) && -1000 < d < 1000
    ensures EndsInLongCycle(s)
  {
    hide Goes, Passes;
    NoPass(a);
    PassesGo(a, 0, a, b);
    PassesGo(a, 1, b, c);
    PassesGo(a, 2, c, Around(d));
    Onward(d);
    PassesGo(a, 3, Around(d), Between(d));
  }

  lemma NoPass(a: Run)
    requires |a.dist| == |a.pred| == 6
    ensures Shaped(Hops7(), a) && Passes(Hops7(), a, 0) == a
  {}

  lemma Pass00()
    ensures Goes(Run([0, INFINITE, INFINITE, INFINITE, INFINITE, INFINITE], [NO_PRED, NO_PRED, NO_PRED, NO_PRED, NO_PRED, NO_PRED]),
                 Run([0, -1, -4, INFINITE, INFINITE, INFINITE], [NO_PRED, Via(6), Via(2), NO_PRED, NO_PRED, NO_PRED]))
  {}

  lemma Pass01()
    ensures Goes(Run([0, -1, -4, INFINITE, INFINITE, INFINITE], [NO_PRED, Via(6), Via(2), NO_PRED, NO_PRED, NO_PRED]),
                 Around(0))
  {}

  lemma From0()
    ensures EndsInLongCycle(0)
  {
    hide Goes, EndsInLongCycle, Around;
    assert Start(6, 0) == Run([0, INFINITE, INFINITE, INFINITE, INFINITE, INFINITE], [NO_PRED, NO_PRED, NO_PRED, NO_PRED, NO_PRED, NO_PRED]);
    Pass00();
    Pass01();
    Finish2(0, Start(6, 0), Run([0, -1, -4, INFINITE, INFINITE, INFINITE], [NO_PRED, Via(6), Via(2), NO_PRED, NO_PRED, NO_PRED]), 0);
  }

  lemma Pass10()
    ensures Goes(Run([INFINITE, 0, INFINITE, INFINITE, INFINITE, INFINITE], [NO_PRED, NO_PRED, NO_PRED, NO_PRED, NO_PRED, NO_PRED]),
                 Run([-3, -4, -7, INFINITE, INFINITE, INFINITE], [Via(0), Via(6), Via(2), NO_PRED, NO_PRED, NO_PRED]))
  {}

  lemma Pass11()
    ensures Goes(Run([-3, -4, -7, INFINITE, INFINITE, INFINITE], [Via(0), Via(6), Via(2), NO_PRED, NO_PRED, NO_PRED]),
                 Around(-3))
  {}

  lemma From1()
    ensures EndsInLongCycle(1)
  {
    hide Goes, EndsInLongCycle, Around;
    assert Start(6, 1) == Run([INFINITE, 0, INFINITE, INFINITE, INFINITE, INFINITE], [NO_PRED, NO_PRED, NO_PRED, NO_PRED, NO_PRED, NO_PRED]);
    Pass10();
    Pass11();
    Finish2(1, Start(6, 1), Run([-3, -4, -7, INFINITE, INFINITE, INFINITE], [Via(0), Via(6), Via(2), NO_PRED, NO_PRED, NO_PRED]), -3);
  }

  lemma Pass20()
    ensures Goes(Run([INFINITE, INFINITE, 0, INFINITE, INFINITE, INFINITE], [NO_PRED, NO_PRED, NO_PRED, NO_PRED, NO_PRED, NO_PRED]),
                 Run([INFINITE, -31, 0, -2, 0, -3], [NO_PRED, Via(5), NO_PRED, Via(1), Via(3), Via(4)]))
  {}

  lemma Pass21()
    ensures Goes(Run([INFINITE, -31, 0, -2, 0, -3], [NO_PRED, Via(5), NO_PRED, Via(1), Via(3), Via(4)]),
                 Run([-34, -35, -38, -2, 0, -3], [Via(0), Via(6), Via(2), Via(1), Via(3), Via(4)]))
  {}

  lemma Pass22()
    ensures Goes(Run([-34, -35, -38, -2, 0, -3], [Via(0), Via(6), Via(2), Via(1), Via(3), Via(4)]),
                 Around(-34))
  {}

  lemma From2()
    ensures EndsInLongCycle(2)
  {
    hide Goes, EndsInLongCycle, Around;
    assert Start(6, 2) == Run([INFINITE, INFINITE, 0, INFINITE, INFINITE, INFINITE], [NO_PRED, NO_PRED, NO_PRED, NO_PRED, NO_PRED, NO_PRED]);
    Pass20();
    Pass21();
    Pass22();
    Finish3(2, Start(6, 2), Run([INFINITE, -31, 0, -2, 0, -3], [NO_PRED, Via(5), NO_PRED, Via(1), Via(3), Via(4)]), Run([-34, -35, -38, -2, 0, -3], [Via(0), Via(6), Via(2), Via(1), Via(3), Via(4)]), -34);
  }

  lemma Pass30()
    ensures Goes(Run([INFINITE, INFINITE, INFINITE, 0, INFINITE, INFINITE], [NO_PRED, NO_PRED, NO_PRED, NO_PRED, NO_PRED, NO_PRED]),
                 Run([INFINITE, -29, INFINITE, 0, 2, -1], [NO_PRED, Via(5), NO_PRED, NO_PRED, Via(3), Via(4)]))
  {}

  lemma Pass31()
    ensures Goes(Run([INFINITE, -29, INFINITE, 0, 2, -1], [NO_PRED, Via(5), NO_PRED, NO_PRED, Via(3), Via(4)]),
                 Run([-32, -33, -36, 0, 2, -1], [Via(0), Via(6), Via(2), NO_PRED, Via(3), Via(4)]))
  {}

  lemma Pass32()
    ensures Goes(Run([-32, -33, -36, 0, 2, -1], [Via(0), Via(6), Via(2), NO_PRED, Via(3), Via(4)]),
                 Around(-32))
  {}

  lemma From3()
    ensures EndsInLongCycle(3)
  {
    hide Goes, EndsInLongCycle, Around;
    assert Start(6, 3) == Run([INFINITE, INFINITE, INFINITE, 0, INFINITE, INFINITE], [NO_PRED, NO_PRED, NO_PRED, NO_PRED, NO_PRED, NO_PRED]);
    Pass30();
    Pass31();
    Pass32();
    Finish3(3, Start(6, 3), Run([INFINITE, -29, INFINITE, 0, 2, -1], [NO_PRED, Via(5), NO_PRED, NO_PRED, Via(3), Via(4)]), Run([-32, -33, -36, 0, 2, -1], [Via(0), Via(6), Via(2), NO_PRED, Via(3), Via(4)]), -32);
  }

  lemma Pass40()
    ensures Goes(Run([INFINITE, INFINITE, INFINITE, INFINITE, 0, INFINITE], [NO_PRED, NO_PRED, NO_PRED, NO_PRED, NO_PRED, NO_PRED]),
                 Run([INFINITE, -31, INFINITE, INFINITE, 0, -3], [NO_PRED, Via(5), NO_PRED, NO_PRED, NO_PRED, Via(4)]))
  {}

  lemma Pass41()
    ensures Goes(Run([INFINITE, -31, INFINITE, INFINITE, 0, -3], [NO_PRED, Via(5), NO_PRED, NO_PRED, NO_PRED, Via(4)]),
                 Run([-34, -35, -38, INFINITE, 0, -3], [Via(0), Via(6), Via(2), NO_PRED, NO_PRED, Via(4)]))
  {}

  lemma Pass42()
    ensures Goes(Run([-34, -35, -38, INFINITE, 0, -3], [Via(0), Via(6), Via(2), NO_PRED, NO_PRED, Via(4)]),
                 Around(-34))
  {}

  lemma From4()
    ensures EndsInLongCycle(4)
  {
    hide Goes, EndsInLongCycle, Around;
    assert Start(6, 4) == Run([INFINITE, INFINITE, INFINITE, INFINITE, 0, INFINITE], [NO_PRED, NO_PRED, NO_PRED, NO_PRED, NO_PRED, NO_PRED]);
    Pass40();
    Pass41();
    Pass42();
    Finish3(4, Start(6, 4), Run([INFINITE, -31, INFINITE, INFINITE, 0, -3], [NO_PRED, Via(5), NO_PRED, NO_PRED, NO_PRED, Via(4)]), Run([-34, -35, -38, INFINITE, 0, -3], [Via(0), Via(6), Via(2), NO_PRED, NO_PRED, Via(4)]), -34);
  }

  lemma Pass50()
    ensures Goes(Run([INFINITE, INFINITE, INFINITE, INFINITE, INFINITE, 0], [NO_PRED, NO_PRED, NO_PRED, NO_PRED, NO_PRED, NO_PRED]),
                 Run([INFINITE, -28, INFINITE, INFINITE, INFINITE, 0], [NO_PRED, Via(5), NO_PRED, NO_PRED, NO_PRED, NO_PRED]))
  {}

  lemma Pass51()
    ensures Goes(Run([INFINITE, -28, INFINITE, INFINITE, INFINITE, 0], [NO_PRED, Via(5), NO_PRED, NO_PRED, NO_PRED, NO_PRED]),
                 Run([-31, -32, -35, INFINITE, INFINITE, 0], [Via(0), Via(6), Via(2), NO_PRED, NO_PRED, NO_PRED]))
  {}

  lemma Pass52()
    ensures Goes(Run([-31, -32, -35, INFINITE, INFINITE, 0], [Via(0), Via(6), Via(2), NO_PRED, NO_PRED, NO_PRED]),
                 Around(-31))
  {}

  lemma From5()
    ensures EndsInLongCycle(5)
  {
    hide Goes, EndsInLongCycle, Around;
    assert Start(6, 5) == Run([INFINITE, INFINITE, INFINITE, INFINITE, INFINITE, 0], [NO_PRED, NO_PRED, NO_PRED, NO_PRED, NO_PRED, NO_PRED]);
    Pass50();
    Pass51();
    Pass52();
    Finish3(5, Start(6, 5), Run([INFINITE, -28, INFINITE, INFINITE, INFINITE, 0], [NO_PRED, Via(5), NO_PRED, NO_PRED, NO_PRED, NO_PRED]), Run([-31, -32, -35, INFINITE, INFINITE, 0], [Via(0), Via(6), Via(2), NO_PRED, NO_PRED, NO_PRED]), -31);
  }

  /** One step back along the long cycle. */
  function Before(v: nat): nat { match v case 0 => 1 case 1 => 5 case 2 => 0 case 3 => 2 case 4 => 3 case _ => 4 }

  lemma OneBack(v: nat, k: nat, u: nat)
    requires u < 6 && Back(LongCycle(), v, k) == Some(u)
    ensures Back(LongCycle(), v, k + 1) == Some(Before(u)) && Before(u) < 6
  {}

  lemma {:induction false} StaysInside(v: nat, k: nat)
    requires v < 6
    ensures Back(LongCycle(), v, k).Some? && Back(LongCycle(), v, k).value < 6
  {
    if k > 0 {
      StaysInside(v, k - 1);
      OneBack(v, k - 1, Back(LongCycle(), v, k - 1).value);
    }
  }

  lemma NoEarlyReturn(c: nat, l: nat)
    requires c < 6 && 2 <= l <= 5
    ensures Back(LongCycle(), c, l) != Some(c)
  {
    hide Back;
    Nothing(c);
    var c1 := Before(c);
    var c2 := Before(c1);
    var c3 := Before(c2);
    var c4 := Before(c3);
    OneBack(c, 0, c);
    OneBack(c, 1, c1);
    OneBack(c, 2, c2);
    OneBack(c, 3, c3);
    OneBack(c, 4, c4);
  }

  lemma Nothing(c: nat)
    ensures Back(LongCycle(), c, 0) == Some(c)
  {}

  lemma TooLong(v: nat)
    requires v < 6
    ensures !Traceable(LongCycle(), v, 6, MAX_HOPS)
  {
    hide Back;
    StaysInside(v, 6);
    var c := Back(LongCycle(), v, 6).value;
    forall l | 2 <= l <= 5 ensures Back(LongCycle(), c, l) != Some(c) { NoEarlyReturn(c, l); }
  }

  /** So with four hops nothing is returned, although the graph has a negative cycle of two. */
  lemma ShortCycleIsMissed(cycles: seq<ArbCycle>)
    requires Detected(Hops7(), 6, cycles, MAX_HOPS)
    ensures cycles == [] && NegativeLoop(Hops7(), [Hop(6), Hop(0)], 0)
    ensures NoSelfEdges(Hops7())
  {
    hide RunOf, Traceable, NegativeLoop;
    forall s: nat, i: nat ensures !Reports(Hops7(), 6, MAX_HOPS, s, i) {
      if s < 6 && i < 7 {
        EveryRun(s);
        TooLong(Hops7()[i].dst);
      }
    }
    NothingReported(Hops7(), 6, cycles, MAX_HOPS);
    TwoHopLoop();
  }

  lemma EveryRun(s: nat)
    requires s < 6
    ensures EndsInLongCycle(s)
  {
    hide EndsInLongCycle;
    From0();
    From1();
    From2();
    From3();
    From4();
    From5();
  }

  lemma TwoHopLoop()
    ensures NegativeLoop(Hops7(), [Hop(6), Hop(0)], 0)
  {
    var c := [Hop(6), Hop(0)];
    assert c[..1] == [Hop(6)] && c[..1][..0] == [];
    assert Hops7()[6] == Hop(6) && Hops7()[0] == Hop(0);
    assert Walk(Hops7(), c[..1], 0, 1);
    assert WalkSum(c[..1]) == -1;
  }
}
