/** The tiled matrix product and the attention scores built on it. Addition and multiplication are
    uninterpreted, so the results below hold bit for bit for rounded arithmetic. */
module Gemm {
  import opened Arith

  const TILE: nat := 64

  datatype Ops<!F> = Ops(zero: F, add: (F, F) -> F, mul: (F, F) -> F)

  /** Row-major index. */
  function Idx(i: nat, width: nat, j: nat): nat
  {
    MulMonotone(0, i, width);
    i * width + j
  }

  lemma IdxBound(i: nat, rows: nat, j: nat, width: nat)
    requires i < rows && j < width
    ensures Idx(i, width, j) < rows * width
  {
    MulMonotone(i + 1, rows, width);
  }

  lemma IdxInjective(i: nat, i': nat, j: nat, j': nat, width: nat)
    requires j < width && j' < width && Idx(i, width, j) == Idx(i', width, j')
    ensures i == i' && j == j'
  {
    if i < i' { MulMonotone(i + 1, i', width); }
    if i' < i { MulMonotone(i' + 1, i, width); }
  }

  /** a is m by k, b is k by n. */
  datatype Problem<!F> = Problem(ops: Ops<F>, a: seq<F>, b: seq<F>, m: nat, k: nat, n: nat)
  {
    ghost predicate Ok()
    {
      m * k <= |a| && k * n <= |b|
    }

    /** zero + a[i,0] b[0,j] + ... + a[i,p-1] b[p-1,j], associated to the left. */
    function Fold(i: nat, j: nat, p: nat): F
      requires Ok() && i < m && j < n && p <= k
    {
      if p == 0 then ops.zero
      else
        IdxBound(i, m, p - 1, k);
        IdxBound(p - 1, k, j, n);
        ops.add(Fold(i, j, p - 1), ops.mul(a[Idx(i, k, p - 1)], b[Idx(p - 1, n, j)]))
    }

    /** Entry (i, j) of the output holds the first p terms. */
    ghost predicate Holds(c: seq<F>, i: nat, j: nat, p: nat)
      requires Ok()
    {
      i < m && j < n && p <= k && Idx(i, n, j) < |c| && c[Idx(i, n, j)] == Fold(i, j, p)
    }

    /** All entries of rows [i0, i1) and columns [j0, j1) hold their first p terms. */
    ghost predicate Block(c: seq<F>, i0: nat, i1: nat, j0: nat, j1: nat, p: nat)
      requires Ok()
    {
      forall i, j :: i0 <= i < i1 && j0 <= j < j1 ==> Holds(c, i, j, p)
    }
  }

  ghost predicate Same<F>(c: seq<F>, d: seq<F>, i: nat, j: nat, width: nat)
  {
    |c| == |d| && (Idx(i, width, j) < |c| ==> c[Idx(i, width, j)] == d[Idx(i, width, j)])
  }

  /** d differs from c at most in the given block, and nowhere past the matrix. */
  ghost predicate OnlyBlock<F>(c: seq<F>, d: seq<F>, i0: nat, i1: nat, j0: nat, j1: nat, m: nat, n: nat)
  {
    && |c| == |d|
    && (forall i, j {:trigger Same(c, d, i, j, n)} ::
          0 <= i < m && 0 <= j < n && !(i0 <= i < i1 && j0 <= j < j1) ==> Same(c, d, i, j, n))
    && (forall x :: m * n <= x < |c| ==> c[x] == d[x])
  }

  lemma OnlyBlockKeeps<F>(pr: Problem<F>, c: seq<F>, d: seq<F>, i0: nat, i1: nat, j0: nat, j1: nat,
                          p0: nat, p1: nat, q0: nat, q1: nat, t: nat)
    requires pr.Ok() && OnlyBlock(c, d, i0, i1, j0, j1, pr.m, pr.n) && pr.Block(c, p0, p1, q0, q1, t)
    requires p1 <= i0 || i1 <= p0 || q1 <= j0 || j1 <= q0
    ensures pr.Block(d, p0, p1, q0, q1, t)
  {
    forall i, j | p0 <= i < p1 && q0 <= j < q1 ensures pr.Holds(d, i, j, t) {
      assert pr.Holds(c, i, j, t);
      assert Same(c, d, i, j, pr.n);
    }
  }

  lemma OnlyBlockTrans<F>(c: seq<F>, d: seq<F>, e: seq<F>, i0: nat, i1: nat, j0: nat, j1: nat, m: nat, n: nat)
    requires OnlyBlock(c, d, i0, i1, j0, j1, m, n) && OnlyBlock(d, e, i0, i1, j0, j1, m, n)
    ensures OnlyBlock(c, e, i0, i1, j0, j1, m, n)
  {
    forall i: nat, j: nat | i < m && j < n && !(i0 <= i < i1 && j0 <= j < j1) ensures Same(c, e, i, j, n) {
      assert Same(c, d, i, j, n) && Same(d, e, i, j, n);
    }
  }

  lemma OnlyBlockWiden<F>(c: seq<F>, d: seq<F>, i0: nat, i1: nat, j0: nat, j1: nat,
                          p0: nat, p1: nat, q0: nat, q1: nat, m: nat, n: nat)
    requires OnlyBlock(c, d, i0, i1, j0, j1, m, n) && p0 <= i0 && i1 <= p1 && q0 <= j0 && j1 <= q1
    ensures OnlyBlock(c, d, p0, p1, q0, q1, m, n)
  {
    forall i: nat, j: nat | i < m && j < n && !(p0 <= i < p1 && q0 <= j < q1) ensures Same(c, d, i, j, n) {}
  }

  lemma OnlyOne<F>(c: seq<F>, i: nat, j: nat, v: F, m: nat, n: nat)
    requires i < m && j < n && m * n <= |c|
    ensures Idx(i, n, j) < |c| && OnlyBlock(c, c[Idx(i, n, j) := v], i, i + 1, j, j + 1, m, n)
  {
    IdxBound(i, m, j, n);
    var d := c[Idx(i, n, j) := v];
    forall i': nat, j': nat | i' < m && j' < n && !(i <= i' < i + 1 && j <= j' < j + 1) ensures Same(c, d, i', j', n) {
      if Idx(i, n, j) == Idx(i', n, j') { IdxInjective(i, i', j, j', n); }
    }
  }

  // ── The kernel ───────────────────────────────────────────────────

  /** The innermost loop. */
  method Accumulate<F>(pr: Problem<F>, start: F, i: nat, j: nat, kk: nat, kEnd: nat) returns (sum: F)
    requires pr.Ok() && i < pr.m && j < pr.n && kk <= kEnd <= pr.k && start == pr.Fold(i, j, kk)
    ensures sum == pr.Fold(i, j, kEnd)
  {
    sum := start;
    for p := kk to kEnd
      invariant sum == pr.Fold(i, j, p)
    {
      IdxBound(i, pr.m, p, pr.k);
      IdxBound(p, pr.k, j, pr.n);
      sum := pr.ops.add(sum, pr.ops.mul(pr.a[Idx(i, pr.k, p)], pr.b[Idx(p, pr.n, j)]));
    }
  }

  /** One row of a tile. */
  method KernelRow<F>(pr: Problem<F>, c: array<F>, i: nat, jj: nat, jEnd: nat, kk: nat, kEnd: nat)
    requires pr.Ok() && i < pr.m && jj <= jEnd <= pr.n && kk <= kEnd <= pr.k && pr.m * pr.n <= c.Length
    requires pr.Block(c[..], i, i + 1, jj, jEnd, kk)
    modifies c
    ensures pr.Block(c[..], i, i + 1, jj, jEnd, kEnd)
    ensures OnlyBlock(old(c[..]), c[..], i, i + 1, jj, jEnd, pr.m, pr.n)
  {
    hide *;
    SameItself(c[..], i, i + 1, jj, jEnd, pr.m, pr.n);
    EmptyBlock(pr, c[..], i, i + 1, jj, jj, kEnd);
    for j := jj to jEnd
      invariant pr.Block(c[..], i, i + 1, jj, j, kEnd) && pr.Block(c[..], i, i + 1, j, jEnd, kk)
      invariant OnlyBlock(old(c[..]), c[..], i, i + 1, jj, jEnd, pr.m, pr.n)
    {
      ghost var before := c[..];
      IdxBound(i, pr.m, j, pr.n);
      EntryHolds(pr, before, i, j, jEnd, kk);
      var sum := Accumulate(pr, c[Idx(i, pr.n, j)], i, j, kk, kEnd);
      OnlyOne(before, i, j, sum, pr.m, pr.n);
      c[Idx(i, pr.n, j)] := sum;
      assert c[..] == before[Idx(i, pr.n, j) := sum];
      RowStep(pr, before, c[..], i, jj, j, jEnd, kk, kEnd);
      OnlyBlockWiden(before, c[..], i, i + 1, j, j + 1, i, i + 1, jj, jEnd, pr.m, pr.n);
      OnlyBlockTrans(old(c[..]), before, c[..], i, i + 1, jj, jEnd, pr.m, pr.n);
    }
  }

  lemma SameItself<F>(c: seq<F>, i0: nat, i1: nat, j0: nat, j1: nat, m: nat, n: nat)
    ensures OnlyBlock(c, c, i0, i1, j0, j1, m, n)
  {}

  lemma EmptyBlock<F>(pr: Problem<F>, c: seq<F>, i0: nat, i1: nat, j0: nat, j1: nat, p: nat)
    requires pr.Ok() && (i0 >= i1 || j0 >= j1)
    ensures pr.Block(c, i0, i1, j0, j1, p)
  {}

  lemma EntryHolds<F>(pr: Problem<F>, c: seq<F>, i: nat, j: nat, jEnd: nat, p: nat)
    requires pr.Ok() && pr.Block(c, i, i + 1, j, jEnd, p) && j < jEnd <= pr.n && i < pr.m && p <= pr.k
    ensures Idx(i, pr.n, j) < |c| && c[Idx(i, pr.n, j)] == pr.Fold(i, j, p)
  {
    assert pr.Holds(c, i, j, p);
  }

  lemma RowStep<F>(pr: Problem<F>, c: seq<F>, d: seq<F>, i: nat, jj: nat, j: nat, jEnd: nat, kk: nat, kEnd: nat)
    requires pr.Ok() && i < pr.m && jj <= j < jEnd <= pr.n && kk <= kEnd <= pr.k && Idx(i, pr.n, j) < |d|
    requires pr.Block(c, i, i + 1, jj, j, kEnd) && pr.Block(c, i, i + 1, j, jEnd, kk)
    requires OnlyBlock(c, d, i, i + 1, j, j + 1, pr.m, pr.n) && d[Idx(i, pr.n, j)] == pr.Fold(i, j, kEnd)
    ensures pr.Block(d, i, i + 1, jj, j + 1, kEnd) && pr.Block(d, i, i + 1, j + 1, jEnd, kk)
  {
    SubBlock(pr, c, i, i + 1, j, jEnd, i, i + 1, j + 1, jEnd, kk);
    OnlyBlockKeeps(pr, c, d, i, i + 1, j, j + 1, i, i + 1, jj, j, kEnd);
    OnlyBlockKeeps(pr, c, d, i, i + 1, j, j + 1, i, i + 1, j + 1, jEnd, kk);
    assert pr.Holds(d, i, j, kEnd);
  }

  lemma SubBlock<F>(pr: Problem<F>, c: seq<F>, i0: nat, i1: nat, j0: nat, j1: nat, p0: nat, p1: nat, q0: nat, q1: nat, t: nat)
    requires pr.Ok() && pr.Block(c, i0, i1, j0, j1, t) && i0 <= p0 && p1 <= i1 && j0 <= q0 && q1 <= j1
    ensures pr.Block(c, p0, p1, q0, q1, t)
  {}

  lemma JoinRows<F>(pr: Problem<F>, c: seq<F>, i0: nat, i1: nat, i2: nat, j0: nat, j1: nat, t: nat)
    requires pr.Ok() && pr.Block(c, i0, i1, j0, j1, t) && pr.Block(c, i1, i2, j0, j1, t)
    ensures pr.Block(c, i0, i2, j0, j1, t)
  {
    forall i, j | i0 <= i < i2 && j0 <= j < j1 ensures pr.Holds(c, i, j, t) {}
  }

  lemma JoinColumns<F>(pr: Problem<F>, c: seq<F>, i0: nat, i1: nat, j0: nat, j1: nat, j2: nat, t: nat)
    requires pr.Ok() && pr.Block(c, i0, i1, j0, j1, t) && pr.Block(c, i0, i1, j1, j2, t)
    ensures pr.Block(c, i0, i1, j0, j2, t)
  {
    forall i, j | i0 <= i < i1 && j0 <= j < j2 ensures pr.Holds(c, i, j, t) {}
  }

  /** One tile: the terms [kk, kEnd) are added to every entry of the block, in order. */
  method Kernel<F>(pr: Problem<F>, c: array<F>, ii: nat, iEnd: nat, jj: nat, jEnd: nat, kk: nat, kEnd: nat)
    requires pr.Ok() && ii <= iEnd <= pr.m && jj <= jEnd <= pr.n && kk <= kEnd <= pr.k && pr.m * pr.n <= c.Length
    requires pr.Block(c[..], ii, iEnd, jj, jEnd, kk)
    modifies c
    ensures pr.Block(c[..], ii, iEnd, jj, jEnd, kEnd)
    ensures OnlyBlock(old(c[..]), c[..], ii, iEnd, jj, jEnd, pr.m, pr.n)
  {
    hide *;
    SameItself(c[..], ii, iEnd, jj, jEnd, pr.m, pr.n);
    EmptyBlock(pr, c[..], ii, ii, jj, jEnd, kEnd);
    for i := ii to iEnd
      invariant pr.Block(c[..], ii, i, jj, jEnd, kEnd) && pr.Block(c[..], i, iEnd, jj, jEnd, kk)
      invariant OnlyBlock(old(c[..]), c[..], ii, iEnd, jj, jEnd, pr.m, pr.n)
    {
      ghost var before := c[..];
      SubBlock(pr, before, i, iEnd, jj, jEnd, i, i + 1, jj, jEnd, kk);
      SubBlock(pr, before, i, iEnd, jj, jEnd, i + 1, iEnd, jj, jEnd, kk);
      KernelRow(pr, c, i, jj, jEnd, kk, kEnd);
      OnlyBlockKeeps(pr, before, c[..], i, i + 1, jj, jEnd, ii, i, jj, jEnd, kEnd);
      OnlyBlockKeeps(pr, before, c[..], i, i + 1, jj, jEnd, i + 1, iEnd, jj, jEnd, kk);
      JoinRows(pr, c[..], ii, i, i + 1, jj, jEnd, kEnd);
      OnlyBlockWiden(before, c[..], i, i + 1, jj, jEnd, ii, iEnd, jj, jEnd, pr.m, pr.n);
      OnlyBlockTrans(old(c[..]), before, c[..], ii, iEnd, jj, jEnd, pr.m, pr.n);
    }
  }

  // ── The tile loops ───────────────────────────────────────────────

  function Min(a: nat, b: nat): nat { if a < b then a else b }

  /** All tiles along k for one output block. */
  method InnerTiles<F>(pr: Problem<F>, c: array<F>, ii: nat, iEnd: nat, jj: nat, jEnd: nat)
    requires pr.Ok() && ii <= iEnd <= pr.m && jj <= jEnd <= pr.n && pr.m * pr.n <= c.Length
    requires pr.Block(c[..], ii, iEnd, jj, jEnd, 0)
    modifies c
    ensures pr.Block(c[..], ii, iEnd, jj, jEnd, pr.k)
    ensures OnlyBlock(old(c[..]), c[..], ii, iEnd, jj, jEnd, pr.m, pr.n)
  {
    hide Problem.Block, Problem.Ok, OnlyBlock;
    var kk: nat := 0;
    SameItself(c[..], ii, iEnd, jj, jEnd, pr.m, pr.n);
    while kk < pr.k
      invariant pr.Block(c[..], ii, iEnd, jj, jEnd, Min(kk, pr.k))
      invariant OnlyBlock(old(c[..]), c[..], ii, iEnd, jj, jEnd, pr.m, pr.n)
    {
      ghost var before := c[..];
      Kernel(pr, c, ii, iEnd, jj, jEnd, kk, Min(kk + TILE, pr.k));
      OnlyBlockTrans(old(c[..]), before, c[..], ii, iEnd, jj, jEnd, pr.m, pr.n);
      kk := kk + TILE;
    }
  }

  /** All blocks of one band of rows. */
  method RowBand<F>(pr: Problem<F>, c: array<F>, ii: nat, iEnd: nat)
    requires pr.Ok() && ii <= iEnd <= pr.m && pr.m * pr.n <= c.Length
    requires pr.Block(c[..], ii, iEnd, 0, pr.n, 0)
    modifies c
    ensures pr.Block(c[..], ii, iEnd, 0, pr.n, pr.k)
    ensures OnlyBlock(old(c[..]), c[..], ii, iEnd, 0, pr.n, pr.m, pr.n)
  {
    hide Problem.Block, Problem.Ok, OnlyBlock;
    var jj: nat := 0;
    SameItself(c[..], ii, iEnd, 0, pr.n, pr.m, pr.n);
    EmptyBlock(pr, c[..], ii, iEnd, 0, 0, pr.k);
    while jj < pr.n
      invariant pr.Block(c[..], ii, iEnd, 0, Min(jj, pr.n), pr.k) && pr.Block(c[..], ii, iEnd, Min(jj, pr.n), pr.n, 0)
      invariant OnlyBlock(old(c[..]), c[..], ii, iEnd, 0, pr.n, pr.m, pr.n)
    {
      var jEnd := Min(jj + TILE, pr.n);
      ghost var before := c[..];
      SubBlock(pr, before, ii, iEnd, jj, pr.n, ii, iEnd, jj, jEnd, 0);
      SubBlock(pr, before, ii, iEnd, jj, pr.n, ii, iEnd, jEnd, pr.n, 0);
      InnerTiles(pr, c, ii, iEnd, jj, jEnd);
      OnlyBlockKeeps(pr, before, c[..], ii, iEnd, jj, jEnd, ii, iEnd, 0, jj, pr.k);
      OnlyBlockKeeps(pr, before, c[..], ii, iEnd, jj, jEnd, ii, iEnd, jEnd, pr.n, 0);
      JoinColumns(pr, c[..], ii, iEnd, 0, jj, jEnd, pr.k);
      OnlyBlockWiden(before, c[..], ii, iEnd, jj, jEnd, ii, iEnd, 0, pr.n, pr.m, pr.n);
      OnlyBlockTrans(old(c[..]), before, c[..], ii, iEnd, 0, pr.n, pr.m, pr.n);
      jj := jj + TILE;
    }
  }

  /** Every output entry is the plain left-to-right fold of its row and column: tiling changes neither the terms
      nor their order. Entries past the matrix are zeroed. */
  method GemmTiled<F>(ops: Ops<F>, a: seq<F>, b: seq<F>, c: array<F>, m: nat, k: nat, n: nat)
    requires m * k <= |a| && k * n <= |b| && m * n <= c.Length
    modifies c
    ensures Problem(ops, a, b, m, k, n).Ok()
    ensures forall i, j :: 0 <= i < m && 0 <= j < n ==> Problem(ops, a, b, m, k, n).Holds(c[..], i, j, k)
    ensures forall x :: m * n <= x < c.Length ==> c[x] == ops.zero
  {
    var pr := Problem(ops, a, b, m, k, n);
    for x := 0 to c.Length
      invariant forall y :: 0 <= y < x ==> c[y] == ops.zero
    {
      c[x] := ops.zero;
    }
    AllZero(pr, c[..]);
    ghost var zeros := c[..];
    SameItself(zeros, 0, m, 0, n, m, n);
    EmptyBlock(pr, c[..], 0, 0, 0, n, k);
    Bands(pr, c);
    assert forall x :: m * n <= x < c.Length ==> zeros[x] == c[..][x];
    forall i, j | 0 <= i < m && 0 <= j < n ensures pr.Holds(c[..], i, j, k) {}
  }

  lemma AllZero<F>(pr: Problem<F>, c: seq<F>)
    requires pr.Ok() && pr.m * pr.n <= |c| && forall x :: 0 <= x < |c| ==> c[x] == pr.ops.zero
    ensures pr.Block(c, 0, pr.m, 0, pr.n, 0)
  {
    forall i, j | 0 <= i < pr.m && 0 <= j < pr.n ensures pr.Holds(c, i, j, 0) { IdxBound(i, pr.m, j, pr.n); }
  }

  method Bands<F>(pr: Problem<F>, c: array<F>)
    requires pr.Ok() && pr.m * pr.n <= c.Length && pr.Block(c[..], 0, pr.m, 0, pr.n, 0)
    modifies c
    ensures pr.Block(c[..], 0, pr.m, 0, pr.n, pr.k)
    ensures OnlyBlock(old(c[..]), c[..], 0, pr.m, 0, pr.n, pr.m, pr.n)
  {
    hide Problem.Block, Problem.Ok, OnlyBlock;
    var ii: nat := 0;
    SameItself(c[..], 0, pr.m, 0, pr.n, pr.m, pr.n);
    EmptyBlock(pr, c[..], 0, 0, 0, pr.n, pr.k);
    while ii < pr.m
      invariant pr.Block(c[..], 0, Min(ii, pr.m), 0, pr.n, pr.k) && pr.Block(c[..], Min(ii, pr.m), pr.m, 0, pr.n, 0)
      invariant OnlyBlock(old(c[..]), c[..], 0, pr.m, 0, pr.n, pr.m, pr.n)
    {
      var iEnd := Min(ii + TILE, pr.m);
      ghost var before := c[..];
      SubBlock(pr, before, ii, pr.m, 0, pr.n, ii, iEnd, 0, pr.n, 0);
      SubBlock(pr, before, ii, pr.m, 0, pr.n, iEnd, pr.m, 0, pr.n, 0);
      RowBand(pr, c, ii, iEnd);
      OnlyBlockKeeps(pr, before, c[..], ii, iEnd, 0, pr.n, 0, ii, 0, pr.n, pr.k);
      OnlyBlockKeeps(pr, before, c[..], ii, iEnd, 0, pr.n, iEnd, pr.m, 0, pr.n, 0);
      JoinRows(pr, c[..], 0, ii, iEnd, 0, pr.n, pr.k);
      OnlyBlockWiden(before, c[..], ii, iEnd, 0, pr.n, 0, pr.m, 0, pr.n, pr.m, pr.n);
      OnlyBlockTrans(old(c[..]), before, c[..], 0, pr.m, 0, pr.n, pr.m, pr.n);
      ii := ii + TILE;
    }
  }

  // ── Attention scores ─────────────────────────────────────────────

  /** q[i,0] k[j,0] + ... + q[i,p-1] k[j,p-1] over the rows of query and key. */
  function RowFold<F>(ops: Ops<F>, query: seq<F>, key: seq<F>, d: nat, i: nat, j: nat, p: nat): F
    requires p <= d && Idx(i, d, d) <= |query| && Idx(j, d, d) <= |key|
  {
    if p == 0 then ops.zero
    else ops.add(RowFold(ops, query, key, d, i, j, p - 1),
                 ops.mul(query[Idx(i, d, p - 1)], key[Idx(j, d, p - 1)]))
  }

  ghost predicate TransposedAt<F>(t: seq<F>, key: seq<F>, n: nat, d: nat, i: nat, j: nat)
  {
    Idx(j, n, i) < |t| && Idx(i, d, j) < |key| && t[Idx(j, n, i)] == key[Idx(i, d, j)]
  }

  /** The transpose of the first n rows of key. */
  method Transpose<F>(zero: F, key: seq<F>, n: nat, d: nat) returns (t: array<F>)
    requires n * d <= |key|
    ensures fresh(t) && t.Length == d * n
    ensures forall i, j :: 0 <= i < n && 0 <= j < d ==> TransposedAt(t[..], key, n, d, i, j)
  {
    MulMonotone(0, d, n);
    t := new F[d * n](_ => zero);
    for i := 0 to n
      invariant forall i', j :: 0 <= i' < i && 0 <= j < d ==> TransposedAt(t[..], key, n, d, i', j)
    {
      TransposeRow(t, key, n, d, i);
    }
  }

  method TransposeRow<F>(t: array<F>, key: seq<F>, n: nat, d: nat, i: nat)
    requires n * d <= |key| && t.Length == d * n && i < n
    requires forall i', j :: 0 <= i' < i && 0 <= j < d ==> TransposedAt(t[..], key, n, d, i', j)
    modifies t
    ensures forall i', j :: 0 <= i' < i + 1 && 0 <= j < d ==> TransposedAt(t[..], key, n, d, i', j)
  {
    hide *;
    for j := 0 to d
      invariant forall i', j' :: 0 <= i' < i && 0 <= j' < d ==> TransposedAt(t[..], key, n, d, i', j')
      invariant forall j' :: 0 <= j' < j ==> TransposedAt(t[..], key, n, d, i, j')
    {
      IdxBound(j, d, i, n);
      IdxBound(i, n, j, d);
      ghost var before := t[..];
      t[Idx(j, n, i)] := key[Idx(i, d, j)];
      assert t[..] == before[Idx(j, n, i) := key[Idx(i, d, j)]];
      forall i', j' | 0 <= i' < i && 0 <= j' < d ensures TransposedAt(t[..], key, n, d, i', j') {
        StillTransposed(before, key, n, d, i, j, i', j');
      }
      forall j' | 0 <= j' < j + 1 ensures TransposedAt(t[..], key, n, d, i, j') {
        if j' < j { StillTransposed(before, key, n, d, i, j, i, j'); } else { NowTransposed(before, key, n, d, i, j); }
      }
    }
  }

  lemma StillTransposed<F>(t: seq<F>, key: seq<F>, n: nat, d: nat, i: nat, j: nat, i': nat, j': nat)
    requires i < n && i' < n && Idx(j, n, i) < |t| && Idx(i, d, j) < |key| && (i, j) != (i', j')
    requires TransposedAt(t, key, n, d, i', j')
    ensures TransposedAt(t[Idx(j, n, i) := key[Idx(i, d, j)]], key, n, d, i', j')
  {
    if Idx(j, n, i) == Idx(j', n, i') { IdxInjective(j, j', i, i', n); }
  }

  lemma NowTransposed<F>(t: seq<F>, key: seq<F>, n: nat, d: nat, i: nat, j: nat)
    requires Idx(j, n, i) < |t| && Idx(i, d, j) < |key|
    ensures TransposedAt(t[Idx(j, n, i) := key[Idx(i, d, j)]], key, n, d, i, j)
  {}

  lemma RowInside(i: nat, n: nat, d: nat)
    requires i < n
    ensures Idx(i, d, d) <= n * d
  {
    MulMonotone(i + 1, n, d);
  }

  /** With t the transpose of the key, the product's fold runs over row i of the m by d query and row j of the
      n by d key, for all m and n. */
  lemma {:induction false} FoldIsRowFold<F>(ops: Ops<F>, query: seq<F>, key: seq<F>, t: seq<F>, m: nat, n: nat, d: nat,
                                           i: nat, j: nat, p: nat)
    requires m * d <= |query| && n * d <= |key| && d * n <= |t| && i < m && j < n && p <= d
    requires forall r, s :: 0 <= r < n && 0 <= s < d ==> TransposedAt(t, key, n, d, r, s)
    ensures Idx(i, d, d) <= |query| && Idx(j, d, d) <= |key| && Problem(ops, query, t, m, d, n).Ok()
    ensures Problem(ops, query, t, m, d, n).Fold(i, j, p) == RowFold(ops, query, key, d, i, j, p)
  {
    RowInside(i, m, d);
    RowInside(j, n, d);
    if p > 0 {
      FoldIsRowFold(ops, query, key, t, m, n, d, i, j, p - 1);
      assert TransposedAt(t, key, n, d, j, p - 1);
    }
  }

  // ── Products with the identity ───────────────────────────────────

  /** zero is neutral for add and one for mul, and zero times anything is zero. */
  ghost predicate UnitLaws<F(!new)>(ops: Ops<F>, one: F)
  {
    forall x :: Neutral(ops, one, x)
  }

  ghost predicate Neutral<F>(ops: Ops<F>, one: F, x: F)
  {
    && ops.add(ops.zero, x) == x && ops.add(x, ops.zero) == x
    && ops.mul(x, one) == x && ops.mul(one, x) == x && ops.mul(x, ops.zero) == ops.zero && ops.mul(ops.zero, x) == ops.zero
  }

  ghost predicate Identity<F>(ops: Ops<F>, one: F, e: seq<F>, n: nat)
  {
    n * n <= |e| && forall p, j :: 0 <= p < n && 0 <= j < n ==> DiagonalAt(ops, one, e, n, p, j)
  }

  ghost predicate DiagonalAt<F>(ops: Ops<F>, one: F, e: seq<F>, n: nat, p: nat, j: nat)
  {
    Idx(p, n, j) < |e| && e[Idx(p, n, j)] == if p == j then one else ops.zero
  }

  lemma FoldUnfolds<F>(q: Problem<F>, i: nat, j: nat, p: nat)
    requires q.Ok() && i < q.m && j < q.n && 0 < p <= q.k
    ensures Idx(i, q.k, p - 1) < |q.a| && Idx(p - 1, q.n, j) < |q.b|
    ensures q.Fold(i, j, p) == q.ops.add(q.Fold(i, j, p - 1), q.ops.mul(q.a[Idx(i, q.k, p - 1)], q.b[Idx(p - 1, q.n, j)]))
  {
    hide Idx;
    IdxBound(i, q.m, p - 1, q.k);
    IdxBound(p - 1, q.k, j, q.n);
  }

  lemma {:induction false} FoldPicksLeft<F(!new)>(q: Problem<F>, one: F, i: nat, j: nat, p: nat)
    requires q.Ok() && q.k == q.n && UnitLaws(q.ops, one) && Identity(q.ops, one, q.b, q.n) && i < q.m && j < q.n && p <= q.k
    ensures Idx(i, q.k, j) < |q.a| && q.Fold(i, j, p) == if j < p then q.a[Idx(i, q.k, j)] else q.ops.zero
  {
    hide Idx, Neutral;
    IdxBound(i, q.m, j, q.k);
    if p > 0 {
      FoldPicksLeft(q, one, i, j, p - 1);
      FoldUnfolds(q, i, j, p);
      assert DiagonalAt(q.ops, one, q.b, q.n, p - 1, j);
      NeutralParts(q.ops, one, q.a[Idx(i, q.k, p - 1)]);
      NeutralParts(q.ops, one, q.Fold(i, j, p - 1));
    }
  }

  lemma NeutralParts<F(!new)>(ops: Ops<F>, one: F, x: F)
    requires UnitLaws(ops, one)
    ensures ops.add(ops.zero, x) == x && ops.add(x, ops.zero) == x
    ensures ops.mul(x, one) == x && ops.mul(one, x) == x && ops.mul(x, ops.zero) == ops.zero && ops.mul(ops.zero, x) == ops.zero
  {
    assert Neutral(ops, one, x);
  }

  lemma {:induction false} FoldPicksRight<F(!new)>(q: Problem<F>, one: F, i: nat, j: nat, p: nat)
    requires q.Ok() && q.m == q.k && UnitLaws(q.ops, one) && Identity(q.ops, one, q.a, q.k) && i < q.m && j < q.n && p <= q.k
    ensures Idx(i, q.n, j) < |q.b| && q.Fold(i, j, p) == if i < p then q.b[Idx(i, q.n, j)] else q.ops.zero
  {
    hide Idx, Neutral;
    IdxBound(i, q.k, j, q.n);
    if p > 0 {
      FoldPicksRight(q, one, i, j, p - 1);
      FoldUnfolds(q, i, j, p);
      assert DiagonalAt(q.ops, one, q.a, q.k, i, p - 1);
      NeutralParts(q.ops, one, q.b[Idx(p - 1, q.n, j)]);
      NeutralParts(q.ops, one, q.Fold(i, j, p - 1));
    }
  }

  /** a times the identity is a, row-major, */
  lemma TimesIdentity<F(!new)>(ops: Ops<F>, one: F, a: seq<F>, e: seq<F>, m: nat, n: nat, i: nat, j: nat)
    requires UnitLaws(ops, one) && Identity(ops, one, e, n) && m * n <= |a| && i < m && j < n
    ensures Problem(ops, a, e, m, n, n).Ok() && 0 <= i * n + j < |a|
    ensures Problem(ops, a, e, m, n, n).Fold(i, j, n) == a[i * n + j]
  {
    FoldPicksLeft(Problem(ops, a, e, m, n, n), one, i, j, n);
  }

  /** and the identity times b is b. */
  lemma IdentityTimes<F(!new)>(ops: Ops<F>, one: F, e: seq<F>, b: seq<F>, m: nat, n: nat, i: nat, j: nat)
    requires UnitLaws(ops, one) && Identity(ops, one, e, m) && m * n <= |b| && i < m && j < n
    ensures Problem(ops, e, b, m, m, n).Ok() && 0 <= i * n + j < |b|
    ensures Problem(ops, e, b, m, m, n).Fold(i, j, m) == b[i * n + j]
  {
    FoldPicksRight(Problem(ops, e, b, m, m, n), one, i, j, m);
  }

  ghost predicate ScoreAt<F>(ops: Ops<F>, query: seq<F>, key: seq<F>, scores: seq<F>, n: nat, d: nat, i: nat, j: nat)
  {
    && Idx(i, n, j) < |scores| && Idx(i, d, d) <= |query| && Idx(j, d, d) <= |key|
    && scores[Idx(i, n, j)] == RowFold(ops, query, key, d, i, j, d)
  }

  /** The unscaled attention scores: score (i, j) is the fold of row i of the query with row j of the key. */
  method AttentionScores<F>(ops: Ops<F>, query: seq<F>, key: seq<F>, seqLen: nat, dModel: nat) returns (scores: array<F>)
    requires seqLen * dModel <= |query| && seqLen * dModel <= |key|
    ensures fresh(scores) && scores.Length == seqLen * seqLen
    ensures forall i, j :: 0 <= i < seqLen && 0 <= j < seqLen ==> ScoreAt(ops, query, key, scores[..], seqLen, dModel, i, j)
  {
    var keyT := Transpose(ops.zero, key, seqLen, dModel);
    MulMonotone(0, seqLen, seqLen);
    scores := new F[seqLen * seqLen](_ => ops.zero);
    ghost var t := keyT[..];
    GemmTiled(ops, query, keyT[..], scores, seqLen, dModel, seqLen);
    forall i, j | 0 <= i < seqLen && 0 <= j < seqLen ensures ScoreAt(ops, query, key, scores[..], seqLen, dModel, i, j) {
      FoldIsRowFold(ops, query, key, t, seqLen, seqLen, dModel, i, j, dModel);
      assert Problem(ops, query, t, seqLen, dModel, seqLen).Holds(scores[..], i, j, dModel);
    }
  }
}
