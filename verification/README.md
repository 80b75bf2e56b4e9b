# Verification of the trading and proving core

A Dafny model of five parts of the daemon, with proofs about them:

1. **Price graph** (`GraphTheory`, `Relaxation`, `Graph`, `Completeness`, `TruncatedSearch`, `PoolGraph`): bounded
   Bellman-Ford from every token, the walk back through the predecessor table, the choice of the cheapest edge per
   hop, when a negative cycle is found at all, and why a returned cycle never uses a pool twice.
2. **Field, transform and multi-scalar stack** (`Arith`, `Bits`, `Primes`, `Gcd`, `BinaryGcd`, `ModSqrt`,
   `Montgomery`, `Transform`, `Convolution`, `Ntt`, `RootOfUnity`, `Curve`, `Msm`): limb arithmetic, the
   in-place transform, Jacobian point formulas, buckets and windows, square roots.
3. **Pools, solver and engine** (`Amm`, `Shadow`, `Events`, `Solver`, `ExactOutput`, `Ternary`, `SearchQuality`,
   `Cache`, `Engine`): constant-product swaps, the speculative overlay under any run of events, cycle simulation, both
   ternary searches over any profit and how near the best they come, and the event loop that joins them to the graph.
4. **Wire format** (`Base58`, `Message`, `Executor`): base-58 text, compact-u16, the message layout and the merged
   account table.
5. **Kernels** (`Arena`, `Gemm`): the lock-free bump allocator and the tiled matrix product.

`Wrappers` holds the option type. `dafny verify dfyconfig.toml` checks everything.

## How it is modelled

Code that updates fields or slices in place is a class or a method over arrays with loops and invariants, proved
against a function on values; expressions, formulas and recursions are functions. Growing vectors are sequences.
The four tile loops of the matrix product and the stages of the transform are split into one method per loop.

- Integers are unbounded; where the width matters it is explicit: 64-bit limbs and their carries, the 128-bit lanes
  of the Montgomery product, `saturating_add` on 32-bit distances, truncation of node numbers, lengths, positions
  and basis points, and the 128-bit swap arithmetic (`Solver.CycleStaysInRange` says when nothing leaves it).
- `1 << x`, `>>`, `&`, `|`, `^` and `!` on words are functions on naturals in `Bits`.
- Primality of the modulus is a hypothesis wherever it is needed, never an axiom. It is not needed for the transform
  round trip, nor for multiplication, addition and subtraction.
- The point formulas live in `Curve`, over integers that stand for residues modulo any prime above 3. They are
  insensitive to the representative (`Curve.ResiduesOfSum` and its companions), and each field operation they use is
  proved on limbs in `Montgomery` to act on residues. `Msm` works in any commutative group.
- Edge rates are exact reals, minus infinity or no number at all, as a fee with a zero denominator makes them. The
  logarithm that turns a rate into a weight is a parameter. The only fact assumed about it, where a proof needs it, is
  that rates whose product is at most 1 have weights whose sum is not negative (`PoolGraph.LikeMinusLog`), so that a
  pool's two directions never gain (`PoolGraph.NoFreeRoundTrip`).
- `forward` and `inverse` have the same loops, so they share the stage methods.
- The compare-exchange allocator is a state machine over the atomic steps of any number of threads, its sums wrapping
  at 64 bits as they do in the release profile; `Arena.BumpArena` is the same code with one caller.
- Addition and multiplication in `Gemm` are uninterpreted, so the results hold for rounded arithmetic bit for bit.

## What the code does that its documentation does not say

- The exponent in `compute_root_of_unity` is not (p - 1)/2^28. Its power of 5 is not a root of unity of the
  advertised order: `RootOfUnity.ShippedRootIsNoRoot` shows w^(n/2) is not -1 for any size up to 2^28. So `inverse`
  still undoes `forward` (that needs only w w' = 1), but from size 2 on `forward` does not evaluate the polynomial
  at powers of w, and from size 4 on `poly_mul` is not cyclic convolution (`Transform.EvaluatesOnlyAtHalfTurn`,
  `Convolution.ConvolvesExactly`, `Ntt.ShippedDomain`).
- `add_affine` has no case for equal points and returns the identity there (`Curve.AddAffineIsSum`). A point added to
  a bucket that already holds it is lost, so `pippenger_msm` differs from the sum by exactly
  `Msm.Deficit`; the smallest input is one point given twice (`Msm.RepeatedPointIsLost`).
- `find_arbitrage_cycles` does not detect all negative cycles. With enough hops for all tokens, at most 512 of them and
  weights that cannot saturate it returns something exactly when there is one (`Completeness.FindsExactly`); at the
  shipped limit of four hops it can miss a loop of two (`TruncatedSearch.ShortCycleIsMissed`). An edge from a token to
  itself is never reported (`Completeness.SelfEdgeIsMissed`).
- `optimal_arb_input` does not always find the peak: on two pools it answers 11 with profit 4 where 1 pays 8
  (`Cache.PeakIsMissed`). It does when the integer profit is strictly unimodal (`Ternary.OptimumAtPeak`), but a profit
  of integer swaps is so only if its output is constant from the peak on (`Solver.UnimodalIsFlat`). For every pair of
  pools it comes within 120 times their rounding error of the best (`Cache.OptimalNearBest`), and the search of the
  solver within twice that error outside its last bracket (`SearchQuality.CycleSearchNearBest`).
- `update_reserves` clears a dirty flag without lowering `spec_dirty_count`; `Events.DirtyCounterDrift` gives the
  exact difference.
- `ArbResult.cycle_idx` is described as an index into the cycle list, but counts the results so far
  (`Solver.CollectedFrom`); the two agree exactly until the first rejected cycle (`Solver.AlignedUntilRejection`), and
  on two pools the second of two cycles is reported under the index of the first (`Solver.MisalignedExample`).
- `binary_search_optimal` tries no input at all when `max_input` is at most 3 (`Ternary.TooSmallToSearch`).
- A pool registered with fee 0 / 0 gets edges, since its rate is no number and passes the test for a positive one; with
  any other fee of 1 or more it gets none (`PoolGraph.BuildFromShadow`).
- A thread whose load is older than a reset can be refused memory although the arena is empty
  (`Arena.StaleRefusal`); without a reset in between a refusal is always justified.
- Overflow checks are off in the release profile, so the sum of offset and size can wrap: three allocations then hand
  out the same bytes twice (`Arena.WrapOverlaps`). Regions stay disjoint exactly as long as no sum wraps
  (`Arena.SafeThroughoutExactly`).
- Account positions are cut to a byte: an index resolves exactly when its position is below 256
  (`Executor.IndexResolves`). The last of 256 accounts besides the payer becomes the payer
  (`Executor.LastAccountBecomesPayer`).
- Lengths are cut to 16 bits: 65536 bytes of instruction data are written with length 0 (`Message.LongDataIsLost`).
- `mod_sqrt` answers `None` for 0, since the symbol test comes first; its branch for 0 is never reached.

## Model

| member | source | states |
|---|---|---|
| GraphTheory.Shorten | src/mev/graph.rs:172-191 | without a reachable negative cycle every walk can be cut to fewer than n edges without gaining weight, which is why n - 1 passes suffice |
| GraphTheory.DetectionExact | src/mev/graph.rs:193-213 | some edge is still relaxable if and only if a negative cycle is reachable from the source, for distances witnessed by walks and not above any walk shorter than n |
| GraphTheory.SaturatesToNearest | src/mev/graph.rs:180 | a clamped addition gives the 32-bit number nearest to the sum |
| Relaxation.RelaxKeepsTrace | src/mev/graph.rs:179-186 | one relaxation, clamped or not, keeps every recorded edge below its node's distance, strictly once the tail was lowered later |
| Relaxation.RunDetects | src/mev/graph.rs:168-213 | with enough hops and weights that cannot saturate, an edge is still relaxable after the run if and only if a negative cycle is reachable from its source |
| Relaxation.QuietWithoutCycle | src/mev/graph.rs:172-191 | without a reachable negative cycle nothing is relaxable afterwards; for that half it is enough that the weights of n edges do not saturate |
| Relaxation.NoisyWithCycle | src/mev/graph.rs:193-213 | with one something is, for weights that n passes over the list cannot saturate |
| Relaxation.ReachesMaxHops | src/mev/graph.rs:172-191 | on a path whose edges are listed from the far end exactly the nodes within max_hops edges of the source are reached |
| Relaxation.OnePassReachesAll | src/mev/graph.rs:174-187 | listed from the near end, all nodes are reached in one pass: an edge sees what earlier edges did in the same pass |
| Graph.RelaxPass | src/mev/graph.rs:175-187 | the in-place loop over the edge list leaves exactly the tables of one pass in list order and reports whether anything changed |
| Graph.BellmanFord | src/mev/graph.rs:168-191 | in place, at most n - 1 and at most max_hops passes, fewer only when the last of them changed nothing; and these leave the tables of min(n-1, max_hops) full passes |
| Graph.PredecessorCycleIsNegative | src/mev/graph.rs:222-249 | any cycle in the predecessor table has negative recorded weight, whenever relaxation stopped and even if additions saturated |
| Graph.WalkBack | src/mev/graph.rs:228-235 | walking back n steps either meets a node without predecessor or ends inside a cycle of the table |
| Graph.CollectCycle | src/mev/graph.rs:237-249 | collects exactly the cycle through the given node, or gives up exactly when it is longer than max_hops + 1 |
| Graph.ReconstructCycle | src/mev/graph.rs:222-295 | answers exactly when the start leads back into a cycle of 2 to max_hops + 1 nodes, and then with that cycle: its nodes in forward order, and for each hop the first cheapest edge, of negative total weight |
| Graph.TotalIsExact | src/mev/graph.rs:261-279 | the saturating total equals the true sum when the number of hops times the largest weight fits in 32 bits |
| Graph.PriceGraph.GetOrCreateNode | src/mev/graph.rs:74-85 | a known token keeps its node, an unknown one is appended with the next 16-bit number; no token is listed twice |
| Graph.PriceGraph.AddEdge | src/mev/graph.rs:90-112 | nothing for a rate that compares as at most zero; otherwise, a rate that is no number included, both tokens listed and exactly one edge appended between their nodes |
| Graph.PriceGraph.FindArbitrageCycles | src/mev/graph.rs:157-219 | for every graph, edge order and max_hops: each cycle returned was reported by an edge of a run, whatever an edge of any run reports is returned up to equal pools, nothing twice, the most negative first and equals in order of discovery |
| Graph.FoundOnce | src/mev/graph.rs:222-295 | an edge reports one cycle: the predecessor cycle its head leads back into, path, pools, directions and total all determined |
| Graph.ReportIsReturned | src/mev/graph.rs:193-213 | whatever a still relaxable edge of a run from any of the first 512 sources reports is among the cycles returned, up to equal length and pools |
| Graph.ReturnedIsFirstReport | src/mev/graph.rs:200-209 | whatever is returned was reported, and no earlier source or edge reported the same |
| Graph.SortByWeight | src/mev/graph.rs:217 | stable: the same cycles by total weight, equals in order of discovery |
| Graph.GoodCycleIsWalk | src/mev/graph.rs:222-295 | the hops of a returned cycle are a closed walk of the graph and their weights sum below zero |
| Completeness.FindsExactly | src/mev/graph.rs:149-219 | up to 512 tokens, with enough hops, weights that cannot saturate and no edge from a token to itself: something is returned if and only if some closed walk of the graph has negative weight |
| Completeness.SelfEdgeIsMissed | src/mev/graph.rs:222-249 | a single token with a negative edge to itself: nothing is returned |
| TruncatedSearch.ShortCycleIsMissed | src/mev/graph.rs:172-191 | six tokens, seven edges, four hops: nothing is returned although a loop of two hops weighs -4 |
| PoolGraph.BuildFromShadow | src/mev/graph.rs:123-147 | whatever the fees: exactly both directions of every active, funded pool that charges less than everything or 0 / 0, pool by pool, x to y first, between the nodes of its tokens, weighted by the logarithm of the rate; and no node for any other token |
| PoolGraph.RateIsMarginal | src/mev/graph.rs:136-142 | the rate of an edge is what an infinitesimal swap in its direction pays per unit: exactly rate times x, less by the factor reserve / (reserve + x after fee), for an exact swap of x |
| PoolGraph.NoFreeRoundTrip | src/mev/graph.rs:103-104 | the weights of the two directions of a pool do not sum below zero |
| PoolGraph.PoolsAreDistinct | src/mev/graph.rs:222-295 | no pool occurs twice on a cycle the graph returns, two-hop cycles included, and all are tradable |
| Arith.PowHalve | src/zk_prover/fields.rs:79-85 | the square-and-multiply step preserves base^exp |
| Gcd.Bezout | src/zk_prover/fields.rs:8-14 | for integers of any sign: a x + b y = g, g divides both, and the coefficients never exceed the inputs, so nothing overflows |
| Gcd.ModInverseExact | src/zk_prover/fields.rs:17-23 | the answer is an inverse below the modulus, and there is one exactly when an inverse exists |
| BinaryGcd.BinaryGcd | src/zk_prover/fields.rs:27-45 | the shift-and-subtract loop returns the divisor the extended Euclidean algorithm finds, for all 64-bit inputs, and the final shift does not overflow |
| BinaryGcd.GcdSplit | src/zk_prover/fields.rs:31-33 | common factors of two come out by the smaller count of trailing zeros |
| ModSqrt.ModPow | src/zk_prover/fields.rs:74-87 | base^exp modulo the modulus, with the program's answer 1 for exponent 0 whatever the modulus |
| ModSqrt.LegendreSymbol | src/zk_prover/fields.rs:90-95 | 0 for multiples of the odd prime, 1 exactly for the nonzero squares, -1 otherwise |
| ModSqrt.EulerCriterion | src/zk_prover/fields.rs:90-95 | a residue not divisible by the odd prime p has Euler power 1 if and only if it is a square |
| ModSqrt.ModSqrt | src/zk_prover/fields.rs:99-149 | a square root exactly when the input is a nonzero square, None otherwise, for every odd prime below 2^63, both loops terminating; and which root: a^((q+1)/2) z^(q e) with p - 1 = q 2^s, z the least non-square and e below 2^(s-1) |
| ModSqrt.OrderExponent | src/zk_prover/fields.rs:135-141 | the inner search finds the least i with t^(2^i) = 1, and i is below m |
| ModSqrt.TonelliStep | src/zk_prover/fields.rs:143-147 | one round keeps r^2 = a t and the orders of c and t, with a smaller m |
| ModSqrt.FindNonResidue | src/zk_prover/fields.rs:118-122 | the search stops, at the least z from 2 on that is no square |
| Primes.Fermat | src/zk_prover/montgomery.rs:140-150 | a^(p-1) = 1 for a not divisible by the prime p |
| Primes.PowerNotAlwaysOne | src/zk_prover/fields.rs:118-122 | for 0 < e < p-1 some residue has a power e other than 1, so non-squares exist |
| Montgomery.MulAddRow | src/zk_prover/montgomery.rs:77-85 | one carry row adds x k exactly and no 128-bit lane overflows |
| Montgomery.MontRow | src/zk_prover/montgomery.rs:76-105 | one outer round divides exactly by 2^64 and keeps the running value below 2p |
| Montgomery.MontMul | src/zk_prover/montgomery.rs:73-114 | for a left operand below p and any 256-bit right operand: the reduced value congruent to a b / 2^256 |
| Montgomery.GteModulus | src/zk_prover/montgomery.rs:168-174 | limb comparison decides value >= p |
| Montgomery.SubModulus | src/zk_prover/montgomery.rs:178-188 | the borrow chain subtracts p |
| Montgomery.MontAdd | src/zk_prover/montgomery.rs:192-206 | the sum modulo p, as value and as residue |
| Montgomery.MontSub | src/zk_prover/montgomery.rs:210-230 | the difference modulo p, as value and as residue |
| Montgomery.ConditionalSelect | src/zk_prover/montgomery.rs:154-164 | masking selects the first operand for flag 0 and the second for flag 1 |
| Montgomery.MontPow | src/zk_prover/montgomery.rs:124-138 | the residue to any 256-bit exponent |
| Montgomery.MontInv | src/zk_prover/montgomery.rs:141-150 | the residue to p-2; for prime p the inverse of every nonzero residue, zero for zero |
| Montgomery.ToMontgomery | src/zk_prover/montgomery.rs:58-61 | the result stands for the argument's value |
| Montgomery.FromMontgomery | src/zk_prover/montgomery.rs:65-68 | the result's value is the residue the argument stands for |
| Montgomery.ConstantsAgree | src/zk_prover/montgomery.rs:18-43 | modulus, 2^256, its square and the reduction constant are what their comments say |
| Transform.DecimationInFrequency | src/zk_prover/ntt.rs:77-104 | even outputs transform the sum of the halves, odd outputs the twisted difference, for any twiddle |
| Transform.RoundTrip | src/zk_prover/ntt.rs:77-137 | transforming with w and then with w' multiplies by n whenever w w' = 1; w need not be a root of unity |
| Transform.TransformEvaluates | src/zk_prover/ntt.rs:75-104 | when w^(n/2) = -1, output k is the polynomial's value at w^k |
| Transform.EvaluatesOnlyAtHalfTurn | src/zk_prover/ntt.rs:75-104 | evaluating even the single polynomial X that way forces w^(n/2) = -1 |
| Convolution.MulThroughConvolves | src/zk_prover/ntt.rs:139-160 | pointwise product through the transform is the product modulo X^n - 1 when w^(n/2) = -1 |
| Convolution.ConvolvesExactly | src/zk_prover/ntt.rs:139-160 | it is that product for all inputs if and only if n is at most 2 or w^(n/2) = -1 |
| Ntt.BitReverse | src/zk_prover/ntt.rs:176-183 | the shift loop reverses the low bits |
| Ntt.RevInvolution | src/zk_prover/ntt.rs:176-183 | reversing twice is the identity on indices below 2^bits |
| Ntt.BitReversePermutation | src/zk_prover/ntt.rs:164-172 | the swap loop permutes the slice by bit reversal |
| Ntt.DitOfReversed | src/zk_prover/ntt.rs:77-104 | the butterfly network on bit-reversed input is the recursive transform of the original |
| Ntt.MergeBlocks | src/zk_prover/ntt.rs:90-102 | a butterfly over two finished blocks gives a finished block of twice the size |
| Ntt.ButterflyBlock | src/zk_prover/ntt.rs:91-99 | the inner loop performs one butterfly on its block and touches nothing else |
| Ntt.ComputeRootOfUnity | src/zk_prover/ntt.rs:187-212 | the shipped power of 5, squared 28 - log_n times |
| Ntt.RootTable | src/zk_prover/ntt.rs:40-55 | entry i stands for w^i |
| Ntt.NewDomain | src/zk_prover/ntt.rs:27-71 | tables of mutually inverse powers and, for prime p, an inverse of n |
| Ntt.Forward | src/zk_prover/ntt.rs:77-104 | in place: the recursive transform with the domain's w; with w^(n/2) = -1 the values at its powers |
| Ntt.Inverse | src/zk_prover/ntt.rs:108-137 | in place: the transform with w' scaled by 1/n |
| Ntt.ForwardThenInverse | src/zk_prover/ntt.rs:77-137 | forward then inverse restores the slice limb for limb, using only w w' = 1 and n n' = 1 |
| Ntt.PolyMul | src/zk_prover/ntt.rs:141-161 | the cyclic convolution when w^(n/2) = -1 or n is at most 2; the product through the transform in any case |
| RootOfUnity.ShippedRootIsNoRoot | src/zk_prover/ntt.rs:187-212 | for every size from 2 to 2^28 the shipped w does not satisfy w^(n/2) = -1 |
| Ntt.ShippedDomain | src/zk_prover/ntt.rs:27-71 | so the shipped domain convolves for all inputs exactly up to size 2 |
| Curve.DoubleCorrect | src/zk_prover/msm.rs:40-77 | doubling represents the tangent's third point, reflected |
| Curve.ChordCorrect | src/zk_prover/msm.rs:126-134 | the shared chord formula represents the chord's third point, reflected |
| Curve.AddIsSum | src/zk_prover/msm.rs:101-135 | addition is the chord-and-tangent sum in every case: distinct, equal and opposite points |
| Curve.AddAffineIsSum | src/zk_prover/msm.rs:139-175 | mixed addition is the sum if and only if the operands are not the same point (order two aside); on the same point it gives the identity |
| Curve.IdentityCases | src/zk_prover/msm.rs:41-43 | the identity is neutral in all three operations |
| Curve.SumOnCurve | src/zk_prover/msm.rs:40-175 | the third point lies on the curve again |
| Curve.JacobianEquation | src/zk_prover/msm.rs:40-175 | a triple representing a curve point satisfies Y^2 = X^3 + b Z^6 |
| Curve.ToAffineRepresents | src/zk_prover/msm.rs:81-98 | the affine point is the one the triple represents, infinity exactly for the identity |
| Curve.ResiduesOfSum | src/zk_prover/msm.rs:101-135 | any triple congruent to the sum, such as the reduced one the program stores, represents the chord-and-tangent sum |
| Curve.ResiduesOfMixedSum | src/zk_prover/msm.rs:139-175 | and any triple congruent to a mixed sum does so exactly outside the missing case |
| Curve.ResiduesOfAffine | src/zk_prover/msm.rs:81-98 | coordinates congruent to the affine form are represented by the triple |
| Msm.WindowIsField | src/zk_prover/msm.rs:240-260 | each window, limb boundaries and the top included, is the corresponding bits of the 256-bit scalar |
| Msm.RunningSum | src/zk_prover/msm.rs:224-230 | the descending running sum is the sum of (j+1) times bucket j |
| Msm.HornerStep | src/zk_prover/msm.rs:201-207 | doubling width times and adding a window extends the scalars' heads by one window |
| Msm.AddAffineExactly | src/zk_prover/msm.rs:139-175 | mixed addition adds unless the operands are equal; then it gives the identity |
| Msm.WindowTotal | src/zk_prover/msm.rs:212-219 | bucket contents and losses together weigh the points by their window digits |
| Msm.PippengerMsm | src/zk_prover/msm.rs:184-236 | result plus deficit is the sum of s_i P_i in any commutative group, for every width from 1 to 63 and any length; equal to the sum if and only if the deficit is zero, in particular without collisions |
| Msm.RepeatedPointIsLost | src/zk_prover/msm.rs:139-175 | at every width, the same point twice with scalar 1 is lost entirely |
| Amm.ProductKept | src/mev/state_shadow.rs:158-170 | k - new_in < x' y' <= k |
| Amm.OutputIsCeiling | src/mev/state_shadow.rs:158-170 | the output is the exact constant-product output rounded up |
| Amm.AfterFeeIsCeiling | src/mev/state_shadow.rs:154-156 | the amount after the fee is the exact one rounded up |
| Amm.SwapMonotone | src/mev/state_shadow.rs:202-220 | more in never gives less out, nothing gives nothing, and never more than the reserve |
| Amm.NotBelowExact | src/mev/state_shadow.rs:202-220 | a whole swap never pays less than exact arithmetic |
| Shadow.SwapIsExact | src/mev/state_shadow.rs:154-170 | a swap grows the input reserve by the amount after fee rounded up, leaves the old product over it rounded down as the output reserve, pays the difference, sets the flag and changes nothing else in the row |
| Shadow.StateShadow.constructor | src/mev/state_shadow.rs:75-95 | an empty shadow |
| Shadow.StateShadow.RegisterPool | src/mev/state_shadow.rs:98-127 | one row appended with the given tokens, reserves, fees and slot, clean and active, or None and no change at 4096 pools |
| Shadow.StateShadow.UpdateReserves | src/mev/state_shadow.rs:132-141 | confirmed and speculative reserves replaced and the flag cleared for that row only, the counter untouched |
| Shadow.StateShadow.ApplySpeculativeSwap | src/mev/state_shadow.rs:146-179 | that row's speculative reserves move along the curve, flag set, counter raised once |
| Shadow.StateShadow.RevertSpeculative | src/mev/state_shadow.rs:182-190 | every registered row shows its confirmed reserves, clean, counter zero |
| Shadow.StateShadow.OnNewBlock | src/mev/state_shadow.rs:194-197 | the same, with the given slot |
| Shadow.StateShadow.SimSwapAt | src/mev/state_shadow.rs:202-220 | the output a swap would have, zero when a reserve is empty, without change |
| Events.RegisterEffect | src/mev/state_shadow.rs:98-127 | a registration appends one row, each field as given, and touches nothing else |
| Events.PendingSwapEffect | src/mev/state_shadow.rs:146-179 | a pending swap changes one row, its reserves exchanged exactly, and raises the counter exactly if the row was clean |
| Events.NewBlockEffect | src/mev/state_shadow.rs:182-197 | after a block every row shows its confirmed reserves, clean, and the slot is the block's |
| Events.PoolUpdateEffect | src/mev/state_shadow.rs:132-141 | an update changes one row, to the given reserves, clean, with the counter untouched |
| Events.OverlayIsReplay | src/mev/aste.rs:187-259 | after every run of registrations, swaps, blocks and updates each row is the replay of its pending swaps on its confirmed reserves |
| Events.DirtyMeansPending | src/mev/state_shadow.rs:129-190 | the flag is set exactly while swaps are pending, and a clean row shows its confirmed reserves |
| Events.SwapKeepsProduct | src/mev/state_shadow.rs:146-179 | in both directions a swap keeps the product within the input reserve and leaves confirmed reserves alone |
| Events.ProductNeverGrows | src/mev/aste.rs:187-259 | in every reachable state the speculative product is at most the confirmed one |
| Events.DirtyCounterDrift | src/mev/state_shadow.rs:132-179 | the counter exceeds the number of set flags by exactly the updates since the last block that hit a dirty pool |
| Events.DirtyCounterExact | src/mev/state_shadow.rs:132-179 | so it is never too small, and exact if and only if there was no such update |
| Events.DriftExample | src/mev/state_shadow.rs:132-141 | register, swap, update: counter one, no flag set |
| Solver.AmountMonotone | src/mev/simd_solver.rs:137-155 | a cycle's output is monotone in its input, over any number of hops |
| Solver.SimulateCycle | src/mev/simd_solver.rs:137-155 | the loop with its early exit returns the chained swaps |
| Solver.SimulationIsExecution | src/mev/simd_solver.rs:137-155 | on distinct pools, a positive simulated output is what applying the swaps hop by hop pays |
| Ternary.NarrowTracks | src/mev/simd_solver.rs:173-202 | for any profit, a step keeps the best at least as good as both tried ends and cuts the excess width over 2 to two thirds |
| Ternary.FlatAnswer | src/mev/simd_solver.rs:177-201 | of equal profits the first probe is kept, and a tie cuts off the upper third |
| Ternary.RisingStep | src/mev/simd_solver.rs:177-201 | a rising profit cuts off the lower third and keeps the upper probe |
| Ternary.SearchConverges | src/mev/simd_solver.rs:173-202 | after n steps fewer than three units remain between the ends, or the excess width has shrunk by (2/3)^n |
| Ternary.SearchKeepsPeak | src/mev/simd_solver.rs:162-207 | for any strictly unimodal profit that is zero at zero the final bracket holds the peak, and no input outside it beats the one found |
| Ternary.SearchNearBest | src/mev/simd_solver.rs:162-207 | for any profit within delta of a concave one, unimodal or not: no input outside the final bracket beats the one found by more than 2 delta, and none inside by more than the ratio of its ends and delta |
| Ternary.TooSmallToSearch | src/mev/simd_solver.rs:173-176 | up to max_input 3 the search answers zero |
| Ternary.OptimumAtPeak | src/memory/cache.rs:166-203 | the search of the two-pool optimiser returns the peak and its profit for any strictly unimodal profit when max_input - 1 < 3 (3/2)^steps, zeros when that profit is not positive |
| Ternary.FlatOptimum | src/memory/cache.rs:166-203 | of equal profits the two-pool search answers the smallest input |
| Ternary.OptimumNearBest | src/memory/cache.rs:166-203 | for any profit within delta of a concave one its answer is within 2 delta a step of every input in range |
| SearchQuality.SimulationNotFarAbove | src/mev/simd_solver.rs:137-155 | the simulation exceeds exact arithmetic by at most Err, where a hop of initial slope s turns an error e into 1 + s (1 + e) |
| SearchQuality.CycleSearchNearBest | src/mev/simd_solver.rs:162-207 | for every cycle, without unimodality: no input outside the final bracket gains more than the one found by over twice that error, none inside by more than the ratio of its ends and the error, and the bracket has shrunk by (2/3)^n |
| Solver.UnimodalIsFlat | src/mev/simd_solver.rs:157-161 | a cycle whose integer profit is strictly unimodal pays out the same from its peak on, so strict unimodality is rare |
| Solver.SimdSolver.BinarySearchOptimal | src/mev/simd_solver.rs:162-207 | the loop computes that search, and the output of its input |
| Solver.SimdSolver.EvaluateSingle | src/mev/simd_solver.rs:84-132 | the evaluation of the cycle, carrying the index given |
| Solver.ReportedExactly | src/mev/simd_solver.rs:90-131 | a cycle is reported exactly when it pays more than the probe, max_input / 1000 but at least 100, and on the best input more than put in and the minimum more; input, output, profit and hops are those, the basis points 10000 profit / input rounded down to 32 bits |
| Solver.SimdSolver.EvaluateBatch | src/mev/simd_solver.rs:57-79 | exactly the reported results, most profitable first |
| Solver.BatchIsComplete | src/mev/simd_solver.rs:57-79 | as many results as reported cycles, and one for every reported cycle with its figures and hops |
| Solver.ReportedIsCollected | src/mev/simd_solver.rs:67-74 | before sorting, a reported cycle's result stands at the number of reported cycles before it |
| Solver.ReportedIsExecutable | src/mev/simd_solver.rs:111-131 | a reported profit is positive, at least the minimum, on an input in range, and on distinct pools execution pays the expected output |
| Solver.CollectedFrom | src/mev/simd_solver.rs:67-74 | every result is the evaluation of one of the cycles and carries its position among the results |
| Solver.AlignedUntilRejection | src/mev/simd_solver.rs:69-73 | that position is the cycle's index exactly while no earlier cycle was rejected |
| Solver.MisalignedExample | src/mev/simd_solver.rs:69-73 | two pools, the losing cycle first: the winning one is reported with index 0 |
| Solver.CycleStaysInRange | src/mev/simd_solver.rs:137-155 | no intermediate of any hop leaves 128 bits for reserves and input below 2^95 and products that fit |
| ExactOutput.ExactIsMobius | src/mev/simd_solver.rs:157-161 | the exact output of a cycle of any length is a x / (b + c x) with coefficients from reserves and fees |
| ExactOutput.ProfitIsConcave | src/mev/simd_solver.rs:157-161 | so the exact profit is concave |
| ExactOutput.ProfitHasNoValley | src/mev/simd_solver.rs:197-201 | between two inputs it never drops below both |
| ExactOutput.SimulationNotBelowExact | src/mev/simd_solver.rs:137-155 | the integer simulation never pays less than exact arithmetic, over any number of hops |
| Cache.Narrowed | src/memory/cache.rs:173-191 | the loop leaves the interval of the recursive search after at most sixty steps |
| Cache.OptimalArbInput | src/memory/cache.rs:166-203 | the two loops return the answer of the recursive search for every pair of pools and every max_input |
| Cache.OptimalNearBest | src/memory/cache.rs:166-203 | for every pair of pools and max_input - 1 < 3 (3/2)^60 no input in range pays more than the answer by over 120 times the rounding error of the two hops |
| Cache.OptimumIsReal | src/memory/cache.rs:166-203 | the answer is an input in range with its own positive profit, or zeros |
| Cache.PeakIsMissed | src/memory/cache.rs:163-191 | pools (41, 5, 1/1000) and (43, 4, 0/1000), max_input 419: input 1 gains 8, the search answers 11 and 4 |
| Engine.Aste.RegisterPool | src/mev/aste.rs:158-180 | registration, whatever the fees, extends the run of events and rebuilds the graph; the next index, or None at 4096 |
| Engine.Aste.ProcessEvent | src/mev/aste.rs:187-259 | every event extends the run; the graph is rebuilt when due and otherwise left alone; for a pending swap no detected cycle evaluates to more than the profit, one evaluates to it unless it is zero, it reaches the minimum, and some cycle of distinct pools pays it when executed on the state after the swap |
| Base58.MulAddInPlace | src/net/solana.rs:460-471 | the carry loop multiplies and adds in place; carries stay below 256 when encoding and 58 when decoding |
| Base58.MulAddNumber | src/net/solana.rs:498-507 | the number represented becomes number times m plus the digit |
| Base58.CanonUnique | src/net/solana.rs:450-517 | digits with a nonzero top digit are determined by their number |
| Base58.AlphabetIs | src/net/solana.rs:447 | the symbols in character order, and exactly the alphanumeric characters without 0, I, O and l |
| Base58.ConvertRoundTrip | src/net/solana.rs:450-517 | rewriting in another base and back is the identity for all digit strings, leading zeros included |
| Base58.Encode | src/net/solana.rs:450-482 | one '1' per leading zero byte, then the number in base 58 |
| Base58.Decode | src/net/solana.rs:485-517 | the bytes, or the first character outside the alphabet |
| Base58.EncodedValue | src/net/solana.rs:450-482 | most significant first, the text in base 58 is the number the bytes are in base 256, with a leading '1' for every leading zero byte |
| Base58.EncodingExample | src/net/solana.rs:450-482 | bytes 0, 1, 0 give 15R |
| Base58.DecodeOfEncode | src/net/solana.rs:450-517 | decoding an encoding gives the bytes back, for every byte string |
| Base58.EncodeOfDecode | src/net/solana.rs:450-517 | encoding a decoding gives the text back, for every valid text |
| Base58.DecodeFails | src/net/solana.rs:494-497 | rejected exactly when some character is outside the alphabet, and for the first such |
| Message.CompactU16Encode | src/net/solana.rs:520-533 | seven bits a byte, least significant first, appended to the buffer |
| Message.ReadBackCompact | src/net/solana.rs:520-533 | the number and the rest of the buffer can be read back |
| Message.CompactBytes | src/net/solana.rs:520-533 | one, two or three bytes, each of them spelled out |
| Message.MessageLayout | src/net/solana.rs:93-111 | header, key count, keys, blockhash and instruction count at their offsets |
| Message.InstructionLayout | src/net/solana.rs:112-120 | instructions in order, each as program, account count, accounts, data length and data |
| Message.SerializeMessage | src/net/solana.rs:93-123 | header, keys, blockhash and instructions, with lengths cut to 16 bits |
| Message.MessageRoundTrip | src/net/solana.rs:93-123 | a reader recovers the transaction if and only if no list is longer than 65535 |
| Message.LongDataIsLost | src/net/solana.rs:93-123 | 65536 bytes of data in the last instruction are read back as none, with all of them left over |
| Message.SerializationInjective | src/net/solana.rs:93-123 | so equal bytes come from equal transactions |
| Executor.TableIsExact | src/mev/executor.rs:206-216 | payer first, no duplicates, exactly the accounts in use |
| Executor.TableInOrder | src/mev/executor.rs:206-216 | in order of first use |
| Executor.Link | src/mev/executor.rs:206-232 | the loops build that table and the renumbered instructions |
| Executor.IndexResolves | src/mev/executor.rs:218-230 | an index written early finds its key in the final table, after all later insertions, if and only if its position is below 256 |
| Executor.LastAccountBecomesPayer | src/mev/executor.rs:218-230 | one instruction over 256 accounts besides the payer: the index of the last is 0, the payer's |
| Executor.LinkedMeansTheSame | src/mev/executor.rs:206-232 | with at most 256 accounts every instruction keeps its program, accounts and data |
| Executor.BytesMeanTheSwaps | src/mev/executor.rs:234-241 | from the serialized bytes alone a reader recovers the blockhash, the payer as first account and only signer, no readonly accounts, and every swap, in order, as it was given |
| Arena.AlignUpBounds | src/memory/arena.rs:41 | aligning never moves back and moves by less than align, power of two or not, unless the sum wraps |
| Arena.AlignUpIsMultiple | src/memory/arena.rs:41 | for a power of two it is the next multiple |
| Arena.AlwaysSafe | src/memory/arena.rs:37-78 | under every interleaving of loads, exchanges, spurious failures and resets in which no exchanged sum wraps, the regions since the last reset are ordered, aligned, inside the capacity, and end at the cursor |
| Arena.ExchangeSafeExactly | src/memory/arena.rs:37-54 | an exchange keeps a safe state safe if and only if its sums do not wrap |
| Arena.SafeThroughoutExactly | src/memory/arena.rs:37-78 | a run is safe after each of its steps if and only if no exchange in it wraps |
| Arena.WrapOverlaps | src/memory/arena.rs:37-54 | sizes 64, 2^64 - 64 and 64: the third allocation is handed the bytes of the first |
| Arena.RegionsDisjoint | src/memory/arena.rs:37-78 | so any two are disjoint, stale loads that straddle a reset included |
| Arena.RefusalJustified | src/memory/arena.rs:43-45 | a refusal without a reset since the load means there is no room now |
| Arena.StaleRefusal | src/memory/arena.rs:43-45 | with a reset in between an empty arena can refuse |
| Arena.BumpArena.Alloc | src/memory/arena.rs:37-54 | alone, for every size and alignment and whatever fails spuriously: nothing and no change past the capacity, the aligned offset otherwise, an abort for an offset past the buffer |
| Gemm.Kernel | src/ml_subnet/inference.rs:37-46 | one tile adds its terms in order to every entry of the block and touches nothing else |
| Gemm.GemmTiled | src/ml_subnet/inference.rs:11-54 | every entry is the plain left-to-right fold, for all sizes, with uninterpreted arithmetic |
| Gemm.FoldIsRowFold | src/ml_subnet/inference.rs:11-54 | with b the transpose of an n by d key, entry (i, j) of the m by n product is the fold of row i of the query with row j of the key, for all m and n |
| Gemm.TimesIdentity | src/ml_subnet/inference.rs:11-54 | a times the identity is a, entry by entry in row-major order |
| Gemm.IdentityTimes | src/ml_subnet/inference.rs:11-54 | the identity times b is b |
| Gemm.AttentionScores | src/ml_subnet/inference.rs:93-104 | the unscaled scores are those row-by-row folds |

## Left out

- Network, RPC, WebSocket, exchange and bundle clients, signing, metrics, JSON and configuration: I/O or libraries that cannot be seen here.
- Floating point: the logarithm that makes edge weights, `profit_multiplier`, latency averages, softmax and its scaling, normalisation and optimiser steps.
- `src/treasury`, `ConcentratedPool`, `RouteOptimizer`, `IntentSolver`, the bloom filter, base64, order-book scans and the unrolled spread scan: float thresholds, placeholders or easy members.
- Pool keys, pair lookups and the precomputed prices of the shadow: no other modelled part reads them.
- `BarrettReducer`: its reduction is a plain remainder; only its bound on the modulus is used.
- `compute_cycle_weight`, `alloc_typed`, `alloc_slice`, the bundle legs, the tip transaction and signatures.
- Aliasing of limb buffers: digit vectors and lane buffers local to one function are sequences that are reassigned, not arrays.
- The point formulas as calls of limb operations: the formulas are proved on residues, the limb operations separately.
- ExactOutput.ProfitIsConcave: about exact arithmetic; the integer profit is not concave in general, but within the rounding error of one that is.
- SearchQuality.CycleSearchNearBest: gives a bracket and bounds, not the exact maximiser, because forty steps need not reach width 2 and the last bracket is not scanned; nothing bounds the inputs of a last bracket that still starts at 1.
- Completeness.FindsExactly: with fewer hops than tokens it is not said which negative cycles are found; returned cycles are good in any case.
- Engine.Aste.ProcessEvent: for a pending swap no registered pool may have fee 0 / 0, since simulating a cycle through it divides by zero; an opportunity that bounded detection on a graph built some events ago misses is not reported; which these are is not stated.
- Arena.AlwaysSafe: memory ordering is taken as sequentially consistent on the one atomic cursor, and addresses as offsets into the buffer.
- Message.SerializeMessage: the header counts are passed through; nothing is claimed about which accounts must sign.
