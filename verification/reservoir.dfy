/** The single-slot reservoir sampling shared by expansion (monte_submit_move_for_expansion) and
    simulation (monte_submit_move_for_simulation). The first candidate is taken without a draw;
    the n-th candidate (n >= 2) costs one draw of the random generator and replaces the held one
    when `random * n < 1`.

    The float generator is an oracle: `coin(k, n)` is the outcome of the test `random * n < 1`
    for the k-th number the generator produces. */
module Reservoir {

  /** The held candidate's position and the number of random numbers drawn so far. */
  datatype Pick = Pick(index: nat, draws: nat)

  /** Whether candidate j (0-based) would replace the held one when its turn comes, the draws
      having started at d. */
  predicate Accepts(coin: (nat, nat) -> bool, d: nat, j: nat) {
    j == 0 || coin(d + j - 1, j + 1)
  }

  /** Offering `cands` in order, the draws starting at d: the held candidate is the last one
      that was accepted, and every candidate after the first cost one draw. */
  function Run<T>(cands: seq<T>, d: nat, coin: (nat, nat) -> bool): (r: Pick)
    ensures r.draws == d + (if |cands| == 0 then 0 else |cands| - 1)
    ensures |cands| > 0 ==> r.index < |cands| && Accepts(coin, d, r.index)
    ensures forall j | r.index < j < |cands| :: !Accepts(coin, d, j)
  {
    if |cands| <= 1 then Pick(0, d)
    else
      var held := Run(cands[..|cands| - 1], d, coin);
      var n := |cands|;
      if coin(held.draws, n) then Pick(n - 1, held.draws + 1) else Pick(held.index, held.draws + 1)
  }

  /** The held candidate does not depend on the candidates' values, only on their number. */
  lemma {:induction false} RunIgnoresValues<T, U>(a: seq<T>, b: seq<U>, d: nat, coin: (nat, nat) -> bool)
    requires |a| == |b|
    ensures Run(a, d, coin) == Run(b, d, coin)
  {
    if |a| > 1 {
      RunIgnoresValues(a[..|a| - 1], b[..|b| - 1], d, coin);
    }
  }
}
