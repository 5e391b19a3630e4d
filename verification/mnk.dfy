/** The m,n,k-in-a-row game adapter (mnk.h, mnk.c): a `width` x `height` board on which two
    players alternately place stones; a stone that completes a line of `stride` stones of its
    owner in one of the four directions wins, and a full board without a win is a draw. */
module Mnk {

  /** MONTE_INVALID_PLAYER: an empty cell, a finished game or "no winner". */
  const NoPlayer: int := -1

  datatype Config = Config(width: int, height: int, stride: int)

  /** A board cell holds 0 when empty and `player + 1` when occupied. */
  datatype State = State(config: Config, player: int, winner: int, numSpaces: int, board: seq<int>)

  datatype Move = Move(x: int, y: int)

  /** What inspecting a state writes into the engine's info buffer. */
  datatype Info = Info(currentPlayer: int, scores: seq<int>)

  predicate IsInt8(v: int) { -128 <= v <= 127 }

  /** Conversion to `int8_t`, wrapping modulo 256, of a value at most one wrap away. */
  function Int8(v: int): (r: int)
    requires -384 <= v < 384
    ensures IsInt8(r)
    ensures r == v || r == v + 256 || r == v - 256
    ensures IsInt8(v) ==> r == v
  {
    if v < -128 then v + 256 else if v > 127 then v - 256 else v
  }

  /** The configurations a state can be built from: the board dimensions are positive `int8_t`
      values, so that the cell count `width * height` fits the `int16_t` space counter. */
  predicate ValidConfig(c: Config) {
    1 <= c.width <= 127 && 1 <= c.height <= 127 && IsInt8(c.stride)
  }

  predicate Shaped(s: State) {
    ValidConfig(s.config) && |s.board| == RowStart(s.config.width, s.config.height)
  }

  predicate InBounds(s: State, x: int, y: int) {
    0 <= x < s.config.width && 0 <= y < s.config.height
  }

  /** Index of the first cell of row y in a row-major board of width w, that is `y * w`. */
  function RowStart(w: nat, y: nat): nat {
    if y == 0 then 0 else RowStart(w, y - 1) + w
  }

  lemma {:induction false} RowStartIsProduct(w: nat, y: nat)
    ensures RowStart(w, y) == y * w
  {
    if y > 0 {
      RowStartIsProduct(w, y - 1);
    }
  }

  /** Rows do not overlap: row y ends before row y' starts whenever y < y'. */
  lemma {:induction false} RowStartMonotone(w: nat, y: nat, y': nat)
    requires y < y'
    ensures RowStart(w, y) + w <= RowStart(w, y')
  {
    if y + 1 < y' {
      RowStartMonotone(w, y, y' - 1);
    }
  }

  /** Position of cell (x, y) in the row-major board: `y * width + x`. */
  function CellIndex(s: State, x: int, y: int): (i: nat)
    requires Shaped(s) && InBounds(s, x, y)
    ensures i < |s.board|
  {
    RowStartMonotone(s.config.width, y, s.config.height);
    RowStart(s.config.width, y) + x
  }

  lemma CellIndexInjective(s: State, x: int, y: int, x': int, y': int)
    requires Shaped(s) && InBounds(s, x, y) && InBounds(s, x', y')
    requires x != x' || y != y'
    ensures CellIndex(s, x, y) != CellIndex(s, x', y')
  {
    if y < y' {
      RowStartMonotone(s.config.width, y, y');
    } else if y' < y {
      RowStartMonotone(s.config.width, y', y);
    }
  }

  /** Every board index is the cell of some in-bounds coordinate pair. */
  lemma CellOfIndex(s: State, i: int) returns (x: int, y: int)
    requires Shaped(s) && 0 <= i < |s.board|
    ensures InBounds(s, x, y) && CellIndex(s, x, y) == i
  {
    var w := s.config.width;
    y := 0;
    while RowStart(w, y + 1) <= i
      invariant 0 <= y < s.config.height && RowStart(w, y) <= i
      decreases i - RowStart(w, y)
    {
      if y + 1 == s.config.height {
        assert false;
      }
      y := y + 1;
    }
    x := i - RowStart(w, y);
  }

  /** mnk_state_get: the player occupying (x, y), or NoPlayer for an empty or off-board cell. */
  function Get(s: State, x: int, y: int): (r: int)
    requires Shaped(s)
    ensures !InBounds(s, x, y) ==> r == NoPlayer
    ensures InBounds(s, x, y) ==> (r == NoPlayer <==> s.board[CellIndex(s, x, y)] == 0)
    ensures (forall i | 0 <= i < |s.board| :: 0 <= s.board[i] <= 2) ==> -1 <= r <= 1
  {
    if InBounds(s, x, y) then s.board[CellIndex(s, x, y)] - 1 else NoPlayer
  }

  /** mnk_state_set: stores `p` at an in-bounds cell and counts one space fewer; it does not
      look at what the cell held before. */
  function Set(s: State, x: int, y: int, p: int): (r: State)
    requires Shaped(s) && InBounds(s, x, y)
    ensures Shaped(r) && r.config == s.config
    ensures r.player == s.player && r.winner == s.winner
    ensures r.numSpaces == s.numSpaces - 1
    ensures Get(r, x, y) == p
    ensures forall x', y' | (x' != x || y' != y) :: Get(r, x', y') == Get(s, x', y')
  {
    var i := CellIndex(s, x, y);
    var r := s.(board := s.board[i := p + 1], numSpaces := s.numSpaces - 1);
    assert forall x', y' | InBounds(s, x', y') && (x' != x || y' != y) :: CellIndex(s, x', y') != i by {
      forall x', y' | InBounds(s, x', y') && (x' != x || y' != y) {
        CellIndexInjective(s, x, y, x', y');
      }
    }
    r
  }

  /** Number of empty cells on a board. */
  function CountEmpty(b: seq<int>): nat
  {
    if |b| == 0 then 0 else CountEmpty(b[..|b| - 1]) + (if b[|b| - 1] == 0 then 1 else 0)
  }

  lemma {:induction false} CountEmptyUpdate(b: seq<int>, i: int, v: int)
    requires 0 <= i < |b| && b[i] == 0 && v != 0
    ensures CountEmpty(b[i := v]) == CountEmpty(b) - 1
  {
    var b' := b[i := v];
    if i == |b| - 1 {
      assert b'[..|b'| - 1] == b[..|b| - 1];
    } else {
      assert b'[..|b'| - 1] == b[..|b| - 1][i := v];
      CountEmptyUpdate(b[..|b| - 1], i, v);
    }
  }

  lemma {:induction false} CountEmptyAllZero(b: seq<int>)
    requires forall i | 0 <= i < |b| :: b[i] == 0
    ensures CountEmpty(b) == |b|
  {
    if |b| > 0 {
      CountEmptyAllZero(b[..|b| - 1]);
    }
  }

  lemma {:induction false} SomeCellEmpty(b: seq<int>) returns (i: int)
    requires CountEmpty(b) > 0
    ensures 0 <= i < |b| && b[i] == 0
  {
    if b[|b| - 1] == 0 {
      i := |b| - 1;
    } else {
      i := SomeCellEmpty(b[..|b| - 1]);
    }
  }

  /** The invariant every state built by Create and ApplyMove keeps. */
  predicate Valid(s: State) {
    && Shaped(s)
    && (forall i | 0 <= i < |s.board| :: 0 <= s.board[i] <= 2)
    && s.numSpaces == CountEmpty(s.board)
    && -1 <= s.player <= 1
    && -1 <= s.winner <= 1
    && (s.player != NoPlayer ==> s.winner == NoPlayer && s.numSpaces > 0)
    && (s.player == NoPlayer && s.numSpaces > 0 ==> s.winner != NoPlayer)
  }

  /** A player is still to move. */
  predicate Live(s: State) { s.player != NoPlayer }

  /** A move the game accepts: an empty cell on the board. */
  predicate Legal(s: State, m: Move)
    requires Shaped(s)
  {
    InBounds(s, m.x, m.y) && Get(s, m.x, m.y) == NoPlayer
  }

  /** t steps along one direction component d in {-1, 0, 1} (negative t walks backwards). */
  function Offset(d: int, t: int): int {
    if d > 0 then t else if d < 0 then -t else 0
  }

  predicate Unit(dx: int, dy: int) {
    -1 <= dx <= 1 && -1 <= dy <= 1 && (dx != 0 || dy != 0)
  }

  /** The owner of the cell t steps from (x, y) along (dx, dy). */
  function Ray(s: State, x: int, y: int, dx: int, dy: int, t: int): int
    requires Shaped(s)
  {
    Get(s, x + Offset(dx, t), y + Offset(dy, t))
  }

  lemma RayStep(s: State, x: int, y: int, dx: int, dy: int, t: int)
    requires Shaped(s) && Unit(dx, dy)
    ensures Ray(s, x, y, dx, dy, t) == Ray(s, x + dx, y + dy, dx, dy, t - 1)
  {
  }

  lemma RayReverse(s: State, x: int, y: int, dx: int, dy: int, ex: int, ey: int)
    requires Shaped(s) && Unit(dx, dy) && ex == -dx && ey == -dy
    ensures forall t :: Ray(s, x, y, ex, ey, t) == Ray(s, x, y, dx, dy, -t)
  {
  }

  function Nat(v: int): nat { if v < 0 then 0 else v }

  /** Steps left before a walk from (x, y) along (dx, dy) leaves the board. */
  function Remaining(s: State, x: int, y: int, dx: int, dy: int): nat {
    if dx > 0 then Nat(s.config.width - x)
    else if dx < 0 then Nat(x + 1)
    else if dy > 0 then Nat(s.config.height - y)
    else Nat(y + 1)
  }

  /** mnk_count_stride: how many consecutive cells of `p` follow (x, y) along (dx, dy), the
      cell (x, y) itself not included. */
  function CountStride(s: State, p: int, x: int, y: int, dx: int, dy: int): (r: nat)
    requires Shaped(s) && Unit(dx, dy) && p != NoPlayer
    ensures r <= Remaining(s, x, y, dx, dy)
    decreases Remaining(s, x, y, dx, dy)
  {
    if Get(s, x + dx, y + dy) == p then 1 + CountStride(s, p, x + dx, y + dy, dx, dy) else 0
  }

  /** The count is exactly the length of the run of `p` that follows (x, y): every counted cell
      holds `p` and the next one does not. */
  lemma {:induction false} CountStrideRun(s: State, p: int, x: int, y: int, dx: int, dy: int)
    requires Shaped(s) && Unit(dx, dy) && p != NoPlayer
    ensures Stretch(s, p, x, y, dx, dy, CountStride(s, p, x, y, dx, dy))
    decreases Remaining(s, x, y, dx, dy)
  {
    var r := CountStride(s, p, x, y, dx, dy);
    RayStep(s, x, y, dx, dy, 1);
    if Get(s, x + dx, y + dy) == p {
      var rest := CountStride(s, p, x + dx, y + dy, dx, dy);
      assert r == rest + 1;
      StepShrinks(s, x, y, dx, dy);
      CountStrideRun(s, p, x + dx, y + dy, dx, dy);
      RunExtends(s, p, x, y, dx, dy, x + dx, y + dy, rest);
    }
  }

  /** Exactly n cells of `p` follow (x, y) along (dx, dy): each of them holds `p` and the
      next one does not. */
  predicate Stretch(s: State, p: int, x: int, y: int, dx: int, dy: int, n: nat)
    requires Shaped(s)
  {
    && (forall t | 1 <= t <= n :: Ray(s, x, y, dx, dy, t) == p)
    && Ray(s, x, y, dx, dy, n + 1) != p
  }

  /** A run of `rest` cells of `p` after the next cell (nx, ny), itself holding `p`, is a run
      of `rest + 1` cells after (x, y). */
  lemma RunExtends(s: State, p: int, x: int, y: int, dx: int, dy: int, nx: int, ny: int, rest: nat)
    requires Shaped(s) && Unit(dx, dy) && nx == x + dx && ny == y + dy && Get(s, nx, ny) == p
    requires Stretch(s, p, nx, ny, dx, dy, rest)
    ensures Stretch(s, p, x, y, dx, dy, rest + 1)
  {
    forall t | 1 <= t <= rest + 1 ensures Ray(s, x, y, dx, dy, t) == p {
      RayStep(s, x, y, dx, dy, t);
    }
    RayStep(s, x, y, dx, dy, rest + 2);
  }

  /** A step onto the board brings the walk closer to the edge it is heading for. */
  lemma StepShrinks(s: State, x: int, y: int, dx: int, dy: int)
    requires Shaped(s) && Unit(dx, dy) && InBounds(s, x + dx, y + dy)
    ensures Remaining(s, x + dx, y + dy, dx, dy) < Remaining(s, x, y, dx, dy)
  {
  }

  /** The threshold `stride - 1`, computed in `int8_t` as the source does. */
  function Need(s: State): int
    requires ValidConfig(s.config)
  {
    Int8(s.config.stride - 1)
  }

  /** The win test of monte_user_apply_move: the stones of `p` through (x, y) along one of the
      four directions, both sides counted, reach the threshold. */
  predicate CompletesRun(s: State, p: int, x: int, y: int)
    requires Shaped(s) && p != NoPlayer
    ensures Need(s) <= 0 ==> CompletesRun(s, p, x, y)
  {
    || CountStride(s, p, x, y, 1, 0) + CountStride(s, p, x, y, -1, 0) >= Need(s)
    || CountStride(s, p, x, y, 0, 1) + CountStride(s, p, x, y, 0, -1) >= Need(s)
    || CountStride(s, p, x, y, 1, 1) + CountStride(s, p, x, y, -1, -1) >= Need(s)
    || CountStride(s, p, x, y, -1, 1) + CountStride(s, p, x, y, 1, -1) >= Need(s)
  }

  /** Every cell from `back` steps behind (x, y) to `ahead` steps beyond it along (dx, dy)
      belongs to `p`. */
  ghost predicate Line(s: State, p: int, x: int, y: int, dx: int, dy: int, back: nat, ahead: nat)
    requires Shaped(s)
  {
    forall t: int | -(back as int) <= t <= ahead :: Ray(s, x, y, dx, dy, t) == p
  }

  /** (x, y) lies on a line of `p` with at least `need` further stones along (dx, dy). */
  ghost predicate RunOf(s: State, p: int, x: int, y: int, dx: int, dy: int, need: int)
    requires Shaped(s)
  {
    exists back: nat, ahead: nat :: back + ahead >= need && Line(s, p, x, y, dx, dy, back, ahead)
  }

  /** The rule of the game: the stone at (x, y) lies in a horizontal, vertical or diagonal line
      of `p` that is long enough. */
  ghost predicate InRun(s: State, p: int, x: int, y: int)
    requires Shaped(s)
  {
    || RunOf(s, p, x, y, 1, 0, Need(s))
    || RunOf(s, p, x, y, 0, 1, Need(s))
    || RunOf(s, p, x, y, 1, 1, Need(s))
    || RunOf(s, p, x, y, -1, 1, Need(s))
  }

  /** The cells counted on both sides of (x, y), with (x, y) itself, form a line of `p`. */
  lemma CountsFormLine(s: State, p: int, x: int, y: int, dx: int, dy: int)
    requires Shaped(s) && Unit(dx, dy) && p != NoPlayer && Get(s, x, y) == p
    ensures Line(s, p, x, y, dx, dy, CountStride(s, p, x, y, -dx, -dy), CountStride(s, p, x, y, dx, dy))
  {
    var ahead := CountStride(s, p, x, y, dx, dy);
    var back := CountStride(s, p, x, y, -dx, -dy);
    CountStrideRun(s, p, x, y, dx, dy);
    CountBehind(s, p, x, y, dx, dy);
    assert Ray(s, x, y, dx, dy, 0) == p;
    forall t: int | -(back as int) <= t <= ahead
      ensures Ray(s, x, y, dx, dy, t) == p
    {
      if t < 0 {
        assert -(back as int) <= t <= -1;
      }
    }
  }

  /** The cells counted backwards from (x, y) are the line's cells behind it. */
  lemma CountBehind(s: State, p: int, x: int, y: int, dx: int, dy: int)
    requires Shaped(s) && Unit(dx, dy) && p != NoPlayer
    ensures forall t: int | -(CountStride(s, p, x, y, -dx, -dy) as int) <= t <= -1 ::
              Ray(s, x, y, dx, dy, t) == p
  {
    var ex, ey := -dx, -dy;
    var back := CountStride(s, p, x, y, ex, ey);
    CountStrideRun(s, p, x, y, ex, ey);
    RayReverse(s, x, y, dx, dy, ex, ey);
    forall t: int | -(back as int) <= t <= -1
      ensures Ray(s, x, y, dx, dy, t) == p
    {
      assert Ray(s, x, y, ex, ey, -t) == p;
    }
  }

  /** No line of `p` through (x, y) reaches further than the counts on either side. */
  lemma LineWithinCounts(s: State, p: int, x: int, y: int, dx: int, dy: int, back: nat, ahead: nat)
    requires Shaped(s) && Unit(dx, dy) && p != NoPlayer
    requires Line(s, p, x, y, dx, dy, back, ahead)
    ensures ahead <= CountStride(s, p, x, y, dx, dy)
    ensures back <= CountStride(s, p, x, y, -dx, -dy)
  {
    RunWithinCount(s, p, x, y, dx, dy, ahead);
    var ex, ey := -dx, -dy;
    RayReverse(s, x, y, dx, dy, ex, ey);
    forall t | 1 <= t <= back
      ensures Ray(s, x, y, ex, ey, t) == p
    {
      assert Ray(s, x, y, ex, ey, t) == Ray(s, x, y, dx, dy, -t);
    }
    RunWithinCount(s, p, x, y, ex, ey, back);
  }

  /** A run of `p` of length n following (x, y) is no longer than the count. */
  lemma RunWithinCount(s: State, p: int, x: int, y: int, dx: int, dy: int, n: nat)
    requires Shaped(s) && Unit(dx, dy) && p != NoPlayer
    requires forall t | 1 <= t <= n :: Ray(s, x, y, dx, dy, t) == p
    ensures n <= CountStride(s, p, x, y, dx, dy)
  {
    var c := CountStride(s, p, x, y, dx, dy);
    CountStrideRun(s, p, x, y, dx, dy);
  }

  /** Counting both sides of (x, y) decides exactly whether (x, y) lies in a long enough line. */
  lemma CountBothSides(s: State, p: int, x: int, y: int, dx: int, dy: int, need: int)
    requires Shaped(s) && Unit(dx, dy) && p != NoPlayer && Get(s, x, y) == p
    ensures CountStride(s, p, x, y, dx, dy) + CountStride(s, p, x, y, -dx, -dy) >= need
        <==> RunOf(s, p, x, y, dx, dy, need)
  {
    CountsFormLine(s, p, x, y, dx, dy);
    if RunOf(s, p, x, y, dx, dy, need) {
      var b: nat, a: nat :| b + a >= need && Line(s, p, x, y, dx, dy, b, a);
      LineWithinCounts(s, p, x, y, dx, dy, b, a);
    }
  }

  /** The four-direction count of the source decides the rule of the game. */
  lemma CompletesRunIff(s: State, p: int, x: int, y: int)
    requires Shaped(s) && p != NoPlayer && Get(s, x, y) == p
    ensures CompletesRun(s, p, x, y) <==> InRun(s, p, x, y)
  {
    CountBothSides(s, p, x, y, 1, 0, Need(s));
    CountBothSides(s, p, x, y, 0, 1, Need(s));
    CountBothSides(s, p, x, y, 1, 1, Need(s));
    CountBothSides(s, p, x, y, -1, 1, Need(s));
  }

  /** monte_user_apply_move: no-op on a finished game; otherwise the mover's stone goes on the
      cell and the game is won by the mover, drawn on a full board, or passes to the other
      player (see ApplyMoveOutcome). */
  function ApplyMove(s: State, m: Move): (r: State)
    requires Valid(s)
    requires Live(s) ==> Legal(s, m)
    ensures Valid(r)
    ensures !Live(s) ==> r == s
    ensures Live(s) ==> r.config == s.config && r.numSpaces == s.numSpaces - 1
    ensures Live(s) ==> Get(r, m.x, m.y) == s.player
    ensures Live(s) ==> forall x, y | x != m.x || y != m.y :: Get(r, x, y) == Get(s, x, y)
  {
    if !Live(s) then s
    else
      var mover := s.player;
      var placed := Set(s, m.x, m.y, mover);
      PlaceStone(s, m);
      Settle(placed, mover, CompletesRun(placed, mover, m.x, m.y))
  }

  /** After the stone is placed: a win for the mover, a draw on a full board, or the other
      player's turn. */
  function Settle(placed: State, mover: int, won: bool): (r: State)
    requires Shaped(placed) && 0 <= mover <= 1 && placed.winner == NoPlayer
    requires (forall i | 0 <= i < |placed.board| :: 0 <= placed.board[i] <= 2)
    requires placed.numSpaces == CountEmpty(placed.board)
    ensures Valid(r) && r.config == placed.config && r.board == placed.board && r.numSpaces == placed.numSpaces
    ensures forall x, y :: Get(r, x, y) == Get(placed, x, y)
    ensures won ==> r.player == NoPlayer && r.winner == mover
    ensures !won && placed.numSpaces == 0 ==> r.player == NoPlayer && r.winner == NoPlayer
    ensures !won && placed.numSpaces > 0 ==> r.player == 1 - mover && r.winner == NoPlayer
  {
    if won then placed.(player := NoPlayer, winner := mover)
    else if placed.numSpaces == 0 then placed.(player := NoPlayer, winner := NoPlayer)
    else placed.(player := 1 - mover)
  }

  /** The board after the mover's stone goes on an empty cell still holds only empty cells and
      stones, and its count of empty cells is one less. */
  lemma PlaceStone(s: State, m: Move)
    requires Valid(s) && Live(s) && Legal(s, m)
    ensures var placed := Set(s, m.x, m.y, s.player);
            && (forall i | 0 <= i < |placed.board| :: 0 <= placed.board[i] <= 2)
            && placed.numSpaces == CountEmpty(placed.board)
  {
    var i := CellIndex(s, m.x, m.y);
    var placed := Set(s, m.x, m.y, s.player);
    assert placed.board == s.board[i := s.player + 1];
    CountEmptyUpdate(s.board, i, s.player + 1);
  }

  /** The outcome of a move on a live game, in terms of the rule of the game: a stone that lies in
      a long enough line wins for the mover; otherwise a full board is a draw; otherwise the turn
      passes to the other player. */
  lemma ApplyMoveOutcome(s: State, m: Move)
    requires Valid(s) && Live(s) && Legal(s, m)
    ensures var r := ApplyMove(s, m);
            && (InRun(r, s.player, m.x, m.y) ==> r.player == NoPlayer && r.winner == s.player)
            && (!InRun(r, s.player, m.x, m.y) && r.numSpaces == 0 ==>
                  r.player == NoPlayer && r.winner == NoPlayer)
            && (!InRun(r, s.player, m.x, m.y) && r.numSpaces > 0 ==>
                  r.player == 1 - s.player && r.winner == NoPlayer)
  {
    var placed := Set(s, m.x, m.y, s.player);
    CompletesRunIff(placed, s.player, m.x, m.y);
    InRunReadsCells(placed, ApplyMove(s, m), s.player, m.x, m.y);
  }

  /** Whether a stone lies in a line depends on the board alone, not on whose turn it is. */
  lemma InRunReadsCells(a: State, b: State, p: int, x: int, y: int)
    requires Shaped(a) && a.config == b.config && a.board == b.board
    ensures InRun(a, p, x, y) <==> InRun(b, p, x, y)
  {
    assert forall x', y' :: Get(a, x', y') == Get(b, x', y');
    assert forall dx, dy, t :: Ray(a, x, y, dx, dy, t) == Ray(b, x, y, dx, dy, t);
    assert forall dx, dy, back, ahead ::
      Line(a, p, x, y, dx, dy, back, ahead) == Line(b, p, x, y, dx, dy, back, ahead);
  }

  /** monte_user_inspect_state. On a full board it reports no player to move and a draw, even if
      the last stone won; otherwise it reports the player to move, and writes the scores only
      when someone has won, leaving the buffer `prev` as it was during play. */
  function Inspect(s: State, prev: seq<int>): (info: Info)
    requires Valid(s) && |prev| == 2
    ensures |info.scores| == 2
    ensures info.currentPlayer == NoPlayer <==> !Live(s)
    ensures Live(s) ==> info.currentPlayer == s.player && info.scores == prev
    ensures !Live(s) && s.numSpaces == 0 ==> info.scores == [0, 0]
    ensures !Live(s) && s.numSpaces > 0 ==>
              info.scores[s.winner] == 1 && info.scores[1 - s.winner] == -1
  {
    if s.numSpaces == 0 then Info(NoPlayer, [0, 0])
    else if s.winner != NoPlayer then Info(s.player, prev[s.winner := 1][1 - s.winner := -1])
    else Info(s.player, prev)
  }

  /** Once the game is over, inspection writes every score: they no longer depend on what the
      buffer held, lie in {-1, 0, 1} and sum to zero. */
  lemma TerminalScores(s: State, a: seq<int>, b: seq<int>)
    requires Valid(s) && |a| == 2 && |b| == 2 && !Live(s)
    ensures Inspect(s, a).scores == Inspect(s, b).scores
    ensures forall i | 0 <= i < 2 :: -1 <= Inspect(s, a).scores[i] <= 1
    ensures Inspect(s, a).scores[0] + Inspect(s, a).scores[1] == 0
  {
  }

  /** A stone that completes a line on the last empty cell is recorded as a win for the mover,
      yet inspection reports the game as a draw, scores (0, 0). */
  lemma LastCellWinScoresDraw(s: State, m: Move, prev: seq<int>)
    requires Valid(s) && Live(s) && Legal(s, m) && s.numSpaces == 1 && |prev| == 2
    requires InRun(Set(s, m.x, m.y, s.player), s.player, m.x, m.y)
    ensures ApplyMove(s, m).winner == s.player
    ensures Inspect(ApplyMove(s, m), prev).scores == [0, 0]
  {
    ApplyMoveOutcome(s, m);
    InRunReadsCells(Set(s, m.x, m.y, s.player), ApplyMove(s, m), s.player, m.x, m.y);
  }

  /** Lexicographic (x, then y) order: the order in which moves are enumerated. */
  predicate Before(a: Move, b: Move) {
    a.x < b.x || (a.x == b.x && a.y < b.y)
  }

  /** The empty cells of column x from row y down. */
  function ColumnMoves(s: State, x: int, y: int): (r: seq<Move>)
    requires Shaped(s) && 0 <= y
    ensures forall m :: m in r <==> m.x == x && y <= m.y && Legal(s, m)
    ensures forall i, j | 0 <= i < j < |r| :: r[i].x == r[j].x && r[i].y < r[j].y
    decreases s.config.height - y
  {
    if y >= s.config.height then []
    else
      var here := if InBounds(s, x, y) && Get(s, x, y) == NoPlayer then [Move(x, y)] else [];
      here + ColumnMoves(s, x, y + 1)
  }

  /** The empty cells of the columns from x rightwards, column by column. */
  function ColumnsFrom(s: State, x: int): (r: seq<Move>)
    requires Shaped(s) && 0 <= x
    ensures forall m :: m in r <==> x <= m.x && Legal(s, m)
    ensures forall i, j | 0 <= i < j < |r| :: Before(r[i], r[j])
    decreases s.config.width - x
  {
    if x >= s.config.width then []
    else
      var col := ColumnMoves(s, x, 0);
      var rest := ColumnsFrom(s, x + 1);
      assert forall i | 0 <= i < |col| :: col[i].x == x by {
        forall i | 0 <= i < |col| ensures col[i].x == x {
          assert col[i] in col;
        }
      }
      assert forall j | 0 <= j < |rest| :: rest[j].x > x by {
        forall j | 0 <= j < |rest| ensures rest[j].x > x {
          assert rest[j] in rest;
        }
      }
      col + rest
  }

  /** monte_user_iterate_moves: every empty cell submitted exactly once, x in the outer loop and
      y in the inner one. */
  function LegalMoves(s: State): (r: seq<Move>)
    requires Shaped(s)
    ensures forall m :: m in r <==> Legal(s, m)
    ensures forall i, j | 0 <= i < j < |r| :: Before(r[i], r[j])
    ensures forall i, j | 0 <= i < j < |r| :: r[i] != r[j]
  {
    ColumnsFrom(s, 0)
  }

  /** A game that still has a player to move has a legal move. */
  lemma LiveHasMoves(s: State)
    requires Valid(s) && Live(s)
    ensures |LegalMoves(s)| > 0
  {
    var i := SomeCellEmpty(s.board);
    var x, y := CellOfIndex(s, i);
    assert Legal(s, Move(x, y));
    assert Move(x, y) in LegalMoves(s);
  }

  /** monte_user_moves_equal. */
  function MovesEqual(a: Move, b: Move): (r: bool)
    ensures r <==> a == b
  {
    a.x == b.x && a.y == b.y
  }

  /** The value monte_user_hash_move feeds to its bit mixer: `(x << 8) | x`, which for the
      board's non-negative columns is `x * 257`. */
  function HashKey(m: Move): int {
    m.x * 256 + m.x
  }

  /** monte_user_hash_move, with the splittable64 mixer left as the parameter `mix`. */
  function HashMove(mix: int -> nat, m: Move): (h: nat)
    ensures h == mix(HashKey(Move(m.x, 0)))
  {
    mix(HashKey(m))
  }

  /** The hash ignores the row: all moves of one column collide. */
  lemma HashIgnoresRow(mix: int -> nat, a: Move, b: Move)
    requires a.x == b.x
    ensures HashMove(mix, a) == HashMove(mix, b)
  {
  }

  /** mnk_state_create: player 0 to move, no winner, every cell empty. */
  function Create(c: Config): (s: State)
    requires ValidConfig(c)
    ensures Valid(s) && s.config == c
    ensures s.player == 0 && s.winner == NoPlayer
    ensures s.numSpaces == c.width * c.height
    ensures forall x, y :: Get(s, x, y) == NoPlayer
  {
    var area := RowStart(c.width, c.height);
    RowStartIsProduct(c.width, c.height);
    RowStartMonotone(c.width, 0, c.height);
    var b := seq(area, _ => 0);
    CountEmptyAllZero(b);
    State(c, 0, NoPlayer, area, b)
  }
}
