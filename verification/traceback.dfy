/**
 * `trace`: the backward walk from the best cell of the score matrix to a
 * zero cell. No back-pointers are stored; every step recomputes the diagonal,
 * left and upper neighbour scores and picks a direction with a nested if/elif.
 *
 * That nested if/elif has a hole: when `diag >= left` but `diag < up` no
 * branch moves, the position stays put and the source's `while` loop never
 * ends. `Walk` and `Trace` make that hole visible as `Diverges`; `WalkCorrected`
 * and `TraceCorrected` take the source's move wherever it moves and go up,
 * to the one largest neighbour, where it stalls.
 */
module Traceback {
  import opened Types
  import opened ScoreMatrix

  /** The outcome of one step of `trace`. `Stay` is the case where no branch moves. */
  datatype Move = Diag | Left | Up | Stay

  /** One step of `trace`: the nested if/elif on the three neighbour scores. */
  function Step(diag: int, left: int, up: int): (mv: Move)
    ensures mv == Diag <==> diag >= left && diag >= up
    ensures mv == Left <==> left > diag && left >= up
    ensures mv == Up <==> left > diag && up > left
    ensures mv == Stay <==> diag >= left && diag < up
  {
    if diag >= left then
      if diag >= up then Diag else Stay
    else if left >= up then
      if left >= diag then Left else Stay
    else if up >= left then
      if up >= diag then Up else Stay
    else Stay
  }

  /** The score of the neighbour that move `mv` goes to. */
  function Toward(mv: Move, diag: int, left: int, up: int): int
    requires mv != Stay
  {
    match mv
    case Diag => diag
    case Left => left
    case Up => up
  }

  /** Every move `trace` does make goes to a neighbour with the largest of the three scores. */
  lemma StepPicksLargest(diag: int, left: int, up: int)
    requires Step(diag, left, up) != Stay
    ensures var v := Toward(Step(diag, left, up), diag, left, up); v >= diag && v >= left && v >= up
  {
  }

  /** The position a move leads to: diagonal `(r-1, c-1)`, left `(r, c-1)`, up `(r-1, c)`. */
  function Neighbour(p: Pos, mv: Move): (q: Pos)
    requires p.row >= 1 && p.col >= 1
    ensures mv == Diag ==> q.row + q.col == p.row + p.col - 2
    ensures mv == Left || mv == Up ==> q.row + q.col == p.row + p.col - 1
    ensures mv == Stay ==> q == p
    ensures q.row <= p.row && q.col <= p.col
  {
    match mv
    case Diag => Pos(p.row - 1, p.col - 1)
    case Left => Pos(p.row, p.col - 1)
    case Up => Pos(p.row - 1, p.col)
    case Stay => p
  }

  ghost predicate InGrid(m: array2<int>, p: Pos)
  {
    p.row < m.Length0 && p.col < m.Length1
  }

  /** A nonzero cell of a matrix with a zero boundary is an interior cell. */
  lemma NonZeroIsInterior(m: array2<int>, p: Pos)
    requires BordersZero(m) && InGrid(m, p) && m[p.row, p.col] != 0
    ensures p.row >= 1 && p.col >= 1
  {
  }

  /** The step `trace` takes from interior cell `p`. */
  function StepAt(m: array2<int>, p: Pos): Move
    reads m
    requires InGrid(m, p) && p.row >= 1 && p.col >= 1
  {
    Step(m[p.row - 1, p.col - 1], m[p.row, p.col - 1], m[p.row - 1, p.col])
  }

  /** How `trace` ends: it returns `path`, or it spins forever at the last cell of `path`. */
  datatype TraceOutcome = Finished(path: seq<Pos>) | Diverges(path: seq<Pos>)

  function Prepend(ps: seq<Pos>, t: TraceOutcome): TraceOutcome
  {
    match t
    case Finished(path) => Finished(ps + path)
    case Diverges(path) => Diverges(ps + path)
  }

  /** What `trace(matrix, p)` does, as a function of the matrix and the position. */
  ghost function Walk(m: array2<int>, p: Pos): TraceOutcome
    reads m
    requires BordersZero(m) && InGrid(m, p)
    decreases p.row + p.col
  {
    if m[p.row, p.col] == 0 then Finished([p])
    else
      NonZeroIsInterior(m, p);
      var mv := StepAt(m, p);
      if mv == Stay then Diverges([p])
      else Prepend([p], Walk(m, Neighbour(p, mv)))
  }

  /** `trace` steps from `p` to `q`: `p` is nonzero and its step moves to `q`. */
  ghost predicate Moves(m: array2<int>, p: Pos, q: Pos)
    reads m
  {
    && InGrid(m, p) && p.row >= 1 && p.col >= 1 && m[p.row, p.col] != 0
    && StepAt(m, p) != Stay && q == Neighbour(p, StepAt(m, p))
  }

  /**
   * The shape of what `trace` produces: it starts at the start position,
   * each later cell is the neighbour the step rule picks from the one before,
   * every cell but the last is nonzero, `row + col` falls at every step, and
   * the path ends on a zero cell, or on a nonzero cell where no branch moves.
   */
  lemma {:induction false} WalkShape(m: array2<int>, p: Pos)
    requires BordersZero(m) && InGrid(m, p)
    ensures var path := Walk(m, p).path;
      && |path| >= 1 && path[0] == p
      && |path| <= p.row + p.col + 1
      && (forall k | 0 <= k < |path| :: InGrid(m, path[k]))
      && (forall k | 0 <= k < |path| - 1 :: Moves(m, path[k], path[k + 1]))
      && (forall k | 0 <= k < |path| - 1 :: path[k + 1].row + path[k + 1].col < path[k].row + path[k].col)
      && (Walk(m, p).Finished? <==> m[path[|path| - 1].row, path[|path| - 1].col] == 0)
      && (Walk(m, p).Diverges? ==>
            var last := path[|path| - 1];
            last.row >= 1 && last.col >= 1 && StepAt(m, last) == Stay)
    decreases p.row + p.col
  {
    if m[p.row, p.col] != 0 {
      NonZeroIsInterior(m, p);
      var mv := StepAt(m, p);
      if mv != Stay {
        var q := Neighbour(p, mv);
        WalkShape(m, q);
        var rest := Walk(m, q).path;
        assert Walk(m, p).path == [p] + rest;
        assert Moves(m, p, q);
      }
    }
  }

  lemma PrependTwice(a: seq<Pos>, b: seq<Pos>, t: TraceOutcome)
    ensures Prepend(a, Prepend(b, t)) == Prepend(a + b, t)
  {
    AppendAssoc(a, b, t.path);
  }

  /** One unfolding of `Walk` at a nonzero cell. */
  lemma WalkUnfolds(m: array2<int>, p: Pos)
    requires BordersZero(m) && InGrid(m, p) && m[p.row, p.col] != 0
    ensures p.row >= 1 && p.col >= 1
    ensures StepAt(m, p) == Stay ==> Walk(m, p) == Diverges([p])
    ensures StepAt(m, p) != Stay ==> Walk(m, p) == Prepend([p], Walk(m, Neighbour(p, StepAt(m, p))))
  {
    NonZeroIsInterior(m, p);
  }

  /**
   * `trace(matrix, start_pos)`: the `while` loop appending the position each
   * step moves to. Where the source would loop forever, this returns
   * `Diverges` with the path built so far.
   */
  method Trace(m: array2<int>, start: Pos) returns (t: TraceOutcome)
    requires BordersZero(m) && InGrid(m, start)
    ensures t == Walk(m, start)
  {
    var result := [start];
    var current := start;
    var startVal := m[start.row, start.col];
    ghost var done: seq<Pos> := [];
    while startVal != 0
      invariant InGrid(m, current) && startVal == m[current.row, current.col]
      invariant result == done + [current]
      invariant Walk(m, start) == Prepend(done, Walk(m, current))
      decreases current.row + current.col
    {
      WalkUnfolds(m, current);
      var diagScore := m[current.row - 1, current.col - 1];
      var leftScore := m[current.row, current.col - 1];
      var upperScore := m[current.row - 1, current.col];
      var mv := Step(diagScore, leftScore, upperScore);
      if mv == Stay {
        return Diverges(result);
      }
      PrependTwice(done, [current], Walk(m, Neighbour(current, mv)));
      done := done + [current];
      current := Neighbour(current, mv);
      result := result + [current];
      startVal := m[current.row, current.col];
    }
    t := Finished(result);
  }

  /**
   * A small example: on a 3x3 matrix with a zero border and interior
   * 3, 1 / 1, 6, cell `(2, 2)` is the first maximum and `trace` goes
   * diagonally to `(1, 1)` and on to `(0, 0)`.
   */
  lemma WorkedWalk(m: array2<int>)
    requires m.Length0 == 3 && m.Length1 == 3 && BordersZero(m)
    requires m[1, 1] == 3 && m[1, 2] == 1 && m[2, 1] == 1 && m[2, 2] == 6
    ensures IsFirstMax(m, Pos(2, 2))
    ensures Walk(m, Pos(2, 2)) == Finished(WorkedPath)
  {
    assert Walk(m, Pos(0, 0)) == Finished([Pos(0, 0)]);
    assert Walk(m, Pos(1, 1)) == Finished([Pos(1, 1), Pos(0, 0)]);
  }

  /** The path of the small example, from the maximum back to `(0, 0)`. */
  const WorkedPath: seq<Pos> := [Pos(2, 2), Pos(1, 1), Pos(0, 0)]

  /**
   * The step that always moves: the move of `trace` wherever it makes one,
   * and up in the case where no branch moves, since there the upper
   * neighbour is the only one with the largest score.
   */
  function StepCorrected(diag: int, left: int, up: int): (mv: Move)
    ensures mv != Stay
    ensures Step(diag, left, up) != Stay ==> mv == Step(diag, left, up)
    ensures var v := Toward(mv, diag, left, up); v >= diag && v >= left && v >= up
    ensures mv == Diag <==> diag >= left && diag >= up
    ensures mv == Up <==> up > diag && up > left
    ensures mv == Left <==> left > diag && left >= up
  {
    var mv := Step(diag, left, up);
    if mv == Stay then Up else mv
  }

  /** The walk with `StepCorrected`: it always reaches a zero cell. */
  ghost function WalkCorrected(m: array2<int>, p: Pos): seq<Pos>
    reads m
    requires BordersZero(m) && InGrid(m, p)
    decreases p.row + p.col
  {
    if m[p.row, p.col] == 0 then [p]
    else
      NonZeroIsInterior(m, p);
      var mv := StepCorrected(m[p.row - 1, p.col - 1], m[p.row, p.col - 1], m[p.row - 1, p.col]);
      [p] + WalkCorrected(m, Neighbour(p, mv))
  }

  /** The corrected walk moves from `p` to `q`, a neighbour with the largest score. */
  ghost predicate MovesCorrected(m: array2<int>, p: Pos, q: Pos)
    reads m
  {
    && InGrid(m, p) && p.row >= 1 && p.col >= 1 && m[p.row, p.col] != 0
    && q == Neighbour(p, StepCorrected(m[p.row - 1, p.col - 1], m[p.row, p.col - 1], m[p.row - 1, p.col]))
    && m[q.row, q.col] >= m[p.row - 1, p.col - 1]
    && m[q.row, q.col] >= m[p.row, p.col - 1]
    && m[q.row, q.col] >= m[p.row - 1, p.col]
  }

  /**
   * The corrected walk terminates on every matrix with a zero boundary:
   * it starts at `p`, every step goes to a largest neighbour and lowers
   * `row + col`, every cell but the last is nonzero, and the last is zero,
   * within `p.row + p.col + 1` cells.
   */
  lemma {:induction false} WalkCorrectedShape(m: array2<int>, p: Pos)
    requires BordersZero(m) && InGrid(m, p)
    ensures var path := WalkCorrected(m, p);
      && |path| >= 1 && path[0] == p
      && |path| <= p.row + p.col + 1
      && (forall k | 0 <= k < |path| :: InGrid(m, path[k]))
      && (forall k | 0 <= k < |path| - 1 :: MovesCorrected(m, path[k], path[k + 1]))
      && (forall k | 0 <= k < |path| - 1 :: path[k + 1].row + path[k + 1].col < path[k].row + path[k].col)
      && m[path[|path| - 1].row, path[|path| - 1].col] == 0
    decreases p.row + p.col
  {
    if m[p.row, p.col] != 0 {
      NonZeroIsInterior(m, p);
      var mv := StepCorrected(m[p.row - 1, p.col - 1], m[p.row, p.col - 1], m[p.row - 1, p.col]);
      var q := Neighbour(p, mv);
      WalkCorrectedShape(m, q);
      assert WalkCorrected(m, p) == [p] + WalkCorrected(m, q);
      assert MovesCorrected(m, p, q);
    }
  }

  /**
   * The corrected walk changes only what happens at a stall: `trace`'s path
   * is always a prefix of the corrected walk, and the two are equal
   * whenever `trace` finishes.
   */
  lemma {:induction false} WalkCorrectedExtendsWalk(m: array2<int>, p: Pos)
    requires BordersZero(m) && InGrid(m, p)
    ensures Walk(m, p).path <= WalkCorrected(m, p)
    ensures Walk(m, p).Finished? ==> WalkCorrected(m, p) == Walk(m, p).path
    decreases p.row + p.col
  {
    if m[p.row, p.col] != 0 {
      NonZeroIsInterior(m, p);
      var mv := StepAt(m, p);
      var q := Neighbour(p, StepCorrected(m[p.row - 1, p.col - 1], m[p.row, p.col - 1], m[p.row - 1, p.col]));
      assert WalkCorrected(m, p) == [p] + WalkCorrected(m, q);
      if mv != Stay {
        WalkCorrectedExtendsWalk(m, q);
        assert Walk(m, p) == Prepend([p], Walk(m, q));
      }
    }
  }

  /** `trace` with the corrected step: the same loop, which now always moves. */
  method TraceCorrected(m: array2<int>, start: Pos) returns (path: seq<Pos>)
    requires BordersZero(m) && InGrid(m, start)
    ensures path == WalkCorrected(m, start)
  {
    path := [start];
    var current := start;
    ghost var done: seq<Pos> := [];
    while m[current.row, current.col] != 0
      invariant InGrid(m, current)
      invariant path == done + [current]
      invariant WalkCorrected(m, start) == done + WalkCorrected(m, current)
      decreases current.row + current.col
    {
      NonZeroIsInterior(m, current);
      var mv := StepCorrected(m[current.row - 1, current.col - 1], m[current.row, current.col - 1],
                              m[current.row - 1, current.col]);
      assert WalkCorrected(m, current) == [current] + WalkCorrected(m, Neighbour(current, mv));
      AppendAssoc(done, [current], WalkCorrected(m, Neighbour(current, mv)));
      done := done + [current];
      current := Neighbour(current, mv);
      path := path + [current];
    }
  }
}
