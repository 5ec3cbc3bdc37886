/**
 * `swaligner.py`: Smith-Waterman local alignment with a uniform scoring
 * scheme, `match = 3` for equal symbols, `mismatch = -3` otherwise, and a
 * gap penalty of -2. The matrix builder, `trace`, `check` and
 * `trace_string` are the shared ones of `ScoreMatrix`, `Traceback` and
 * `Views`, instantiated with this scheme.
 */
module SwAligner {
  import opened Types
  import opened ScoreMatrix
  import opened Traceback
  import opened Views

  const Match := 3
  const Mismatch := -3
  const Gap := -2

  /** `calc_score`'s similarity: `match` when the two symbols are equal, `mismatch` otherwise. */
  function PairScore(a: char, b: char): (r: int)
    ensures r > 0 <==> a == b
    ensures r == Match || r == Mismatch
  {
    if a == b then Match else Mismatch
  }

  /** The uniform scheme as a `Similarity`: it scores every pair of symbols. */
  const Uniform: Similarity := (a, b) => Some(PairScore(a, b))

  lemma UniformScoresEverything(s1: string, s2: string)
    ensures Scored(s1, s2, Uniform)
  {
  }

  /**
   * `create_score_matrix(rows, cols)` with `rows == |seq1| + 1` and
   * `cols == |seq2| + 1`. It never raises `KeyError`; its assertion fails
   * exactly when the two sequences have no symbol in common.
   */
  method CreateScoreMatrix(s1: string, s2: string) returns (m: array2<int>, r: BuildOutcome)
    ensures Scored(s1, s2, Uniform) && IsScoreGrid(m, s1, s2, Uniform, Gap)
    ensures BordersZero(m) && NonNegative(m)
    ensures !r.KeyError?
    ensures r.AssertionError? <==> forall a, b | 0 <= a < |s1| && 0 <= b < |s2| :: s1[a] != s2[b]
    ensures r.MaxPos? ==> IsFirstMax(m, r.pos) && m[r.pos.row, r.pos.col] > 0
  {
    UniformScoresEverything(s1, s2);
    m, r := ScoreMatrix.CreateScoreMatrix(s1, s2, Uniform, Gap);
    NoCommonSymbolIffAllZero(m, s1, s2);
  }

  /** The uniform matrix is all zero exactly when no symbol of `s1` occurs in `s2`. */
  lemma NoCommonSymbolIffAllZero(m: array2<int>, s1: string, s2: string)
    requires Scored(s1, s2, Uniform) && IsScoreGrid(m, s1, s2, Uniform, Gap)
    ensures AllZero(m) <==> forall a, b | 0 <= a < |s1| && 0 <= b < |s2| :: s1[a] != s2[b]
  {
    AllZeroIffNoPositivePair(m, s1, s2, Uniform, Gap);
    assert forall a, b | 0 <= a < |s1| && 0 <= b < |s2| ::
      (Uniform(s1[a], s2[b]).value <= 0 <==> s1[a] != s2[b]);
  }

  /**
   * A small example: `seq1 = "AC"`, `seq2 = "AC"`: the matrix,
   * its maximum at `(2, 2)` and the path `trace` returns.
   */
  lemma WorkedExample(m: array2<int>)
    requires Scored("AC", "AC", Uniform) && IsScoreGrid(m, "AC", "AC", Uniform, Gap)
    ensures m[1, 1] == 3 && m[1, 2] == 1 && m[2, 1] == 1 && m[2, 2] == 6
    ensures IsFirstMax(m, Pos(2, 2))
    ensures BordersZero(m) && Walk(m, Pos(2, 2)) == Finished(WorkedPath)
  {
    WorkedGrid(m);
    ScoreGridFacts(m, "AC", "AC", Uniform, Gap);
    WorkedWalk(m);
  }

  lemma WorkedGrid(m: array2<int>)
    requires Scored("AC", "AC", Uniform) && IsScoreGrid(m, "AC", "AC", Uniform, Gap)
    ensures m[1, 1] == 3 && m[1, 2] == 1 && m[2, 1] == 1 && m[2, 2] == 6
  {
    var s := "AC";
    assert m[1, 1] == Cell(s, s, Uniform, Gap, 1, 1) == 3;
    assert m[1, 2] == Cell(s, s, Uniform, Gap, 1, 2) == 1;
    assert m[2, 1] == Cell(s, s, Uniform, Gap, 2, 1) == 1;
    assert m[2, 2] == Cell(s, s, Uniform, Gap, 2, 2) == 6;
  }

  /** What `trace_string` prints for the worked example's path. */
  lemma WorkedExampleText()
    ensures TraceText(WorkedPath) == "r2c2 -> r1c1 -> r0c0"
  {
    WorkedLabels();
    assert Labels(WorkedPath) == ["r2c2", "r1c1", "r0c0"];
    JoinThree("r2c2", "r1c1", "r0c0");
    assert "r2c2" + " -> " + "r1c1" + " -> " + "r0c0" == "r2c2 -> r1c1 -> r0c0";
  }

  lemma WorkedLabels()
    ensures Label(Pos(2, 2)) == "r2c2" && Label(Pos(1, 1)) == "r1c1" && Label(Pos(0, 0)) == "r0c0"
  {
    assert NatToString(2) == "2" && NatToString(1) == "1" && NatToString(0) == "0";
  }

  lemma JoinThree(a: string, b: string, c: string)
    ensures Join([a, b, c]) == a + " -> " + b + " -> " + c
  {
    assert [a, b, c][1..] == [b, c] && [b, c][1..] == [c];
    assert Join([b, c]) == b + " -> " + c;
    assert Join([a, b, c]) == (a + " -> ") + Join([b, c]);
    AppendAssoc(a + " -> ", b + " -> ", c);
  }

  /**
   * A matrix on which `trace` never ends: for `seq1 = "AA"`, `seq2 = "ACA"`
   * the maximum 4 sits at `(2, 3)`, where the diagonal and left neighbours
   * score 1 and the upper one 3, so no branch moves. The corrected walk goes
   * up and on to a zero cell.
   */
  lemma StallExample(m: array2<int>)
    requires Scored("AA", "ACA", Uniform) && IsScoreGrid(m, "AA", "ACA", Uniform, Gap)
    ensures IsFirstMax(m, Pos(2, 3)) && m[2, 3] == 4
    ensures BordersZero(m) && Walk(m, Pos(2, 3)) == Diverges([Pos(2, 3)])
    ensures WalkCorrected(m, Pos(2, 3)) == [Pos(2, 3), Pos(1, 3), Pos(1, 2), Pos(1, 1), Pos(0, 0)]
  {
    StallGrid(m);
    ScoreGridFacts(m, "AA", "ACA", Uniform, Gap);
    StallWalk(m);
  }

  /** The two walks on the stall matrix, from its cell values alone. */
  lemma StallWalk(m: array2<int>)
    requires m.Length0 == 3 && m.Length1 == 4 && BordersZero(m)
    requires m[1, 1] == 3 && m[1, 2] == 1 && m[1, 3] == 3
    requires m[2, 1] == 3 && m[2, 2] == 1 && m[2, 3] == 4
    ensures IsFirstMax(m, Pos(2, 3))
    ensures Walk(m, Pos(2, 3)) == Diverges([Pos(2, 3)])
    ensures WalkCorrected(m, Pos(2, 3)) == [Pos(2, 3), Pos(1, 3), Pos(1, 2), Pos(1, 1), Pos(0, 0)]
  {
    assert StepAt(m, Pos(2, 3)) == Stay;
    assert WalkCorrected(m, Pos(0, 0)) == [Pos(0, 0)];
    assert WalkCorrected(m, Pos(1, 1)) == [Pos(1, 1), Pos(0, 0)];
    assert WalkCorrected(m, Pos(1, 2)) == [Pos(1, 2), Pos(1, 1), Pos(0, 0)];
    assert WalkCorrected(m, Pos(1, 3)) == [Pos(1, 3), Pos(1, 2), Pos(1, 1), Pos(0, 0)];
  }

  lemma StallGrid(m: array2<int>)
    requires Scored("AA", "ACA", Uniform) && IsScoreGrid(m, "AA", "ACA", Uniform, Gap)
    ensures m[1, 1] == 3 && m[1, 2] == 1 && m[1, 3] == 3
    ensures m[2, 1] == 3 && m[2, 2] == 1 && m[2, 3] == 4
  {
    var s1, s2 := "AA", "ACA";
    assert m[1, 1] == Cell(s1, s2, Uniform, Gap, 1, 1) == 3;
    assert m[1, 2] == Cell(s1, s2, Uniform, Gap, 1, 2) == 1;
    assert m[1, 3] == Cell(s1, s2, Uniform, Gap, 1, 3) == 3;
    assert m[2, 1] == Cell(s1, s2, Uniform, Gap, 2, 1) == 3;
    assert m[2, 2] == Cell(s1, s2, Uniform, Gap, 2, 2) == 1;
    assert m[2, 3] == Cell(s1, s2, Uniform, Gap, 2, 3) == 4;
  }
}
