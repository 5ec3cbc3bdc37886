/**
 * `swaligner_adjusted.py`: the same aligner with pairs of nucleotides scored
 * by the `adjusted_scores` table: 3 for identical bases, 1 for a transition
 * (A with G, C with T), -3 for a transversion, and a gap penalty of -2. A
 * pair the table lacks raises `KeyError`.
 */
module SwAlignerAdjusted {
  import opened Types
  import opened ScoreMatrix
  import opened Traceback
  import opened Views

  const Gap := -2

  /** `adjusted_scores`, keyed by the two-letter string `seq1 symbol + seq2 symbol`. */
  const AdjustedScores: map<string, int> :=
    map["AA" := 3, "AT" := -3, "AC" := -3, "AG" := 1,
        "TA" := -3, "TT" := 3, "TC" := 1, "TG" := -3,
        "CA" := -3, "CT" := 1, "CC" := 3, "CG" := -3,
        "GA" := 1, "GT" := -3, "GC" := -3, "GG" := 3]

  /** `calc_score`'s lookup `adjusted_scores[seq1[x - 1] + seq2[y - 1]]`; `None` is the `KeyError`. */
  function Lookup(a: char, b: char): (r: Option<int>)
    ensures r.Some? <==> [a, b] in AdjustedScores
    ensures r.Some? ==> r.value == AdjustedScores[[a, b]]
  {
    var pairing := [a, b];
    if pairing in AdjustedScores then Some(AdjustedScores[pairing]) else None
  }

  const Adjusted: Similarity := (a, b) => Lookup(a, b)

  predicate IsBase(c: char)
  {
    c == 'A' || c == 'C' || c == 'G' || c == 'T'
  }

  /** Every symbol of `s` is a nucleotide. */
  predicate AllBases(s: string)
  {
    forall k | 0 <= k < |s| :: IsBase(s[k])
  }

  /** Purines are A and G; C and T are pyrimidines. */
  predicate IsPurine(c: char)
  {
    c == 'A' || c == 'G'
  }

  /**
   * The scoring the table is meant to encode, stated independently:
   * identical bases 3, a transition (purine with purine or pyrimidine with
   * pyrimidine) 1, a transversion -3.
   */
  function IntendedScore(a: char, b: char): int
  {
    if a == b then 3 else if IsPurine(a) == IsPurine(b) then 1 else -3
  }

  /** The table has an entry for a pair exactly when both symbols are nucleotides. */
  lemma TableKeys(a: char, b: char)
    ensures [a, b] in AdjustedScores <==> IsBase(a) && IsBase(b)
  {
    if [a, b] in AdjustedScores {
      var k := [a, b];
      assert k[0] == a && k[1] == b;
    }
  }

  /** Every entry of the table is the intended score of its pair. */
  lemma TableMatchesIntendedScore(a: char, b: char)
    requires IsBase(a) && IsBase(b)
    ensures [a, b] in AdjustedScores && AdjustedScores[[a, b]] == IntendedScore(a, b)
  {
    TableKeys(a, b);
  }

  /** The table is symmetric: swapping the two symbols does not change the score. */
  lemma TableSymmetric(a: char, b: char)
    ensures [a, b] in AdjustedScores <==> [b, a] in AdjustedScores
    ensures [a, b] in AdjustedScores ==> AdjustedScores[[a, b]] == AdjustedScores[[b, a]]
  {
    TableKeys(a, b);
    TableKeys(b, a);
    if IsBase(a) && IsBase(b) {
      TableMatchesIntendedScore(a, b);
      TableMatchesIntendedScore(b, a);
    }
  }

  /** Only identical bases and transitions score above zero. */
  lemma PositiveScores(a: char, b: char)
    requires IsBase(a) && IsBase(b)
    ensures AdjustedScores[[a, b]] > 0 <==> IsPurine(a) == IsPurine(b)
  {
    TableMatchesIntendedScore(a, b);
  }

  /** The matrix can be filled exactly when every symbol that meets a symbol of the other sequence is a nucleotide. */
  lemma ScoredIffBases(s1: string, s2: string)
    ensures Scored(s1, s2, Adjusted) <==> |s1| == 0 || |s2| == 0 || (AllBases(s1) && AllBases(s2))
  {
    if Scored(s1, s2, Adjusted) && |s1| > 0 && |s2| > 0 {
      forall a | 0 <= a < |s1|
        ensures IsBase(s1[a])
      {
        assert Adjusted(s1[a], s2[0]).Some?;
        TableKeys(s1[a], s2[0]);
      }
      forall b | 0 <= b < |s2|
        ensures IsBase(s2[b])
      {
        assert Adjusted(s1[0], s2[b]).Some?;
        TableKeys(s1[0], s2[b]);
      }
    }
    if AllBases(s1) && AllBases(s2) {
      forall a, b | 0 <= a < |s1| && 0 <= b < |s2|
        ensures Adjusted(s1[a], s2[b]).Some?
      {
        TableKeys(s1[a], s2[b]);
      }
    }
  }

  /**
   * `create_score_matrix(rows, cols)` with the table: `KeyError` exactly
   * when a symbol outside `ACGT` meets the other sequence, the assertion
   * failure exactly when no pair is identical or a transition.
   */
  method CreateScoreMatrix(s1: string, s2: string) returns (m: array2<int>, r: BuildOutcome)
    ensures Shaped(m, s1, s2)
    ensures r.KeyError? <==> |s1| > 0 && |s2| > 0 && !(AllBases(s1) && AllBases(s2))
    ensures Scored(s1, s2, Adjusted) ==> IsScoreGrid(m, s1, s2, Adjusted, Gap) && BordersZero(m) && NonNegative(m)
    ensures r.AssertionError? <==>
              && Scored(s1, s2, Adjusted)
              && forall a, b | 0 <= a < |s1| && 0 <= b < |s2| :: IsPurine(s1[a]) != IsPurine(s2[b])
    ensures r.MaxPos? ==> IsFirstMax(m, r.pos) && m[r.pos.row, r.pos.col] > 0
  {
    m, r := ScoreMatrix.CreateScoreMatrix(s1, s2, Adjusted, Gap);
    ScoredIffBases(s1, s2);
    if Scored(s1, s2, Adjusted) {
      NoPositivePairIffAllZero(m, s1, s2);
    }
  }

  /** The table matrix is all zero exactly when every pair of symbols is a transversion. */
  lemma NoPositivePairIffAllZero(m: array2<int>, s1: string, s2: string)
    requires Scored(s1, s2, Adjusted) && IsScoreGrid(m, s1, s2, Adjusted, Gap)
    ensures AllZero(m) <==> forall a, b | 0 <= a < |s1| && 0 <= b < |s2| :: IsPurine(s1[a]) != IsPurine(s2[b])
  {
    AllZeroIffNoPositivePair(m, s1, s2, Adjusted, Gap);
    forall a, b | 0 <= a < |s1| && 0 <= b < |s2|
      ensures Adjusted(s1[a], s2[b]).value <= 0 <==> IsPurine(s1[a]) != IsPurine(s2[b])
    {
      assert Adjusted(s1[a], s2[b]).Some?;
      TableKeys(s1[a], s2[b]);
      PositiveScores(s1[a], s2[b]);
    }
  }

  /**
   * A matrix on which `trace` never ends under the table: for
   * `seq1 = "AG"`, `seq2 = "G"` the maximum 3 sits at `(2, 1)`, whose
   * diagonal and left neighbours are 0 and whose upper neighbour is 1.
   * The corrected walk goes up to `(1, 1)`, which holds 1, and on diagonally to `(0, 0)`.
   */
  lemma StallExample(m: array2<int>)
    requires Scored("AG", "G", Adjusted) && IsScoreGrid(m, "AG", "G", Adjusted, Gap)
    ensures IsFirstMax(m, Pos(2, 1)) && m[2, 1] == 3
    ensures BordersZero(m) && Walk(m, Pos(2, 1)) == Diverges([Pos(2, 1)])
    ensures WalkCorrected(m, Pos(2, 1)) == [Pos(2, 1), Pos(1, 1), Pos(0, 0)]
  {
    assert m[1, 1] == Cell("AG", "G", Adjusted, Gap, 1, 1) == 1;
    assert m[2, 1] == Cell("AG", "G", Adjusted, Gap, 2, 1) == 3;
    ScoreGridFacts(m, "AG", "G", Adjusted, Gap);
    assert StepAt(m, Pos(2, 1)) == Stay;
    assert WalkCorrected(m, Pos(0, 0)) == [Pos(0, 0)];
    assert WalkCorrected(m, Pos(1, 1)) == [Pos(1, 1), Pos(0, 0)];
  }

  /**
   * A small example under the table: `seq1 = "AC"`, `seq2 = "AC"` scores
   * 3 for A with A and C with C, -3 for A with C, so the interior is
   * 3, 1 / 1, 6, the maximum sits at `(2, 2)` and `trace` returns
   * `[(2, 2), (1, 1), (0, 0)]`, the path `WorkedExampleAlignment` renders.
   */
  lemma WorkedExample(m: array2<int>)
    requires Scored("AC", "AC", Adjusted) && IsScoreGrid(m, "AC", "AC", Adjusted, Gap)
    ensures m[1, 1] == 3 && m[1, 2] == 1 && m[2, 1] == 1 && m[2, 2] == 6
    ensures IsFirstMax(m, Pos(2, 2))
    ensures BordersZero(m) && Walk(m, Pos(2, 2)) == Finished(WorkedPath)
  {
    WorkedGrid(m);
    ScoreGridFacts(m, "AC", "AC", Adjusted, Gap);
    WorkedWalk(m);
  }

  lemma WorkedGrid(m: array2<int>)
    requires Scored("AC", "AC", Adjusted) && IsScoreGrid(m, "AC", "AC", Adjusted, Gap)
    ensures m[1, 1] == 3 && m[1, 2] == 1 && m[2, 1] == 1 && m[2, 2] == 6
  {
    var s := "AC";
    assert m[1, 1] == Cell(s, s, Adjusted, Gap, 1, 1) == 3;
    assert m[1, 2] == Cell(s, s, Adjusted, Gap, 1, 2) == 1;
    assert m[2, 1] == Cell(s, s, Adjusted, Gap, 2, 1) == 1;
    assert m[2, 2] == Cell(s, s, Adjusted, Gap, 2, 2) == 6;
  }

  /**
   * What `align` prints for the small example: an extra leading gap column
   * matched against a gap, next to the corrected rendering.
   */
  lemma WorkedExampleAlignment()
    ensures AlignAsWritten(WorkedPath, "AC", "AC") == Alignment("-AC", "-AC", "***")
    ensures AlignCorrected(WorkedPath, "AC", "AC") == Alignment("AC", "AC", "**")
  {
    var s := "AC";
    var path := WorkedPath;
    assert Rows(path) == [2, 1, 0] && Cols(path) == [2, 1, 0];
    var built := BuiltTrack(s, [2, 1, 0]);
    assert built[0] == 'C' && built[1] == 'A' && built[2] == '-';
    assert built == "CA-";
    var top := Reverse(built);
    assert top[0] == '-' && top[1] == 'A' && top[2] == 'C';
    assert top == "-AC";
    var marks := MarksOf(top, top);
    assert marks[0] == '*' && marks[1] == '*' && marks[2] == '*';
    assert marks == "***";
    assert Track(s, [2, 1, 0]) == "AC";
    var cm := MarksCorrected("AC", "AC");
    assert cm[0] == '*' && cm[1] == '*';
    assert cm == "**";
  }

  /**
   * For `seq1 = "A"`, `seq2 = "A"` the maximum is at `(1, 1)` and `trace`
   * returns `[(1, 1), (0, 0)]`, the path `SingleSymbolAlignment` renders.
   */
  lemma SingleSymbolExample(m: array2<int>)
    requires Scored("A", "A", Adjusted) && IsScoreGrid(m, "A", "A", Adjusted, Gap)
    ensures IsFirstMax(m, Pos(1, 1))
    ensures BordersZero(m) && Walk(m, Pos(1, 1)) == Finished([Pos(1, 1), Pos(0, 0)])
  {
    assert m[1, 1] == Cell("A", "A", Adjusted, Gap, 1, 1) == 3;
    ScoreGridFacts(m, "A", "A", Adjusted, Gap);
    assert Walk(m, Pos(0, 0)) == Finished([Pos(0, 0)]);
  }

  /**
   * `align` loses a symbol: on the path `[(1, 1), (0, 0)]` it prints two
   * gap-only tracks marked as matching, because the previous row and
   * column start at 0. The corrected rendering aligns `A` with `A`.
   */
  lemma SingleSymbolAlignment()
    ensures AlignAsWritten([Pos(1, 1), Pos(0, 0)], "A", "A") == Alignment("--", "--", "**")
    ensures AlignCorrected([Pos(1, 1), Pos(0, 0)], "A", "A") == Alignment("A", "A", "*")
  {
    var path := [Pos(1, 1), Pos(0, 0)];
    assert Rows(path) == [1, 0] && Cols(path) == [1, 0];
    var built := BuiltTrack("A", [1, 0]);
    assert built[0] == '-' && built[1] == '-';
    assert built == "--";
    assert Reverse(built) == "--";
    var marks := MarksOf("--", "--");
    assert marks[0] == '*' && marks[1] == '*';
    assert marks == "**";
    assert Track("A", [1, 0]) == "A";
    var cm := MarksCorrected("A", "A");
    assert cm[0] == '*';
    assert cm == "*";
  }

  /**
   * `align` puts its gaps against the wrong symbols: each column takes the
   * symbol of the cell the step arrives at, not of the one it leaves. On the
   * path `[(3, 2), (2, 2), (1, 1), (0, 0)]`, one move up and two diagonal
   * moves, it sets `Z` against `Q` and `Y` against a gap; the corrected
   * rendering sets `X` against `P`, `Y` against `Q` and `Z` against a gap.
   */
  lemma MisplacedGapsAlignment()
    ensures AlignAsWritten([Pos(3, 2), Pos(2, 2), Pos(1, 1), Pos(0, 0)], "XYZ", "PQ")
         == Alignment("-XYZ", "-P-Q", "*   ")
    ensures AlignCorrected([Pos(3, 2), Pos(2, 2), Pos(1, 1), Pos(0, 0)], "XYZ", "PQ")
         == Alignment("XYZ", "PQ-", "   ")
  {
    var path := [Pos(3, 2), Pos(2, 2), Pos(1, 1), Pos(0, 0)];
    assert Rows(path) == [3, 2, 1, 0] && Cols(path) == [2, 2, 1, 0];
    MisplacedBuiltTracks();
    var marks := MarksOf("-XYZ", "-P-Q");
    assert marks[0] == '*' && marks[1] == ' ' && marks[2] == ' ' && marks[3] == ' ';
    assert marks == "*   ";
    MisplacedCorrectedTracks();
    var cm := MarksCorrected("XYZ", "PQ-");
    assert cm[0] == ' ' && cm[1] == ' ' && cm[2] == ' ';
    assert cm == "   ";
  }

  lemma MisplacedBuiltTracks()
    ensures Reverse(BuiltTrack("XYZ", [3, 2, 1, 0])) == "-XYZ"
    ensures Reverse(BuiltTrack("PQ", [2, 2, 1, 0])) == "-P-Q"
  {
    var top := BuiltTrack("XYZ", [3, 2, 1, 0]);
    assert top[0] == 'Z' && top[1] == 'Y' && top[2] == 'X' && top[3] == '-';
    assert top == "ZYX-";
    var bottom := BuiltTrack("PQ", [2, 2, 1, 0]);
    assert bottom[0] == 'Q' && bottom[1] == '-' && bottom[2] == 'P' && bottom[3] == '-';
    assert bottom == "Q-P-";
  }

  lemma MisplacedCorrectedTracks()
    ensures Track("XYZ", [3, 2, 1, 0]) == "XYZ"
    ensures Track("PQ", [2, 2, 1, 0]) == "PQ-"
  {
    assert Track("XYZ", [1, 0]) == "X" && Track("XYZ", [2, 1, 0]) == "XY";
    assert Track("PQ", [1, 0]) == "P" && Track("PQ", [2, 1, 0]) == "PQ";
  }
}
