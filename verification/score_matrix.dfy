/**
 * The forward pass of Smith-Waterman local alignment: `create_score_matrix`
 * together with the part of `calc_score` that both scoring variants share.
 * The two source files differ only in how a pair of symbols is scored, so the
 * builder here takes that scoring as a parameter (`Similarity`).
 */
module ScoreMatrix {
  import opened Types

  /**
   * How a scoring scheme scores the pair `(seq1 symbol, seq2 symbol)`.
   * `None` stands for a pair the scheme has no entry for (the table
   * variant's `KeyError`).
   */
  type Similarity = (char, char) -> Option<int>

  /** Every pair of symbols the matrix will look up has a score. */
  predicate Scored(s1: string, s2: string, sim: Similarity)
  {
    forall a, b | 0 <= a < |s1| && 0 <= b < |s2| :: sim(s1[a], s2[b]).Some?
  }

  /**
   * The Smith-Waterman recurrence: the value cell `(i, j)` of the score
   * matrix must hold. Row 0 and column 0 are the zero boundary.
   */
  ghost function Cell(s1: string, s2: string, sim: Similarity, gap: int, i: nat, j: nat): int
    requires Scored(s1, s2, sim) && i <= |s1| && j <= |s2|
    decreases i + j
  {
    if i == 0 || j == 0 then 0
    else Max4(0,
              Cell(s1, s2, sim, gap, i - 1, j - 1) + sim(s1[i - 1], s2[j - 1]).value,
              Cell(s1, s2, sim, gap, i - 1, j) + gap,
              Cell(s1, s2, sim, gap, i, j - 1) + gap)
  }

  /** `m` has the shape of the score matrix for `s1` and `s2`. */
  ghost predicate Shaped(m: array2<int>, s1: string, s2: string)
  {
    m.Length0 == |s1| + 1 && m.Length1 == |s2| + 1
  }

  /** Every cell of `m` holds the value the recurrence gives it. */
  ghost predicate IsScoreGrid(m: array2<int>, s1: string, s2: string, sim: Similarity, gap: int)
    reads m
    requires Scored(s1, s2, sim)
  {
    && Shaped(m, s1, s2)
    && forall i, j | 0 <= i < m.Length0 && 0 <= j < m.Length1 :: m[i, j] == Cell(s1, s2, sim, gap, i, j)
  }

  /** Row 0 and column 0 of `m` are zero. */
  ghost predicate BordersZero(m: array2<int>)
    reads m
  {
    && (forall i | 0 <= i < m.Length0 && 0 < m.Length1 :: m[i, 0] == 0)
    && (forall j | 0 <= j < m.Length1 && 0 < m.Length0 :: m[0, j] == 0)
  }

  /** The symbols that meet at interior cell `(i, j)` have a score. */
  predicate PairScored(s1: string, s2: string, sim: Similarity, i: nat, j: nat)
    requires 1 <= i <= |s1| && 1 <= j <= |s2|
  {
    sim(s1[i - 1], s2[j - 1]).Some?
  }

  /** Interior cell `(i, j)` of `m` is the maximum of 0 and its three candidates. */
  ghost predicate RecurrenceAt(m: array2<int>, s1: string, s2: string, sim: Similarity, gap: int, i: nat, j: nat)
    reads m
    requires Shaped(m, s1, s2) && 1 <= i < m.Length0 && 1 <= j < m.Length1
    requires PairScored(s1, s2, sim, i, j)
  {
    m[i, j] == Max4(0, m[i - 1, j - 1] + sim(s1[i - 1], s2[j - 1]).value, m[i - 1, j] + gap, m[i, j - 1] + gap)
  }

  /** Every interior cell of `m` is the maximum of 0 and its three candidates. */
  ghost predicate SatisfiesRecurrence(m: array2<int>, s1: string, s2: string, sim: Similarity, gap: int)
    reads m
    requires Scored(s1, s2, sim) && Shaped(m, s1, s2)
  {
    forall i: nat, j: nat | 1 <= i < m.Length0 && 1 <= j < m.Length1 :: RecurrenceAt(m, s1, s2, sim, gap, i, j)
  }

  /** No cell of `m` is negative. */
  ghost predicate NonNegative(m: array2<int>)
    reads m
  {
    forall i, j | 0 <= i < m.Length0 && 0 <= j < m.Length1 :: m[i, j] >= 0
  }

  /** Every cell of `m` is zero. */
  ghost predicate AllZero(m: array2<int>)
    reads m
  {
    forall i, j | 0 <= i < m.Length0 && 0 <= j < m.Length1 :: m[i, j] == 0
  }

  /**
   * `p` holds the maximum of `m`, and it is the first cell in row-major
   * order to do so: every earlier cell is strictly smaller.
   */
  ghost predicate IsFirstMax(m: array2<int>, p: Pos)
    reads m
  {
    && p.row < m.Length0 && p.col < m.Length1
    && (forall i, j | 0 <= i < m.Length0 && 0 <= j < m.Length1 :: m[i, j] <= m[p.row, p.col])
    && (forall i, j | 0 <= i < m.Length0 && 0 <= j < m.Length1 && Before(Pos(i, j), p) ::
          m[i, j] < m[p.row, p.col])
  }

  /** `score` is the largest of 0, `diag`, `up` and `left`. */
  predicate IsMaxOfCandidates(score: int, diag: int, up: int, left: int)
  {
    && score >= 0 && score >= diag && score >= up && score >= left
    && (score == 0 || score == diag || score == up || score == left)
  }

  /**
   * `calc_score`: the score of cell `(x, y)` from its diagonal, upper and
   * left neighbours. `None` when the pair of symbols has no score.
   */
  function CalcScore(m: array2<int>, s1: string, s2: string, sim: Similarity, gap: int, x: nat, y: nat): (r: Option<int>)
    reads m
    requires Shaped(m, s1, s2) && 1 <= x < m.Length0 && 1 <= y < m.Length1
    ensures r.None? <==> sim(s1[x - 1], s2[y - 1]).None?
    ensures r.Some? ==> IsMaxOfCandidates(r.value, m[x - 1, y - 1] + sim(s1[x - 1], s2[y - 1]).value,
                                          m[x - 1, y] + gap, m[x, y - 1] + gap)
  {
    match sim(s1[x - 1], s2[y - 1])
    case None => None
    case Some(similarity) =>
      var diagScore := m[x - 1, y - 1] + similarity;
      var upScore := m[x - 1, y] + gap;
      var leftScore := m[x, y - 1] + gap;
      Some(Max4(0, diagScore, upScore, leftScore))
  }

  /** How `create_score_matrix` ends. */
  datatype BuildOutcome =
    | MaxPos(pos: Pos)   // returned with the matrix
    | KeyError           // a pair of symbols had no score
    | AssertionError     // no cell beat 0, so `max_pos` stayed `None`

  /** Cell `(a, b)` has been written, or is on the boundary, when the fill is about to do `(i, j)`. */
  ghost predicate Filled(a: int, b: int, i: int, j: int)
  {
    a == 0 || b == 0 || a < i || (a == i && b < j)
  }

  /**
   * The state of `create_score_matrix` just before it scores cell `(i, j)`:
   * the boundary is still zero, every filled interior cell holds the
   * recurrence, `maxScore` bounds every filled cell, and `maxPos` is the
   * first filled cell that reaches `maxScore` (`None` while that is 0).
   */
  ghost predicate FillState(m: array2<int>, s1: string, s2: string, sim: Similarity, gap: int,
                            i: nat, j: nat, maxScore: int, maxPos: Option<Pos>)
    reads m
    requires Shaped(m, s1, s2)
  {
    && (forall a, b {:trigger m[a, b]} | 0 <= a < m.Length0 && 0 <= b < m.Length1 && (a == 0 || b == 0) ::
          m[a, b] == 0)
    && (forall a: nat, b: nat {:trigger PairScored(s1, s2, sim, a, b)}
          | 1 <= a < m.Length0 && 1 <= b < m.Length1 && Filled(a, b, i, j) ::
          PairScored(s1, s2, sim, a, b) && RecurrenceAt(m, s1, s2, sim, gap, a, b))
    && (forall a, b {:trigger m[a, b]} | 0 <= a < m.Length0 && 0 <= b < m.Length1 && Filled(a, b, i, j) ::
          0 <= m[a, b] <= maxScore)
    && (maxPos.None? ==> maxScore == 0)
    && (maxPos.Some? ==>
          var p := maxPos.value;
          && 1 <= p.row < m.Length0 && 1 <= p.col < m.Length1 && Filled(p.row, p.col, i, j)
          && m[p.row, p.col] == maxScore > 0
          && forall a, b {:trigger m[a, b]}
               | 0 <= a < m.Length0 && 0 <= b < m.Length1 && Filled(a, b, i, j) && Before(Pos(a, b), p) ::
               m[a, b] < maxScore)
  }

  /**
   * `create_score_matrix`: allocates the `(|s1|+1) x (|s2|+1)` zero matrix,
   * fills rows 1.. and columns 1.. in row-major order, and keeps the first
   * cell, in row-major order, that holds the largest score.
   */
  method CreateScoreMatrix(s1: string, s2: string, sim: Similarity, gap: int) returns (m: array2<int>, r: BuildOutcome)
    ensures fresh(m) && Shaped(m, s1, s2)
    ensures r.KeyError? <==> !Scored(s1, s2, sim)
    ensures Scored(s1, s2, sim) ==>
              && IsScoreGrid(m, s1, s2, sim, gap)
              && SatisfiesRecurrence(m, s1, s2, sim, gap)
              && BordersZero(m) && NonNegative(m)
    ensures r.AssertionError? <==> Scored(s1, s2, sim) && AllZero(m)
    ensures r.MaxPos? ==> 1 <= r.pos.row && 1 <= r.pos.col && IsFirstMax(m, r.pos) && m[r.pos.row, r.pos.col] > 0
  {
    m := new int[|s1| + 1, |s2| + 1]((i, j) => 0);
    var maxScore := 0;
    var maxPos: Option<Pos> := None;
    for i := 1 to m.Length0
      invariant FillState(m, s1, s2, sim, gap, i, 1, maxScore, maxPos)
    {
      var complete;
      complete, maxScore, maxPos := FillRow(m, s1, s2, sim, gap, i, maxScore, maxPos);
      if !complete {
        r := KeyError;
        return;
      }
      NextRow(m, s1, s2, sim, gap, i, maxScore, maxPos);
    }
    FilledGrid(m, s1, s2, sim, gap, maxScore, maxPos);
    if maxPos.None? {
      r := AssertionError;
    } else {
      r := MaxPos(maxPos.value);
    }
  }

  /** The inner loop of `create_score_matrix`: scores row `i`, columns 1.. in order. */
  method FillRow(m: array2<int>, s1: string, s2: string, sim: Similarity, gap: int,
                 i: nat, maxScore0: int, maxPos0: Option<Pos>)
    returns (complete: bool, maxScore: int, maxPos: Option<Pos>)
    requires Shaped(m, s1, s2) && 1 <= i < m.Length0
    requires FillState(m, s1, s2, sim, gap, i, 1, maxScore0, maxPos0)
    modifies m
    ensures complete ==> FillState(m, s1, s2, sim, gap, i, m.Length1, maxScore, maxPos)
    ensures !complete ==> exists b | 0 <= b < |s2| :: sim(s1[i - 1], s2[b]).None?
    ensures forall a, b | 0 <= a < m.Length0 && 0 <= b < m.Length1 && a != i :: m[a, b] == old(m[a, b])
  {
    maxScore, maxPos := maxScore0, maxPos0;
    for j := 1 to m.Length1
      invariant FillState(m, s1, s2, sim, gap, i, j, maxScore, maxPos)
      invariant forall a, b | 0 <= a < m.Length0 && 0 <= b < m.Length1 && a != i :: m[a, b] == old(m[a, b])
    {
      var scored;
      scored, maxScore, maxPos := FillCell(m, s1, s2, sim, gap, i, j, maxScore, maxPos);
      if !scored {
        return false, maxScore, maxPos;
      }
    }
    complete := true;
  }

  /**
   * The body of the inner loop: score cell `(i, j)` with `calc_score`, let it
   * replace the running maximum only if it is strictly greater, and store it.
   */
  method FillCell(m: array2<int>, s1: string, s2: string, sim: Similarity, gap: int,
                  i: nat, j: nat, maxScore0: int, maxPos0: Option<Pos>)
    returns (scored: bool, maxScore: int, maxPos: Option<Pos>)
    requires Shaped(m, s1, s2) && 1 <= i < m.Length0 && 1 <= j < m.Length1
    requires FillState(m, s1, s2, sim, gap, i, j, maxScore0, maxPos0)
    modifies m
    ensures scored <==> PairScored(s1, s2, sim, i, j)
    ensures scored ==> FillState(m, s1, s2, sim, gap, i, j + 1, maxScore, maxPos)
    ensures forall a, b | 0 <= a < m.Length0 && 0 <= b < m.Length1 && (a != i || b != j) :: m[a, b] == old(m[a, b])
  {
    var score := CalcScore(m, s1, s2, sim, gap, i, j);
    if score.None? {
      return false, maxScore0, maxPos0;
    }
    maxScore, maxPos := maxScore0, maxPos0;
    if score.value > maxScore {
      maxScore := score.value;
      maxPos := Some(Pos(i, j));
    }
    label beforeWrite:
    m[i, j] := score.value;
    // Only cell (i, j) changed; carry every fact about the other cells across the write.
    forall a, b | 0 <= a < m.Length0 && 0 <= b < m.Length1 && (a == 0 || b == 0)
      ensures m[a, b] == 0
    {
      assert m[a, b] == old@beforeWrite(m[a, b]);
    }
    forall a: nat, b: nat | 1 <= a < m.Length0 && 1 <= b < m.Length1 && Filled(a, b, i, j + 1)
      ensures PairScored(s1, s2, sim, a, b) && RecurrenceAt(m, s1, s2, sim, gap, a, b)
    {
      assert m[a - 1, b - 1] == old@beforeWrite(m[a - 1, b - 1]);
      assert m[a - 1, b] == old@beforeWrite(m[a - 1, b]);
      assert m[a, b - 1] == old@beforeWrite(m[a, b - 1]);
      if a != i || b != j {
        assert Filled(a, b, i, j) && PairScored(s1, s2, sim, a, b);
        assert m[a, b] == old@beforeWrite(m[a, b]);
        assert old@beforeWrite(RecurrenceAt(m, s1, s2, sim, gap, a, b));
      }
    }
    forall a, b | 0 <= a < m.Length0 && 0 <= b < m.Length1 && Filled(a, b, i, j + 1)
      ensures 0 <= m[a, b] <= maxScore
    {
      if a != i || b != j {
        assert m[a, b] == old@beforeWrite(m[a, b]);
      }
    }
    if maxPos.Some? {
      var p := maxPos.value;
      forall a, b | 0 <= a < m.Length0 && 0 <= b < m.Length1 && Filled(a, b, i, j + 1) && Before(Pos(a, b), p)
        ensures m[a, b] < maxScore
      {
        if a != i || b != j {
          assert m[a, b] == old@beforeWrite(m[a, b]);
        }
      }
      if p != Pos(i, j) {
        assert m[p.row, p.col] == old@beforeWrite(m[p.row, p.col]);
      }
    }
    scored := true;
  }

  /** A row that is complete hands its state on to the start of the next row. */
  lemma NextRow(m: array2<int>, s1: string, s2: string, sim: Similarity, gap: int,
                i: nat, maxScore: int, maxPos: Option<Pos>)
    requires Shaped(m, s1, s2) && 1 <= i < m.Length0
    requires FillState(m, s1, s2, sim, gap, i, m.Length1, maxScore, maxPos)
    ensures FillState(m, s1, s2, sim, gap, i + 1, 1, maxScore, maxPos)
  {
    assert forall a, b | 0 <= a < m.Length0 && 0 <= b < m.Length1 :: Filled(a, b, i + 1, 1) <==> Filled(a, b, i, m.Length1);
  }

  /** Once every row is filled, the state says what `create_score_matrix` promises. */
  lemma FilledGrid(m: array2<int>, s1: string, s2: string, sim: Similarity, gap: int,
                   maxScore: int, maxPos: Option<Pos>)
    requires Shaped(m, s1, s2)
    requires FillState(m, s1, s2, sim, gap, m.Length0, 1, maxScore, maxPos)
    ensures Scored(s1, s2, sim)
    ensures IsScoreGrid(m, s1, s2, sim, gap) && SatisfiesRecurrence(m, s1, s2, sim, gap)
    ensures BordersZero(m) && NonNegative(m)
    ensures maxPos.None? <==> AllZero(m)
    ensures maxPos.Some? ==> 1 <= maxPos.value.row && 1 <= maxPos.value.col && IsFirstMax(m, maxPos.value)
    ensures maxPos.Some? ==> m[maxPos.value.row, maxPos.value.col] > 0
  {
    assert forall a, b | 0 <= a < m.Length0 && 0 <= b < m.Length1 :: Filled(a, b, m.Length0, 1);
    forall a, b | 0 <= a < |s1| && 0 <= b < |s2|
      ensures sim(s1[a], s2[b]).Some?
    {
      assert Filled(a + 1, b + 1, m.Length0, 1) && PairScored(s1, s2, sim, a + 1, b + 1);
    }
    forall a: nat, b: nat | 1 <= a < m.Length0 && 1 <= b < m.Length1
      ensures RecurrenceAt(m, s1, s2, sim, gap, a, b)
    {
      assert Filled(a, b, m.Length0, 1) && PairScored(s1, s2, sim, a, b);
    }
    RecurrenceDeterminesGrid(m, s1, s2, sim, gap);
  }

  /**
   * The recurrence with a zero boundary determines the matrix: any matrix
   * whose interior cells each equal the maximum of 0 and their three
   * candidates, over a zero row 0 and column 0, is the score matrix.
   */
  lemma RecurrenceDeterminesGrid(m: array2<int>, s1: string, s2: string, sim: Similarity, gap: int)
    requires Scored(s1, s2, sim) && Shaped(m, s1, s2)
    requires BordersZero(m) && SatisfiesRecurrence(m, s1, s2, sim, gap)
    ensures IsScoreGrid(m, s1, s2, sim, gap)
  {
    forall i, j | 0 <= i < m.Length0 && 0 <= j < m.Length1
      ensures m[i, j] == Cell(s1, s2, sim, gap, i, j)
    {
      CellMatches(m, s1, s2, sim, gap, i, j);
    }
  }

  lemma {:induction false} CellMatches(m: array2<int>, s1: string, s2: string, sim: Similarity, gap: int, i: nat, j: nat)
    requires Scored(s1, s2, sim) && Shaped(m, s1, s2)
    requires BordersZero(m) && SatisfiesRecurrence(m, s1, s2, sim, gap)
    requires i < m.Length0 && j < m.Length1
    ensures m[i, j] == Cell(s1, s2, sim, gap, i, j)
    decreases i + j
  {
    if i == 0 {
      assert m[0, j] == 0;
    } else if j == 0 {
      assert m[i, 0] == 0;
    } else {
      CellMatches(m, s1, s2, sim, gap, i - 1, j - 1);
      CellMatches(m, s1, s2, sim, gap, i - 1, j);
      CellMatches(m, s1, s2, sim, gap, i, j - 1);
      assert RecurrenceAt(m, s1, s2, sim, gap, i, j);
    }
  }

  /** The score matrix has a zero boundary and no negative cell. */
  lemma ScoreGridFacts(m: array2<int>, s1: string, s2: string, sim: Similarity, gap: int)
    requires Scored(s1, s2, sim) && IsScoreGrid(m, s1, s2, sim, gap)
    ensures BordersZero(m) && NonNegative(m)
  {
  }

  /** At most one cell is the first maximum: the position `create_score_matrix` returns is determined by the matrix. */
  lemma FirstMaxUnique(m: array2<int>, p: Pos, q: Pos)
    requires IsFirstMax(m, p) && IsFirstMax(m, q)
    ensures p == q
  {
    assert !Before(p, q) && !Before(q, p);
  }

  /** With no positive pair score and no positive gap, the recurrence yields 0 everywhere. */
  lemma {:induction false} CellZero(s1: string, s2: string, sim: Similarity, gap: int, i: nat, j: nat)
    requires Scored(s1, s2, sim) && gap <= 0 && i <= |s1| && j <= |s2|
    requires forall a, b | 0 <= a < |s1| && 0 <= b < |s2| :: sim(s1[a], s2[b]).value <= 0
    ensures Cell(s1, s2, sim, gap, i, j) == 0
    decreases i + j
  {
    if i > 0 && j > 0 {
      CellZero(s1, s2, sim, gap, i - 1, j - 1);
      CellZero(s1, s2, sim, gap, i - 1, j);
      CellZero(s1, s2, sim, gap, i, j - 1);
      assert sim(s1[i - 1], s2[j - 1]).value <= 0;
    }
  }

  /**
   * When `create_score_matrix` fails its assertion: with a non-positive gap
   * penalty the matrix is all zero exactly when no pair of symbols
   * `(seq1[a], seq2[b])` scores above zero.
   */
  lemma AllZeroIffNoPositivePair(m: array2<int>, s1: string, s2: string, sim: Similarity, gap: int)
    requires Scored(s1, s2, sim) && gap <= 0 && IsScoreGrid(m, s1, s2, sim, gap)
    ensures AllZero(m) <==> forall a, b | 0 <= a < |s1| && 0 <= b < |s2| :: sim(s1[a], s2[b]).value <= 0
  {
    if forall a, b | 0 <= a < |s1| && 0 <= b < |s2| :: sim(s1[a], s2[b]).value <= 0 {
      forall i, j | 0 <= i < m.Length0 && 0 <= j < m.Length1
        ensures m[i, j] == 0
      {
        CellZero(s1, s2, sim, gap, i, j);
      }
    } else {
      var a, b :| 0 <= a < |s1| && 0 <= b < |s2| && sim(s1[a], s2[b]).value > 0;
      assert m[a, b] == Cell(s1, s2, sim, gap, a, b) >= 0;
      assert m[a + 1, b + 1] == Cell(s1, s2, sim, gap, a + 1, b + 1) > 0;
    }
  }
}
