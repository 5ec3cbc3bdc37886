/** Values shared by every stage of the aligner. */
module Types {

  datatype Option<+T> = None | Some(value: T)

  /** A grid coordinate `(row, col)`: the row indexes seq1, the column seq2. */
  datatype Pos = Pos(row: nat, col: nat)

  /** Row-major order, the order in which the score matrix is filled. */
  predicate Before(p: Pos, q: Pos)
  {
    p.row < q.row || (p.row == q.row && p.col < q.col)
  }

  /** The largest of four integers. */
  function Max4(a: int, b: int, c: int, d: int): (r: int)
    ensures r >= a && r >= b && r >= c && r >= d
    ensures r == a || r == b || r == c || r == d
  {
    var ab := if a >= b then a else b;
    var cd := if c >= d then c else d;
    if ab >= cd then ab else cd
  }

  lemma AppendAssoc<T>(a: seq<T>, b: seq<T>, c: seq<T>)
    ensures a + (b + c) == (a + b) + c
  {
  }
}
