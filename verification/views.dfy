/**
 * The small views derived from a trace: `check` (the matrix values along a
 * trace), `trace_string` (the `"r<col>c<row> -> ..."` text) and `align`
 * (two gapped tracks and a similarity line). Each returns the value the
 * source builds; printing it is not modelled.
 */
module Views {
  import opened Types
  import opened ScoreMatrix
  import opened Traceback

  // ---------------------------------------------------------------- check

  /**
   * `check(matrix, trace)`: the matrix value at every position of the
   * trace, in order.
   */
  method Check(m: array2<int>, trace: seq<Pos>) returns (result: seq<int>)
    requires forall k | 0 <= k < |trace| :: trace[k].row < m.Length0 && trace[k].col < m.Length1
    ensures |result| == |trace|
    ensures forall k | 0 <= k < |trace| :: result[k] == m[trace[k].row, trace[k].col]
  {
    result := [];
    for k := 0 to |trace|
      invariant |result| == k
      invariant forall q | 0 <= q < k :: result[q] == m[trace[q].row, trace[q].col]
    {
      result := result + [m[trace[k].row, trace[k].col]];
    }
  }

  /**
   * Along what `trace` returns, `check` lists nonzero values and then one
   * zero; along a trace the source never finishes, every value is nonzero.
   */
  lemma TraceValues(m: array2<int>, start: Pos, values: seq<int>)
    requires BordersZero(m) && InGrid(m, start)
    requires var path := Walk(m, start).path;
      && |values| == |path|
      && forall k | 0 <= k < |path| :: InGrid(m, path[k]) && values[k] == m[path[k].row, path[k].col]
    ensures |values| >= 1 && values[0] == m[start.row, start.col]
    ensures forall k | 0 <= k < |values| - 1 :: values[k] != 0
    ensures Walk(m, start).Finished? <==> values[|values| - 1] == 0
  {
    WalkShape(m, start);
    var path := Walk(m, start).path;
    forall k | 0 <= k < |values| - 1
      ensures values[k] != 0
    {
      assert Moves(m, path[k], path[k + 1]);
    }
  }

  // ---------------------------------------------------------- trace_string

  predicate IsDigit(c: char)
  {
    '0' <= c <= '9'
  }

  predicate AllDigits(s: string)
  {
    forall k | 0 <= k < |s| :: IsDigit(s[k])
  }

  function DigitChar(d: nat): (c: char)
    requires d < 10
    ensures IsDigit(c)
  {
    ('0' as int + d) as char
  }

  function DigitValue(c: char): (d: nat)
    requires IsDigit(c)
    ensures d < 10
  {
    c as int - '0' as int
  }

  /** `str(n)` for a natural number: its decimal digits, with no leading zero. */
  function NatToString(n: nat): (s: string)
    ensures |s| >= 1 && AllDigits(s)
    ensures n > 0 ==> s[0] != '0'
    ensures n == 0 ==> s == "0"
  {
    if n < 10 then [DigitChar(n)] else NatToString(n / 10) + [DigitChar(n % 10)]
  }

  /** The number a string of decimal digits denotes. */
  function DigitsValue(s: string): nat
    requires AllDigits(s)
  {
    if |s| == 0 then 0 else DigitsValue(s[..|s| - 1]) * 10 + DigitValue(s[|s| - 1])
  }

  /** Reading back the digits of `str(n)` gives `n`. */
  lemma {:induction false} DigitsValueOfNatToString(n: nat)
    ensures DigitsValue(NatToString(n)) == n
  {
    if n >= 10 {
      var s := NatToString(n);
      assert s[..|s| - 1] == NatToString(n / 10);
      DigitsValueOfNatToString(n / 10);
    }
  }

  /** `'r' + str(col) + 'c' + str(row)`: the column comes after `r`, the row after `c`. */
  function Label(p: Pos): string
  {
    "r" + NatToString(p.col) + "c" + NatToString(p.row)
  }

  /** The parts joined by `" -> "`, with no separator after the last. */
  function Join(parts: seq<string>): string
  {
    if |parts| == 0 then ""
    else if |parts| == 1 then parts[0]
    else parts[0] + " -> " + Join(parts[1..])
  }

  /** The label of every position of the trace, in order. */
  function Labels(trace: seq<Pos>): (r: seq<string>)
    ensures |r| == |trace| && forall k | 0 <= k < |trace| :: r[k] == Label(trace[k])
  {
    seq(|trace|, k requires 0 <= k < |trace| => Label(trace[k]))
  }

  /** The text `trace_string` prints: the labels of the trace joined by `" -> "`. */
  function TraceText(trace: seq<Pos>): string
  {
    Join(Labels(trace))
  }

  /** `trace_string(trace)`: the loop that builds the text it prints. */
  method TraceString(trace: seq<Pos>) returns (result: string)
    ensures result == TraceText(trace)
  {
    ghost var parts := Labels(trace);
    result := "";
    for pos := 0 to |trace|
      invariant result + Join(parts[pos..]) == Join(parts)
    {
      JoinStep(parts, pos, result);
      if pos + 1 != |trace| {
        result := result + Label(trace[pos]) + " -> ";
      } else {
        result := result + Label(trace[pos]);
      }
    }
    assert parts[|trace|..] == [];
  }

  /** One iteration of `trace_string` keeps `result + text of the rest == text of the whole trace`. */
  lemma JoinStep(parts: seq<string>, pos: nat, result: string)
    requires pos < |parts|
    requires result + Join(parts[pos..]) == Join(parts)
    ensures pos + 1 != |parts| ==> result + parts[pos] + " -> " + Join(parts[pos + 1..]) == Join(parts)
    ensures pos + 1 == |parts| ==> result + parts[pos] + Join(parts[pos + 1..]) == Join(parts)
  {
    assert parts[pos..][1..] == parts[pos + 1..];
    if pos + 1 != |parts| {
      ConcatAssoc(result, parts[pos], " -> ", Join(parts[pos + 1..]));
    } else {
      assert parts[pos + 1..] == [];
    }
  }

  lemma ConcatAssoc(a: string, b: string, c: string, d: string)
    ensures a + b + c + d == a + (b + c + d)
  {
  }

  /** The number of decimal digits at the front of `s`. */
  function LeadingDigits(s: string): (r: nat)
    ensures r <= |s| && AllDigits(s[..r])
    ensures r < |s| ==> !IsDigit(s[r])
  {
    if |s| == 0 || !IsDigit(s[0]) then 0
    else
      var r := 1 + LeadingDigits(s[1..]);
      assert s[..r] == [s[0]] + s[1..][..r - 1];
      r
  }

  /** Reads a decimal number off the front of `s`; returns it and the rest. `None` when `s` starts with no digit. */
  function ReadNumber(s: string): (r: Option<(nat, string)>)
    ensures r.Some? ==> |r.value.1| < |s|
  {
    var len := LeadingDigits(s);
    if len == 0 then None
    else
      assert s[..len] == s[..len];
      Some((DigitsValue(s[..len]), s[len..]))
  }

  /** Reads one `r<col>c<row>` label off the front of `s`; returns the position and the rest. */
  function ParseLabel(s: string): (r: Option<(Pos, string)>)
    ensures r.Some? ==> |r.value.1| < |s|
  {
    if |s| == 0 || s[0] != 'r' then None
    else
      match ReadNumber(s[1..])
      case None => None
      case Some((col, afterCol)) =>
        if |afterCol| == 0 || afterCol[0] != 'c' then None
        else
          match ReadNumber(afterCol[1..])
          case None => None
          case Some((row, rest)) => Some((Pos(row, col), rest))
  }

  /** Reads a whole `trace_string` text back into the positions it lists. */
  function ParseTrace(s: string): Option<seq<Pos>>
  {
    if s == "" then Some([]) else ParseLabels(s)
  }

  function ParseLabels(s: string): Option<seq<Pos>>
    decreases |s|
  {
    match ParseLabel(s)
    case None => None
    case Some((p, rest)) =>
      if rest == "" then Some([p])
      else if |rest| >= 4 && rest[..4] == " -> " then
        match ParseLabels(rest[4..])
        case None => None
        case Some(ps) => Some([p] + ps)
      else None
  }

  lemma {:induction false} LeadingDigitsOfAppend(d: string, t: string)
    requires AllDigits(d)
    requires |t| == 0 || !IsDigit(t[0])
    ensures LeadingDigits(d + t) == |d|
    decreases |d|
  {
    if |d| > 0 {
      assert (d + t)[1..] == d[1..] + t;
      LeadingDigitsOfAppend(d[1..], t);
    } else {
      assert d + t == t;
    }
  }

  /** A nonempty run of digits followed by a non-digit (or nothing) reads back as its value. */
  lemma ReadNumberOfDigits(d: string, t: string)
    requires |d| > 0 && AllDigits(d)
    requires |t| == 0 || !IsDigit(t[0])
    ensures ReadNumber(d + t) == Some((DigitsValue(d), t))
  {
    LeadingDigitsOfAppend(d, t);
    assert (d + t)[..|d|] == d && (d + t)[|d|..] == t;
  }

  /** `r<col digits>c<row digits>` followed by nothing or by a space reads back as the position. */
  lemma ParseLabelOfParts(c: string, r: string, t: string)
    requires |c| > 0 && AllDigits(c) && |r| > 0 && AllDigits(r)
    requires |t| == 0 || t[0] == ' '
    ensures ParseLabel("r" + c + "c" + r + t) == Some((Pos(DigitsValue(r), DigitsValue(c)), t))
  {
    var s := "r" + c + "c" + r + t;
    var afterCol := "c" + (r + t);
    LabelTail(c, r, t);
    ReadNumberOfDigits(c, afterCol);
    DropHead('c', r + t);
    ReadNumberOfDigits(r, t);
    ParseLabelOfPieces(s, DigitsValue(c), afterCol, DigitsValue(r), t);
  }

  /** `ParseLabel` unfolded: an `r`, a number, a `c`, a number. */
  lemma ParseLabelOfPieces(s: string, col: nat, afterCol: string, row: nat, rest: string)
    requires |s| > 0 && s[0] == 'r' && ReadNumber(s[1..]) == Some((col, afterCol))
    requires |afterCol| > 0 && afterCol[0] == 'c' && ReadNumber(afterCol[1..]) == Some((row, rest))
    ensures ParseLabel(s) == Some((Pos(row, col), rest))
  {
  }

  lemma LabelTail(c: string, r: string, t: string)
    ensures ("r" + c + "c" + r + t)[1..] == c + ("c" + (r + t))
  {
    assert "r" + c + "c" + r + t == ['r'] + (c + ("c" + (r + t)));
    DropHead('r', c + ("c" + (r + t)));
  }

  lemma DropHead(x: char, s: string)
    ensures ([x] + s)[1..] == s
  {
  }

  /** A label followed by nothing or by a space reads back as its position. */
  lemma ParseLabelOfLabel(p: Pos, t: string)
    requires |t| == 0 || t[0] == ' '
    ensures ParseLabel(Label(p) + t) == Some((p, t))
  {
    ParseLabelOfParts(NatToString(p.col), NatToString(p.row), t);
    DigitsValueOfNatToString(p.col);
    DigitsValueOfNatToString(p.row);
  }

  /** `trace_string` loses nothing: its text reads back as the trace it was built from. */
  lemma TraceTextRoundTrip(trace: seq<Pos>)
    ensures ParseTrace(TraceText(trace)) == Some(trace)
  {
    if |trace| > 0 {
      LabelsRoundTrip(trace);
    }
  }

  lemma {:induction false} LabelsRoundTrip(trace: seq<Pos>)
    requires |trace| >= 1
    ensures ParseLabels(TraceText(trace)) == Some(trace)
  {
    if |trace| == 1 {
      ParseLabelOfLabel(trace[0], "");
      assert TraceText(trace) == Label(trace[0]) + "";
      ParseLabelsLast(TraceText(trace), trace[0]);
      assert trace == [trace[0]];
    } else {
      var rest := " -> " + TraceText(trace[1..]);
      TraceTextCons(trace);
      ParseLabelOfLabel(trace[0], rest);
      LabelsRoundTrip(trace[1..]);
      ParseLabelsNext(TraceText(trace), trace[0], TraceText(trace[1..]), trace[1..]);
      assert [trace[0]] + trace[1..] == trace;
    }
  }

  /** The text of a trace of two or more positions: the first label, an arrow, the text of the rest. */
  lemma TraceTextCons(trace: seq<Pos>)
    requires |trace| >= 2
    ensures TraceText(trace) == Label(trace[0]) + (" -> " + TraceText(trace[1..]))
  {
    var parts := Labels(trace);
    assert parts[1..] == Labels(trace[1..]);
    AppendAssoc(Label(trace[0]), " -> ", TraceText(trace[1..]));
  }

  lemma ParseLabelsLast(s: string, p: Pos)
    requires ParseLabel(s) == Some((p, ""))
    ensures ParseLabels(s) == Some([p])
  {
  }

  lemma ParseLabelsNext(s: string, p: Pos, t: string, ps: seq<Pos>)
    requires ParseLabel(s) == Some((p, " -> " + t))
    requires ParseLabels(t) == Some(ps)
    ensures ParseLabels(s) == Some([p] + ps)
  {
    var rest := " -> " + t;
    assert rest[..4] == " -> " && rest[4..] == t;
  }

  // ----------------------------------------------------------------- align

  /** What `align` prints: the two tracks, start to end, and the similarity line. */
  datatype Alignment = Alignment(top: string, bottom: string, marks: string)

  /** Every position of the trace indexes into the two sequences (row into seq1, column into seq2). */
  ghost predicate Within(trace: seq<Pos>, s1: string, s2: string)
  {
    forall k | 0 <= k < |trace| :: trace[k].row <= |s1| && trace[k].col <= |s2|
  }

  function Rows(trace: seq<Pos>): (r: seq<nat>)
    ensures |r| == |trace| && forall k | 0 <= k < |trace| :: r[k] == trace[k].row
  {
    seq(|trace|, k requires 0 <= k < |trace| => trace[k].row)
  }

  function Cols(trace: seq<Pos>): (r: seq<nat>)
    ensures |r| == |trace| && forall k | 0 <= k < |trace| :: r[k] == trace[k].col
  {
    seq(|trace|, k requires 0 <= k < |trace| => trace[k].col)
  }

  /**
   * The character `align` appends for trace element `k` to the track of `s`
   * (`idx` holds the rows for seq1, the columns for seq2): the symbol
   * `s[idx[k] - 1]` when `idx[k] - 1 >= 0` and it differs from the previous
   * element's `idx - 1` (0 before the first element), otherwise `'-'`.
   */
  function TrackChar(s: string, idx: seq<nat>, k: nat): char
    requires k < |idx| && forall q | 0 <= q < |idx| :: idx[q] <= |s|
  {
    var cur := idx[k] as int - 1;
    var prev := if k == 0 then 0 else idx[k - 1] as int - 1;
    if cur != prev && cur >= 0 then s[cur] else '-'
  }

  /** The track `align` accumulates, end to start: one character per trace element. */
  function BuiltTrack(s: string, idx: seq<nat>): (t: string)
    requires forall q | 0 <= q < |idx| :: idx[q] <= |s|
    ensures |t| == |idx|
  {
    seq(|idx|, k requires 0 <= k < |idx| => TrackChar(s, idx, k))
  }

  /** `s[::-1]`. */
  function Reverse(s: string): (r: string)
    ensures |r| == |s|
    ensures forall k | 0 <= k < |s| :: r[k] == s[|s| - 1 - k]
  {
    if |s| == 0 then [] else [s[|s| - 1]] + Reverse(s[..|s| - 1])
  }

  /** The similarity line: `'*'` where the two tracks hold the same character, `' '` elsewhere. */
  function MarksOf(t1: string, t2: string): (r: string)
    requires |t1| == |t2|
    ensures |r| == |t1|
    ensures forall k | 0 <= k < |t1| :: (r[k] == '*' <==> t1[k] == t2[k]) && (r[k] == '*' || r[k] == ' ')
  {
    seq(|t1|, k requires 0 <= k < |t1| => if t1[k] == t2[k] then '*' else ' ')
  }

  /** What `align(trace)` prints, as a value. */
  function AlignAsWritten(trace: seq<Pos>, s1: string, s2: string): (a: Alignment)
    requires Within(trace, s1, s2)
    ensures |a.top| == |trace| && |a.bottom| == |trace| && |a.marks| == |trace|
  {
    var top := Reverse(BuiltTrack(s1, Rows(trace)));
    var bottom := Reverse(BuiltTrack(s2, Cols(trace)));
    Alignment(top, bottom, MarksOf(top, bottom))
  }

  /**
   * `align(trace)`: builds both tracks, reverses them and marks the columns
   * where they agree.
   */
  method Align(trace: seq<Pos>, s1: string, s2: string) returns (a: Alignment)
    requires Within(trace, s1, s2)
    ensures a == AlignAsWritten(trace, s1, s2)
  {
    var align1, align2 := BuildTracks(trace, s1, s2);
    var top := Reverse(align1);
    var bottom := Reverse(align2);
    var sim := SimilarityLine(top, bottom);
    a := Alignment(top, bottom, sim);
  }

  /**
   * The first loop of `align`: one character per trace element for each
   * track, carrying the previous element's row and column minus one (both
   * start at 0).
   */
  method BuildTracks(trace: seq<Pos>, s1: string, s2: string) returns (align1: string, align2: string)
    requires Within(trace, s1, s2)
    ensures align1 == BuiltTrack(s1, Rows(trace)) && align2 == BuiltTrack(s2, Cols(trace))
  {
    align1, align2 := "", "";
    var r1, c1 := 0, 0;
    for pos := 0 to |trace|
      invariant |align1| == pos && |align2| == pos
      invariant forall q | 0 <= q < pos :: align1[q] == TrackChar(s1, Rows(trace), q)
      invariant forall q | 0 <= q < pos :: align2[q] == TrackChar(s2, Cols(trace), q)
      invariant r1 == if pos == 0 then 0 else trace[pos - 1].row as int - 1
      invariant c1 == if pos == 0 then 0 else trace[pos - 1].col as int - 1
    {
      var r2 := trace[pos].row as int - 1;
      var c2 := trace[pos].col as int - 1;
      if r2 != r1 && r2 >= 0 {
        align1 := align1 + [s1[trace[pos].row - 1]];
      } else {
        align1 := align1 + "-";
      }
      if c2 != c1 && c2 >= 0 {
        align2 := align2 + [s2[trace[pos].col - 1]];
      } else {
        align2 := align2 + "-";
      }
      r1 := r2;
      c1 := c2;
    }
  }

  /** The second loop of `align`: `'*'` where the reversed tracks agree, `' '` elsewhere. */
  method SimilarityLine(top: string, bottom: string) returns (sim: string)
    requires |top| == |bottom|
    ensures sim == MarksOf(top, bottom)
  {
    sim := "";
    for pos := 0 to |top|
      invariant |sim| == pos
      invariant forall q | 0 <= q < pos :: sim[q] == if top[q] == bottom[q] then '*' else ' '
    {
      if top[pos] == bottom[pos] {
        sim := sim + "*";
      } else {
        sim := sim + " ";
      }
    }
  }

  /**
   * Reading `align`'s output: column `|trace| - 1 - k` of each track holds
   * the character chosen for trace element `k`, and the similarity line
   * marks exactly the columns where the two tracks agree (a gap against a
   * gap included).
   */
  lemma AlignColumns(trace: seq<Pos>, s1: string, s2: string)
    requires Within(trace, s1, s2)
    ensures var a := AlignAsWritten(trace, s1, s2);
      && (forall k | 0 <= k < |trace| ::
            && a.top[|trace| - 1 - k] == TrackChar(s1, Rows(trace), k)
            && a.bottom[|trace| - 1 - k] == TrackChar(s2, Cols(trace), k))
      && (forall k | 0 <= k < |trace| :: a.marks[k] == '*' <==> a.top[k] == a.bottom[k])
  {
  }

  /**
   * The defect of `align`: the previous row starts at 0, so when the trace
   * starts in row 1 the symbol `s1[0]` it should contribute is replaced by
   * a gap (the last column of the top track is `'-'`).
   */
  lemma AlignDropsFirstRowSymbol(trace: seq<Pos>, s1: string, s2: string)
    requires Within(trace, s1, s2) && |trace| >= 1 && trace[0].row == 1
    ensures AlignAsWritten(trace, s1, s2).top[|trace| - 1] == '-'
  {
    assert TrackChar(s1, Rows(trace), 0) == '-';
  }

  // ----------------------------------------------------- corrected renderer

  /** Consecutive positions are a diagonal, left or upper step apart. */
  ghost predicate IsStepPath(path: seq<Pos>)
  {
    forall k | 0 <= k < |path| - 1 ::
      && (path[k + 1].row == path[k].row || path[k + 1].row + 1 == path[k].row)
      && (path[k + 1].col == path[k].col || path[k + 1].col + 1 == path[k].col)
      && path[k + 1] != path[k]
  }

  /**
   * One track of the intended alignment, start to end: one column per step
   * of the path. A step that lowers the index by one aligns the symbol it
   * leaves (`s[idx[k] - 1]`); a step that keeps it emits a gap.
   */
  function Track(s: string, idx: seq<nat>): (t: string)
    requires forall q | 0 <= q < |idx| :: idx[q] <= |s|
    ensures |t| == if |idx| < 2 then 0 else |idx| - 1
  {
    if |idx| < 2 then ""
    else Track(s, idx[1..]) + [if idx[1] < idx[0] then s[idx[0] - 1] else '-']
  }

  /** The symbols of a track, gaps removed. */
  function Ungapped(t: string): string
  {
    if |t| == 0 then "" else Ungapped(t[..|t| - 1]) + (if t[|t| - 1] == '-' then "" else [t[|t| - 1]])
  }

  /** A similarity line that marks a shared symbol, never a gap against a gap. */
  function MarksCorrected(t1: string, t2: string): (r: string)
    requires |t1| == |t2|
    ensures |r| == |t1|
    ensures forall k | 0 <= k < |t1| :: (r[k] == '*' <==> t1[k] == t2[k] && t1[k] != '-') && (r[k] == '*' || r[k] == ' ')
  {
    seq(|t1|, k requires 0 <= k < |t1| => if t1[k] == t2[k] && t1[k] != '-' then '*' else ' ')
  }

  /** The alignment the trace denotes: one column per step, gap against gap never a match. */
  function AlignCorrected(path: seq<Pos>, s1: string, s2: string): (a: Alignment)
    requires Within(path, s1, s2)
    ensures |a.top| == |a.bottom| == |a.marks| == if |path| < 2 then 0 else |path| - 1
    ensures forall k | 0 <= k < |a.top| :: a.marks[k] == '*' <==> a.top[k] == a.bottom[k] && a.top[k] != '-'
  {
    var top := Track(s1, Rows(path));
    var bottom := Track(s2, Cols(path));
    Alignment(top, bottom, MarksCorrected(top, bottom))
  }

  /** Entry `q + 1` of `idx` is entry `q` or one less. */
  ghost predicate StepDown(idx: seq<nat>, q: nat)
    requires q + 1 < |idx|
  {
    idx[q + 1] == idx[q] || idx[q + 1] + 1 == idx[q]
  }

  /** Along a step path, the symbols of a track are exactly the stretch of `s` the path covers. */
  lemma {:induction false} TrackSpellsStretch(s: string, idx: seq<nat>)
    requires '-' !in s
    requires |idx| >= 1 && forall q | 0 <= q < |idx| :: idx[q] <= |s|
    requires forall q | 0 <= q < |idx| - 1 :: StepDown(idx, q)
    ensures idx[|idx| - 1] <= idx[0]
    ensures Ungapped(Track(s, idx)) == s[idx[|idx| - 1]..idx[0]]
    decreases |idx|
  {
    if |idx| >= 2 {
      var rest := idx[1..];
      forall q | 0 <= q < |rest| - 1
        ensures StepDown(rest, q)
      {
        assert StepDown(idx, q + 1);
      }
      TrackSpellsStretch(s, rest);
      assert StepDown(idx, 0);
      var c := if idx[1] < idx[0] then s[idx[0] - 1] else '-';
      UngappedAppend(Track(s, rest), c);
      if idx[1] < idx[0] {
        SliceExtend(s, idx[|idx| - 1], idx[1]);
      }
    }
  }

  lemma UngappedAppend(t: string, c: char)
    ensures Ungapped(t + [c]) == Ungapped(t) + (if c == '-' then "" else [c])
  {
    assert (t + [c])[..|t|] == t;
  }

  lemma SliceExtend(s: string, lo: nat, hi: nat)
    requires lo <= hi < |s|
    ensures s[lo..hi] + [s[hi]] == s[lo..hi + 1]
  {
  }

  /**
   * The corrected renderer aligns substrings: along a step path from
   * `path[0]` back to `last`, the symbols of the top track are
   * `s1[last.row..path[0].row]`, those of the bottom track
   * `s2[last.col..path[0].col]`, and no column is a gap against a gap.
   */
  lemma AlignCorrectedSpellsSubstrings(path: seq<Pos>, s1: string, s2: string)
    requires '-' !in s1 && '-' !in s2
    requires |path| >= 1 && Within(path, s1, s2) && IsStepPath(path)
    ensures var a := AlignCorrected(path, s1, s2);
      var last := path[|path| - 1];
      && last.row <= path[0].row && last.col <= path[0].col
      && Ungapped(a.top) == s1[last.row..path[0].row]
      && Ungapped(a.bottom) == s2[last.col..path[0].col]
  {
    forall q | 0 <= q < |path| - 1
      ensures StepDown(Rows(path), q) && StepDown(Cols(path), q)
    {
      assert path[q + 1] != path[q];
    }
    TrackSpellsStretch(s1, Rows(path));
    TrackSpellsStretch(s2, Cols(path));
  }

  /** In a column of the corrected alignment at most one track has a gap. */
  lemma {:induction false} TracksNeverBothGaps(path: seq<Pos>, s1: string, s2: string)
    requires '-' !in s1 && '-' !in s2
    requires Within(path, s1, s2) && IsStepPath(path)
    ensures var a := AlignCorrected(path, s1, s2);
      forall k | 0 <= k < |a.top| :: a.top[k] != '-' || a.bottom[k] != '-'
    decreases |path|
  {
    if |path| >= 2 {
      TracksNeverBothGaps(path[1..], s1, s2);
      assert Rows(path)[1..] == Rows(path[1..]);
      assert Cols(path)[1..] == Cols(path[1..]);
      var topRest := Track(s1, Rows(path[1..]));
      var bottomRest := Track(s2, Cols(path[1..]));
      var a := AlignCorrected(path, s1, s2);
      assert a.top == topRest + [if path[1].row < path[0].row then s1[path[0].row - 1] else '-'];
      assert a.bottom == bottomRest + [if path[1].col < path[0].col then s2[path[0].col - 1] else '-'];
      assert path[1] != path[0];
      forall k | 0 <= k < |a.top|
        ensures a.top[k] != '-' || a.bottom[k] != '-'
      {
        if k < |topRest| {
          var b := AlignCorrected(path[1..], s1, s2);
          assert b.top == topRest && b.bottom == bottomRest;
          assert a.top[k] == b.top[k] && a.bottom[k] == b.bottom[k];
        } else if path[1].row < path[0].row {
          assert a.top[k] == s1[path[0].row - 1] && s1[path[0].row - 1] in s1;
        } else {
          assert a.bottom[k] == s2[path[0].col - 1] && s2[path[0].col - 1] in s2;
        }
      }
    }
  }

  /** A move that is not `Stay` is one step of a step path. */
  lemma NeighbourIsStep(p: Pos, mv: Move)
    requires p.row >= 1 && p.col >= 1 && mv != Stay
    ensures var q := Neighbour(p, mv);
      && (q.row == p.row || q.row + 1 == p.row)
      && (q.col == p.col || q.col + 1 == p.col)
      && q != p
  {
  }

  /** The corrected walk is a step path. */
  lemma WalkCorrectedIsStepPath(m: array2<int>, start: Pos)
    requires BordersZero(m) && InGrid(m, start)
    ensures IsStepPath(WalkCorrected(m, start))
  {
    WalkCorrectedShape(m, start);
    var pc := WalkCorrected(m, start);
    forall k | 0 <= k < |pc| - 1
      ensures (pc[k + 1].row == pc[k].row || pc[k + 1].row + 1 == pc[k].row)
      ensures (pc[k + 1].col == pc[k].col || pc[k + 1].col + 1 == pc[k].col)
      ensures pc[k + 1] != pc[k]
    {
      var p := pc[k];
      assert MovesCorrected(m, p, pc[k + 1]);
      NeighbourIsStep(p, StepCorrected(m[p.row - 1, p.col - 1], m[p.row, p.col - 1], m[p.row - 1, p.col]));
    }
  }

  /** Every path `trace` produces, finished or not, is a step path. */
  lemma WalkIsStepPath(m: array2<int>, start: Pos)
    requires BordersZero(m) && InGrid(m, start)
    ensures IsStepPath(Walk(m, start).path)
  {
    WalkShape(m, start);
    var pw := Walk(m, start).path;
    forall k | 0 <= k < |pw| - 1
      ensures (pw[k + 1].row == pw[k].row || pw[k + 1].row + 1 == pw[k].row)
      ensures (pw[k + 1].col == pw[k].col || pw[k + 1].col + 1 == pw[k].col)
      ensures pw[k + 1] != pw[k]
    {
      assert Moves(m, pw[k], pw[k + 1]);
      NeighbourIsStep(pw[k], StepAt(m, pw[k]));
    }
  }
}
