/**
 * Pairwise global alignment: the Needleman-Wunsch dynamic program with linear
 * gap costs, its traceback in the fixed order diagonal, up, left, and the
 * alignment record it returns.
 *
 * The specification is split in two. `Cell` and `IsScoreMatrix` say what the
 * score matrix holds; `Trace` says which moves the traceback takes on a given
 * matrix, and `Row1`, `Row2`, `Walk` turn those moves into the two gapped
 * strings and the coordinate path. `NeedlemanWunsch` is the imperative
 * algorithm, proved to return exactly `GlobalAlignment`.
 */
module Algorithm {
  import opened Text

  /** The three scoring parameters: match reward, mismatch penalty, gap penalty. */
  datatype Scores = Scores(matchScore: int, mismatchScore: int, gapScore: int)

  /** An identity percentage as the integer pair numerator / denominator (no `Double`). */
  datatype Identity = Identity(matches: nat, columns: nat)

  /** The record `needlemanWunsch` returns. */
  datatype AlignmentResult = AlignmentResult(
    alignedSeq1: string,
    alignedSeq2: string,
    scoreMatrix: seq<seq<int>>,
    path: seq<(nat, nat)>,
    identity: Identity,
    gapCount: nat,
    score: int)

  /** One traceback step: both characters, a gap in the second string, a gap in the first. */
  datatype Move = Diag | Up | Left

  // ---------------------------------------------------------------------------
  // Scoring

  function Substitution(a: char, b: char, sc: Scores): int
  {
    if a == b then sc.matchScore else sc.mismatchScore
  }

  /** The score of one aligned column: a gap on either side costs `gapScore`, else match or mismatch. */
  function PairScore(a: char, b: char, sc: Scores): (r: int)
    ensures a == Gap || b == Gap ==> r == sc.gapScore
    ensures a != Gap && b != Gap ==> r == Substitution(a, b, sc)
  {
    if a == Gap || b == Gap then sc.gapScore else Substitution(a, b, sc)
  }

  /** A column scores the same whichever of its two characters comes first, so each pair of rows is scored once. */
  lemma PairScoreSymmetric(a: char, b: char, sc: Scores)
    ensures PairScore(a, b, sc) == PairScore(b, a, sc)
  {
  }

  /** Kotlin's `maxOf(a, b, c)`. */
  function Max3(a: int, b: int, c: int): (r: int)
    ensures r >= a && r >= b && r >= c
    ensures r == a || r == b || r == c
  {
    if a >= b && a >= c then a else if b >= c then b else c
  }

  // ---------------------------------------------------------------------------
  // The score matrix

  predicate Shaped(M: seq<seq<int>>, m: nat, n: nat)
  {
    |M| == m + 1 && forall i :: 0 <= i < |M| ==> |M[i]| == n + 1
  }

  /** Row 0 and column 0 hold the cumulative gap costs. */
  predicate Bordered(M: seq<seq<int>>, m: nat, n: nat, gap: int)
    requires Shaped(M, m, n)
  {
    (forall i :: 0 <= i <= m ==> M[i][0] == i * gap) &&
    (forall j :: 0 <= j <= n ==> M[0][j] == j * gap)
  }

  /** Cell (i, j) is the best of the three recurrence terms over its neighbours. */
  predicate Recurs(M: seq<seq<int>>, s1: string, s2: string, sc: Scores, i: nat, j: nat)
    requires Shaped(M, |s1|, |s2|)
    requires 1 <= i <= |s1| && 1 <= j <= |s2|
  {
    M[i][j] == Max3(M[i - 1][j - 1] + Substitution(s1[i - 1], s2[j - 1], sc),
                    M[i - 1][j] + sc.gapScore,
                    M[i][j - 1] + sc.gapScore)
  }

  /** `M` is the Needleman-Wunsch matrix of `s1` against `s2`. */
  predicate IsScoreMatrix(M: seq<seq<int>>, s1: string, s2: string, sc: Scores)
  {
    Shaped(M, |s1|, |s2|) &&
    Bordered(M, |s1|, |s2|, sc.gapScore) &&
    forall i, j :: 1 <= i <= |s1| && 1 <= j <= |s2| ==> Recurs(M, s1, s2, sc, i, j)
  }

  /** The value of one cell, by the recurrence alone. */
  ghost function Cell(s1: string, s2: string, sc: Scores, i: nat, j: nat): int
    requires i <= |s1| && j <= |s2|
    decreases i + j
  {
    if i == 0 then j * sc.gapScore
    else if j == 0 then i * sc.gapScore
    else Max3(Cell(s1, s2, sc, i - 1, j - 1) + Substitution(s1[i - 1], s2[j - 1], sc),
              Cell(s1, s2, sc, i - 1, j) + sc.gapScore,
              Cell(s1, s2, sc, i, j - 1) + sc.gapScore)
  }

  /** The whole matrix, cell by cell. */
  ghost function Matrix(s1: string, s2: string, sc: Scores): (M: seq<seq<int>>)
    ensures IsScoreMatrix(M, s1, s2, sc)
  {
    var M := seq(|s1| + 1, i requires 0 <= i <= |s1| =>
               seq(|s2| + 1, j requires 0 <= j <= |s2| => Cell(s1, s2, sc, i, j)));
    CellsMakeScoreMatrix(M, s1, s2, sc);
    M
  }

  /** A matrix holding `Cell` in every position satisfies the border and the recurrence. */
  lemma CellsMakeScoreMatrix(M: seq<seq<int>>, s1: string, s2: string, sc: Scores)
    requires Shaped(M, |s1|, |s2|)
    requires forall i, j :: 0 <= i <= |s1| && 0 <= j <= |s2| ==> M[i][j] == Cell(s1, s2, sc, i, j)
    ensures IsScoreMatrix(M, s1, s2, sc)
  {
    forall i, j | 1 <= i <= |s1| && 1 <= j <= |s2| ensures Recurs(M, s1, s2, sc, i, j) {
      assert M[i][j] == Cell(s1, s2, sc, i, j);
      assert M[i - 1][j - 1] == Cell(s1, s2, sc, i - 1, j - 1);
      assert M[i - 1][j] == Cell(s1, s2, sc, i - 1, j);
      assert M[i][j - 1] == Cell(s1, s2, sc, i, j - 1);
    }
  }

  lemma {:induction false} CellAgrees(M: seq<seq<int>>, s1: string, s2: string, sc: Scores, i: nat, j: nat)
    requires IsScoreMatrix(M, s1, s2, sc)
    requires i <= |s1| && j <= |s2|
    ensures M[i][j] == Cell(s1, s2, sc, i, j)
    decreases i + j
  {
    if i > 0 && j > 0 {
      var a, b := i - 1, j - 1;
      CellAgrees(M, s1, s2, sc, a, b);
      CellAgrees(M, s1, s2, sc, a, j);
      CellAgrees(M, s1, s2, sc, i, b);
      CellStep(M, s1, s2, sc, i, j);
    } else if i == 0 {
      assert M[0][j] == j * sc.gapScore;
    } else {
      assert M[i][0] == i * sc.gapScore;
    }
  }

  /** An inner cell agrees with `Cell` once its three neighbours do. */
  lemma CellStep(M: seq<seq<int>>, s1: string, s2: string, sc: Scores, i: nat, j: nat)
    requires IsScoreMatrix(M, s1, s2, sc)
    requires 1 <= i <= |s1| && 1 <= j <= |s2|
    requires M[i - 1][j - 1] == Cell(s1, s2, sc, i - 1, j - 1)
    requires M[i - 1][j] == Cell(s1, s2, sc, i - 1, j) && M[i][j - 1] == Cell(s1, s2, sc, i, j - 1)
    ensures M[i][j] == Cell(s1, s2, sc, i, j)
  {
    assert Recurs(M, s1, s2, sc, i, j);
  }

  /** The border and the recurrence determine the matrix: there is only one. */
  lemma ScoreMatrixUnique(M: seq<seq<int>>, s1: string, s2: string, sc: Scores)
    requires IsScoreMatrix(M, s1, s2, sc)
    ensures M == Matrix(s1, s2, sc)
  {
    var N := Matrix(s1, s2, sc);
    forall i | 0 <= i <= |s1| ensures M[i] == N[i] {
      forall j | 0 <= j <= |s2| ensures M[i][j] == N[i][j] {
        CellAgrees(M, s1, s2, sc, i, j);
      }
    }
  }

  lemma Max3Swap(a: int, b: int, c: int)
    ensures Max3(a, b, c) == Max3(a, c, b)
  {
  }

  /** The matrix with rows and columns exchanged. */
  function Transpose(M: seq<seq<int>>, m: nat, n: nat): (T: seq<seq<int>>)
    requires Shaped(M, m, n)
    ensures Shaped(T, n, m)
    ensures forall i, j :: 0 <= i <= m && 0 <= j <= n ==> T[j][i] == M[i][j]
  {
    seq(n + 1, j requires 0 <= j <= n => seq(m + 1, i requires 0 <= i <= m => M[i][j]))
  }

  /** Aligning `s2` against `s1` gives the transposed matrix of aligning `s1` against `s2`. */
  lemma SwapTransposes(s1: string, s2: string, sc: Scores)
    ensures Matrix(s2, s1, sc) == Transpose(Matrix(s1, s2, sc), |s1|, |s2|)
  {
    var M := Matrix(s1, s2, sc);
    var T := Transpose(M, |s1|, |s2|);
    forall j, i | 1 <= j <= |s2| && 1 <= i <= |s1| ensures Recurs(T, s2, s1, sc, j, i) {
      assert Recurs(M, s1, s2, sc, i, j);
      assert Substitution(s1[i - 1], s2[j - 1], sc) == Substitution(s2[j - 1], s1[i - 1], sc);
      Max3Swap(M[i - 1][j - 1] + Substitution(s1[i - 1], s2[j - 1], sc), M[i - 1][j] + sc.gapScore, M[i][j - 1] + sc.gapScore);
    }
    assert IsScoreMatrix(T, s2, s1, sc);
    ScoreMatrixUnique(T, s2, s1, sc);
  }

  /** The final score does not depend on which sequence comes first. */
  lemma ScoreSymmetric(s1: string, s2: string, sc: Scores)
    ensures Score(s1, s2, sc) == Score(s2, s1, sc)
    ensures GlobalAlignment(s1, s2, sc).score == GlobalAlignment(s2, s1, sc).score
  {
    SwapTransposes(s1, s2, sc);
    assert Matrix(s2, s1, sc)[|s2|][|s1|] == Matrix(s1, s2, sc)[|s1|][|s2|];
  }

  // ---------------------------------------------------------------------------
  // The traceback

  /** How many characters of the first (second) string the moves `t` use. */
  function Used1(t: seq<Move>): nat
  {
    if t == [] then 0 else Used1(t[..|t| - 1]) + if t[|t| - 1] == Left then 0 else 1
  }

  function Used2(t: seq<Move>): nat
  {
    if t == [] then 0 else Used2(t[..|t| - 1]) + if t[|t| - 1] == Up then 0 else 1
  }

  /** The traceback's choice at (i, j): diagonal first, then up, then left. */
  function Choose(M: seq<seq<int>>, s1: string, s2: string, sc: Scores, i: nat, j: nat): Move
    requires Shaped(M, |s1|, |s2|) && i <= |s1| && j <= |s2|
  {
    if i > 0 && j > 0 && M[i][j] == M[i - 1][j - 1] + Substitution(s1[i - 1], s2[j - 1], sc) then Diag
    else if i > 0 && M[i][j] == M[i - 1][j] + sc.gapScore then Up
    else Left
  }

  /** In column 0 the up test always succeeds, so the traceback never moves left there. */
  lemma ChooseInColumnZero(M: seq<seq<int>>, s1: string, s2: string, sc: Scores, i: nat)
    requires IsScoreMatrix(M, s1, s2, sc) && 0 < i <= |s1|
    ensures Choose(M, s1, s2, sc, i, 0) == Up
  {
    assert M[i][0] == i * sc.gapScore && M[i - 1][0] == (i - 1) * sc.gapScore;
    assert i * sc.gapScore == (i - 1) * sc.gapScore + sc.gapScore;
  }

  /** The cell a move comes from when the traceback takes it backwards out of (i, j). */
  function Before(i: nat, j: nat, mv: Move): (nat, nat)
    requires mv != Left ==> i > 0
    requires mv != Up ==> j > 0
  {
    match mv
    case Diag => (i - 1, j - 1)
    case Up => (i - 1, j)
    case Left => (i, j - 1)
  }

  /** Dropping the last of the moves `t + [mv]` gives back `t`. */
  lemma DropLast(t: seq<Move>, mv: Move)
    ensures (t + [mv])[..|t|] == t && (t + [mv])[|t|] == mv
    ensures Used1(t + [mv]) == Used1(t) + if mv == Left then 0 else 1
    ensures Used2(t + [mv]) == Used2(t) + if mv == Up then 0 else 1
  {
    assert (t + [mv])[..|t|] == t;
  }

  /** The moves the traceback takes from (i, j) back to (0, 0), in forward order. */
  ghost function Trace(M: seq<seq<int>>, s1: string, s2: string, sc: Scores, i: nat, j: nat): (t: seq<Move>)
    requires IsScoreMatrix(M, s1, s2, sc) && i <= |s1| && j <= |s2|
    ensures Used1(t) == i && Used2(t) == j
    decreases i + j
  {
    if i == 0 && j == 0 then []
    else
      var mv := Choose(M, s1, s2, sc, i, j);
      assert mv == Left ==> j > 0 by {
        if j == 0 { ChooseInColumnZero(M, s1, s2, sc, i); }
      }
      var t := Trace(M, s1, s2, sc, Before(i, j, mv).0, Before(i, j, mv).1);
      DropLast(t, mv);
      t + [mv]
  }

  /** One step of the traceback: the move chosen at (i, j) comes last. */
  lemma TraceStep(M: seq<seq<int>>, s1: string, s2: string, sc: Scores, i: nat, j: nat)
    requires IsScoreMatrix(M, s1, s2, sc) && i <= |s1| && j <= |s2| && i + j > 0
    ensures var mv := Choose(M, s1, s2, sc, i, j);
            && (mv == Left ==> j > 0)
            && (mv != Left ==> i > 0)
            && Trace(M, s1, s2, sc, i, j) == Trace(M, s1, s2, sc, Before(i, j, mv).0, Before(i, j, mv).1) + [mv]
  {
    if j == 0 { ChooseInColumnZero(M, s1, s2, sc, i); }
  }

  predicate Fits(t: seq<Move>, s1: string, s2: string)
  {
    Used1(t) <= |s1| && Used2(t) <= |s2|
  }

  /** The first aligned string: a character of `s` for a diagonal or up move, a gap for a left move. */
  function Row1(t: seq<Move>, s: string): (a: string)
    requires Used1(t) <= |s|
    ensures |a| == |t|
  {
    if t == [] then []
    else Row1(t[..|t| - 1], s) + [if t[|t| - 1] == Left then Gap else s[Used1(t) - 1]]
  }

  /** The second aligned string: a character of `s` for a diagonal or left move, a gap for an up move. */
  function Row2(t: seq<Move>, s: string): (a: string)
    requires Used2(t) <= |s|
    ensures |a| == |t|
  {
    if t == [] then []
    else Row2(t[..|t| - 1], s) + [if t[|t| - 1] == Up then Gap else s[Used2(t) - 1]]
  }

  /** Where a move leads from cell `p`. */
  function Advance(p: (nat, nat), mv: Move): (nat, nat)
  {
    match mv
    case Diag => (p.0 + 1, p.1 + 1)
    case Up => (p.0 + 1, p.1)
    case Left => (p.0, p.1 + 1)
  }

  /** The cells the moves visit, from (0, 0) on. */
  function Walk(t: seq<Move>): (p: seq<(nat, nat)>)
    ensures |p| == |t| + 1
    ensures p[0] == (0, 0) && p[|t|] == (Used1(t), Used2(t))
  {
    if t == [] then [(0, 0)] else Walk(t[..|t| - 1]) + [(Used1(t), Used2(t))]
  }

  /** Each cell of the walk is one move away from the cell before it. */
  lemma {:induction false} WalkSteps(t: seq<Move>)
    ensures forall k :: 0 <= k < |t| ==> Walk(t)[k + 1] == Advance(Walk(t)[k], t[k])
  {
    if t != [] {
      var t' := t[..|t| - 1];
      WalkSteps(t');
      forall k | 0 <= k < |t|
        ensures Walk(t)[k + 1] == Advance(Walk(t)[k], t[k])
      {
        if k < |t'| {
          assert t[k] == t'[k];
          assert Walk(t)[k] == Walk(t')[k];
        }
      }
    }
  }

  lemma WalkSnoc(t: seq<Move>, mv: Move)
    ensures Walk(t + [mv]) == Walk(t) + [(Used1(t + [mv]), Used2(t + [mv]))]
  {
    DropLast(t, mv);
  }

  /** The diagonal moves that pair two equal characters. */
  function MatchCount(t: seq<Move>, s1: string, s2: string): (c: nat)
    requires Fits(t, s1, s2)
    ensures c <= |t|
  {
    if t == [] then 0
    else
      MatchCount(t[..|t| - 1], s1, s2) +
      if t[|t| - 1] == Diag && s1[Used1(t) - 1] == s2[Used2(t) - 1] then 1 else 0
  }

  /** The moves that are not diagonal, each of which writes one gap. */
  function GapMoves(t: seq<Move>): (c: nat)
    ensures c <= |t|
  {
    if t == [] then 0 else GapMoves(t[..|t| - 1]) + if t[|t| - 1] == Diag then 0 else 1
  }

  /** The score the moves collect: substitution on a diagonal, the gap cost otherwise. */
  function TraceScore(t: seq<Move>, s1: string, s2: string, sc: Scores): int
    requires Fits(t, s1, s2)
  {
    if t == [] then 0
    else
      TraceScore(t[..|t| - 1], s1, s2, sc) +
      if t[|t| - 1] == Diag then Substitution(s1[Used1(t) - 1], s2[Used2(t) - 1], sc) else sc.gapScore
  }

  /** Column-by-column score of two aligned strings of equal length. */
  function ColumnsScore(a: string, b: string, sc: Scores): int
    requires |a| == |b|
  {
    if a == [] then 0
    else ColumnsScore(a[..|a| - 1], b[..|b| - 1], sc) + PairScore(a[|a| - 1], b[|b| - 1], sc)
  }

  /** The columns whose two characters are equal. */
  function EqualColumns(a: string, b: string): nat
    requires |a| == |b|
  {
    if a == [] then 0
    else EqualColumns(a[..|a| - 1], b[..|b| - 1]) + if a[|a| - 1] == b[|b| - 1] then 1 else 0
  }

  // ---------------------------------------------------------------------------
  // The specification of `needlemanWunsch`

  /** What `needlemanWunsch(s1, s2, ...)` returns. */
  ghost function GlobalAlignment(s1: string, s2: string, sc: Scores): AlignmentResult
  {
    var M := Matrix(s1, s2, sc);
    var t := Trace(M, s1, s2, sc, |s1|, |s2|);
    AlignmentResult(Row1(t, s1), Row2(t, s2), M, Walk(t),
                    Identity(MatchCount(t, s1, s2), |t|), GapMoves(t), M[|s1|][|s2|])
  }

  /** The optimal global alignment score of `s1` against `s2`. */
  ghost function Score(s1: string, s2: string, sc: Scores): int
  {
    Cell(s1, s2, sc, |s1|, |s2|)
  }

  // ---------------------------------------------------------------------------
  // Properties of the traceback

  lemma StripSnoc(x: string, c: char)
    ensures Strip(x + [c]) == Strip(x) + if c == Gap then [] else [c]
    ensures GapCount(x + [c]) == GapCount(x) + if c == Gap then 1 else 0
  {
    assert (x + [c])[..|x|] == x;
  }

  lemma ColumnsSnoc(a: string, b: string, x: char, y: char, sc: Scores)
    requires |a| == |b|
    ensures ColumnsScore(a + [x], b + [y], sc) == ColumnsScore(a, b, sc) + PairScore(x, y, sc)
    ensures EqualColumns(a + [x], b + [y]) == EqualColumns(a, b) + if x == y then 1 else 0
  {
    assert (a + [x])[..|a|] == a;
    assert (b + [y])[..|b|] == b;
  }

  lemma TraceScoreSnoc(t: seq<Move>, mv: Move, s1: string, s2: string, sc: Scores)
    requires Fits(t + [mv], s1, s2)
    ensures Fits(t, s1, s2)
    ensures TraceScore(t + [mv], s1, s2, sc) == TraceScore(t, s1, s2, sc) +
              if mv == Diag then Substitution(s1[Used1(t)], s2[Used2(t)], sc) else sc.gapScore
  {
    DropLast(t, mv);
  }

  /** Each move of the traceback re-derives its cell from a neighbour, so the moves collect exactly the cell's score. */
  lemma {:induction false} TraceScoreIsCell(M: seq<seq<int>>, s1: string, s2: string, sc: Scores, i: nat, j: nat)
    requires IsScoreMatrix(M, s1, s2, sc) && i <= |s1| && j <= |s2|
    ensures TraceScore(Trace(M, s1, s2, sc, i, j), s1, s2, sc) == M[i][j]
    decreases i + j
  {
    if i == 0 && j == 0 {
      assert M[0][0] == 0 * sc.gapScore;
    } else {
      var mv := Choose(M, s1, s2, sc, i, j);
      TraceStep(M, s1, s2, sc, i, j);
      var (i', j') := Before(i, j, mv);
      var t' := Trace(M, s1, s2, sc, i', j');
      TraceScoreIsCell(M, s1, s2, sc, i', j');
      TraceScoreSnoc(t', mv, s1, s2, sc);
      ChosenScore(M, s1, s2, sc, i, j);
    }
  }

  /** The cell the traceback leaves is the cell it moves to plus the score of the move. */
  lemma ChosenScore(M: seq<seq<int>>, s1: string, s2: string, sc: Scores, i: nat, j: nat)
    requires IsScoreMatrix(M, s1, s2, sc) && i <= |s1| && j <= |s2| && i + j > 0
    ensures var mv := Choose(M, s1, s2, sc, i, j);
            && (mv == Left ==> j > 0) && (mv != Left ==> i > 0)
            && M[i][j] == M[Before(i, j, mv).0][Before(i, j, mv).1] +
                 if mv == Diag then Substitution(s1[i - 1], s2[j - 1], sc) else sc.gapScore
  {
    var mv := Choose(M, s1, s2, sc, i, j);
    if j == 0 {
      ChooseInColumnZero(M, s1, s2, sc, i);
    } else if mv == Left {
      if i == 0 {
        assert M[0][j] == j * sc.gapScore && M[0][j - 1] == (j - 1) * sc.gapScore;
      } else {
        assert Recurs(M, s1, s2, sc, i, j);
      }
    }
  }

  /**
   * Each move of `t` is the one the preference order diagonal, up, left picks
   * at the cell the move arrives at (the cell the traceback leaves with it).
   */
  ghost predicate Preferred(M: seq<seq<int>>, s1: string, s2: string, sc: Scores, t: seq<Move>)
    requires Shaped(M, |s1|, |s2|) && Fits(t, s1, s2)
  {
    t == [] ||
    (Fits(t[..|t| - 1], s1, s2) && Preferred(M, s1, s2, sc, t[..|t| - 1]) &&
     t[|t| - 1] == Choose(M, s1, s2, sc, Used1(t), Used2(t)))
  }

  /** The traceback breaks ties diagonal first, then up, then left, at every step. */
  lemma {:induction false} TraceIsPreferred(M: seq<seq<int>>, s1: string, s2: string, sc: Scores, i: nat, j: nat)
    requires IsScoreMatrix(M, s1, s2, sc) && i <= |s1| && j <= |s2|
    ensures Preferred(M, s1, s2, sc, Trace(M, s1, s2, sc, i, j))
    decreases i + j
  {
    if i + j > 0 {
      var mv := Choose(M, s1, s2, sc, i, j);
      TraceStep(M, s1, s2, sc, i, j);
      var (i', j') := Before(i, j, mv);
      TraceIsPreferred(M, s1, s2, sc, i', j');
      DropLast(Trace(M, s1, s2, sc, i', j'), mv);
    }
  }

  /**
   * Optimality: no sequence of moves from (0, 0) scores more than the cell it
   * ends at, so (with `TraceScoreIsCell`) the traceback is a best alignment.
   */
  lemma {:induction false} NoAlignmentScoresHigher(M: seq<seq<int>>, s1: string, s2: string, sc: Scores, t: seq<Move>)
    requires IsScoreMatrix(M, s1, s2, sc) && Fits(t, s1, s2)
    ensures TraceScore(t, s1, s2, sc) <= M[Used1(t)][Used2(t)]
  {
    if t == [] {
      assert M[0][0] == 0 * sc.gapScore;
    } else {
      var t', mv := t[..|t| - 1], t[|t| - 1];
      assert t == t' + [mv];
      DropLast(t', mv);
      TraceScoreSnoc(t', mv, s1, s2, sc);
      NoAlignmentScoresHigher(M, s1, s2, sc, t');
      var i, j := Used1(t), Used2(t);
      if i == 0 {
        assert M[0][j] == j * sc.gapScore && M[0][j - 1] == (j - 1) * sc.gapScore;
      } else if j == 0 {
        assert M[i][0] == i * sc.gapScore && M[i - 1][0] == (i - 1) * sc.gapScore;
      } else {
        assert Recurs(M, s1, s2, sc, i, j);
      }
    }
  }

  /** Taking the gaps out of the first aligned string gives back the characters the moves used. */
  lemma {:induction false} Row1Strips(t: seq<Move>, s: string)
    requires Used1(t) <= |s| && Gap !in s
    ensures Strip(Row1(t, s)) == s[..Used1(t)]
  {
    if t != [] {
      var t' := t[..|t| - 1];
      Row1Strips(t', s);
      var c := if t[|t| - 1] == Left then Gap else s[Used1(t) - 1];
      StripSnoc(Row1(t', s), c);
      if t[|t| - 1] != Left {
        assert s[..Used1(t)] == s[..Used1(t')] + [c];
      }
    }
  }

  lemma {:induction false} Row2Strips(t: seq<Move>, s: string)
    requires Used2(t) <= |s| && Gap !in s
    ensures Strip(Row2(t, s)) == s[..Used2(t)]
  {
    if t != [] {
      var t' := t[..|t| - 1];
      Row2Strips(t', s);
      var c := if t[|t| - 1] == Up then Gap else s[Used2(t) - 1];
      StripSnoc(Row2(t', s), c);
      if t[|t| - 1] != Up {
        assert s[..Used2(t)] == s[..Used2(t')] + [c];
      }
    }
  }

  /** One more character of `s` adds one to the gap count of a prefix exactly when it is a gap. */
  lemma PrefixSnoc(s: string, k: nat)
    requires k < |s|
    ensures GapCount(s[..k + 1]) == GapCount(s[..k]) + if s[k] == Gap then 1 else 0
  {
    var p, c := s[..k], s[k];
    assert s[..k + 1] == p + [c];
    StripSnoc(p, c);
  }

  lemma {:induction false} Row2KeepsNonGaps(t: seq<Move>, s: string)
    requires Used2(t) <= |s|
    ensures NonGapCount(Row2(t, s)) == NonGapCount(s[..Used2(t)])
  {
    if t != [] {
      var t' := t[..|t| - 1];
      Row2KeepsNonGaps(t', s);
      var c := if t[|t| - 1] == Up then Gap else s[Used2(t) - 1];
      StripSnoc(Row2(t', s), c);
      if t[|t| - 1] != Up {
        PrefixSnoc(s, Used2(t'));
      }
    }
  }

  /** Whatever `s` holds, the first aligned string keeps exactly the non-gap characters the moves used. */
  lemma {:induction false} Row1KeepsNonGaps(t: seq<Move>, s: string)
    requires Used1(t) <= |s|
    ensures NonGapCount(Row1(t, s)) == NonGapCount(s[..Used1(t)])
  {
    if t != [] {
      var t' := t[..|t| - 1];
      Row1KeepsNonGaps(t', s);
      var c := if t[|t| - 1] == Left then Gap else s[Used1(t) - 1];
      StripSnoc(Row1(t', s), c);
      if t[|t| - 1] != Left {
        PrefixSnoc(s, Used1(t'));
      }
    }
  }

  /** The last column of the aligned strings, written by the last move. */
  lemma RowsSnoc(t: seq<Move>, s1: string, s2: string)
    requires Fits(t, s1, s2) && t != []
    ensures var t', mv := t[..|t| - 1], t[|t| - 1];
            && Fits(t', s1, s2)
            && Row1(t, s1) == Row1(t', s1) + [if mv == Left then Gap else s1[Used1(t')]]
            && Row2(t, s2) == Row2(t', s2) + [if mv == Up then Gap else s2[Used2(t')]]
  {
    assert t == t[..|t| - 1] + [t[|t| - 1]];
    DropLast(t[..|t| - 1], t[|t| - 1]);
  }

  /**
   * With gap-free inputs no column of the aligned strings holds two gaps, and
   * the gaps in them are exactly the non-diagonal moves.
   */
  lemma {:induction false} GapColumns(t: seq<Move>, s1: string, s2: string)
    requires Fits(t, s1, s2) && Gap !in s1 && Gap !in s2
    ensures var a, b := Row1(t, s1), Row2(t, s2);
            && (forall k :: 0 <= k < |t| ==> !(a[k] == Gap && b[k] == Gap))
            && GapCount(a) + GapCount(b) == GapMoves(t)
  {
    if t != [] {
      var t', mv := t[..|t| - 1], t[|t| - 1];
      RowsSnoc(t, s1, s2);
      GapColumns(t', s1, s2);
      var a', b' := Row1(t', s1), Row2(t', s2);
      var x := if mv == Left then Gap else s1[Used1(t')];
      var y := if mv == Up then Gap else s2[Used2(t')];
      assert mv != Left ==> x in s1;
      assert mv != Up ==> y in s2;
      StripSnoc(a', x);
      StripSnoc(b', y);
    }
  }

  /**
   * With gap-free inputs the matches are the equal columns, and the column
   * scores add up to the score the moves collect.
   */
  lemma {:induction false} ScoredColumns(t: seq<Move>, s1: string, s2: string, sc: Scores)
    requires Fits(t, s1, s2) && Gap !in s1 && Gap !in s2
    ensures var a, b := Row1(t, s1), Row2(t, s2);
            && EqualColumns(a, b) == MatchCount(t, s1, s2)
            && ColumnsScore(a, b, sc) == TraceScore(t, s1, s2, sc)
  {
    if t != [] {
      var t', mv := t[..|t| - 1], t[|t| - 1];
      RowsSnoc(t, s1, s2);
      ScoredColumns(t', s1, s2, sc);
      var x := if mv == Left then Gap else s1[Used1(t')];
      var y := if mv == Up then Gap else s2[Used2(t')];
      assert mv != Left ==> x in s1;
      assert mv != Up ==> y in s2;
      ColumnsSnoc(Row1(t', s1), Row2(t', s2), x, y, sc);
    }
  }

  /**
   * The result's matrix is the score matrix, its score the optimum in the
   * bottom-right cell, its two strings and its path are one column / step
   * longer per move, and every non-gap character of the inputs appears in
   * its aligned string.
   */
  lemma AlignmentShape(s1: string, s2: string, sc: Scores)
    ensures var r := GlobalAlignment(s1, s2, sc);
            && IsScoreMatrix(r.scoreMatrix, s1, s2, sc)
            && r.score == r.scoreMatrix[|s1|][|s2|] == Score(s1, s2, sc)
            && |r.alignedSeq1| == |r.alignedSeq2| == |r.path| - 1 == r.identity.columns
            && NonGapCount(r.alignedSeq1) == NonGapCount(s1)
            && NonGapCount(r.alignedSeq2) == NonGapCount(s2)
  {
    var M := Matrix(s1, s2, sc);
    var t := Trace(M, s1, s2, sc, |s1|, |s2|);
    CellAgrees(M, s1, s2, sc, |s1|, |s2|);
    Row1KeepsNonGaps(t, s1);
    Row2KeepsNonGaps(t, s2);
    assert s1[..|s1|] == s1 && s2[..|s2|] == s2;
  }

  /** `q` is one cell diagonally down-right, down or right of `p`. */
  predicate UnitStep(p: (nat, nat), q: (nat, nat))
  {
    q == (p.0 + 1, p.1 + 1) || q == (p.0 + 1, p.1) || q == (p.0, p.1 + 1)
  }

  /** Every cell of a walk is one unit step from the cell before it. */
  lemma WalkIsUnitSteps(t: seq<Move>)
    ensures forall k :: 0 <= k < |t| ==> UnitStep(Walk(t)[k], Walk(t)[k + 1])
  {
    WalkSteps(t);
  }

  /** The path runs from (0, 0) to (|s1|, |s2|) in unit steps: diagonal, down or right. */
  lemma AlignmentPath(s1: string, s2: string, sc: Scores)
    ensures var r := GlobalAlignment(s1, s2, sc);
            && r.path[0] == (0, 0) && r.path[|r.path| - 1] == (|s1|, |s2|)
            && forall k :: 0 <= k < |r.path| - 1 ==> UnitStep(r.path[k], r.path[k + 1])
  {
    WalkIsUnitSteps(Trace(Matrix(s1, s2, sc), s1, s2, sc, |s1|, |s2|));
  }

  /**
   * When neither input contains the gap marker, taking the gaps out of the
   * aligned strings gives the inputs back, no column holds two gaps, the
   * reported gap count is the number of gaps written, the reported matches
   * are the equal columns, and scoring the columns one by one gives the
   * reported score.
   */
  lemma AlignmentOfGapFree(s1: string, s2: string, sc: Scores)
    requires Gap !in s1 && Gap !in s2
    ensures var r := GlobalAlignment(s1, s2, sc);
            && Strip(r.alignedSeq1) == s1 && Strip(r.alignedSeq2) == s2
            && (forall k :: 0 <= k < |r.alignedSeq1| ==> !(r.alignedSeq1[k] == Gap && r.alignedSeq2[k] == Gap))
            && r.gapCount == GapCount(r.alignedSeq1) + GapCount(r.alignedSeq2)
            && r.identity.matches == EqualColumns(r.alignedSeq1, r.alignedSeq2)
            && ColumnsScore(r.alignedSeq1, r.alignedSeq2, sc) == r.score
  {
    var M := Matrix(s1, s2, sc);
    var t := Trace(M, s1, s2, sc, |s1|, |s2|);
    TraceScoreIsCell(M, s1, s2, sc, |s1|, |s2|);
    assert s1[..|s1|] == s1 && s2[..|s2|] == s2;
    Row1Strips(t, s1);
    Row2Strips(t, s2);
    GapColumns(t, s1, s2);
    ScoredColumns(t, s1, s2, sc);
  }

  /** No way of aligning `s1` with `s2` scores more than the reported score. */
  lemma AlignmentIsOptimal(s1: string, s2: string, sc: Scores, t: seq<Move>)
    requires Used1(t) == |s1| && Used2(t) == |s2|
    ensures TraceScore(t, s1, s2, sc) <= GlobalAlignment(s1, s2, sc).score
    ensures Gap !in s1 && Gap !in s2 ==>
              ColumnsScore(Row1(t, s1), Row2(t, s2), sc) <= GlobalAlignment(s1, s2, sc).score
  {
    NoAlignmentScoresHigher(Matrix(s1, s2, sc), s1, s2, sc, t);
    if Gap !in s1 && Gap !in s2 {
      ScoredColumns(t, s1, s2, sc);
    }
  }

  /**
   * Each side on its own: the aligned strings are equally long, the first
   * keeps the non-gap count of `s1`, a gap-free input comes back when the
   * gaps are taken out of its aligned string, and the score is the optimum.
   */
  lemma AlignedStrings(s1: string, s2: string, sc: Scores)
    ensures var r := GlobalAlignment(s1, s2, sc);
            && |r.alignedSeq1| == |r.alignedSeq2|
            && NonGapCount(r.alignedSeq1) == NonGapCount(s1)
            && (Gap !in s1 ==> Strip(r.alignedSeq1) == s1)
            && (Gap !in s2 ==> Strip(r.alignedSeq2) == s2)
            && r.score == Score(s1, s2, sc)
  {
    var M := Matrix(s1, s2, sc);
    var t := Trace(M, s1, s2, sc, |s1|, |s2|);
    assert s1[..|s1|] == s1 && s2[..|s2|] == s2;
    Row1KeepsNonGaps(t, s1);
    if Gap !in s1 {
      Row1Strips(t, s1);
    }
    if Gap !in s2 {
      Row2Strips(t, s2);
    }
    CellAgrees(M, s1, s2, sc, |s1|, |s2|);
  }

  // ---------------------------------------------------------------------------
  // The algorithm

  /** What one more move adds to the aligned strings and the counters. */
  lemma MovesSnoc(t: seq<Move>, mv: Move, s1: string, s2: string)
    requires Fits(t + [mv], s1, s2)
    ensures Fits(t, s1, s2)
    ensures Row1(t + [mv], s1) == Row1(t, s1) + [if mv == Left then Gap else s1[Used1(t)]]
    ensures Row2(t + [mv], s2) == Row2(t, s2) + [if mv == Up then Gap else s2[Used2(t)]]
    ensures MatchCount(t + [mv], s1, s2) ==
              MatchCount(t, s1, s2) + (if mv == Diag && s1[Used1(t)] == s2[Used2(t)] then 1 else 0)
    ensures GapMoves(t + [mv]) == GapMoves(t) + (if mv == Diag then 0 else 1)
  {
    DropLast(t, mv);
  }

  /** What one traceback step adds to the aligned strings and the counters. */
  lemma StepRows(M: seq<seq<int>>, s1: string, s2: string, sc: Scores, i: nat, j: nat)
    requires IsScoreMatrix(M, s1, s2, sc) && i <= |s1| && j <= |s2| && i + j > 0
    ensures var mv := Choose(M, s1, s2, sc, i, j);
            && (mv == Left ==> j > 0)
            && (mv != Left ==> i > 0)
            && var t, t' := Trace(M, s1, s2, sc, i, j), Trace(M, s1, s2, sc, Before(i, j, mv).0, Before(i, j, mv).1);
               && Row1(t, s1) == Row1(t', s1) + [if mv == Left then Gap else s1[i - 1]]
               && Row2(t, s2) == Row2(t', s2) + [if mv == Up then Gap else s2[j - 1]]
               && MatchCount(t, s1, s2) == MatchCount(t', s1, s2) + (if mv == Diag && s1[i - 1] == s2[j - 1] then 1 else 0)
               && GapMoves(t) == GapMoves(t') + (if mv == Diag then 0 else 1)
  {
    var mv := Choose(M, s1, s2, sc, i, j);
    TraceStep(M, s1, s2, sc, i, j);
    var t' := Trace(M, s1, s2, sc, Before(i, j, mv).0, Before(i, j, mv).1);
    MovesSnocAt(t', mv, s1, s2, i, j);
  }

  /** `MovesSnoc` for moves that end at cell (i, j). */
  lemma MovesSnocAt(t: seq<Move>, mv: Move, s1: string, s2: string, i: nat, j: nat)
    requires Used1(t + [mv]) == i <= |s1| && Used2(t + [mv]) == j <= |s2|
    requires (mv != Left ==> i > 0) && (mv != Up ==> j > 0)
    ensures Row1(t + [mv], s1) == Row1(t, s1) + [if mv == Left then Gap else s1[i - 1]]
    ensures Row2(t + [mv], s2) == Row2(t, s2) + [if mv == Up then Gap else s2[j - 1]]
    ensures MatchCount(t + [mv], s1, s2) ==
              MatchCount(t, s1, s2) + (if mv == Diag && s1[i - 1] == s2[j - 1] then 1 else 0)
    ensures GapMoves(t + [mv]) == GapMoves(t) + (if mv == Diag then 0 else 1)
  {
    DropLast(t, mv);
    MovesSnoc(t, mv, s1, s2);
  }

  /** One traceback step adds the cell it leaves to the end of the walk. */
  lemma StepWalk(M: seq<seq<int>>, s1: string, s2: string, sc: Scores, i: nat, j: nat)
    requires IsScoreMatrix(M, s1, s2, sc) && i <= |s1| && j <= |s2| && i + j > 0
    ensures var mv := Choose(M, s1, s2, sc, i, j);
            && (mv == Left ==> j > 0)
            && (mv != Left ==> i > 0)
            && Walk(Trace(M, s1, s2, sc, i, j)) ==
               Walk(Trace(M, s1, s2, sc, Before(i, j, mv).0, Before(i, j, mv).1)) + [(i, j)]
  {
    var mv := Choose(M, s1, s2, sc, i, j);
    TraceStep(M, s1, s2, sc, i, j);
    var t := Trace(M, s1, s2, sc, i, j);
    var t' := Trace(M, s1, s2, sc, Before(i, j, mv).0, Before(i, j, mv).1);
    assert t == t' + [mv];
    WalkSnoc(t', mv);
    assert Used1(t) == i && Used2(t) == j;
  }

  /** Row 0 and column 0 of `matrix` hold the cumulative gap costs. */
  method InitBorders(matrix: array2<int>, gapScore: int)
    requires matrix.Length0 >= 1 && matrix.Length1 >= 1
    modifies matrix
    ensures forall a :: 0 <= a < matrix.Length0 ==> matrix[a, 0] == a * gapScore
    ensures forall b :: 0 <= b < matrix.Length1 ==> matrix[0, b] == b * gapScore
    ensures forall a, b :: 0 < a < matrix.Length0 && 0 < b < matrix.Length1 ==> matrix[a, b] == old(matrix[a, b])
  {
    for i := 0 to matrix.Length0
      invariant forall a :: 0 <= a < i ==> matrix[a, 0] == a * gapScore
      invariant forall a, b :: 0 < a < matrix.Length0 && 0 < b < matrix.Length1 ==> matrix[a, b] == old(matrix[a, b])
    {
      matrix[i, 0] := i * gapScore;
    }
    for j := 0 to matrix.Length1
      invariant forall a :: 0 <= a < matrix.Length0 ==> matrix[a, 0] == a * gapScore
      invariant forall b :: 0 <= b < j ==> matrix[0, b] == b * gapScore
      invariant forall a, b :: 0 < a < matrix.Length0 && 0 < b < matrix.Length1 ==> matrix[a, b] == old(matrix[a, b])
    {
      matrix[0, j] := j * gapScore;
    }
  }

  /** Fill the inner cells row by row, each from its three neighbours, so that `matrix` holds `M`. */
  method FillMatrix(matrix: array2<int>, ghost M: seq<seq<int>>, s1: string, s2: string, sc: Scores)
    requires IsScoreMatrix(M, s1, s2, sc)
    requires matrix.Length0 == |s1| + 1 && matrix.Length1 == |s2| + 1
    requires forall a :: 0 <= a <= |s1| ==> matrix[a, 0] == a * sc.gapScore
    requires forall b :: 0 <= b <= |s2| ==> matrix[0, b] == b * sc.gapScore
    modifies matrix
    ensures forall a, b :: 0 <= a <= |s1| && 0 <= b <= |s2| ==> matrix[a, b] == M[a][b]
  {
    var m, n := |s1|, |s2|;
    for i := 1 to m + 1
      invariant forall a, b :: 0 <= a < i && 0 <= b <= n ==> matrix[a, b] == M[a][b]
      invariant forall a :: i <= a <= m ==> matrix[a, 0] == M[a][0]
    {
      for j := 1 to n + 1
        invariant forall a, b :: 0 <= a < i && 0 <= b <= n ==> matrix[a, b] == M[a][b]
        invariant forall a :: i <= a <= m ==> matrix[a, 0] == M[a][0]
        invariant forall b :: 0 <= b < j ==> matrix[i, b] == M[i][b]
      {
        var scoreDiagonal := matrix[i - 1, j - 1] + if s1[i - 1] == s2[j - 1] then sc.matchScore else sc.mismatchScore;
        var scoreUp := matrix[i - 1, j] + sc.gapScore;
        var scoreLeft := matrix[i, j - 1] + sc.gapScore;
        assert Recurs(M, s1, s2, sc, i, j);
        matrix[i, j] := Max3(scoreDiagonal, scoreUp, scoreLeft);
      }
    }
  }

  /** What the traceback collects, in the order it meets it (backwards). */
  datatype Unwound = Unwound(aligned1: string, aligned2: string, path: seq<(nat, nat)>, matches: nat, gaps: nat)

  /** The traceback from (i, j) to (0, 0), one step at a time, as the loop of `needlemanWunsch` collects it. */
  ghost function Unwind(M: seq<seq<int>>, s1: string, s2: string, sc: Scores, i: nat, j: nat): Unwound
    requires IsScoreMatrix(M, s1, s2, sc) && i <= |s1| && j <= |s2|
    decreases i + j
  {
    if i == 0 && j == 0 then Unwound([], [], [], 0, 0)
    else
      var mv := Choose(M, s1, s2, sc, i, j);
      assert mv == Left ==> j > 0 by {
        if j == 0 { ChooseInColumnZero(M, s1, s2, sc, i); }
      }
      var u := Unwind(M, s1, s2, sc, Before(i, j, mv).0, Before(i, j, mv).1);
      Unwound([if mv == Left then Gap else s1[i - 1]] + u.aligned1,
              [if mv == Up then Gap else s2[j - 1]] + u.aligned2,
              [(i, j)] + u.path,
              u.matches + (if mv == Diag && s1[i - 1] == s2[j - 1] then 1 else 0),
              u.gaps + (if mv == Diag then 0 else 1))
  }

  lemma ReverseCons<T>(x: T, s: seq<T>)
    ensures Reverse([x] + s) == Reverse(s) + [x]
  {
    assert ([x] + s)[1..] == s;
  }

  /** Read forwards, the backward collection is the aligned strings and counters of the traceback's moves. */
  lemma {:induction false} UnwindRows(M: seq<seq<int>>, s1: string, s2: string, sc: Scores, i: nat, j: nat)
    requires IsScoreMatrix(M, s1, s2, sc) && i <= |s1| && j <= |s2|
    ensures var u, t := Unwind(M, s1, s2, sc, i, j), Trace(M, s1, s2, sc, i, j);
            && Reverse(u.aligned1) == Row1(t, s1)
            && Reverse(u.aligned2) == Row2(t, s2)
            && u.matches == MatchCount(t, s1, s2)
            && u.gaps == GapMoves(t)
    decreases i + j
  {
    if i + j > 0 {
      var mv := Choose(M, s1, s2, sc, i, j);
      StepRows(M, s1, s2, sc, i, j);
      UnwindStep(M, s1, s2, sc, i, j);
      var bi, bj := Before(i, j, mv).0, Before(i, j, mv).1;
      UnwindRows(M, s1, s2, sc, bi, bj);
      var u := Unwind(M, s1, s2, sc, bi, bj);
      ReverseCons(if mv == Left then Gap else s1[i - 1], u.aligned1);
      ReverseCons(if mv == Up then Gap else s2[j - 1], u.aligned2);
    }
  }

  /** Read forwards and closed with (0, 0), the collected cells are the traceback's walk. */
  lemma {:induction false} UnwindPath(M: seq<seq<int>>, s1: string, s2: string, sc: Scores, i: nat, j: nat)
    requires IsScoreMatrix(M, s1, s2, sc) && i <= |s1| && j <= |s2|
    ensures Reverse(Unwind(M, s1, s2, sc, i, j).path + [(0, 0)]) == Walk(Trace(M, s1, s2, sc, i, j))
    decreases i + j
  {
    if i + j > 0 {
      var mv := Choose(M, s1, s2, sc, i, j);
      StepWalk(M, s1, s2, sc, i, j);
      var bi, bj := Before(i, j, mv).0, Before(i, j, mv).1;
      UnwindPath(M, s1, s2, sc, bi, bj);
      PathStep(Unwind(M, s1, s2, sc, bi, bj).path, (i, j), Walk(Trace(M, s1, s2, sc, bi, bj)));
    }
  }

  /** Putting one more cell in front of the backward path puts it at the end of the forward walk. */
  lemma PathStep(p: seq<(nat, nat)>, c: (nat, nat), w: seq<(nat, nat)>)
    requires Reverse(p + [(0, 0)]) == w
    ensures Reverse([c] + p + [(0, 0)]) == w + [c]
  {
    assert [c] + p + [(0, 0)] == [c] + (p + [(0, 0)]);
    ReverseCons(c, p + [(0, 0)]);
  }

  /** One step of `Unwind` out of (i, j) > (0, 0), along the move the traceback chooses there. */
  lemma UnwindStep(M: seq<seq<int>>, s1: string, s2: string, sc: Scores, i: nat, j: nat)
    requires IsScoreMatrix(M, s1, s2, sc) && i <= |s1| && j <= |s2| && i + j > 0
    ensures var mv := Choose(M, s1, s2, sc, i, j);
            && (mv == Left ==> j > 0) && (mv != Left ==> i > 0)
            && var u := Unwind(M, s1, s2, sc, Before(i, j, mv).0, Before(i, j, mv).1);
               Unwind(M, s1, s2, sc, i, j) ==
                 Unwound([if mv == Left then Gap else s1[i - 1]] + u.aligned1,
                         [if mv == Up then Gap else s2[j - 1]] + u.aligned2,
                         [(i, j)] + u.path,
                         u.matches + (if mv == Diag && s1[i - 1] == s2[j - 1] then 1 else 0),
                         u.gaps + (if mv == Diag then 0 else 1))
  {
    if j == 0 { ChooseInColumnZero(M, s1, s2, sc, i); }
  }

  /**
   * One pass of the traceback loop at (i, j) > (0, 0): the first of diagonal,
   * up, left whose recurrence term produced the cell gives the two
   * characters appended, whether a match or a gap is counted, and the cell
   * to continue from.
   */
  method BackStep(M: seq<seq<int>>, s1: string, s2: string, sc: Scores, i: nat, j: nat)
    returns (c1: char, c2: char, hit: nat, gap: nat, i': nat, j': nat)
    requires IsScoreMatrix(M, s1, s2, sc) && i <= |s1| && j <= |s2| && i + j > 0
    ensures i' + j' < i + j && i' <= |s1| && j' <= |s2|
    ensures var u, u' := Unwind(M, s1, s2, sc, i, j), Unwind(M, s1, s2, sc, i', j');
            u == Unwound([c1] + u'.aligned1, [c2] + u'.aligned2, [(i, j)] + u'.path, hit + u'.matches, gap + u'.gaps)
  {
    UnwindStep(M, s1, s2, sc, i, j);
    if i > 0 && j > 0 && M[i][j] == M[i - 1][j - 1] + (if s1[i - 1] == s2[j - 1] then sc.matchScore else sc.mismatchScore) {
      assert Choose(M, s1, s2, sc, i, j) == Diag;
      c1, c2 := s1[i - 1], s2[j - 1];
      hit, gap := if s1[i - 1] == s2[j - 1] then 1 else 0, 0;
      i', j' := i - 1, j - 1;
    } else if i > 0 && M[i][j] == M[i - 1][j] + sc.gapScore {
      assert Choose(M, s1, s2, sc, i, j) == Up;
      c1, c2 := s1[i - 1], Gap;
      hit, gap := 0, 1;
      i', j' := i - 1, j;
    } else {
      assert Choose(M, s1, s2, sc, i, j) == Left;
      c1, c2 := Gap, s2[j - 1];
      hit, gap := 0, 1;
      i', j' := i, j - 1;
    }
    assert (i', j') == Before(i, j, Choose(M, s1, s2, sc, i, j));
  }

  /**
   * Walk back from the bottom-right corner to (0, 0) and collect the aligned
   * characters, the visited cells, the matches and the gaps in the order
   * they are met (backwards).
   */
  method Traceback(M: seq<seq<int>>, s1: string, s2: string, sc: Scores)
    returns (aligned1: string, aligned2: string, path: seq<(nat, nat)>, matches: nat, gaps: nat)
    requires IsScoreMatrix(M, s1, s2, sc)
    ensures Unwound(aligned1, aligned2, path, matches, gaps) == Unwind(M, s1, s2, sc, |s1|, |s2|)
  {
    ghost var U := Unwind(M, s1, s2, sc, |s1|, |s2|);
    var i: nat, j: nat := |s1|, |s2|;
    aligned1, aligned2, path, matches, gaps := [], [], [], 0, 0;
    assert Then(Unwound(aligned1, aligned2, path, matches, gaps), U) == U;
    while i > 0 || j > 0
      invariant i <= |s1| && j <= |s2|
      invariant Then(Unwound(aligned1, aligned2, path, matches, gaps), Unwind(M, s1, s2, sc, i, j)) == U
      decreases i + j
    {
      var c1, c2, hit, gap, i', j' := BackStep(M, s1, s2, sc, i, j);
      ThenStep(Unwound(aligned1, aligned2, path, matches, gaps), c1, c2, (i, j), hit, gap, Unwind(M, s1, s2, sc, i', j'));
      path := path + [(i, j)];
      aligned1 := aligned1 + [c1];
      aligned2 := aligned2 + [c2];
      matches := matches + hit;
      gaps := gaps + gap;
      i, j := i', j';
    }
    assert aligned1 == aligned1 + [] && aligned2 == aligned2 + [] && path == path + [];
  }

  /** What has been collected so far, followed by what the rest of the traceback collects. */
  function Then(acc: Unwound, rest: Unwound): Unwound
  {
    Unwound(acc.aligned1 + rest.aligned1, acc.aligned2 + rest.aligned2, acc.path + rest.path,
            acc.matches + rest.matches, acc.gaps + rest.gaps)
  }

  /** Moving one step's worth from the rest of the traceback onto what has been collected changes nothing overall. */
  lemma ThenStep(acc: Unwound, c1: char, c2: char, cell: (nat, nat), hit: nat, gap: nat, rest: Unwound)
    ensures Then(acc, Unwound([c1] + rest.aligned1, [c2] + rest.aligned2, [cell] + rest.path, hit + rest.matches, gap + rest.gaps))
         == Then(Unwound(acc.aligned1 + [c1], acc.aligned2 + [c2], acc.path + [cell], acc.matches + hit, acc.gaps + gap), rest)
  {
    assert acc.aligned1 + ([c1] + rest.aligned1) == acc.aligned1 + [c1] + rest.aligned1;
    assert acc.aligned2 + ([c2] + rest.aligned2) == acc.aligned2 + [c2] + rest.aligned2;
    assert acc.path + ([cell] + rest.path) == acc.path + [cell] + rest.path;
  }

  /**
   * Kotlin's `needlemanWunsch(seq1, seq2, match, mismatch, gap)`: fill the
   * matrix, trace back from the bottom-right corner preferring diagonal, then
   * up, then left, and report the alignment.
   */
  method NeedlemanWunsch(seq1: string, seq2: string, matchScore: int, mismatchScore: int, gapScore: int)
    returns (r: AlignmentResult)
    ensures r == GlobalAlignment(seq1, seq2, Scores(matchScore, mismatchScore, gapScore))
  {
    var sc := Scores(matchScore, mismatchScore, gapScore);
    var m, n := |seq1|, |seq2|;
    ghost var M := Matrix(seq1, seq2, sc);
    var matrix := new int[m + 1, n + 1]((_, _) => 0);
    InitBorders(matrix, gapScore);
    FillMatrix(matrix, M, seq1, seq2, sc);
    var scoreMatrix := seq(m + 1, a requires 0 <= a <= m reads matrix =>
                         seq(n + 1, b requires 0 <= b <= n reads matrix => matrix[a, b]));
    forall a | 0 <= a <= m ensures scoreMatrix[a] == M[a] {
      assert forall b :: 0 <= b <= n ==> scoreMatrix[a][b] == M[a][b];
    }
    assert scoreMatrix == M;

    var aligned1, aligned2, path, matches, gaps := Traceback(scoreMatrix, seq1, seq2, sc);
    UnwindRows(M, seq1, seq2, sc, m, n);
    UnwindPath(M, seq1, seq2, sc, m, n);
    path := Reverse(path + [(0, 0)]);
    var alignedStr1 := Reverse(aligned1);
    var alignedStr2 := Reverse(aligned2);
    var identity := Identity(matches, |alignedStr1|);
    var finalScore := matrix[m, n];
    r := AlignmentResult(alignedStr1, alignedStr2, scoreMatrix, path, identity, gaps, finalScore);
  }
}
