/**
 * The center-star multiple aligner: pairwise scores between all inputs, the
 * choice of the center, the loop that aligns every other input against the
 * current center row and carries the center's new gaps into every row built
 * so far, and the statistics of the finished rows (gap count, conserved
 * columns, sum-of-pairs score).
 */
module Progressive {
  import opened Wrappers
  import opened Text
  import opened Algorithm

  /** The record a multiple alignment produces; the identity percentage is kept as a fraction. */
  datatype MultipleAlignmentResult = MultipleAlignmentResult(
    alignedSequences: seq<string>,
    identity: Identity,
    gapCount: nat,
    score: int)

  // ---------------------------------------------------------------------------
  // Carrying a re-aligned center's gaps into a row

  /**
   * What `mergeAligned` makes of one row: a gap wherever `center` has a gap,
   * and the row's next unconsumed character wherever it has not.
   */
  function MergeRow(row: string, center: string): (r: string)
    requires NonGapCount(center) <= |row|
    ensures |r| == |center|
  {
    if center == [] then []
    else
      var c' := center[..|center| - 1];
      MergeRow(row, c') + [if center[|center| - 1] == Gap then Gap else row[NonGapCount(c')]]
  }

  /**
   * Column `k` of a merged row: a gap under a gap of the center, and
   * otherwise the row's character numbered by the center's non-gaps before `k`.
   */
  lemma {:induction false} MergeRowAt(row: string, center: string, k: nat)
    requires NonGapCount(center) <= |row| && k < |center|
    ensures center[k] != Gap ==> NonGapCount(center[..k]) < |row|
    ensures MergeRow(row, center)[k] == if center[k] == Gap then Gap else row[NonGapCount(center[..k])]
  {
    var c' := center[..|center| - 1];
    if k == |center| - 1 {
      assert c' == center[..k];
    } else {
      MergeRowAt(row, c', k);
      assert c'[..k] == center[..k];
    }
  }

  /**
   * The characters of a merged row are, in order, the first
   * `NonGapCount(center)` characters of the row: nothing is reordered, and
   * whatever lies beyond them is dropped.
   */
  lemma {:induction false} MergeRowStrip(row: string, center: string)
    requires NonGapCount(center) <= |row|
    ensures Strip(MergeRow(row, center)) == Strip(row[..NonGapCount(center)])
  {
    if center != [] {
      var c', x := center[..|center| - 1], center[|center| - 1];
      var k := NonGapCount(c');
      var m := MergeRow(row, c');
      MergeRowStrip(row, c');
      if x == Gap {
        StripSnoc(m, Gap);
      } else {
        StripTakesNext(row, k, m);
      }
    }
  }

  /** A string with the same characters as a row's first `k` gains the row's next one. */
  lemma StripTakesNext(row: string, k: nat, m: string)
    requires k < |row| && Strip(m) == Strip(row[..k])
    ensures Strip(m + [row[k]]) == Strip(row[..k + 1])
  {
    var p, c := row[..k], row[k];
    assert row[..k + 1] == p + [c];
    StripSnoc(p, c);
    StripSnoc(m, c);
  }

  /**
   * Merging into a row an alignment that is that row's own characters with
   * gaps inserted gives the alignment back.
   */
  lemma {:induction false} MergeRowRestores(row: string, center: string)
    requires NonGapCount(center) <= |row|
    requires Strip(center) == row[..NonGapCount(center)]
    ensures MergeRow(row, center) == center
  {
    if center != [] {
      var c', x := center[..|center| - 1], center[|center| - 1];
      var k := NonGapCount(c');
      assert center == c' + [x];
      StripSnoc(c', x);
      if x != Gap {
        assert row[..k + 1] == row[..k] + [row[k]];
      }
      MergeRowRestores(row, c');
    }
  }

  /**
   * The merge cannot tell a gap the center row already had from a gap the
   * new alignment put there: a row whose characters sit under an old gap
   * loses them. Here the row "AB" is merged along the center "A-".
   */
  lemma MergeRowLosesCharacters()
    ensures MergeRow("AB", "A-") == "A-"
    ensures Strip(MergeRow("AB", "A-")) != Strip("AB")
  {
    var row, empty: string := "AB", [];
    var a: string := "A";
    assert a == empty + ['A'] && "A-" == a + [Gap] && row == a + ['B'];
    StripSnoc(empty, 'A');
    StripSnoc(a, Gap);
    StripSnoc(a, 'B');
    assert MergeRow(row, a) == a by {
      assert a[..0] == empty;
    }
    assert MergeRow(row, a + [Gap]) == a + [Gap] by {
      assert (a + [Gap])[..1] == a;
    }
  }

  /**
   * Kotlin's `mergeAligned(existing, newAlignedCenter)`: every row is
   * rebuilt column by column along the new center.
   */
  method MergeAligned(existing: seq<string>, newAlignedCenter: string) returns (result: seq<string>)
    requires forall k :: 0 <= k < |existing| ==> NonGapCount(newAlignedCenter) <= |existing[k]|
    ensures |result| == |existing|
    ensures forall k :: 0 <= k < |existing| ==> result[k] == MergeRow(existing[k], newAlignedCenter)
  {
    result := [];
    for k := 0 to |existing|
      invariant |result| == k
      invariant forall q :: 0 <= q < k ==> result[q] == MergeRow(existing[q], newAlignedCenter)
    {
      var updated := MergeOne(existing[k], newAlignedCenter);
      result := result + [updated];
    }
  }

  /** The inner loop of `mergeAligned`: one row rebuilt along the new center. */
  method MergeOne(s: string, newAlignedCenter: string) returns (updated: string)
    requires NonGapCount(newAlignedCenter) <= |s|
    ensures updated == MergeRow(s, newAlignedCenter)
  {
    updated := [];
    var i: nat := 0;
    for j := 0 to |newAlignedCenter|
      invariant i == NonGapCount(newAlignedCenter[..j]) <= |s|
      invariant updated == MergeRow(s, newAlignedCenter[..j])
    {
      assert newAlignedCenter[..j + 1][..j] == newAlignedCenter[..j];
      StripPrefix(newAlignedCenter, j + 1);
      if newAlignedCenter[j] == Gap {
        updated := updated + [Gap];
      } else {
        updated := updated + [s[i]];
        i := i + 1;
      }
    }
    assert newAlignedCenter[..|newAlignedCenter|] == newAlignedCenter;
  }

  // ---------------------------------------------------------------------------
  // Statistics of finished rows

  /** The pairs (i, j) with i < j < `j` in column `col`, scored as `calculateTotalScore` scores them. */
  function PairsWith(rows: seq<string>, col: nat, i: nat, j: nat, sc: Scores): int
    requires i < |rows| && j <= |rows|
    requires forall k :: 0 <= k < |rows| ==> col < |rows[k]|
  {
    if j <= i + 1 then 0
    else PairsWith(rows, col, i, j - 1, sc) + PairScore(rows[i][col], rows[j - 1][col], sc)
  }

  /** All pairs in column `col` whose first row is below `i`. */
  function ColumnPairs(rows: seq<string>, col: nat, i: nat, sc: Scores): int
    requires i <= |rows|
    requires forall k :: 0 <= k < |rows| ==> col < |rows[k]|
  {
    if i == 0 then 0 else ColumnPairs(rows, col, i - 1, sc) + PairsWith(rows, col, i - 1, |rows|, sc)
  }

  /** The sum-of-pairs score of the first `len` columns. */
  function SumOfPairs(rows: seq<string>, len: nat, sc: Scores): int
    requires forall k :: 0 <= k < |rows| ==> len <= |rows[k]|
  {
    if len == 0 then 0 else SumOfPairs(rows, len - 1, sc) + ColumnPairs(rows, len - 1, |rows|, sc)
  }

  /**
   * Kotlin's `calculateTotalScore`: every column, every pair of rows in it,
   * a gap score if either holds a gap, else match or mismatch. Row 0 fixes
   * the number of columns; a shorter row would make the source index out of
   * bounds.
   */
  method CalculateTotalScore(alignedSequences: seq<string>, matchScore: int, mismatchScore: int, gapScore: int)
    returns (totalScore: int)
    requires |alignedSequences| >= 1
    requires forall k :: 0 <= k < |alignedSequences| ==> |alignedSequences[0]| <= |alignedSequences[k]|
    ensures totalScore == SumOfPairs(alignedSequences, |alignedSequences[0]|, Scores(matchScore, mismatchScore, gapScore))
  {
    var sc := Scores(matchScore, mismatchScore, gapScore);
    var n := |alignedSequences|;
    var length := |alignedSequences[0]|;
    totalScore := 0;
    for col := 0 to length
      invariant totalScore == SumOfPairs(alignedSequences, col, sc)
    {
      for i := 0 to n
        invariant totalScore == SumOfPairs(alignedSequences, col, sc) + ColumnPairs(alignedSequences, col, i, sc)
      {
        for j := i + 1 to n
          invariant totalScore == SumOfPairs(alignedSequences, col, sc) + ColumnPairs(alignedSequences, col, i, sc)
                                  + PairsWith(alignedSequences, col, i, j, sc)
        {
          var a := alignedSequences[i][col];
          var b := alignedSequences[j][col];
          totalScore := totalScore + if a == Gap || b == Gap then gapScore else if a == b then matchScore else mismatchScore;
        }
      }
    }
  }

  /** A single row has no pairs, so it scores zero. */
  lemma {:induction false} SumOfPairsOfOne(a: string, len: nat, sc: Scores)
    requires len <= |a|
    ensures SumOfPairs([a], len, sc) == 0
  {
    if len > 0 {
      SumOfPairsOfOne(a, len - 1, sc);
      assert ColumnPairs([a], len - 1, 1, sc) == ColumnPairs([a], len - 1, 0, sc) + PairsWith([a], len - 1, 0, 1, sc);
    }
  }

  /** For two rows the sum-of-pairs score is the pairwise column score of the two strings. */
  lemma {:induction false} SumOfPairsOfTwo(a: string, b: string, len: nat, sc: Scores)
    requires |a| == |b| && len <= |a|
    ensures SumOfPairs([a, b], len, sc) == ColumnsScore(a[..len], b[..len], sc)
  {
    if len > 0 {
      var rows, col := [a, b], len - 1;
      SumOfPairsOfTwo(a, b, col, sc);
      assert PairsWith(rows, col, 0, 2, sc) == PairScore(a[col], b[col], sc) by {
        assert PairsWith(rows, col, 0, 1, sc) == 0;
      }
      assert ColumnPairs(rows, col, 2, sc) == PairScore(a[col], b[col], sc) by {
        assert PairsWith(rows, col, 1, 2, sc) == 0;
        assert ColumnPairs(rows, col, 1, sc) == PairsWith(rows, col, 0, 2, sc);
      }
      assert a[..len][..col] == a[..col] && b[..len][..col] == b[..col];
      assert a[..len][col] == a[col] && b[..len][col] == b[col];
    }
  }

  /** The total number of gap markers over all rows. */
  function TotalGaps(rows: seq<string>): nat
  {
    if rows == [] then 0 else TotalGaps(rows[..|rows| - 1]) + GapCount(rows[|rows| - 1])
  }

  /** Column `col` holds one and the same character in every row, and that character is not a gap. */
  predicate Conserved(rows: seq<string>, col: nat)
    requires rows != [] && forall k :: 0 <= k < |rows| ==> col < |rows[k]|
  {
    rows[0][col] != Gap && forall k :: 0 <= k < |rows| ==> rows[k][col] == rows[0][col]
  }

  /** The number of conserved columns among the first `len`. */
  function ConservedColumns(rows: seq<string>, len: nat): (c: nat)
    requires rows != [] && forall k :: 0 <= k < |rows| ==> len <= |rows[k]|
    ensures c <= len
  {
    if len == 0 then 0 else ConservedColumns(rows, len - 1) + if Conserved(rows, len - 1) then 1 else 0
  }

  /** For two rows without a column of two gaps, the conserved columns are the equal columns. */
  lemma {:induction false} ConservedOfTwo(a: string, b: string, len: nat)
    requires |a| == |b| && len <= |a|
    requires forall k :: 0 <= k < |a| ==> !(a[k] == Gap && b[k] == Gap)
    ensures ConservedColumns([a, b], len) == EqualColumns(a[..len], b[..len])
  {
    if len > 0 {
      var col := len - 1;
      ConservedOfTwo(a, b, col);
      var rows := [a, b];
      assert Conserved(rows, col) <==> a[col] == b[col] by {
        assert rows[0] == a && rows[1] == b;
        assert !(a[col] == Gap && b[col] == Gap);
        if a[col] == b[col] {
          assert forall k :: 0 <= k < 2 ==> rows[k][col] == a[col];
        }
      }
      assert a[..len][..col] == a[..col] && b[..len][..col] == b[..col];
      assert a[..len][col] == a[col] && b[..len][col] == b[col];
    }
  }

  // ---------------------------------------------------------------------------
  // Choosing the center

  /** The entry at (a, b) of the pairwise score table: the alignment score of the earlier against the later input, 0 on the diagonal. */
  ghost function PairwiseScore(seqs: seq<string>, sc: Scores, a: nat, b: nat): int
    requires a < |seqs| && b < |seqs|
  {
    if a < b then Score(seqs[a], seqs[b], sc)
    else if b < a then Score(seqs[b], seqs[a], sc)
    else 0
  }

  ghost function PairwiseTable(seqs: seq<string>, sc: Scores): (T: seq<seq<int>>)
    ensures |T| == |seqs|
    ensures forall a :: 0 <= a < |T| ==> |T[a]| == |seqs|
  {
    seq(|seqs|, a requires 0 <= a < |seqs| =>
      seq(|seqs|, b requires 0 <= b < |seqs| => PairwiseScore(seqs, sc, a, b)))
  }

  /**
   * The table is symmetric with a zero diagonal, and each entry off the
   * diagonal is the optimal score of the two inputs, in either order.
   */
  lemma PairwiseTableScores(seqs: seq<string>, sc: Scores, a: nat, b: nat)
    requires a < |seqs| && b < |seqs|
    ensures PairwiseTable(seqs, sc)[a][b] == PairwiseTable(seqs, sc)[b][a]
    ensures PairwiseTable(seqs, sc)[a][a] == 0
    ensures a != b ==> PairwiseTable(seqs, sc)[a][b] == Score(seqs[a], seqs[b], sc)
  {
    if b < a {
      ScoreSymmetric(seqs[b], seqs[a], sc);
    }
  }

  /** Kotlin's `sum()` of a list of integers. */
  function Sum(xs: seq<int>): int
  {
    if xs == [] then 0 else Sum(xs[..|xs| - 1]) + xs[|xs| - 1]
  }

  /** Kotlin's `pairwiseScores.map { it.sum() }`. */
  function RowTotals(T: seq<seq<int>>): (totals: seq<int>)
    ensures |totals| == |T|
  {
    seq(|T|, a requires 0 <= a < |T| => Sum(T[a]))
  }

  /** Kotlin's `indices.minByOrNull { xs[it] }`: an index of a smallest element, the first one on ties. */
  function FirstMinIndex(xs: seq<int>): (k: nat)
    requires xs != []
    ensures k < |xs|
    ensures forall i :: 0 <= i < |xs| ==> xs[k] <= xs[i]
    ensures forall i :: 0 <= i < k ==> xs[k] < xs[i]
  {
    if |xs| == 1 then 0
    else
      var k := FirstMinIndex(xs[..|xs| - 1]);
      if xs[|xs| - 1] < xs[k] then |xs| - 1 else k
  }

  /** The center: the input whose scores against all the others add up to the least. */
  ghost function CenterIndex(seqs: seq<string>, sc: Scores): (c: nat)
    requires seqs != []
    ensures c < |seqs|
  {
    FirstMinIndex(RowTotals(PairwiseTable(seqs, sc)))
  }

  // ---------------------------------------------------------------------------
  // The center-star loop

  /** A pairwise aligner as the loop uses it: the two aligned strings for a center row and an input. */
  type Aligner = (string, string) -> (string, string)

  /** The aligner the loop calls: Needleman-Wunsch with the scores `sc`. */
  ghost function PairAligner(sc: Scores): Aligner
  {
    (x: string, y: string) => (GlobalAlignment(x, y, sc).alignedSeq1, GlobalAlignment(x, y, sc).alignedSeq2)
  }

  /** The two aligned strings are equally long, and the first keeps the center's non-gap count. */
  ghost predicate KeepsShape(align: Aligner)
  {
    forall x, y :: |align(x, y).0| == |align(x, y).1| && NonGapCount(align(x, y).0) == NonGapCount(x)
  }

  /** A gap-free input comes back from its aligned string once the gaps are taken out. */
  ghost predicate RestoresInput(align: Aligner)
  {
    forall x, y :: Gap !in y ==> Strip(align(x, y).1) == y
  }

  lemma PairAlignerProperties(sc: Scores)
    ensures KeepsShape(PairAligner(sc)) && RestoresInput(PairAligner(sc))
  {
    forall x, y
      ensures |PairAligner(sc)(x, y).0| == |PairAligner(sc)(x, y).1|
      ensures NonGapCount(PairAligner(sc)(x, y).0) == NonGapCount(x)
      ensures Gap !in y ==> Strip(PairAligner(sc)(x, y).1) == y
    {
      AlignedStrings(x, y, sc);
    }
  }

  /** Rows of one common length, and at least one row. */
  predicate Rectangular(rows: seq<string>)
  {
    |rows| > 0 && forall k :: 0 <= k < |rows| ==> |rows[k]| == |rows[0]|
  }

  /**
   * One round of the loop: align the current center row with `s`, carry the
   * new center's gaps into every row, and add the aligned `s` at the end.
   */
  ghost function Extend(rows: seq<string>, s: string, align: Aligner): (r: seq<string>)
    requires Rectangular(rows) && KeepsShape(align)
    ensures Rectangular(r) && |r| == |rows| + 1
  {
    var a := align(rows[0], s);
    seq(|rows|, k requires 0 <= k < |rows| => MergeRow(rows[k], a.0)) + [a.1]
  }

  /** The rows once the loop has visited the input indices below `k`, skipping `center`. */
  ghost function Grow(seqs: seq<string>, align: Aligner, center: nat, k: nat): (rows: seq<string>)
    requires KeepsShape(align) && center < |seqs| && k <= |seqs|
    ensures Rectangular(rows)
    ensures |rows| == if k <= center then k + 1 else k
  {
    if k == 0 then [seqs[center]]
    else if k - 1 == center then Grow(seqs, align, center, k - 1)
    else Extend(Grow(seqs, align, center, k - 1), seqs[k - 1], align)
  }

  /** The rows of the center-star alignment of `seqs`. */
  ghost function CenterStarRows(seqs: seq<string>, sc: Scores): (rows: seq<string>)
    requires seqs != []
    ensures Rectangular(rows) && |rows| == |seqs|
  {
    PairAlignerProperties(sc);
    Grow(seqs, PairAligner(sc), CenterIndex(seqs, sc), |seqs|)
  }

  /** What a multiple alignment of `seqs` reports. */
  ghost function ProgressiveResult(seqs: seq<string>, sc: Scores): MultipleAlignmentResult
    requires seqs != []
  {
    var rows := CenterStarRows(seqs, sc);
    MultipleAlignmentResult(rows, Identity(ConservedColumns(rows, |rows[0]|), |rows[0]|),
                            TotalGaps(rows), SumOfPairs(rows, |rows[0]|, sc))
  }

  /** The input that row `r` comes from: the center first, then the others in input order. */
  function Origin(center: nat, r: nat): nat
  {
    if r == 0 then center else if r - 1 < center then r - 1 else r
  }

  /** The row that input `i` ends up in. */
  function RowOf(center: nat, i: nat): nat
  {
    if i == center then 0 else if i < center then i + 1 else i
  }

  /** Rows and inputs correspond one to one. */
  lemma OriginIsOneToOne(center: nat, n: nat)
    requires center < n
    ensures forall r :: 0 <= r < n ==> Origin(center, r) < n && RowOf(center, Origin(center, r)) == r
    ensures forall i :: 0 <= i < n ==> RowOf(center, i) < n && Origin(center, RowOf(center, i)) == i
  {
  }

  /**
   * The round for input `i` (not the center) appends that input's aligned
   * string, and it lands in row `RowOf(center, i)`; the center stays in row 0.
   */
  lemma GrowPlacesInput(seqs: seq<string>, align: Aligner, center: nat, i: nat)
    requires KeepsShape(align) && center < |seqs| && i < |seqs| && i != center
    ensures Grow(seqs, align, center, 0) == [seqs[center]]
    ensures |Grow(seqs, align, center, i + 1)| == RowOf(center, i) + 1
    ensures Grow(seqs, align, center, i + 1)[RowOf(center, i)] == align(Grow(seqs, align, center, i)[0], seqs[i]).1
  {
  }

  /** Row `r` read without its gaps is a prefix of the input it comes from. */
  predicate FromInput(rows: seq<string>, seqs: seq<string>, center: nat, r: nat)
    requires r < |rows|
  {
    Origin(center, r) < |seqs| && Strip(rows[r]) <= seqs[Origin(center, r)]
  }

  /** A round of the loop only ever shortens what an existing row holds, read without its gaps. */
  lemma ExtendKeepsPrefixes(rows: seq<string>, s: string, align: Aligner, r: nat)
    requires Rectangular(rows) && KeepsShape(align) && r < |rows|
    ensures Strip(Extend(rows, s, align)[r]) <= Strip(rows[r])
  {
    var a := align(rows[0], s);
    assert Extend(rows, s, align)[r] == MergeRow(rows[r], a.0);
    MergeRowStrip(rows[r], a.0);
    StripPrefix(rows[r], NonGapCount(a.0));
  }

  /**
   * Every row read without its gaps is a prefix of the input it comes from,
   * and the row added last is that input exactly.
   */
  predicate BuiltFrom(rows: seq<string>, seqs: seq<string>, center: nat)
    requires rows != []
  {
    && (forall r :: 0 <= r < |rows| ==> FromInput(rows, seqs, center, r))
    && Origin(center, |rows| - 1) < |seqs|
    && Strip(rows[|rows| - 1]) == seqs[Origin(center, |rows| - 1)]
  }

  /** One round keeps every row a prefix of its input and adds the next input intact. */
  lemma ExtendFromInputs(rows: seq<string>, seqs: seq<string>, align: Aligner, center: nat, k: nat)
    requires Rectangular(rows) && KeepsShape(align) && RestoresInput(align)
    requires k < |seqs| && Origin(center, |rows|) == k && Gap !in seqs[k]
    requires BuiltFrom(rows, seqs, center)
    ensures BuiltFrom(Extend(rows, seqs[k], align), seqs, center)
  {
    var next := Extend(rows, seqs[k], align);
    ExtendKeepsInputs(rows, seqs, align, center, k);
    ExtendAddsInput(rows, seqs[k], align);
    assert |next| == |rows| + 1;
    assert FromInput(next, seqs, center, |rows|);
    assert forall r :: 0 <= r < |next| ==> FromInput(next, seqs, center, r);
  }

  /** The rows already there stay prefixes of their inputs. */
  lemma ExtendKeepsInputs(rows: seq<string>, seqs: seq<string>, align: Aligner, center: nat, k: nat)
    requires Rectangular(rows) && KeepsShape(align) && k < |seqs|
    requires BuiltFrom(rows, seqs, center)
    ensures forall r :: 0 <= r < |rows| ==> FromInput(Extend(rows, seqs[k], align), seqs, center, r)
  {
    forall r | 0 <= r < |rows|
      ensures FromInput(Extend(rows, seqs[k], align), seqs, center, r)
    {
      assert FromInput(rows, seqs, center, r);
      ExtendKeepsPrefixes(rows, seqs[k], align, r);
    }
  }

  /** The row a round adds is its input, read without gaps. */
  lemma ExtendAddsInput(rows: seq<string>, s: string, align: Aligner)
    requires Rectangular(rows) && KeepsShape(align) && RestoresInput(align) && Gap !in s
    ensures Strip(Extend(rows, s, align)[|rows|]) == s
  {
    assert Extend(rows, s, align)[|rows|] == align(rows[0], s).1;
  }

  /** Before the loop the only row is the center input. */
  lemma GrowStart(seqs: seq<string>, align: Aligner, center: nat)
    requires KeepsShape(align) && center < |seqs| && Gap !in seqs[center]
    ensures BuiltFrom(Grow(seqs, align, center, 0), seqs, center)
  {
    StripGapFree(seqs[center]);
  }

  /** A round of the loop on an input other than the center. */
  lemma GrowStep(seqs: seq<string>, align: Aligner, center: nat, k: nat)
    requires KeepsShape(align) && RestoresInput(align)
    requires center < |seqs| && 0 < k <= |seqs| && Gap !in seqs[k - 1]
    requires BuiltFrom(Grow(seqs, align, center, k - 1), seqs, center)
    ensures BuiltFrom(Grow(seqs, align, center, k), seqs, center)
  {
    if k - 1 != center {
      ExtendFromInputs(Grow(seqs, align, center, k - 1), seqs, align, center, k - 1);
    }
  }

  /** With gap-free inputs the rows after every round are built from the inputs. */
  lemma {:induction false} GrowRows(seqs: seq<string>, align: Aligner, center: nat, k: nat)
    requires KeepsShape(align) && RestoresInput(align)
    requires center < |seqs| && k <= |seqs|
    requires forall q :: 0 <= q < |seqs| ==> Gap !in seqs[q]
    ensures BuiltFrom(Grow(seqs, align, center, k), seqs, center)
  {
    if k == 0 {
      GrowStart(seqs, align, center);
    } else {
      GrowRows(seqs, align, center, k - 1);
      GrowStep(seqs, align, center, k);
    }
  }

  /**
   * The center-star rows: one per input, all of one length, each read
   * without gaps a prefix of its input (center first, then the others in
   * input order), the last one exactly its input.
   */
  lemma CenterStarRowsFromInputs(seqs: seq<string>, sc: Scores)
    requires seqs != []
    requires forall q :: 0 <= q < |seqs| ==> Gap !in seqs[q]
    ensures var rows, c := CenterStarRows(seqs, sc), CenterIndex(seqs, sc);
            && |rows| == |seqs|
            && (forall r :: 0 <= r < |rows| ==> |rows[r]| == |rows[0]|)
            && BuiltFrom(rows, seqs, c)
  {
    PairAlignerProperties(sc);
    GrowRows(seqs, PairAligner(sc), CenterIndex(seqs, sc), |seqs|);
  }

  /** With two inputs the totals tie, so the first input is the center. */
  lemma CenterOfTwo(s1: string, s2: string, sc: Scores)
    ensures CenterIndex([s1, s2], sc) == 0
  {
    var T := PairwiseTable([s1, s2], sc);
    var totals := RowTotals(T);
    assert T[0] == [0, Score(s1, s2, sc)] && T[1] == [Score(s1, s2, sc), 0];
    assert Sum(T[0]) == Sum(T[1]) by {
      assert T[0][..1] == [0] && T[1][..1] == [Score(s1, s2, sc)];
    }
    assert totals[0] == totals[1];
  }

  /** With two gap-free inputs the rows are exactly the pairwise alignment of the two. */
  lemma RowsOfTwo(s1: string, s2: string, sc: Scores)
    requires Gap !in s1 && Gap !in s2
    ensures var a := GlobalAlignment(s1, s2, sc);
            CenterStarRows([s1, s2], sc) == [a.alignedSeq1, a.alignedSeq2]
  {
    var align := PairAligner(sc);
    var a := GlobalAlignment(s1, s2, sc);
    PairAlignerProperties(sc);
    CenterOfTwo(s1, s2, sc);
    AlignedStrings(s1, s2, sc);
    MergeIntoInput(s1, a.alignedSeq1);
    assert align(s1, s2) == (a.alignedSeq1, a.alignedSeq2);
    GrowOfTwo(s1, s2, align);
  }

  /** Merging a row into an alignment of exactly its characters gives the alignment back. */
  lemma MergeIntoInput(row: string, center: string)
    requires Strip(center) == row
    ensures NonGapCount(center) <= |row| && MergeRow(row, center) == center
  {
    assert row[..NonGapCount(center)] == row;
    MergeRowRestores(row, center);
  }

  /** Centered on the first of two inputs, the loop leaves the aligner's pair when the merge changes nothing. */
  lemma GrowOfTwo(s1: string, s2: string, align: Aligner)
    requires KeepsShape(align) && MergeRow(s1, align(s1, s2).0) == align(s1, s2).0
    ensures Grow([s1, s2], align, 0, 2) == [align(s1, s2).0, align(s1, s2).1]
  {
    assert Grow([s1, s2], align, 0, 1) == [s1];
  }

  /** Two rows of one length without a column of two gaps: the statistics are the pairwise ones. */
  lemma StatisticsOfTwo(a: string, b: string, sc: Scores)
    requires |a| == |b|
    requires forall k :: 0 <= k < |a| ==> !(a[k] == Gap && b[k] == Gap)
    ensures TotalGaps([a, b]) == GapCount(a) + GapCount(b)
    ensures ConservedColumns([a, b], |a|) == EqualColumns(a, b)
    ensures SumOfPairs([a, b], |a|, sc) == ColumnsScore(a, b, sc)
  {
    assert a[..|a|] == a && b[..|b|] == b;
    ConservedOfTwo(a, b, |a|);
    SumOfPairsOfTwo(a, b, |a|, sc);
    assert TotalGaps([a, b]) == TotalGaps([a]) + GapCount(b) by {
      assert [a, b][..1] == [a];
    }
    assert TotalGaps([a]) == GapCount(a) by {
      assert [a][..0] == [];
    }
  }

  /**
   * Aligning two gap-free inputs reports the pairwise result: the two
   * aligned strings, the same identity, gap count and score.
   */
  lemma TwoSequences(s1: string, s2: string, sc: Scores)
    requires Gap !in s1 && Gap !in s2
    ensures var a := GlobalAlignment(s1, s2, sc);
            ProgressiveResult([s1, s2], sc) ==
              MultipleAlignmentResult([a.alignedSeq1, a.alignedSeq2], a.identity, a.gapCount, a.score)
  {
    var a := GlobalAlignment(s1, s2, sc);
    RowsOfTwo(s1, s2, sc);
    AlignedStrings(s1, s2, sc);
    AlignmentOfGapFree(s1, s2, sc);
    StatisticsOfTwo(a.alignedSeq1, a.alignedSeq2, sc);
  }

  // ---------------------------------------------------------------------------
  // The algorithm

  /**
   * The pairwise loop of `align`: the score of every pair of inputs, written
   * into both halves of the table; the diagonal keeps its initial zero.
   */
  method PairwiseScores(sequences: seq<string>, matchScore: int, mismatchScore: int, gapScore: int)
    returns (pairwiseScores: array2<int>)
    ensures fresh(pairwiseScores)
    ensures pairwiseScores.Length0 == |sequences| && pairwiseScores.Length1 == |sequences|
    ensures forall a, b :: 0 <= a < |sequences| && 0 <= b < |sequences| ==>
              pairwiseScores[a, b] == PairwiseScore(sequences, Scores(matchScore, mismatchScore, gapScore), a, b)
  {
    var sc := Scores(matchScore, mismatchScore, gapScore);
    var n := |sequences|;
    pairwiseScores := new int[n, n]((_, _) => 0);
    for i := 0 to n
      invariant forall a, b :: 0 <= a < n && 0 <= b < n ==>
                  pairwiseScores[a, b] == if a < i || b < i then PairwiseScore(sequences, sc, a, b) else 0
    {
      for j := i + 1 to n
        invariant forall a, b :: 0 <= a < n && 0 <= b < n ==>
                    pairwiseScores[a, b] ==
                      if a < i || b < i || (a == i && i < b < j) || (b == i && i < a < j)
                      then PairwiseScore(sequences, sc, a, b) else 0
      {
        var score := AlignmentScore(sequences[i], sequences[j], matchScore, mismatchScore, gapScore);
        pairwiseScores[i, j] := score;
        pairwiseScores[j, i] := score;
      }
    }
  }

  /** The score of one pairwise alignment, as the table entry takes it from `needlemanWunsch`. */
  method AlignmentScore(s1: string, s2: string, matchScore: int, mismatchScore: int, gapScore: int) returns (score: int)
    ensures score == Score(s1, s2, Scores(matchScore, mismatchScore, gapScore))
  {
    var result := NeedlemanWunsch(s1, s2, matchScore, mismatchScore, gapScore);
    AlignedStrings(s1, s2, Scores(matchScore, mismatchScore, gapScore));
    score := result.score;
  }

  /** The loop's next round, stated for any aligner. */
  lemma GrowNext(seqs: seq<string>, align: Aligner, center: nat, i: nat)
    requires KeepsShape(align) && center < |seqs| && i < |seqs|
    ensures Grow(seqs, align, center, i + 1) ==
              if i == center then Grow(seqs, align, center, i) else Extend(Grow(seqs, align, center, i), seqs[i], align)
  {
  }

  /** One round of the merging loop: align `s` to the center row and merge. */
  method AlignOne(currentAlignments: seq<string>, s: string, matchScore: int, mismatchScore: int, gapScore: int)
    returns (next: seq<string>)
    requires Rectangular(currentAlignments)
    requires KeepsShape(PairAligner(Scores(matchScore, mismatchScore, gapScore)))
    ensures next == Extend(currentAlignments, s, PairAligner(Scores(matchScore, mismatchScore, gapScore)))
  {
    ghost var align := PairAligner(Scores(matchScore, mismatchScore, gapScore));
    var result := NeedlemanWunsch(currentAlignments[0], s, matchScore, mismatchScore, gapScore);
    assert align(currentAlignments[0], s) == (result.alignedSeq1, result.alignedSeq2);
    next := MergeAligned(currentAlignments, result.alignedSeq1);
    next := next + [result.alignedSeq2];
  }

  /**
   * The merging loop of `align`: every input but the center, in input
   * order, aligned against the current center row, its gaps carried into
   * every row, the aligned input appended.
   */
  method AlignToCenter(sequences: seq<string>, centerIndex: nat, matchScore: int, mismatchScore: int, gapScore: int)
    returns (currentAlignments: seq<string>)
    requires centerIndex < |sequences|
    ensures KeepsShape(PairAligner(Scores(matchScore, mismatchScore, gapScore)))
    ensures currentAlignments == Grow(sequences, PairAligner(Scores(matchScore, mismatchScore, gapScore)), centerIndex, |sequences|)
  {
    ghost var align := PairAligner(Scores(matchScore, mismatchScore, gapScore));
    PairAlignerProperties(Scores(matchScore, mismatchScore, gapScore));
    currentAlignments := [sequences[centerIndex]];
    for i := 0 to |sequences|
      invariant currentAlignments == Grow(sequences, align, centerIndex, i)
    {
      GrowNext(sequences, align, centerIndex, i);
      if i == centerIndex {
        continue;
      }
      currentAlignments := AlignOne(currentAlignments, sequences[i], matchScore, mismatchScore, gapScore);
    }
  }

  /**
   * Kotlin's `ProgressiveAligner.align` after its argument check, and
   * `MSAModeViewModel.performProgressiveAlignment`, which is the same code.
   */
  method PerformProgressiveAlignment(sequences: seq<string>, matchScore: int, mismatchScore: int, gapScore: int)
    returns (r: MultipleAlignmentResult)
    requires sequences != []
    ensures r == ProgressiveResult(sequences, Scores(matchScore, mismatchScore, gapScore))
  {
    var sc := Scores(matchScore, mismatchScore, gapScore);
    var n := |sequences|;
    var pairwiseScores := PairwiseScores(sequences, matchScore, mismatchScore, gapScore);
    var table := seq(n, a requires 0 <= a < n reads pairwiseScores =>
                   seq(n, b requires 0 <= b < n reads pairwiseScores => pairwiseScores[a, b]));
    forall a | 0 <= a < n
      ensures table[a] == PairwiseTable(sequences, sc)[a]
    {
    }
    assert table == PairwiseTable(sequences, sc);
    var totalScores := RowTotals(table);
    var centerIndex := FirstMinIndex(totalScores);
    var currentAlignments := AlignToCenter(sequences, centerIndex, matchScore, mismatchScore, gapScore);
    var gaps := TotalGaps(currentAlignments);
    var matches := ConservedColumns(currentAlignments, |currentAlignments[0]|);
    var score := CalculateTotalScore(currentAlignments, matchScore, mismatchScore, gapScore);
    r := MultipleAlignmentResult(currentAlignments, Identity(matches, |currentAlignments[0]|), gaps, score);
  }

  /** Kotlin's `ProgressiveAligner`: the three scores are fixed when the aligner is made. */
  class ProgressiveAligner {
    const matchScore: int
    const mismatchScore: int
    const gapScore: int

    constructor (matchScore: int := 1, mismatchScore: int := -1, gapScore: int := -1)
      ensures this.matchScore == matchScore && this.mismatchScore == mismatchScore && this.gapScore == gapScore
    {
      this.matchScore := matchScore;
      this.mismatchScore := mismatchScore;
      this.gapScore := gapScore;
    }

    /** Kotlin's `align`: fewer than two inputs are refused, otherwise the center-star alignment. */
    method Align(sequences: seq<string>) returns (r: Result<MultipleAlignmentResult, string>)
      ensures |sequences| < 2 ==> r == Failure("Need at least 2 sequences")
      ensures |sequences| >= 2 ==> r == Success(ProgressiveResult(sequences, Scores(matchScore, mismatchScore, gapScore)))
    {
      if |sequences| < 2 {
        return Failure("Need at least 2 sequences");
      }
      var result := PerformProgressiveAlignment(sequences, matchScore, mismatchScore, gapScore);
      return Success(result);
    }
  }
}
