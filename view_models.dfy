/**
 * The view-models behind the three screens: the state they hold, the
 * input validators that guard it, and the alignment they compute from it.
 *
 * Kotlin's `FastModeViewModel` and `ReportModeViewModel` extend
 * `CommonView` and override its sequence setters; here each holds its
 * `CommonView` as `view` and its setters update that object.
 */
module ViewModels {
  import opened Wrappers
  import opened Text
  import opened Algorithm
  import opened Progressive

  const LettersOnlyMessage := "Please enter a valid sequence (letters only)"
  const TooLongMessage := "Sequence is too long. Use report mode for longer sequences."
  const MatchMessage := "Match score must be an integer"
  const MismatchMessage := "Mismatch score must be an integer"
  const GapMessage := "Gap score must be an integer"

  /** The longest sequence the fast mode accepts. */
  const FastModeLimit := 20

  // ---------------------------------------------------------------------------
  // Validation of a typed sequence

  /** The report mode's check: letters only; an accepted sequence is stored uppercased. */
  function ValidateReport(newSeq: Option<string>): (r: Result<string, string>)
    ensures r.Success? <==> newSeq.Some? && AllLetters(newSeq.value)
    ensures r.Failure? ==> r.error == LettersOnlyMessage
    ensures r.Success? ==> |r.value| == |newSeq.value| && AllLetters(r.value)
                           && forall k :: 0 <= k < |r.value| ==> !IsLower(r.value[k])
    ensures r.Success? ==> r.value == Upper(newSeq.value)
  {
    if newSeq.None? || !AllLetters(newSeq.value) then Failure(LettersOnlyMessage)
    else
      UpperKeepsLetters(newSeq.value);
      Success(Upper(newSeq.value))
  }

  /** The fast mode's check: letters only first, then at most 20 characters, counted before uppercasing. */
  function ValidateFast(newSeq: Option<string>): (r: Result<string, string>)
    ensures r.Success? <==> newSeq.Some? && AllLetters(newSeq.value) && |newSeq.value| <= FastModeLimit
    ensures r.Failure? ==> (r.error == LettersOnlyMessage <==> newSeq.None? || !AllLetters(newSeq.value))
    ensures r.Failure? ==> (r.error == TooLongMessage <==> newSeq.Some? && AllLetters(newSeq.value))
    ensures r.Success? ==> r.value == Upper(newSeq.value)
  {
    if newSeq.None? || !AllLetters(newSeq.value) then Failure(LettersOnlyMessage)
    else if |newSeq.value| > FastModeLimit then Failure(TooLongMessage)
    else ValidateReport(newSeq)
  }

  /** Whatever the fast mode accepts, the report mode accepts and stores the same way. */
  lemma FastIsStricter(newSeq: Option<string>)
    ensures ValidateFast(newSeq).Success? ==> ValidateReport(newSeq) == ValidateFast(newSeq)
    ensures ValidateReport(newSeq).Failure? ==> ValidateFast(newSeq) == ValidateReport(newSeq)
  {
  }

  /** Typing a stored sequence again stores it unchanged, in either mode. */
  lemma StoredSequenceIsAccepted(newSeq: Option<string>)
    ensures ValidateReport(newSeq).Success? ==>
              ValidateReport(Some(ValidateReport(newSeq).value)) == ValidateReport(newSeq)
    ensures ValidateFast(newSeq).Success? ==>
              ValidateFast(Some(ValidateFast(newSeq).value)) == ValidateFast(newSeq)
  {
    if ValidateReport(newSeq).Success? {
      var s := ValidateReport(newSeq).value;
      assert Upper(s) == s;
    }
  }

  /** The fast mode's limit: exactly 20 letters pass, 21 do not. */
  lemma FastModeBoundary(s: string)
    requires AllLetters(s)
    ensures |s| == FastModeLimit ==> ValidateFast(Some(s)).Success?
    ensures |s| == FastModeLimit + 1 ==> ValidateFast(Some(s)) == Failure(TooLongMessage)
  {
  }

  // ---------------------------------------------------------------------------
  // CommonView.kt

  /** Kotlin's `CommonView`: two sequences, three scores and an error message per input. */
  class CommonView {
    var seq1: string
    var seq2: string
    var matchScore: int
    var mismatchScore: int
    var gapScore: int
    var errorMessageSeq1: Option<string>
    var errorMessageSeq2: Option<string>
    var errorMessageMatch: Option<string>
    var errorMessageMismatch: Option<string>
    var errorMessageGap: Option<string>

    /** The five error messages are all clear. */
    predicate NoErrors()
      reads this
    {
      && errorMessageSeq1.None? && errorMessageSeq2.None? && errorMessageMatch.None?
      && errorMessageMismatch.None? && errorMessageGap.None?
    }

    constructor ()
      ensures seq1 == [] && seq2 == []
      ensures matchScore == 1 && mismatchScore == -1 && gapScore == -2
      ensures NoErrors()
    {
      seq1, seq2 := [], [];
      matchScore, mismatchScore, gapScore := 1, -1, -2;
      errorMessageSeq1, errorMessageSeq2 := None, None;
      errorMessageMatch, errorMessageMismatch, errorMessageGap := None, None, None;
    }

    /** The scores as the aligner takes them. */
    function CurrentScores(): Scores
      reads this
    {
      Scores(matchScore, mismatchScore, gapScore)
    }

    /** Kotlin's `result`: the pairwise alignment of the two current sequences under the current scores. */
    method Result() returns (r: AlignmentResult)
      ensures r == GlobalAlignment(seq1, seq2, CurrentScores())
      ensures r.score == Score(seq1, seq2, CurrentScores()) && |r.alignedSeq1| == |r.alignedSeq2|
    {
      r := NeedlemanWunsch(seq1, seq2, matchScore, mismatchScore, gapScore);
      AlignedStrings(seq1, seq2, CurrentScores());
    }

    /** Kotlin's `clearErrorMessages`: every error cleared, sequences and scores kept. */
    method ClearErrorMessages()
      modifies this
      ensures NoErrors()
      ensures seq1 == old(seq1) && seq2 == old(seq2)
      ensures matchScore == old(matchScore) && mismatchScore == old(mismatchScore) && gapScore == old(gapScore)
    {
      errorMessageSeq1 := None;
      errorMessageSeq2 := None;
      errorMessageMatch := None;
      errorMessageMismatch := None;
      errorMessageGap := None;
    }

    /** Kotlin's base `updateSeq1`: it does nothing. */
    method UpdateSeq1(newSeq: Option<string>)
      ensures unchanged(this)
    {
    }

    /** Kotlin's base `updateSeq2`: it does nothing. */
    method UpdateSeq2(newSeq: Option<string>)
      ensures unchanged(this)
    {
    }

    /** Kotlin's `updateMatch`: a missing number sets the error and keeps the score. */
    method UpdateMatch(newMatch: Option<int>)
      modifies this
      ensures newMatch.None? ==> matchScore == old(matchScore) && errorMessageMatch == Some(MatchMessage)
      ensures newMatch.Some? ==> matchScore == newMatch.value && errorMessageMatch == None
      ensures seq1 == old(seq1) && seq2 == old(seq2) && mismatchScore == old(mismatchScore) && gapScore == old(gapScore)
      ensures errorMessageSeq1 == old(errorMessageSeq1) && errorMessageSeq2 == old(errorMessageSeq2)
      ensures errorMessageMismatch == old(errorMessageMismatch) && errorMessageGap == old(errorMessageGap)
    {
      if newMatch.None? {
        errorMessageMatch := Some(MatchMessage);
        return;
      }
      matchScore := newMatch.value;
      errorMessageMatch := None;
    }

    /** Kotlin's `updateMismatch`: a missing number sets the error and keeps the score. */
    method UpdateMismatch(newMismatch: Option<int>)
      modifies this
      ensures newMismatch.None? ==> mismatchScore == old(mismatchScore) && errorMessageMismatch == Some(MismatchMessage)
      ensures newMismatch.Some? ==> mismatchScore == newMismatch.value && errorMessageMismatch == None
      ensures seq1 == old(seq1) && seq2 == old(seq2) && matchScore == old(matchScore) && gapScore == old(gapScore)
      ensures errorMessageSeq1 == old(errorMessageSeq1) && errorMessageSeq2 == old(errorMessageSeq2)
      ensures errorMessageMatch == old(errorMessageMatch) && errorMessageGap == old(errorMessageGap)
    {
      if newMismatch.None? {
        errorMessageMismatch := Some(MismatchMessage);
        return;
      }
      mismatchScore := newMismatch.value;
      errorMessageMismatch := None;
    }

    /** Kotlin's `updateGap`: a missing number sets the error and keeps the score. */
    method UpdateGap(newGap: Option<int>)
      modifies this
      ensures newGap.None? ==> gapScore == old(gapScore) && errorMessageGap == Some(GapMessage)
      ensures newGap.Some? ==> gapScore == newGap.value && errorMessageGap == None
      ensures seq1 == old(seq1) && seq2 == old(seq2) && matchScore == old(matchScore) && mismatchScore == old(mismatchScore)
      ensures errorMessageSeq1 == old(errorMessageSeq1) && errorMessageSeq2 == old(errorMessageSeq2)
      ensures errorMessageMatch == old(errorMessageMatch) && errorMessageMismatch == old(errorMessageMismatch)
    {
      if newGap.None? {
        errorMessageGap := Some(GapMessage);
        return;
      }
      gapScore := newGap.value;
      errorMessageGap := None;
    }

    /**
     * Store the outcome of a validation in the first sequence: the value
     * and a cleared error on success, only the error on failure.
     */
    method StoreSeq1(v: Result<string, string>)
      modifies this
      ensures v.Success? ==> seq1 == v.value && errorMessageSeq1 == None
      ensures v.Failure? ==> seq1 == old(seq1) && errorMessageSeq1 == Some(v.error)
      ensures seq2 == old(seq2) && errorMessageSeq2 == old(errorMessageSeq2)
      ensures matchScore == old(matchScore) && mismatchScore == old(mismatchScore) && gapScore == old(gapScore)
      ensures errorMessageMatch == old(errorMessageMatch) && errorMessageMismatch == old(errorMessageMismatch)
      ensures errorMessageGap == old(errorMessageGap)
    {
      if v.Failure? {
        errorMessageSeq1 := Some(v.error);
        return;
      }
      seq1 := v.value;
      errorMessageSeq1 := None;
    }

    /** The same for the second sequence. */
    method StoreSeq2(v: Result<string, string>)
      modifies this
      ensures v.Success? ==> seq2 == v.value && errorMessageSeq2 == None
      ensures v.Failure? ==> seq2 == old(seq2) && errorMessageSeq2 == Some(v.error)
      ensures seq1 == old(seq1) && errorMessageSeq1 == old(errorMessageSeq1)
      ensures matchScore == old(matchScore) && mismatchScore == old(mismatchScore) && gapScore == old(gapScore)
      ensures errorMessageMatch == old(errorMessageMatch) && errorMessageMismatch == old(errorMessageMismatch)
      ensures errorMessageGap == old(errorMessageGap)
    {
      if v.Failure? {
        errorMessageSeq2 := Some(v.error);
        return;
      }
      seq2 := v.value;
      errorMessageSeq2 := None;
    }
  }

  // ---------------------------------------------------------------------------
  // FastModeViewModel.kt

  /** Kotlin's `FastModeViewModel`: letters only, at most 20 of them. */
  class FastModeViewModel {
    const view: CommonView

    constructor ()
      ensures fresh(view)
      ensures view.seq1 == [] && view.seq2 == [] && view.NoErrors()
      ensures view.matchScore == 1 && view.mismatchScore == -1 && view.gapScore == -2
    {
      view := new CommonView();
    }

    /** Kotlin's `updateSeq1` override. */
    method UpdateSeq1(newSeq: Option<string>)
      modifies view
      ensures ValidateFast(newSeq).Success? ==> view.seq1 == ValidateFast(newSeq).value && view.errorMessageSeq1 == None
      ensures ValidateFast(newSeq).Failure? ==> view.seq1 == old(view.seq1) && view.errorMessageSeq1 == Some(ValidateFast(newSeq).error)
      ensures view.seq2 == old(view.seq2) && view.errorMessageSeq2 == old(view.errorMessageSeq2)
      ensures view.matchScore == old(view.matchScore) && view.mismatchScore == old(view.mismatchScore) && view.gapScore == old(view.gapScore)
      ensures view.errorMessageMatch == old(view.errorMessageMatch) && view.errorMessageMismatch == old(view.errorMessageMismatch)
      ensures view.errorMessageGap == old(view.errorMessageGap)
    {
      view.StoreSeq1(ValidateFast(newSeq));
    }

    /** Kotlin's `updateSeq2` override. */
    method UpdateSeq2(newSeq: Option<string>)
      modifies view
      ensures ValidateFast(newSeq).Success? ==> view.seq2 == ValidateFast(newSeq).value && view.errorMessageSeq2 == None
      ensures ValidateFast(newSeq).Failure? ==> view.seq2 == old(view.seq2) && view.errorMessageSeq2 == Some(ValidateFast(newSeq).error)
      ensures view.seq1 == old(view.seq1) && view.errorMessageSeq1 == old(view.errorMessageSeq1)
      ensures view.matchScore == old(view.matchScore) && view.mismatchScore == old(view.mismatchScore) && view.gapScore == old(view.gapScore)
      ensures view.errorMessageMatch == old(view.errorMessageMatch) && view.errorMessageMismatch == old(view.errorMessageMismatch)
      ensures view.errorMessageGap == old(view.errorMessageGap)
    {
      view.StoreSeq2(ValidateFast(newSeq));
    }
  }

  // ---------------------------------------------------------------------------
  // ReportModeViewModel.kt

  /** Kotlin's `ReportModeViewModel`: letters only, any length. */
  class ReportModeViewModel {
    const view: CommonView

    constructor ()
      ensures fresh(view)
      ensures view.seq1 == [] && view.seq2 == [] && view.NoErrors()
      ensures view.matchScore == 1 && view.mismatchScore == -1 && view.gapScore == -2
    {
      view := new CommonView();
    }

    /** Kotlin's `updateSeq1` override. */
    method UpdateSeq1(newSeq: Option<string>)
      modifies view
      ensures ValidateReport(newSeq).Success? ==> view.seq1 == ValidateReport(newSeq).value && view.errorMessageSeq1 == None
      ensures ValidateReport(newSeq).Failure? ==> view.seq1 == old(view.seq1) && view.errorMessageSeq1 == Some(LettersOnlyMessage)
      ensures view.seq2 == old(view.seq2) && view.errorMessageSeq2 == old(view.errorMessageSeq2)
      ensures view.matchScore == old(view.matchScore) && view.mismatchScore == old(view.mismatchScore) && view.gapScore == old(view.gapScore)
      ensures view.errorMessageMatch == old(view.errorMessageMatch) && view.errorMessageMismatch == old(view.errorMessageMismatch)
      ensures view.errorMessageGap == old(view.errorMessageGap)
    {
      view.StoreSeq1(ValidateReport(newSeq));
    }

    /** Kotlin's `updateSeq2` override. */
    method UpdateSeq2(newSeq: Option<string>)
      modifies view
      ensures ValidateReport(newSeq).Success? ==> view.seq2 == ValidateReport(newSeq).value && view.errorMessageSeq2 == None
      ensures ValidateReport(newSeq).Failure? ==> view.seq2 == old(view.seq2) && view.errorMessageSeq2 == Some(LettersOnlyMessage)
      ensures view.seq1 == old(view.seq1) && view.errorMessageSeq1 == old(view.errorMessageSeq1)
      ensures view.matchScore == old(view.matchScore) && view.mismatchScore == old(view.mismatchScore) && view.gapScore == old(view.gapScore)
      ensures view.errorMessageMatch == old(view.errorMessageMatch) && view.errorMessageMismatch == old(view.errorMessageMismatch)
      ensures view.errorMessageGap == old(view.errorMessageGap)
    {
      view.StoreSeq2(ValidateReport(newSeq));
    }
  }

  // ---------------------------------------------------------------------------
  // MSAModeViewModel.kt

  /** Kotlin's `MSAModeViewModel`: three scores and the last multiple alignment, if any. */
  class MSAModeViewModel {
    var alignmentResult: Option<MultipleAlignmentResult>
    var matchScore: int
    var mismatchScore: int
    var gapScore: int

    constructor ()
      ensures alignmentResult == None
      ensures matchScore == 1 && mismatchScore == -1 && gapScore == -1
    {
      alignmentResult := None;
      matchScore, mismatchScore, gapScore := 1, -1, -1;
    }

    /** Kotlin's `updateMatchScore`. */
    method UpdateMatchScore(newMatch: int)
      modifies this
      ensures matchScore == newMatch
      ensures mismatchScore == old(mismatchScore) && gapScore == old(gapScore) && alignmentResult == old(alignmentResult)
    {
      matchScore := newMatch;
    }

    /** Kotlin's `updateMismatchScore`. */
    method UpdateMismatchScore(newMismatch: int)
      modifies this
      ensures mismatchScore == newMismatch
      ensures matchScore == old(matchScore) && gapScore == old(gapScore) && alignmentResult == old(alignmentResult)
    {
      mismatchScore := newMismatch;
    }

    /** Kotlin's `updateGapScore`. */
    method UpdateGapScore(newGap: int)
      modifies this
      ensures gapScore == newGap
      ensures matchScore == old(matchScore) && mismatchScore == old(mismatchScore) && alignmentResult == old(alignmentResult)
    {
      gapScore := newGap;
    }

    /**
     * Kotlin's `alignSequences`: fewer than two sequences leave everything
     * as it was; otherwise the center-star alignment under the current
     * scores becomes the result.
     */
    method AlignSequences(sequences: seq<string>)
      modifies this
      ensures |sequences| < 2 ==> alignmentResult == old(alignmentResult)
      ensures |sequences| >= 2 ==>
                alignmentResult == Some(ProgressiveResult(sequences, Scores(matchScore, mismatchScore, gapScore)))
      ensures matchScore == old(matchScore) && mismatchScore == old(mismatchScore) && gapScore == old(gapScore)
    {
      if |sequences| < 2 {
        return;
      }
      var result := PerformProgressiveAlignment(sequences, matchScore, mismatchScore, gapScore);
      alignmentResult := Some(result);
    }
  }
}
