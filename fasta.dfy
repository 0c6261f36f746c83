/**
 * The FASTA readers: the lenient top-level `parseFasta` and the strict
 * copies in `CommonView` and `MSAModeViewModel`.
 *
 * All of them trim the content, split it at `>`, drop the pieces that are
 * blank and read each remaining piece as one record: a header line, then
 * sequence lines that are concatenated, stripped of whitespace and
 * uppercased.
 */
module FastaParser {
  import opened Wrappers
  import opened Text

  /** One record of a FASTA file. */
  datatype FastaEntry = FastaEntry(header: string, sequence: string)

  /** Why the strict readers reject their input. */
  datatype FastaError =
    | MissingHeader                 // a piece without a non-blank line
    | EmptySequence(header: string) // a record whose sequence is blank

  // ---------------------------------------------------------------------------
  // Pieces and lines

  /** The strings of `ss` that are not blank, in order: `filter { it.isNotBlank() }`. */
  function NonBlank(ss: seq<string>): (r: seq<string>)
    ensures |r| <= |ss|
    ensures forall k :: 0 <= k < |r| ==> !IsBlank(r[k])
  {
    if ss == [] then [] else (if IsBlank(ss[0]) then [] else [ss[0]]) + NonBlank(ss[1..])
  }

  /** The filter works piece by piece: what survives of each part is kept, in order. */
  lemma {:induction false} NonBlankAppend(a: seq<string>, b: seq<string>)
    ensures NonBlank(a + b) == NonBlank(a) + NonBlank(b)
  {
    if a == [] {
      assert a + b == b;
    } else {
      assert (a + b)[0] == a[0] && (a + b)[1..] == a[1..] + b;
      NonBlankAppend(a[1..], b);
    }
  }

  /** The filter keeps everything exactly when nothing is blank. */
  lemma {:induction false} NonBlankKeepsAll(ss: seq<string>)
    ensures NonBlank(ss) == ss <==> forall k :: 0 <= k < |ss| ==> !IsBlank(ss[k])
  {
    if ss != [] {
      NonBlankKeepsAll(ss[1..]);
      if IsBlank(ss[0]) {
        assert |NonBlank(ss)| < |ss|;
      }
    }
  }

  /** The filter leaves nothing exactly when everything is blank. */
  lemma {:induction false} NonBlankEmpty(ss: seq<string>)
    ensures NonBlank(ss) == [] <==> forall k :: 0 <= k < |ss| ==> IsBlank(ss[k])
  {
    if ss != [] {
      NonBlankEmpty(ss[1..]);
      assert forall k :: 1 <= k < |ss| ==> ss[k] == ss[1..][k - 1];
    }
  }

  /** The non-blank pieces of the trimmed content between `>` markers. */
  function Pieces(content: string): (ps: seq<string>)
    ensures forall k :: 0 <= k < |ps| ==> !IsBlank(ps[k])
  {
    NonBlank(Split(Trim(content), '>'))
  }

  /** An empty piece in front is filtered out. */
  lemma NonBlankSkipsEmpty(ss: seq<string>)
    ensures NonBlank([[]] + ss) == NonBlank(ss)
  {
    assert ([[]] + ss)[1..] == ss;
  }

  /** Blank content has no pieces. */
  lemma PiecesOfBlank(content: string)
    requires IsBlank(content)
    ensures Pieces(content) == []
  {
    TrimEmpty(content);
    assert Split([], '>') == [[]];
  }

  /** No whitespace at either end, as `trim()` leaves a string. */
  predicate Trimmed(s: string)
  {
    s == [] || (!IsWhitespace(s[0]) && !IsWhitespace(s[|s| - 1]))
  }

  /** Sequence text without whitespace and without lower-case letters. */
  predicate Clean(s: string)
  {
    forall k :: 0 <= k < |s| ==> !IsRegexSpace(s[k]) && !IsLower(s[k])
  }

  /** The sequence lines put together, stripped of whitespace and uppercased, are clean. */
  lemma SequenceIsClean(lines: seq<string>)
    ensures Clean(Upper(RemoveSpaces(Concat(lines))))
  {
    var s := RemoveSpaces(Concat(lines));
    assert forall k :: 0 <= k < |s| ==> Upper(s)[k] == UpperChar(s[k]);
  }

  /** Upper-case letters on one line come out unchanged. */
  lemma SequenceOfLetters(s: string)
    requires Letters(s)
    ensures Upper(RemoveSpaces(Concat([s]))) == s && Upper(RemoveSpaces(Concat([s, []]))) == s
  {
    var empty: string := [];
    assert Concat([empty]) == empty by {
      assert [empty][1..] == [];
    }
    assert Concat([s]) == s by {
      assert [s][1..] == [];
    }
    assert Concat([s, empty]) == s by {
      assert [s, empty][1..] == [empty];
    }
    RemoveSpacesKeeps(s);
    UpperKeepsUpper(s);
  }

  // ---------------------------------------------------------------------------
  // The lenient reader (parseFasta.kt)

  /** A piece as the lenient reader takes it: the header is the first physical line, blank or not. */
  function LenientEntry(piece: string): FastaEntry
  {
    var lines := Lines(piece);
    FastaEntry(Trim(lines[0]), Upper(RemoveSpaces(Concat(lines[1..]))))
  }

  /**
   * Kotlin's top-level `parseFasta`: one record per non-blank piece, in
   * order; it never fails, and a record may have an empty sequence.
   */
  function ParseFasta(content: string): (es: seq<FastaEntry>)
    ensures |es| == |Pieces(content)|
  {
    var ps := Pieces(content);
    seq(|ps|, k requires 0 <= k < |ps| => LenientEntry(ps[k]))
  }

  /** The lenient reader's header is trimmed. */
  lemma LenientHeader(piece: string)
    ensures Trimmed(LenientEntry(piece).header)
  {
  }

  /** The lenient reader's sequence is clean. */
  lemma LenientSequence(piece: string)
    ensures Clean(LenientEntry(piece).sequence)
  {
    SequenceIsClean(Lines(piece)[1..]);
  }

  /** Every header the lenient reader returns is trimmed, and every sequence is clean. */
  lemma ParseFastaFields(content: string)
    ensures forall k :: 0 <= k < |ParseFasta(content)| ==>
              Trimmed(ParseFasta(content)[k].header) && Clean(ParseFasta(content)[k].sequence)
  {
    var ps := Pieces(content);
    forall k | 0 <= k < |ps|
      ensures Trimmed(ParseFasta(content)[k].header) && Clean(ParseFasta(content)[k].sequence)
    {
      LenientHeader(ps[k]);
      LenientSequence(ps[k]);
    }
  }

  /** Blank content, the empty string included, gives no records. */
  lemma ParseFastaOfBlank(content: string)
    requires IsBlank(content)
    ensures ParseFasta(content) == []
  {
    PiecesOfBlank(content);
  }

  /** A piece whose first line is blank gets an empty header from the lenient reader. */
  lemma LenientBlankFirstLine(piece: string)
    ensures LenientEntry(['\n'] + piece).header == []
  {
    assert Lines(['\n'] + piece)[0] == [];
  }

  // ---------------------------------------------------------------------------
  // The strict readers (CommonView.kt and MSAModeViewModel.kt)

  /** A piece as the strict readers take it: blank lines are dropped first. */
  function StrictEntry(piece: string): (r: Result<FastaEntry, FastaError>)
    ensures r.Success? ==> !IsBlank(r.value.sequence)
  {
    var lines := NonBlank(Lines(piece));
    if lines == [] then Failure(MissingHeader)
    else
      var header := Trim(lines[0]);
      var sequence := Upper(RemoveSpaces(Concat(lines[1..])));
      if IsBlank(sequence) then Failure(EmptySequence(header))
      else Success(FastaEntry(header, sequence))
  }

  /** The records of all pieces, or the error of the first piece that fails, as `map` throws. */
  function Collect(rs: seq<Result<FastaEntry, FastaError>>): (r: Result<seq<FastaEntry>, FastaError>)
    ensures r.Success? <==> forall k :: 0 <= k < |rs| ==> rs[k].Success?
    ensures r.Success? ==> |r.value| == |rs| && forall k :: 0 <= k < |rs| ==> r.value[k] == rs[k].value
    ensures r.Failure? ==> exists k :: 0 <= k < |rs| && rs[k] == Failure(r.error) && forall j :: 0 <= j < k ==> rs[j].Success?
  {
    if rs == [] then Success([])
    else
      match rs[0]
      case Failure(e) => Failure(e)
      case Success(entry) =>
        var rest := Collect(rs[1..]);
        assert forall k :: 1 <= k < |rs| ==> rs[k] == rs[1..][k - 1];
        if rest.Failure? then
          var k :| 0 <= k < |rs[1..]| && rs[1..][k] == Failure(rest.error) && forall j :: 0 <= j < k ==> rs[1..][j].Success?;
          assert rs[k + 1] == Failure(rest.error);
          Failure(rest.error)
        else Success([entry] + rest.value)
  }

  /** When every result is a success, the collected records are their values. */
  lemma CollectAll(rs: seq<Result<FastaEntry, FastaError>>, es: seq<FastaEntry>)
    requires |rs| == |es| && forall k :: 0 <= k < |rs| ==> rs[k] == Success(es[k])
    ensures Collect(rs) == Success(es)
  {
    assert Collect(rs).value == es;
  }

  /** The strict `parseFasta`: every record has a sequence that is not blank, or the reader fails. */
  function ParseFastaStrict(content: string): (r: Result<seq<FastaEntry>, FastaError>)
    ensures r.Success? ==> |r.value| == |Pieces(content)|
    ensures r.Success? ==> forall k :: 0 <= k < |r.value| ==> !IsBlank(r.value[k].sequence)
  {
    var ps := Pieces(content);
    Collect(seq(|ps|, k requires 0 <= k < |ps| => StrictEntry(ps[k])))
  }

  /** The strict readers fail on a piece exactly when the piece's sequence is blank. */
  lemma StrictFailsOn(piece: string)
    requires !IsBlank(piece)
    ensures var lines := NonBlank(Lines(piece));
            && lines != []
            && (StrictEntry(piece).Failure? <==> IsBlank(Upper(RemoveSpaces(Concat(lines[1..])))))
  {
    HasNonBlankLine(piece);
  }

  /** A header that is trimmed and not empty, and a clean sequence. */
  predicate CleanRecord(e: FastaEntry)
  {
    Trimmed(e.header) && e.header != [] && Clean(e.sequence)
  }

  /**
   * A record the strict readers accept: its header, the first non-blank line
   * trimmed, is trimmed and never empty; its sequence is clean.
   */
  lemma StrictFields(piece: string)
    ensures StrictEntry(piece).Success? ==> CleanRecord(StrictEntry(piece).value)
  {
    var lines := NonBlank(Lines(piece));
    if lines != [] {
      TrimEmpty(lines[0]);
      SequenceIsClean(lines[1..]);
    }
  }

  /** Collecting results whose successes are clean records gives clean records. */
  lemma CollectClean(rs: seq<Result<FastaEntry, FastaError>>)
    requires forall k :: 0 <= k < |rs| && rs[k].Success? ==> CleanRecord(rs[k].value)
    ensures Collect(rs).Success? ==> forall k :: 0 <= k < |Collect(rs).value| ==> CleanRecord(Collect(rs).value[k])
  {
  }

  /** Every record the strict readers return has a trimmed, non-empty header and a clean sequence. */
  lemma ParseFastaStrictFields(content: string)
    ensures ParseFastaStrict(content).Success? ==>
              forall k :: 0 <= k < |ParseFastaStrict(content).value| ==> CleanRecord(ParseFastaStrict(content).value[k])
  {
    var ps := Pieces(content);
    var rs := seq(|ps|, k requires 0 <= k < |ps| => StrictEntry(ps[k]));
    forall k | 0 <= k < |rs| && rs[k].Success? ensures CleanRecord(rs[k].value) {
      StrictFields(ps[k]);
    }
    CollectClean(rs);
  }

  /** The "missing header" error cannot happen: a non-blank piece has a non-blank line. */
  lemma NeverMissingHeader(content: string)
    ensures ParseFastaStrict(content) != Failure(MissingHeader)
  {
    var ps := Pieces(content);
    forall k | 0 <= k < |ps| ensures StrictEntry(ps[k]) != Failure(MissingHeader) {
      HasNonBlankLine(ps[k]);
    }
    var rs := seq(|ps|, k requires 0 <= k < |ps| => StrictEntry(ps[k]));
    assert forall k :: 0 <= k < |rs| ==> rs[k] != Failure(MissingHeader);
  }

  /** A piece that is not blank keeps at least one line after blank lines are dropped. */
  lemma HasNonBlankLine(piece: string)
    requires !IsBlank(piece)
    ensures NonBlank(Lines(piece)) != []
  {
    var k :| 0 <= k < |piece| && !IsWhitespace(piece[k]);
    KeptByDropLineBreaks(piece, k);
    ConcatOfLines(piece);
    NonBlankEmpty(Lines(piece));
    if NonBlank(Lines(piece)) == [] {
      ConcatOfBlank(Lines(piece));
      assert false;
    }
  }

  lemma {:induction false} KeptByDropLineBreaks(s: string, k: nat)
    requires k < |s| && !IsWhitespace(s[k])
    ensures !IsBlank(DropLineBreaks(s))
  {
    if k == 0 {
      assert DropLineBreaks(s)[0] == s[0];
    } else {
      KeptByDropLineBreaks(s[1..], k - 1);
      var r := DropLineBreaks(s[1..]);
      var i :| 0 <= i < |r| && !IsWhitespace(r[i]);
      var t := DropLineBreaks(s);
      assert t[|t| - |r| + i] == r[i];
    }
  }

  lemma {:induction false} ConcatOfBlank(ss: seq<string>)
    requires forall k :: 0 <= k < |ss| ==> IsBlank(ss[k])
    ensures IsBlank(Concat(ss))
  {
    if ss != [] {
      ConcatOfBlank(ss[1..]);
      var c := Concat(ss);
      assert forall i :: |ss[0]| <= i < |c| ==> c[i] == Concat(ss[1..])[i - |ss[0]|];
    }
  }

  /** Blank lines before the header do not matter to the strict readers. */
  lemma StrictSkipsBlankLine(piece: string)
    ensures StrictEntry(['\n'] + piece) == StrictEntry(piece)
  {
    assert Lines(['\n'] + piece) == [[]] + Lines(piece);
    assert NonBlank([[]] + Lines(piece)) == NonBlank(Lines(piece)) by {
      assert ([[]] + Lines(piece))[1..] == Lines(piece);
    }
  }

  /**
   * The message a strict reader throws: a fixed text when a piece has no
   * line, and otherwise a prefix followed by the header of the record whose
   * sequence is empty.
   */
  function ErrorMessage(e: FastaError, missingHeader: string, emptyPrefix: string): (m: string)
    ensures e.MissingHeader? ==> m == missingHeader
    ensures e.EmptySequence? ==> |m| == |emptyPrefix| + |e.header|
    ensures e.EmptySequence? ==> m[..|emptyPrefix|] == emptyPrefix && m[|emptyPrefix|..] == e.header
  {
    match e
    case MissingHeader => missingHeader
    case EmptySequence(header) => emptyPrefix + header
  }

  /** The texts of `CommonView`'s reader. */
  const CommonViewMissingHeader := "Malformed FASTA: missing header or sequence."
  const CommonViewEmptySequence := "Malformed FASTA: empty sequence for header: "

  /**
   * The texts of `MSAModeViewModel`'s reader, which has no missing-header
   * check of its own: `first()` on an empty list would throw "List is empty.".
   */
  const MSAMissingHeader := "List is empty."
  const MSAEmptySequence := "Empty sequence for header: "

  /** With either reader's texts, the message tells which error it was and for which header. */
  lemma MessagesTellErrorsApart(e1: FastaError, e2: FastaError)
    ensures (ErrorMessage(e1, CommonViewMissingHeader, CommonViewEmptySequence)
              == ErrorMessage(e2, CommonViewMissingHeader, CommonViewEmptySequence)) ==> e1 == e2
    ensures (ErrorMessage(e1, MSAMissingHeader, MSAEmptySequence)
              == ErrorMessage(e2, MSAMissingHeader, MSAEmptySequence)) ==> e1 == e2
  {
    if e1.EmptySequence? && e2.MissingHeader? {
      MissingIsNotEmpty(e1.header);
    } else if e1.MissingHeader? && e2.EmptySequence? {
      MissingIsNotEmpty(e2.header);
    }
  }

  lemma MissingIsNotEmpty(h: string)
    ensures ErrorMessage(EmptySequence(h), CommonViewMissingHeader, CommonViewEmptySequence) != CommonViewMissingHeader
    ensures ErrorMessage(EmptySequence(h), MSAMissingHeader, MSAEmptySequence) != MSAMissingHeader
  {
    var c := ErrorMessage(EmptySequence(h), CommonViewMissingHeader, CommonViewEmptySequence);
    assert c[17] == CommonViewEmptySequence[17] == 'e' != CommonViewMissingHeader[17];
    var m := ErrorMessage(EmptySequence(h), MSAMissingHeader, MSAEmptySequence);
    assert m[0] == 'E' != MSAMissingHeader[0];
  }

  // ---------------------------------------------------------------------------
  // Writing records and reading them back

  /** A record that survives writing and reading unchanged. */
  predicate WellFormed(e: FastaEntry)
  {
    && e.header != [] && !IsWhitespace(e.header[0]) && !IsWhitespace(e.header[|e.header| - 1])
    && NoLineBreak(e.header) && '>' !in e.header
    && e.sequence != [] && Letters(e.sequence)
  }

  /** Upper-case letters only. */
  predicate Letters(s: string)
  {
    forall k :: 0 <= k < |s| ==> 'A' <= s[k] <= 'Z'
  }

  /** A record's text after its `>`: the header line, a line feed, the sequence. */
  function Body(e: FastaEntry): string
  {
    e.header + ['\n'] + e.sequence
  }

  /** Records written one after another, each as `>`, the header, a line break and the sequence. */
  function Render(es: seq<FastaEntry>): (r: string)
    requires es != []
    ensures r != [] && r[0] == '>'
  {
    if |es| == 1 then ['>'] + Body(es[0]) else ['>'] + Body(es[0]) + ['\n'] + Render(es[1..])
  }

  /** The pieces that rendered records split into. */
  function RenderedPieces(es: seq<FastaEntry>): (ps: seq<string>)
    requires es != []
    ensures |ps| == |es|
  {
    if |es| == 1 then [Body(es[0])] else [Body(es[0]) + ['\n']] + RenderedPieces(es[1..])
  }

  /** A rendering ends with the last record's sequence. */
  lemma {:induction false} RenderEnds(es: seq<FastaEntry>)
    requires es != []
    ensures var s := es[|es| - 1].sequence;
            |Render(es)| >= |s| && Render(es)[|Render(es)| - |s|..] == s
  {
    if |es| > 1 {
      RenderEnds(es[1..]);
      assert es[1..][|es| - 2] == es[|es| - 1];
    }
  }

  /** After its leading `>`, a rendering splits into the records' pieces. */
  lemma {:induction false} SplitOfRender(es: seq<FastaEntry>)
    requires es != [] && forall k :: 0 <= k < |es| ==> '>' !in Body(es[k])
    ensures Split(Render(es)[1..], '>') == RenderedPieces(es)
  {
    var e := es[0];
    if |es| == 1 {
      SplitWhole(Body(e), '>');
    } else {
      var b, tail := Body(e), es[1..];
      assert forall k :: 0 <= k < |tail| ==> '>' !in Body(tail[k]) by {
        forall k | 0 <= k < |tail| ensures '>' !in Body(tail[k]) {
          assert tail[k] == es[k + 1];
        }
      }
      SplitOfRender(tail);
      var rest := Render(tail);
      assert Render(es) == ['>'] + b + ['\n'] + rest;
      AfterMarker(b, rest);
      assert '>' !in b + ['\n'];
      SplitAppend(b + ['\n'], rest[1..], '>');
      assert RenderedPieces(es) == [b + ['\n']] + RenderedPieces(tail);
    }
  }

  /** Dropping the leading `>` of a record followed by more records leaves the record, a line break, `>` and the rest. */
  lemma AfterMarker(b: string, rest: string)
    requires rest != [] && rest[0] == '>'
    ensures (['>'] + b + ['\n'] + rest)[1..] == (b + ['\n']) + ['>'] + rest[1..]
  {
    assert rest == ['>'] + rest[1..];
  }

  /** The lines of a record's text: the header, the sequence, and an empty line after a final line break. */
  lemma LinesOfBody(e: FastaEntry, trailing: string)
    requires NoLineBreak(e.header) && NoLineBreak(e.sequence) && (trailing == [] || trailing == ['\n'])
    ensures Lines(Body(e) + trailing) == if trailing == [] then [e.header, e.sequence] else [e.header, e.sequence, []]
  {
    var h, s := e.header, e.sequence;
    if trailing == [] {
      assert Body(e) + trailing == h + ['\n'] + s;
      LinesWhole(s);
      LinesAppend(h, s);
    } else {
      assert Body(e) + trailing == h + ['\n'] + (s + ['\n']);
      LinesAppend(s, []);
      assert s + ['\n'] + [] == s + ['\n'];
      assert Lines([]) == [[]];
      LinesAppend(h, s + ['\n']);
    }
  }

  lemma LettersHaveNoBreak(s: string)
    requires Letters(s)
    ensures NoLineBreak(s) && '>' !in s && (s != [] ==> !IsBlank(s))
  {
    if s != [] {
      assert !IsWhitespace(s[0]);
    }
  }

  /** The lenient reader reads a well-formed record back from its text. */
  lemma ReadLenient(e: FastaEntry, trailing: string)
    requires WellFormed(e) && (trailing == [] || trailing == ['\n'])
    ensures LenientEntry(Body(e) + trailing) == e
  {
    LettersHaveNoBreak(e.sequence);
    LinesOfBody(e, trailing);
    TrimKeeps(e.header);
    SequenceOfLetters(e.sequence);
    var lines := Lines(Body(e) + trailing);
    assert lines[1..] == [e.sequence] || lines[1..] == [e.sequence, []];
  }

  /** The strict readers read a well-formed record back from its text. */
  lemma ReadStrict(e: FastaEntry, trailing: string)
    requires WellFormed(e) && (trailing == [] || trailing == ['\n'])
    ensures StrictEntry(Body(e) + trailing) == Success(e)
  {
    var h, s := e.header, e.sequence;
    LettersHaveNoBreak(s);
    LinesOfBody(e, trailing);
    TrimKeeps(h);
    SequenceOfLetters(s);
    assert !IsBlank(h);
    NonBlankOfRecord(h, s);
    assert [h, s][1..] == [s];
  }

  lemma NonBlankOfRecord(h: string, s: string)
    requires !IsBlank(h) && !IsBlank(s)
    ensures NonBlank([h, s]) == [h, s] && NonBlank([h, s, []]) == [h, s]
  {
    var empty: string := [];
    assert NonBlank([empty]) == [] by {
      assert IsBlank(empty);
      assert [empty][1..] == [];
    }
    assert NonBlank([s]) == [s] && NonBlank([s, []]) == [s] by {
      assert [s][1..] == [] && [s, []][1..] == [[]];
    }
    assert [h, s][1..] == [s] && [h, s, []][1..] == [s, []];
  }

  /** Piece `k` of a rendering is the text of record `k`, with a line break unless it is the last. */
  lemma {:induction false} RenderedPieceAt(es: seq<FastaEntry>, k: nat)
    requires k < |es|
    ensures |RenderedPieces(es)| == |es|
    ensures RenderedPieces(es)[k] == Body(es[k]) + if k == |es| - 1 then [] else ['\n']
  {
    if |es| > 1 {
      if k > 0 {
        RenderedPieceAt(es[1..], k - 1);
      } else {
        RenderedPieceAt(es[1..], 0);
      }
    }
  }

  /** Piece `k` of a rendering is not blank: its sequence starts with a letter. */
  lemma PieceNonBlank(es: seq<FastaEntry>, k: nat)
    requires k < |es| && WellFormed(es[k])
    ensures !IsBlank(RenderedPieces(es)[k])
  {
    RenderedPieceAt(es, k);
    assert RenderedPieces(es)[k][|es[k].header| + 1] == es[k].sequence[0];
  }

  /** No piece of a rendering is blank. */
  lemma RenderedPiecesNonBlank(es: seq<FastaEntry>)
    requires es != [] && forall k :: 0 <= k < |es| ==> WellFormed(es[k])
    ensures NonBlank(RenderedPieces(es)) == RenderedPieces(es)
  {
    var ps := RenderedPieces(es);
    forall k | 0 <= k < |ps| ensures !IsBlank(ps[k]) {
      PieceNonBlank(es, k);
    }
    NonBlankKeepsAll(ps);
  }

  /** The lenient reader reads each piece of a rendering back as its record. */
  lemma ReadPieceLenient(es: seq<FastaEntry>, k: nat)
    requires k < |es| && WellFormed(es[k])
    ensures LenientEntry(RenderedPieces(es)[k]) == es[k]
  {
    RenderedPieceAt(es, k);
    ReadLenient(es[k], if k == |es| - 1 then [] else ['\n']);
  }

  /** The strict readers read each piece of a rendering back as its record. */
  lemma ReadPieceStrict(es: seq<FastaEntry>, k: nat)
    requires k < |es| && WellFormed(es[k])
    ensures StrictEntry(RenderedPieces(es)[k]) == Success(es[k])
  {
    RenderedPieceAt(es, k);
    ReadStrict(es[k], if k == |es| - 1 then [] else ['\n']);
  }

  /** Text that starts with `>` and ends with a letter is left whole by trimming. */
  lemma TrimKeepsText(r: string, s: string)
    requires r != [] && r[0] == '>' && s != [] && Letters(s)
    requires |r| >= |s| && r[|r| - |s|..] == s
    ensures Trim(r) == r
  {
    assert r[|r| - 1] == s[|s| - 1];
    TrimKeeps(r);
  }

  /** A rendering starts with `>` and ends with a letter, so trimming keeps all of it. */
  lemma TrimRender(es: seq<FastaEntry>)
    requires es != [] && WellFormed(es[|es| - 1])
    ensures Trim(Render(es)) == Render(es)
  {
    RenderEnds(es);
    TrimKeepsText(Render(es), es[|es| - 1].sequence);
  }

  /** A well-formed record's text holds no `>`. */
  lemma NoMarkerInBody(e: FastaEntry)
    requires WellFormed(e)
    ensures '>' !in Body(e)
  {
    LettersHaveNoBreak(e.sequence);
  }

  lemma NoMarkers(es: seq<FastaEntry>)
    requires forall k :: 0 <= k < |es| ==> WellFormed(es[k])
    ensures forall k :: 0 <= k < |es| ==> '>' !in Body(es[k])
  {
    forall k | 0 <= k < |es| ensures '>' !in Body(es[k]) {
      NoMarkerInBody(es[k]);
    }
  }

  /** Text that starts with `>` splits into an empty piece and the pieces of the rest. */
  lemma SplitAfterMarker(r: string)
    requires r != [] && r[0] == '>'
    ensures Split(r, '>') == [[]] + Split(r[1..], '>')
  {
    var empty: string := [];
    SplitAppend(empty, r[1..], '>');
    assert r == empty + ['>'] + r[1..];
  }

  /** A rendering splits into an empty piece before the first `>`, then the records' pieces. */
  lemma SplitRender(es: seq<FastaEntry>)
    requires es != [] && forall k :: 0 <= k < |es| ==> '>' !in Body(es[k])
    ensures Split(Render(es), '>') == [[]] + RenderedPieces(es)
  {
    SplitOfRender(es);
    SplitAfterMarker(Render(es));
  }

  /** Trimming, splitting and filtering a rendering gives the records' pieces. */
  lemma PiecesOfRender(es: seq<FastaEntry>)
    requires es != [] && forall k :: 0 <= k < |es| ==> WellFormed(es[k])
    ensures Pieces(Render(es)) == RenderedPieces(es)
  {
    var ps := RenderedPieces(es);
    TrimRender(es);
    NoMarkers(es);
    SplitRender(es);
    RenderedPiecesNonBlank(es);
    NonBlankSkipsEmpty(ps);
  }

  /** Writing well-formed records and reading them back with the lenient reader gives the same records. */
  lemma ParseRender(es: seq<FastaEntry>)
    requires es != [] && forall k :: 0 <= k < |es| ==> WellFormed(es[k])
    ensures ParseFasta(Render(es)) == es
  {
    PiecesOfRender(es);
    var ps := RenderedPieces(es);
    var parsed := ParseFasta(Render(es));
    forall k | 0 <= k < |es| ensures parsed[k] == es[k] {
      ReadPieceLenient(es, k);
      assert parsed[k] == LenientEntry(ps[k]);
    }
  }

  /** Writing well-formed records and reading them back with a strict reader gives the same records. */
  lemma ParseRenderStrict(es: seq<FastaEntry>)
    requires es != [] && forall k :: 0 <= k < |es| ==> WellFormed(es[k])
    ensures ParseFastaStrict(Render(es)) == Success(es)
  {
    PiecesOfRender(es);
    var ps := RenderedPieces(es);
    forall k | 0 <= k < |ps| ensures StrictEntry(ps[k]) == Success(es[k]) {
      ReadPieceStrict(es, k);
    }
    StrictOfPieces(Render(es), es);
  }

  /** When every piece reads as the matching record, the strict reader returns the records. */
  lemma StrictOfPieces(content: string, es: seq<FastaEntry>)
    requires |Pieces(content)| == |es|
    requires forall k :: 0 <= k < |es| ==> StrictEntry(Pieces(content)[k]) == Success(es[k])
    ensures ParseFastaStrict(content) == Success(es)
  {
    var ps := Pieces(content);
    CollectAll(seq(|ps|, k requires 0 <= k < |ps| => StrictEntry(ps[k])), es);
  }
}
