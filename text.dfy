/**
 * Strings and characters as the aligner and the input handling use them.
 *
 * Kotlin's `Char.isWhitespace`, `Char.isLetter`, `String.uppercase` and the
 * regular expression `\s` are modelled over ASCII; characters outside ASCII
 * are never letters or whitespace here and are left unchanged by `Upper`.
 */
module Text {

  /** The gap marker the aligners write into aligned strings. */
  const Gap: char := '-'

  // ---------------------------------------------------------------------------
  // Sequences

  /** The reversal that `StringBuilder.reverse` and `MutableList.reverse` perform. */
  function Reverse<T>(s: seq<T>): (r: seq<T>)
    ensures |r| == |s|
    ensures forall k :: 0 <= k < |s| ==> r[k] == s[|s| - 1 - k]
  {
    if s == [] then [] else Reverse(s[1..]) + [s[0]]
  }

  /** Appending and then reversing puts the new element first. */
  lemma ReverseSnoc<T>(s: seq<T>, x: T)
    ensures Reverse(s + [x]) == [x] + Reverse(s)
  {
    var a, b := Reverse(s + [x]), [x] + Reverse(s);
    assert |a| == |b|;
    forall k | 0 <= k < |a| ensures a[k] == b[k] {
      if k > 0 {
        assert a[k] == (s + [x])[|s| - k];
      }
    }
  }

  /** Moving the last element of `front` onto a builder that is read reversed keeps the whole. */
  lemma Shift<T>(whole: seq<T>, front: seq<T>, c: T, acc: seq<T>)
    requires whole == front + [c] + Reverse(acc)
    ensures whole == front + Reverse(acc + [c])
  {
    ReverseSnoc(acc, c);
  }

  // ---------------------------------------------------------------------------
  // Gaps

  /** The number of gap markers in `s`, as `s.count { it == '-' }` counts them. */
  function GapCount(s: string): (c: nat)
    ensures c <= |s|
  {
    if s == [] then 0
    else
      var c := GapCount(s[..|s| - 1]);
      assert s == s[..|s| - 1] + [s[|s| - 1]];
      c + if s[|s| - 1] == Gap then 1 else 0
  }

  /** The number of characters of `s` that are not gap markers. */
  function NonGapCount(s: string): nat
  {
    |s| - GapCount(s)
  }

  /** `s` with every gap marker removed. */
  function Strip(s: string): (r: string)
    ensures |r| == NonGapCount(s)
  {
    if s == [] then []
    else Strip(s[..|s| - 1]) + if s[|s| - 1] == Gap then [] else [s[|s| - 1]]
  }

  /** A count of zero means there is no gap marker at all. */
  lemma {:induction false} GapCountZero(s: string)
    ensures GapCount(s) == 0 <==> Gap !in s
  {
    if s != [] {
      GapCountZero(s[..|s| - 1]);
      assert s == s[..|s| - 1] + [s[|s| - 1]];
    }
  }

  lemma {:induction false} StripHasNoGaps(s: string)
    ensures Gap !in Strip(s)
  {
    if s != [] {
      StripHasNoGaps(s[..|s| - 1]);
    }
  }

  lemma {:induction false} StripGapFree(s: string)
    requires Gap !in s
    ensures Strip(s) == s
  {
    if s != [] {
      StripGapFree(s[..|s| - 1]);
      assert s == s[..|s| - 1] + [s[|s| - 1]];
    }
  }

  lemma {:induction false} StripAppend(a: string, b: string)
    ensures Strip(a + b) == Strip(a) + Strip(b)
    decreases |b|
  {
    if b == [] {
      assert a + b == a;
    } else {
      var b', x := b[..|b| - 1], b[|b| - 1];
      var tail: string := if x == Gap then [] else [x];
      StripAppend(a, b');
      assert (a + b)[..|a + b| - 1] == a + b';
      assert (a + b)[|a + b| - 1] == x;
      calc {
        Strip(a + b);
        Strip(a + b') + tail;
        Strip(a) + Strip(b') + tail;
        Strip(a) + (Strip(b') + tail);
        Strip(a) + Strip(b);
      }
    }
  }

  lemma StripPrefix(s: string, k: nat)
    requires k <= |s|
    ensures Strip(s[..k]) <= Strip(s)
    ensures NonGapCount(s[..k]) <= NonGapCount(s)
  {
    assert s == s[..k] + s[k..];
    StripAppend(s[..k], s[k..]);
  }

  /** Gap counts add up over concatenation. */
  lemma GapCountAppend(a: string, b: string)
    ensures GapCount(a + b) == GapCount(a) + GapCount(b)
    ensures NonGapCount(a + b) == NonGapCount(a) + NonGapCount(b)
  {
    StripAppend(a, b);
  }

  // ---------------------------------------------------------------------------
  // Characters (ASCII)

  /** Kotlin's `Char.isWhitespace` on ASCII: space, tab to carriage return, and the separators 0x1C to 0x1F. */
  predicate IsWhitespace(c: char)
  {
    c == ' ' || '\t' <= c <= '\r' || '\U{1C}' <= c <= '\U{1F}'
  }

  /** The class `\s` of Java regular expressions: space and tab to carriage return. */
  predicate IsRegexSpace(c: char)
  {
    c == ' ' || '\t' <= c <= '\r'
  }

  predicate IsLineBreak(c: char)
  {
    c == '\n' || c == '\r'
  }

  predicate IsLower(c: char)
  {
    'a' <= c <= 'z'
  }

  /** Kotlin's `Char.isLetter` on ASCII. */
  predicate IsLetter(c: char)
  {
    'A' <= c <= 'Z' || IsLower(c)
  }

  function UpperChar(c: char): (u: char)
    ensures !IsLower(u)
    ensures IsLetter(u) <==> IsLetter(c)
    ensures !IsLower(c) ==> u == c
  {
    if IsLower(c) then (c as int - 32) as char else c
  }

  // ---------------------------------------------------------------------------
  // Strings

  predicate AllLetters(s: string)
  {
    forall k :: 0 <= k < |s| ==> IsLetter(s[k])
  }

  /** Kotlin's `isBlank`: nothing but whitespace (the empty string included). */
  predicate IsBlank(s: string)
  {
    forall k :: 0 <= k < |s| ==> IsWhitespace(s[k])
  }

  /** Kotlin's `String.uppercase()`, letter by letter. */
  function Upper(s: string): (r: string)
    ensures |r| == |s|
    ensures forall k :: 0 <= k < |r| ==> !IsLower(r[k])
    ensures forall k :: 0 <= k < |r| ==> r[k] == s[k] || (IsLower(s[k]) && r[k] == UpperChar(s[k]))
  {
    seq(|s|, k requires 0 <= k < |s| => UpperChar(s[k]))
  }

  lemma UpperKeepsLetters(s: string)
    ensures AllLetters(Upper(s)) <==> AllLetters(s)
  {
    if AllLetters(s) {
      forall k | 0 <= k < |s| ensures IsLetter(Upper(s)[k]) {
        assert Upper(s)[k] == UpperChar(s[k]);
      }
    }
    if AllLetters(Upper(s)) {
      forall k | 0 <= k < |s| ensures IsLetter(s[k]) {
        assert Upper(s)[k] == UpperChar(s[k]);
      }
    }
  }

  /** Kotlin's `trim()`: drop leading whitespace. */
  function TrimStart(s: string): (r: string)
    ensures |r| <= |s| && r == s[|s| - |r|..]
    ensures r == [] || !IsWhitespace(r[0])
    ensures IsBlank(s[..|s| - |r|])
  {
    if s != [] && IsWhitespace(s[0]) then
      var r := TrimStart(s[1..]);
      assert s[1..][..|s| - 1 - |r|] == s[1..|s| - |r|];
      assert forall k :: 1 <= k < |s| - |r| ==> s[k] == s[1..|s| - |r|][k - 1];
      r
    else s
  }

  /** Kotlin's `trim()`: drop trailing whitespace. */
  function TrimEnd(s: string): (r: string)
    ensures |r| <= |s| && r == s[..|r|]
    ensures r == [] || !IsWhitespace(r[|r| - 1])
    ensures IsBlank(s[|r|..])
  {
    if s != [] && IsWhitespace(s[|s| - 1]) then
      var r := TrimEnd(s[..|s| - 1]);
      assert s[..|s| - 1][|r|..] + [s[|s| - 1]] == s[|r|..];
      r
    else s
  }

  /** Kotlin's `String.trim()`. */
  function Trim(s: string): (r: string)
    ensures r == [] || (!IsWhitespace(r[0]) && !IsWhitespace(r[|r| - 1]))
  {
    var a := TrimStart(s);
    var r := TrimEnd(a);
    assert r != [] ==> r[0] == a[0];
    r
  }

  /** Trimming leaves nothing exactly when the string is blank. */
  lemma TrimEmpty(s: string)
    ensures Trim(s) == [] <==> IsBlank(s)
  {
    var a := TrimStart(s);
    assert s == s[..|s| - |a|] + a;
    if TrimEnd(a) == [] {
      assert a == a[|TrimEnd(a)|..];
    }
  }

  /** A string that neither starts nor ends with whitespace is its own trim. */
  lemma TrimKeeps(s: string)
    requires s != [] && !IsWhitespace(s[0]) && !IsWhitespace(s[|s| - 1])
    ensures Trim(s) == s
  {
  }

  /** Concatenation of a list of strings, `joinToString("")`. */
  function Concat(ss: seq<string>): string
  {
    if ss == [] then [] else ss[0] + Concat(ss[1..])
  }

  /** `s` without the characters that the regular expression `\s` matches, `replace("\\s".toRegex(), "")`. */
  function RemoveSpaces(s: string): (r: string)
    ensures forall k :: 0 <= k < |r| ==> !IsRegexSpace(r[k])
    ensures |r| <= |s|
  {
    if s == [] then []
    else RemoveSpaces(s[..|s| - 1]) + if IsRegexSpace(s[|s| - 1]) then [] else [s[|s| - 1]]
  }

  lemma {:induction false} RemoveSpacesKeeps(s: string)
    ensures RemoveSpaces(s) == s <==> forall k :: 0 <= k < |s| ==> !IsRegexSpace(s[k])
  {
    if s != [] {
      RemoveSpacesKeeps(s[..|s| - 1]);
      assert s == s[..|s| - 1] + [s[|s| - 1]];
      if RemoveSpaces(s) == s {
        assert RemoveSpaces(s[..|s| - 1]) == s[..|s| - 1] by {
          assert |RemoveSpaces(s[..|s| - 1])| <= |s| - 1;
        }
      }
    }
  }

  /** Removing `\s` works piece by piece: what survives of each part is kept, in order. */
  lemma {:induction false} RemoveSpacesAppend(a: string, b: string)
    ensures RemoveSpaces(a + b) == RemoveSpaces(a) + RemoveSpaces(b)
    decreases |b|
  {
    if b == [] {
      assert a + b == a;
    } else {
      var front, c := b[..|b| - 1], b[|b| - 1];
      assert (a + b)[..|a + b| - 1] == a + front && (a + b)[|a + b| - 1] == c;
      RemoveSpacesAppend(a, front);
    }
  }

  /** A single character is dropped exactly when `\s` matches it. */
  lemma RemoveSpacesOne(c: char)
    ensures RemoveSpaces([c]) == if IsRegexSpace(c) then [] else [c]
  {
    assert [c][..0] == [];
  }

  /** Uppercasing changes nothing when there is no lower-case letter. */
  lemma UpperKeepsUpper(s: string)
    ensures Upper(s) == s <==> forall k :: 0 <= k < |s| ==> !IsLower(s[k])
  {
  }

  // ---------------------------------------------------------------------------
  // Splitting

  /** Kotlin's `split(d)`: the pieces between the occurrences of `d`, empty pieces included. */
  function Split(s: string, d: char): (r: seq<string>)
    ensures |r| >= 1
    ensures forall k :: 0 <= k < |r| ==> d !in r[k]
  {
    if s == [] then [[]]
    else
      var rest := Split(s[1..], d);
      if s[0] == d then [[]] + rest else [[s[0]] + rest[0]] + rest[1..]
  }

  /** The pieces put back together with `d` between each two. */
  function Join(ps: seq<string>, d: char): string
    requires |ps| >= 1
  {
    if |ps| == 1 then ps[0] else ps[0] + [d] + Join(ps[1..], d)
  }

  /** Joining the pieces gives back the string that was split. */
  lemma {:induction false} JoinOfSplit(s: string, d: char)
    ensures Join(Split(s, d), d) == s
  {
    if s != [] {
      JoinOfSplit(s[1..], d);
      var rest := Split(s[1..], d);
      if s[0] == d {
        assert Split(s, d)[1..] == rest;
      } else {
        var r := Split(s, d);
        assert r[0] == [s[0]] + rest[0] && r[1..] == rest[1..];
        if |rest| > 1 {
          assert Join(rest, d) == rest[0] + [d] + Join(rest[1..], d);
        }
      }
    }
  }

  /** Splitting at the first delimiter: a piece without `d`, then the rest. */
  lemma {:induction false} SplitAppend(a: string, b: string, d: char)
    requires d !in a
    ensures Split(a + [d] + b, d) == [a] + Split(b, d)
  {
    if a != [] {
      SplitAppend(a[1..], b, d);
      assert (a + [d] + b)[1..] == a[1..] + [d] + b;
      assert (a + [d] + b)[0] == a[0] != d;
      assert [a[0]] + a[1..] == a;
    } else {
      assert a + [d] + b == [d] + b;
    }
  }

  /** A string without `d` is one piece. */
  lemma {:induction false} SplitWhole(s: string, d: char)
    requires d !in s
    ensures Split(s, d) == [s]
  {
    if s != [] {
      SplitWhole(s[1..], d);
      assert [s[0]] + s[1..] == s;
    }
  }

  /** Splitting what was joined gives back the pieces, provided no piece holds `d`. */
  lemma {:induction false} SplitOfJoin(ps: seq<string>, d: char)
    requires |ps| >= 1 && forall k :: 0 <= k < |ps| ==> d !in ps[k]
    ensures Split(Join(ps, d), d) == ps
  {
    if |ps| == 1 {
      SplitWhole(ps[0], d);
    } else {
      SplitOfJoin(ps[1..], d);
      SplitAppend(ps[0], Join(ps[1..], d), d);
    }
  }

  /** No line break anywhere in `s`. */
  predicate NoLineBreak(s: string)
  {
    forall k :: 0 <= k < |s| ==> !IsLineBreak(s[k])
  }

  /**
   * Kotlin's `lines()`: the pieces between line breaks, where a line
   * break is "\r\n", "\n" or "\r".
   */
  function Lines(s: string): (r: seq<string>)
    ensures |r| >= 1
    ensures forall k :: 0 <= k < |r| ==> NoLineBreak(r[k])
    decreases |s|
  {
    if s == [] then [[]]
    else if s[0] == '\n' then [[]] + Lines(s[1..])
    else if s[0] == '\r' then
      if |s| > 1 && s[1] == '\n' then [[]] + Lines(s[2..]) else [[]] + Lines(s[1..])
    else
      var rest := Lines(s[1..]);
      [[s[0]] + rest[0]] + rest[1..]
  }

  /** `s` with its line breaks taken out. */
  function DropLineBreaks(s: string): (r: string)
    ensures NoLineBreak(r)
  {
    if s == [] then [] else (if IsLineBreak(s[0]) then [] else [s[0]]) + DropLineBreaks(s[1..])
  }

  /** The lines hold every character of `s` except the line breaks, in order. */
  lemma {:induction false} ConcatOfLines(s: string)
    ensures Concat(Lines(s)) == DropLineBreaks(s)
    decreases |s|
  {
    if s != [] {
      if s[0] == '\n' {
        ConcatOfLines(s[1..]);
      } else if s[0] == '\r' {
        if |s| > 1 && s[1] == '\n' {
          ConcatOfLines(s[2..]);
          assert DropLineBreaks(s) == DropLineBreaks(s[1..]) == DropLineBreaks(s[2..]) by {
            assert s[1..][1..] == s[2..];
          }
        } else {
          ConcatOfLines(s[1..]);
        }
      } else {
        ConcatOfLines(s[1..]);
        var rest := Lines(s[1..]);
        assert rest == [rest[0]] + rest[1..];
        assert Concat(rest) == rest[0] + Concat(rest[1..]);
        assert Concat(Lines(s)) == ([s[0]] + rest[0]) + Concat(rest[1..]);
      }
    }
  }

  /** Without carriage returns, the lines are the pieces between line feeds. */
  lemma {:induction false} LinesAsSplit(s: string)
    requires '\r' !in s
    ensures Lines(s) == Split(s, '\n')
    decreases |s|
  {
    if s != [] {
      LinesAsSplit(s[1..]);
    }
  }

  /** A line followed by a line feed: that line, then the lines of the rest. */
  lemma {:induction false} LinesAppend(a: string, b: string)
    requires NoLineBreak(a)
    ensures Lines(a + ['\n'] + b) == [a] + Lines(b)
  {
    if a != [] {
      LinesAppend(a[1..], b);
      assert (a + ['\n'] + b)[1..] == a[1..] + ['\n'] + b;
      assert (a + ['\n'] + b)[0] == a[0] && !IsLineBreak(a[0]);
      assert [a[0]] + a[1..] == a;
    } else {
      assert a + ['\n'] + b == ['\n'] + b;
    }
  }

  /** A string without line breaks is one line. */
  lemma {:induction false} LinesWhole(s: string)
    requires NoLineBreak(s)
    ensures Lines(s) == [s]
  {
    if s != [] {
      LinesWhole(s[1..]);
      assert !IsLineBreak(s[0]);
      assert [s[0]] + s[1..] == s;
    }
  }
}
