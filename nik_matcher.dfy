/** `re.findall(r"\b\d{16}\b", text)`: every run of exactly sixteen digits that
    has a word boundary on both sides, left to right and without overlap.
    Digits and word characters are the ASCII ones.

    The search is written twice: `FindFrom` returns the matched text, as
    `re.findall` does, and `ScanFrom` returns the match positions, as
    `re.finditer` would. Positions are what the soundness, completeness and
    non-overlap lemmas speak about; `FindFromScan` proves the two agree. */
module NikMatcher {
  import opened Text

  /** A NIK is sixteen decimal digits. */
  const NikLength: nat := 16

  /** `\d` (ASCII). */
  predicate IsDigit(c: char) {
    '0' <= c <= '9'
  }

  /** `\w` (ASCII): letters, digits and the underscore. */
  predicate IsWordChar(c: char) {
    ('a' <= c <= 'z') || ('A' <= c <= 'Z') || IsDigit(c) || c == '_'
  }

  predicate AllDigits(w: string) {
    forall k :: 0 <= k < |w| ==> IsDigit(w[k])
  }

  predicate IsNik(w: string) {
    |w| == NikLength && AllDigits(w)
  }

  /** Whether position `i` of `s` holds a word character; outside `s` it does not. */
  predicate WordAt(s: string, i: int) {
    0 <= i < |s| && IsWordChar(s[i])
  }

  /** `\b` at position `p`: a word character on exactly one side. */
  predicate WordBoundary(s: string, p: int) {
    WordAt(s, p - 1) != WordAt(s, p)
  }

  /** The pattern matches at position `p`. */
  predicate MatchAt(s: string, p: nat) {
    && p + NikLength <= |s|
    && WordBoundary(s, p)
    && AllDigits(s[p..p + NikLength])
    && WordBoundary(s, p + NikLength)
  }

  /** The regex engine's search from position `i`, as `re.finditer` reports
      it: try the pattern at each position; after a match resume at its end,
      otherwise one step on. */
  function ScanFrom(s: string, i: nat): seq<nat>
    decreases |s| - i
  {
    if i + NikLength > |s| then []
    else if MatchAt(s, i) then [i] + ScanFrom(s, i + NikLength)
    else ScanFrom(s, i + 1)
  }

  /** The scan from `i` reports only positions at or after `i` where the
      pattern matches. */
  lemma {:induction false} ScanFromSound(s: string, i: nat)
    ensures forall k :: 0 <= k < |ScanFrom(s, i)| ==>
      i <= ScanFrom(s, i)[k] && MatchAt(s, ScanFrom(s, i)[k])
    decreases |s| - i
  {
    if i + NikLength <= |s| {
      if MatchAt(s, i) {
        ScanFromSound(s, i + NikLength);
      } else {
        ScanFromSound(s, i + 1);
      }
    }
  }

  /** The reported positions increase, and consecutive matches do not
      overlap. */
  lemma {:induction false} ScanFromOrdered(s: string, i: nat)
    ensures forall k, l :: 0 <= k < l < |ScanFrom(s, i)| ==>
      ScanFrom(s, i)[k] + NikLength <= ScanFrom(s, i)[l]
    decreases |s| - i
  {
    if i + NikLength <= |s| {
      if MatchAt(s, i) {
        ScanFromOrdered(s, i + NikLength);
        ScanFromSound(s, i + NikLength);
        assert ScanFrom(s, i) == [i] + ScanFrom(s, i + NikLength);
      } else {
        ScanFromOrdered(s, i + 1);
      }
    }
  }

  /** Every position at or after `i` where the pattern matches is reported. */
  lemma {:induction false} ScanFromComplete(s: string, i: nat)
    ensures forall p: nat :: i <= p && MatchAt(s, p) ==> p in ScanFrom(s, i)
    decreases |s| - i
  {
    if i + NikLength <= |s| {
      if MatchAt(s, i) {
        ScanFromComplete(s, i + NikLength);
        NoMatchInside(s, i);
      } else {
        ScanFromComplete(s, i + 1);
      }
    }
  }

  /** Inside a match no other match can start: its left neighbour is a digit,
      and so is its first character. */
  lemma NoMatchInside(s: string, i: nat)
    requires MatchAt(s, i)
    ensures forall p: nat :: i < p < i + NikLength ==> !MatchAt(s, p)
  {
    forall p: nat | i < p < i + NikLength && p + NikLength <= |s| ensures !MatchAt(s, p) {
      assert s[i..i + NikLength][p - 1 - i] == s[p - 1];
      if AllDigits(s[p..p + NikLength]) {
        assert s[p..p + NikLength][0] == s[p];
      }
    }
  }

  /** `re.findall` from position `i`: the same search, reporting the matched
      text. */
  function FindFrom(s: string, i: nat): seq<string>
    decreases |s| - i
  {
    if i + NikLength > |s| then []
    else if MatchAt(s, i) then [s[i..i + NikLength]] + FindFrom(s, i + NikLength)
    else FindFrom(s, i + 1)
  }

  /** What `findall` reports is, match by match, the sixteen characters at
      the positions `finditer` reports. */
  lemma {:induction false} FindFromScan(s: string, i: nat)
    ensures |FindFrom(s, i)| == |ScanFrom(s, i)|
    ensures forall k :: 0 <= k < |ScanFrom(s, i)| ==>
      ScanFrom(s, i)[k] + NikLength <= |s| &&
      FindFrom(s, i)[k] == s[ScanFrom(s, i)[k]..ScanFrom(s, i)[k] + NikLength]
    decreases |s| - i
  {
    if i + NikLength <= |s| {
      if MatchAt(s, i) {
        FindFromScan(s, i + NikLength);
      } else {
        FindFromScan(s, i + 1);
      }
    }
  }

  /** The match starts in `s`, in the order the engine reports them. */
  function MatchStarts(s: string): seq<nat> {
    ScanFrom(s, 0)
  }

  /** `re.findall(r"\b\d{16}\b", s)`. */
  function FindAll(s: string): seq<string> {
    FindFrom(s, 0)
  }

  /** Every match is sixteen digits with a non-word character or the edge of
      the text on either side, and is the text found at its match start. */
  lemma FindAllShape(s: string)
    ensures |FindAll(s)| == |MatchStarts(s)|
    ensures forall k :: 0 <= k < |FindAll(s)| ==>
      && MatchStarts(s)[k] + NikLength <= |s|
      && IsNik(FindAll(s)[k])
      && FindAll(s)[k] == s[MatchStarts(s)[k]..MatchStarts(s)[k] + NikLength]
      && (MatchStarts(s)[k] == 0 || !IsWordChar(s[MatchStarts(s)[k] - 1]))
      && (MatchStarts(s)[k] + NikLength == |s| || !IsWordChar(s[MatchStarts(s)[k] + NikLength]))
  {
    var ps := MatchStarts(s);
    ScanFromSound(s, 0);
    FindFromScan(s, 0);
    forall k | 0 <= k < |ps|
      ensures IsNik(FindAll(s)[k])
      ensures ps[k] == 0 || !IsWordChar(s[ps[k] - 1])
      ensures ps[k] + NikLength == |s| || !IsWordChar(s[ps[k] + NikLength])
    {
      MatchEdges(s, ps[k]);
    }
  }

  /** A match's neighbours are not word characters. */
  lemma MatchEdges(s: string, p: nat)
    requires MatchAt(s, p)
    ensures p == 0 || !IsWordChar(s[p - 1])
    ensures p + NikLength == |s| || !IsWordChar(s[p + NikLength])
  {
    assert s[p..p + NikLength][0] == s[p];
    assert s[p..p + NikLength][NikLength - 1] == s[p + NikLength - 1];
  }

  /** A position is reported exactly when the pattern matches there. */
  lemma MatchStartsIff(s: string, p: nat)
    ensures p in MatchStarts(s) <==> MatchAt(s, p)
  {
    ScanFromSound(s, 0);
    ScanFromComplete(s, 0);
  }

  /** A digit run of exactly 16 characters with non-word characters (or the
      edges) around it is reported. */
  lemma ExactRunFound(s: string, p: nat)
    requires p + NikLength <= |s| && AllDigits(s[p..p + NikLength])
    requires p == 0 || !IsWordChar(s[p - 1])
    requires p + NikLength == |s| || !IsWordChar(s[p + NikLength])
    ensures s[p..p + NikLength] in FindAll(s)
  {
    assert IsDigit(s[p..p + NikLength][0]);
    assert IsDigit(s[p..p + NikLength][NikLength - 1]);
    assert MatchAt(s, p);
    ScanFromComplete(s, 0);
    FindAllShape(s);
    var k :| 0 <= k < |MatchStarts(s)| && MatchStarts(s)[k] == p;
    assert FindAll(s)[k] == s[p..p + NikLength];
  }

  /** A 16-character window glued to a word character on either side (inside
      a longer digit run, or next to a letter or `_`) is never reported. A run
      of 15 or fewer digits is never found either: every find is sixteen
      digits (FindAllShape). */
  lemma GluedRunNotFound(s: string, p: nat)
    requires p + NikLength <= |s|
    requires (p > 0 && IsWordChar(s[p - 1])) || (p + NikLength < |s| && IsWordChar(s[p + NikLength]))
    ensures p !in MatchStarts(s)
  {
    ScanFromSound(s, 0);
    if AllDigits(s[p..p + NikLength]) {
      assert s[p..p + NikLength][0] == s[p];
      assert s[p..p + NikLength][NikLength - 1] == s[p + NikLength - 1];
    }
  }

  // ---------------------------------------------------------------------
  // No match spans a line break

  /** Whether the pattern matches depends only on the sixteen characters and
      on whether their neighbours are word characters. */
  lemma MatchAtTransfer(s: string, p: nat, t: string, q: nat)
    requires p + NikLength <= |s| && q + NikLength <= |t|
    requires s[p..p + NikLength] == t[q..q + NikLength]
    requires WordAt(s, p - 1) == WordAt(t, q - 1)
    requires WordAt(s, p + NikLength) == WordAt(t, q + NikLength)
    ensures MatchAt(s, p) == MatchAt(t, q)
  {
    assert s[p] == s[p..p + NikLength][0] == t[q];
    assert s[p + NikLength - 1] == s[p..p + NikLength][NikLength - 1] == t[q + NikLength - 1];
  }

  /** A match position that fits inside `a` matches in `a + "\n" + b`
      exactly when it matches in `a`. */
  lemma MatchAtBeforeBreak(a: string, b: string, i: nat)
    requires i + NikLength <= |a|
    ensures MatchAt(a + "\n" + b, i) == MatchAt(a, i)
  {
    var c := a + "\n" + b;
    assert c[i..i + NikLength] == a[i..i + NikLength];
    assert WordAt(c, i - 1) == WordAt(a, i - 1) by {
      if i > 0 { assert c[i - 1] == a[i - 1]; }
    }
    assert WordAt(c, i + NikLength) == WordAt(a, i + NikLength) by {
      if i + NikLength < |a| { assert c[i + NikLength] == a[i + NikLength]; }
    }
    MatchAtTransfer(c, i, a, i);
  }

  /** No match of `a + "\n" + b` starts in the last 15 characters of `a` or
      on the break: the sixteen characters from there hold the break. */
  lemma {:induction false} FindTail(a: string, b: string, i: nat)
    requires i <= |a| + 1 && |a| < i + NikLength
    ensures FindFrom(a + "\n" + b, i) == FindFrom(a + "\n" + b, |a| + 1)
    decreases |a| + 1 - i
  {
    var c := a + "\n" + b;
    if i <= |a| && i + NikLength <= |c| {
      assert c[i..i + NikLength][|a| - i] == '\n';
      FindTail(a, b, i + 1);
    }
  }

  /** In `a + "\n" + b`, the search from a position inside `a` finds the
      matches of `a` and then goes on past the line break. */
  lemma {:induction false} FindBeforeBreak(a: string, b: string, i: nat)
    requires i <= |a|
    ensures FindFrom(a + "\n" + b, i) == FindFrom(a, i) + FindFrom(a + "\n" + b, |a| + 1)
    decreases |a| - i
  {
    var c := a + "\n" + b;
    var rest := FindFrom(c, |a| + 1);
    if i + NikLength > |a| {
      FindTail(a, b, i);
    } else {
      MatchAtBeforeBreak(a, b, i);
      if MatchAt(a, i) {
        FindBeforeBreak(a, b, i + NikLength);
        var w := a[i..i + NikLength];
        assert c[i..i + NikLength] == w;
        assert FindFrom(c, i) == [w] + FindFrom(c, i + NikLength);
        assert FindFrom(a, i) == [w] + FindFrom(a, i + NikLength);
        assert [w] + (FindFrom(a, i + NikLength) + rest) == ([w] + FindFrom(a, i + NikLength)) + rest;
      } else {
        FindBeforeBreak(a, b, i + 1);
        assert FindFrom(c, i) == FindFrom(c, i + 1);
        assert FindFrom(a, i) == FindFrom(a, i + 1);
      }
    }
  }

  /** Inside a suffix that starts after a non-word character (or at the
      start), the pattern matches where it matches in the whole text. */
  lemma MatchAtSuffix(c: string, d: nat, j: nat)
    requires d <= |c| && j + NikLength <= |c| - d
    requires d == 0 || !IsWordChar(c[d - 1])
    ensures MatchAt(c, d + j) == MatchAt(c[d..], j)
  {
    var b := c[d..];
    assert c[d + j..d + j + NikLength] == b[j..j + NikLength];
    assert WordAt(c, d + j - 1) == WordAt(b, j - 1) by {
      if j > 0 { assert c[d + j - 1] == b[j - 1]; }
    }
    assert WordAt(c, d + j + NikLength) == WordAt(b, j + NikLength) by {
      if j + NikLength < |b| { assert c[d + j + NikLength] == b[j + NikLength]; }
    }
    MatchAtTransfer(c, d + j, b, j);
  }

  /** From a position preceded by a non-word character (or the start), the
      search of a text finds what the search of its suffix finds. */
  lemma {:induction false} FindSuffix(c: string, d: nat, j: nat)
    requires d <= |c| && j <= |c| - d
    requires d == 0 || !IsWordChar(c[d - 1])
    ensures FindFrom(c, d + j) == FindFrom(c[d..], j)
    decreases |c| - d - j
  {
    var b := c[d..];
    if j + NikLength <= |b| {
      MatchAtSuffix(c, d, j);
      if MatchAt(b, j) {
        FindSuffix(c, d, j + NikLength);
        assert c[d + j..d + j + NikLength] == b[j..j + NikLength];
        assert FindFrom(c, d + j) == [c[d + j..d + j + NikLength]] + FindFrom(c, d + j + NikLength);
      } else {
        FindSuffix(c, d, j + 1);
        assert FindFrom(c, d + j) == FindFrom(c, d + j + 1);
      }
    }
  }

  /** The matches of two lines joined by a break are the matches of the first
      line followed by those of the second: no match spans the break. */
  lemma FindAllAcrossBreak(a: string, b: string)
    ensures FindAll(a + "\n" + b) == FindAll(a) + FindAll(b)
  {
    var c := a + "\n" + b;
    FindBeforeBreak(a, b, 0);
    assert c[|a| + 1..] == b && c[|a|] == '\n';
    FindSuffix(c, |a| + 1, 0);
  }

  /** `re.findall` over lines joined by breaks finds, line by line, what it
      finds in each line. */
  function MatchesPerLine(lines: seq<string>): seq<string> {
    if lines == [] then [] else FindAll(lines[0]) + MatchesPerLine(lines[1..])
  }

  lemma {:induction false} FindAllJoin(lines: seq<string>)
    ensures FindAll(Join(lines)) == MatchesPerLine(lines)
  {
    if |lines| == 0 {
    } else if |lines| == 1 {
      assert MatchesPerLine(lines[1..]) == [];
    } else {
      FindAllJoin(lines[1..]);
      FindAllAcrossBreak(lines[0], Join(lines[1..]));
    }
  }
}
