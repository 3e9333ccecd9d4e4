/** The text clean-up the script applies to the OCR engine's output, line by
    line: the `”—` artifact becomes `:`, lines carrying the `NIK` label get
    `D` read as `0` and `?` read as `7`, and blank lines are dropped. */
module LineNormalizer {
  import opened Text

  /** U+201D RIGHT DOUBLE QUOTATION MARK and U+2014 EM DASH: the engine's
      usual misreading of the colon after the label. */
  const Quote: char := '\U{201D}'
  const Dash: char := '\U{2014}'
  const QuoteDash: string := [Quote, Dash]
  const Label: string := "NIK"

  predicate StartsWithQuoteDash(s: string) {
    |s| >= 2 && s[0] == Quote && s[1] == Dash
  }

  /** `s.replace("”—", ":")`: every occurrence, left to right, without overlap. */
  function ReplaceQuoteDash(s: string): string {
    if s == [] then []
    else if StartsWithQuoteDash(s) then ":" + ReplaceQuoteDash(s[2..])
    else [s[0]] + ReplaceQuoteDash(s[1..])
  }

  /** The number of occurrences `str.replace` rewrites. */
  function CountQuoteDash(s: string): nat {
    if s == [] then 0
    else if StartsWithQuoteDash(s) then 1 + CountQuoteDash(s[2..])
    else CountQuoteDash(s[1..])
  }

  /** Turns every `:` back into `”—`; an inverse of ReplaceQuoteDash on texts
      that held no colon to begin with. */
  function RestoreQuoteDash(s: string): string {
    if s == [] then []
    else if s[0] == ':' then QuoteDash + RestoreQuoteDash(s[1..])
    else [s[0]] + RestoreQuoteDash(s[1..])
  }

  /** `s.replace(a, b)` for one-character `a` and `b`. */
  function ReplaceChar(s: string, a: char, b: char): string {
    if s == [] then [] else [if s[0] == a then b else s[0]] + ReplaceChar(s[1..], a, b)
  }

  /** Replacing a character keeps the length and changes exactly the
      positions that held `a`. */
  lemma {:induction false} ReplaceCharAt(s: string, a: char, b: char)
    ensures |ReplaceChar(s, a, b)| == |s|
    ensures forall k :: 0 <= k < |s| ==> ReplaceChar(s, a, b)[k] == if s[k] == a then b else s[k]
  {
    if s != [] {
      ReplaceCharAt(s[1..], a, b);
    }
  }

  /** The confusable-digit fix for one character. */
  function FixChar(c: char): char {
    if c == 'D' then '0' else if c == '?' then '7' else c
  }

  /** `s.replace("D", "0").replace("?", "7")`. */
  function FixDigits(s: string): string {
    ReplaceChar(ReplaceChar(s, 'D', '0'), '?', '7')
  }

  /** One pass of the loop body over a line, with the script's two guards. */
  function CleanLine(word: string): string {
    var w := if Contains(word, QuoteDash) then ReplaceQuoteDash(word) else word;
    if Contains(w, Label) then FixDigits(w) else w
  }

  /** `if word.strip():` */
  predicate Kept(line: string) {
    Strip(line) != []
  }

  /** The lines the loop has kept after the first `n` split lines. */
  function NormalizedUpTo(raw: seq<string>, n: nat): seq<string>
    requires n <= |raw|
  {
    if n == 0 then []
    else
      var line := CleanLine(raw[n - 1]);
      NormalizedUpTo(raw, n - 1) + (if Kept(line) then [line] else [])
  }

  /** The lines the loop keeps, for the split lines `raw`. */
  function Normalized(raw: seq<string>): seq<string> {
    NormalizedUpTo(raw, |raw|)
  }

  /** The positions among the first `n` split lines whose cleaned line
      survives, in increasing order. */
  function KeptIndices(raw: seq<string>, n: nat): (idx: seq<nat>)
    requires n <= |raw|
    ensures forall k :: 0 <= k < |idx| ==> idx[k] < n
    ensures forall k, l :: 0 <= k < l < |idx| ==> idx[k] < idx[l]
  {
    if n == 0 then []
    else KeptIndices(raw, n - 1) + (if Kept(CleanLine(raw[n - 1])) then [n - 1] else [])
  }

  /** The normalisation loop: split the OCR text on line breaks and keep the
      cleaned, non-blank lines in order. */
  method NormalizeLines(text: string) returns (lines: seq<string>)
    ensures lines == Normalized(Split(text))
  {
    var raw := Split(text);
    lines := [];
    for i := 0 to |raw|
      invariant lines == NormalizedUpTo(raw, i)
    {
      var word := raw[i];
      if Contains(word, QuoteDash) {
        word := ReplaceQuoteDash(word);
      }
      if Contains(word, Label) {
        word := ReplaceChar(ReplaceChar(word, 'D', '0'), '?', '7');
      }
      if Strip(word) != [] {
        lines := lines + [word];
      }
    }
  }

  // ---------------------------------------------------------------------
  // The `”—` replacement

  /** After the replacement no `”—` is left. */
  lemma {:induction false} ReplaceQuoteDashRemovesAll(s: string)
    ensures !Contains(ReplaceQuoteDash(s), QuoteDash)
  {
    if s != [] {
      var r := ReplaceQuoteDash(s);
      if StartsWithQuoteDash(s) {
        ReplaceQuoteDashRemovesAll(s[2..]);
        assert r[0] == ':';
        assert r[1..] == ReplaceQuoteDash(s[2..]);
      } else {
        var rest := ReplaceQuoteDash(s[1..]);
        ReplaceQuoteDashRemovesAll(s[1..]);
        assert r[1..] == rest;
        if |r| >= 2 && r[0] == Quote {
          ReplaceQuoteDashHead(s[1..]);
        }
      }
    }
  }

  /** The first character of a replaced text. */
  lemma ReplaceQuoteDashHead(s: string)
    requires s != []
    ensures ReplaceQuoteDash(s) != []
    ensures ReplaceQuoteDash(s)[0] == if StartsWithQuoteDash(s) then ':' else s[0]
  {
  }

  /** Each occurrence is replaced by exactly one character: the text shrinks
      by one character per occurrence. */
  lemma {:induction false} ReplaceQuoteDashLength(s: string)
    ensures |ReplaceQuoteDash(s)| == |s| - CountQuoteDash(s)
  {
    if s != [] {
      if StartsWithQuoteDash(s) {
        ReplaceQuoteDashLength(s[2..]);
      } else {
        ReplaceQuoteDashLength(s[1..]);
      }
    }
  }

  /** ... and that character is a colon: the text gains one colon per
      occurrence. */
  lemma {:induction false} ReplaceQuoteDashColons(s: string)
    ensures CountChar(ReplaceQuoteDash(s), ':') == CountChar(s, ':') + CountQuoteDash(s)
  {
    if s != [] {
      if StartsWithQuoteDash(s) {
        ReplaceQuoteDashColons(s[2..]);
        assert s[1..][1..] == s[2..];
        assert (":" + ReplaceQuoteDash(s[2..]))[1..] == ReplaceQuoteDash(s[2..]);
      } else {
        ReplaceQuoteDashColons(s[1..]);
        assert ([s[0]] + ReplaceQuoteDash(s[1..]))[1..] == ReplaceQuoteDash(s[1..]);
      }
    }
  }

  /** Characters other than the colon, the quote and the dash keep their
      number of occurrences. */
  lemma {:induction false} ReplaceQuoteDashKeeps(s: string, c: char)
    requires c != ':' && c != Quote && c != Dash
    ensures CountChar(ReplaceQuoteDash(s), c) == CountChar(s, c)
  {
    if s != [] {
      if StartsWithQuoteDash(s) {
        ReplaceQuoteDashKeeps(s[2..], c);
        assert s[1..][1..] == s[2..];
        assert (":" + ReplaceQuoteDash(s[2..]))[1..] == ReplaceQuoteDash(s[2..]);
      } else {
        ReplaceQuoteDashKeeps(s[1..], c);
        assert ([s[0]] + ReplaceQuoteDash(s[1..]))[1..] == ReplaceQuoteDash(s[1..]);
      }
    }
  }

  /** `str.replace` finds something to rewrite exactly when `in` says the
      pattern is there; without it the text is unchanged. */
  lemma {:induction false} CountQuoteDashIff(s: string)
    ensures CountQuoteDash(s) > 0 <==> Contains(s, QuoteDash)
    ensures CountQuoteDash(s) == 0 ==> ReplaceQuoteDash(s) == s
  {
    if s != [] {
      if StartsWithQuoteDash(s) {
        assert s[..2] == QuoteDash;
      } else {
        CountQuoteDashIff(s[1..]);
        assert |s| < 2 || s[..2] != QuoteDash;
        assert [s[0]] + s[1..] == s;
      }
    }
  }

  /** On a text without colons, turning colons back into `”—` undoes the
      replacement. */
  lemma {:induction false} RestoreReplaced(s: string)
    requires ':' !in s
    ensures RestoreQuoteDash(ReplaceQuoteDash(s)) == s
  {
    if s != [] {
      if StartsWithQuoteDash(s) {
        assert ":" + ReplaceQuoteDash(s[2..]) == ReplaceQuoteDash(s);
        assert (":" + ReplaceQuoteDash(s[2..]))[1..] == ReplaceQuoteDash(s[2..]);
        RestoreReplaced(s[2..]);
        assert QuoteDash + s[2..] == s;
      } else {
        assert ([s[0]] + ReplaceQuoteDash(s[1..]))[1..] == ReplaceQuoteDash(s[1..]);
        RestoreReplaced(s[1..]);
        assert [s[0]] + s[1..] == s;
      }
    }
  }

  /** The replacement neither creates nor destroys an occurrence of the label. */
  lemma {:induction false} ReplaceQuoteDashLabel(s: string)
    ensures Contains(ReplaceQuoteDash(s), Label) <==> Contains(s, Label)
  {
    if s != [] {
      var r := ReplaceQuoteDash(s);
      if StartsWithQuoteDash(s) {
        ReplaceQuoteDashLabel(s[2..]);
        assert r[1..] == ReplaceQuoteDash(s[2..]);
        assert !Contains(s[1..2], Label);
        assert Contains(s, Label) <==> Contains(s[2..], Label) by {
          assert s[1..][1..] == s[2..];
          assert |s| < 4 || s[1..][..3] != Label;
        }
      } else {
        var rest := ReplaceQuoteDash(s[1..]);
        ReplaceQuoteDashLabel(s[1..]);
        assert r[1..] == rest;
        assert (|r| >= 3 && r[..3] == Label) <==> (|s| >= 3 && s[..3] == Label) by {
          if |s| >= 2 {
            ReplaceQuoteDashHead(s[1..]);
            var rest2 := ReplaceQuoteDash(s[2..]);
            if s[1] == 'I' {
              assert rest == [s[1]] + rest2;
              if |s| >= 3 {
                ReplaceQuoteDashHead(s[2..]);
              } else {
                assert rest2 == [];
              }
            }
          }
        }
      }
    }
  }

  // ---------------------------------------------------------------------
  // The confusable-digit fix

  /** Replacing one character by another, neither of which occurs in `t`,
      neither creates nor destroys an occurrence of `t`. */
  lemma {:induction false} ReplaceCharContains(s: string, t: string, a: char, b: char)
    requires a !in t && b !in t
    ensures Contains(ReplaceChar(s, a, b), t) <==> Contains(s, t)
  {
    var r := ReplaceChar(s, a, b);
    ReplaceCharAt(s, a, b);
    if |s| >= |t| && s != [] {
      assert r[..|t|] == t <==> s[..|t|] == t by {
        if r[..|t|] == t {
          forall k | 0 <= k < |t| ensures s[k] == t[k] {
            assert r[k] == t[k];
          }
        }
      }
      ReplaceCharContains(s[1..], t, a, b);
      assert r[1..] == ReplaceChar(s[1..], a, b);
    }
  }

  /** The fix maps every character through FixChar and keeps the length. */
  lemma FixDigitsAt(s: string)
    ensures |FixDigits(s)| == |s|
    ensures forall k :: 0 <= k < |s| ==> FixDigits(s)[k] == FixChar(s[k])
  {
    ReplaceCharAt(s, 'D', '0');
    ReplaceCharAt(ReplaceChar(s, 'D', '0'), '?', '7');
  }

  // ---------------------------------------------------------------------
  // One line

  /** Both guards of the loop body are redundant: cleaning a line is the
      replacement followed, on labelled lines, by the digit fix. */
  lemma CleanLineSteps(word: string)
    ensures CleanLine(word) ==
      if Contains(word, Label) then FixDigits(ReplaceQuoteDash(word)) else ReplaceQuoteDash(word)
  {
    CountQuoteDashIff(word);
    ReplaceQuoteDashLabel(word);
  }

  /** No cleaned line holds `”—`, and each occurrence cost one character. */
  lemma CleanLineNoQuoteDash(word: string)
    ensures !Contains(CleanLine(word), QuoteDash)
    ensures |CleanLine(word)| == |word| - CountQuoteDash(word)
  {
    CleanLineSteps(word);
    var r := ReplaceQuoteDash(word);
    ReplaceQuoteDashRemovesAll(word);
    ReplaceQuoteDashLength(word);
    FixDigitsAt(r);
    ReplaceCharContains(r, QuoteDash, 'D', '0');
    ReplaceCharContains(ReplaceChar(r, 'D', '0'), QuoteDash, '?', '7');
  }

  /** A line with the label keeps it, loses every `D` and `?`, and otherwise
      matches the `”—`-replaced line character by character. */
  lemma CleanLineLabelled(word: string)
    requires Contains(word, Label)
    ensures Contains(CleanLine(word), Label)
    ensures 'D' !in CleanLine(word) && '?' !in CleanLine(word)
    ensures |CleanLine(word)| == |ReplaceQuoteDash(word)|
    ensures forall k :: 0 <= k < |CleanLine(word)| ==>
      CleanLine(word)[k] == FixChar(ReplaceQuoteDash(word)[k])
  {
    CleanLineSteps(word);
    var r := ReplaceQuoteDash(word);
    ReplaceQuoteDashLabel(word);
    ReplaceCharContains(r, Label, 'D', '0');
    ReplaceCharContains(ReplaceChar(r, 'D', '0'), Label, '?', '7');
    FixDigitsAt(r);
  }

  /** A line without the label is only touched by the `”—` replacement, so
      every `D` and `?` in it survives. */
  lemma CleanLineUnlabelled(word: string)
    requires !Contains(word, Label)
    ensures CleanLine(word) == ReplaceQuoteDash(word)
    ensures CountChar(CleanLine(word), 'D') == CountChar(word, 'D')
    ensures CountChar(CleanLine(word), '?') == CountChar(word, '?')
  {
    CleanLineSteps(word);
    ReplaceQuoteDashKeeps(word, 'D');
    ReplaceQuoteDashKeeps(word, '?');
  }

  /** Cleaning only ever introduces `:`, `0` and `7`; any other character of
      a cleaned line was already in the raw line. */
  lemma CleanLineChars(word: string, c: char)
    requires c in CleanLine(word) && c != ':' && c != '0' && c != '7'
    ensures c in word
  {
    CleanLineSteps(word);
    var r := ReplaceQuoteDash(word);
    if c !in word {
      ReplaceQuoteDashNoNew(word, c);
      FixDigitsAt(r);
    }
  }

  /** The replacement introduces no character other than the colon. */
  lemma {:induction false} ReplaceQuoteDashNoNew(s: string, c: char)
    requires c != ':' && c !in s
    ensures c !in ReplaceQuoteDash(s)
  {
    if s != [] {
      if StartsWithQuoteDash(s) { ReplaceQuoteDashNoNew(s[2..], c); }
      else { ReplaceQuoteDashNoNew(s[1..], c); }
    }
  }

  // ---------------------------------------------------------------------
  // The normalisation loop

  /** Every kept line is non-blank and free of `”—`, and there are never more
      kept lines than split lines. */
  lemma {:induction false} NormalizedLines(raw: seq<string>, n: nat)
    requires n <= |raw|
    ensures |NormalizedUpTo(raw, n)| <= n
    ensures forall k :: 0 <= k < |NormalizedUpTo(raw, n)| ==>
      Kept(NormalizedUpTo(raw, n)[k]) && !AllSpace(NormalizedUpTo(raw, n)[k]) &&
      !Contains(NormalizedUpTo(raw, n)[k], QuoteDash)
  {
    if n > 0 {
      NormalizedLines(raw, n - 1);
      CleanLineNoQuoteDash(raw[n - 1]);
      forall k | 0 <= k < |NormalizedUpTo(raw, n)|
        ensures !AllSpace(NormalizedUpTo(raw, n)[k])
      {
        StripEmptyIff(NormalizedUpTo(raw, n)[k]);
      }
    }
  }

  /** The kept lines are exactly the cleaned lines at KeptIndices, in order:
      nothing is reordered, merged or invented. */
  lemma {:induction false} NormalizedOrder(raw: seq<string>, n: nat)
    requires n <= |raw|
    ensures |NormalizedUpTo(raw, n)| == |KeptIndices(raw, n)|
    ensures forall k :: 0 <= k < |NormalizedUpTo(raw, n)| ==>
      NormalizedUpTo(raw, n)[k] == CleanLine(raw[KeptIndices(raw, n)[k]])
  {
    if n > 0 {
      NormalizedOrder(raw, n - 1);
      var line := CleanLine(raw[n - 1]);
      if Kept(line) {
        assert NormalizedUpTo(raw, n) == NormalizedUpTo(raw, n - 1) + [line];
        assert KeptIndices(raw, n) == KeptIndices(raw, n - 1) + [n - 1];
      } else {
        assert NormalizedUpTo(raw, n) == NormalizedUpTo(raw, n - 1);
        assert KeptIndices(raw, n) == KeptIndices(raw, n - 1);
      }
    }
  }

  /** A split line is left out exactly when its cleaned form is blank. */
  lemma {:induction false} KeptIndexIff(raw: seq<string>, n: nat, j: nat)
    requires j < n <= |raw|
    ensures j in KeptIndices(raw, n) <==> Kept(CleanLine(raw[j]))
  {
    var keep := Kept(CleanLine(raw[n - 1]));
    assert KeptIndices(raw, n) == KeptIndices(raw, n - 1) + (if keep then [n - 1] else []);
    if j < n - 1 {
      KeptIndexIff(raw, n - 1, j);
    } else {
      assert j !in KeptIndices(raw, n - 1);
    }
  }

  lemma KeptIndicesIff(raw: seq<string>, n: nat)
    requires n <= |raw|
    ensures forall j :: 0 <= j < n ==> (j in KeptIndices(raw, n) <==> Kept(CleanLine(raw[j])))
  {
    forall j | 0 <= j < n
      ensures j in KeptIndices(raw, n) <==> Kept(CleanLine(raw[j]))
    {
      KeptIndexIff(raw, n, j);
    }
  }

  /** Split lines hold no line break, and cleaning adds none. */
  lemma {:induction false} NormalizedNoLineBreaks(raw: seq<string>, n: nat)
    requires n <= |raw| && NoLineBreaks(raw)
    ensures NoLineBreaks(NormalizedUpTo(raw, n))
  {
    if n > 0 {
      NormalizedNoLineBreaks(raw, n - 1);
      if '\n' in CleanLine(raw[n - 1]) {
        CleanLineChars(raw[n - 1], '\n');
      }
    }
  }
}
