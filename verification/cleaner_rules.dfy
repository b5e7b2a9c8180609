/**
  The eleven regular-expression tests of the catalog cleaner
  (src/Cleaner.tsx), each written as a recognizer over the characters of
  `String(x)`.

  Anchored tests (`^...$`) look at the trimmed text; the unanchored ones
  (`containsUrl`, `containsMarkdownLink`, `containsLegalRef`,
  `isMaskedPattern`) look at the text as it is, and succeed when the pattern
  matches at some position. `isCodePattern` is unanchored but searches the
  trimmed text. `\b` is the ASCII word boundary: a position whose two
  neighbours (a missing neighbour counts as a non-word character) differ in
  being word characters `[A-Za-z0-9_]`; `#` and `*` are not word characters.
 */
module CleanerRules {
  import opened Text

  // ---------------------------------------------------------------------------
  // Shared pieces
  // ---------------------------------------------------------------------------

  predicate WordBefore(s: string, p: nat) {
    0 < p <= |s| && IsWordChar(s[p - 1])
  }

  predicate WordAt(s: string, p: nat) {
    p < |s| && IsWordChar(s[p])
  }

  /** `\b` at position `p` (between `s[p - 1]` and `s[p]`). */
  predicate Boundary(s: string, p: nat) {
    WordBefore(s, p) != WordAt(s, p)
  }

  /** `[#*]` */
  predicate IsMaskChar(c: char) {
    c == '#' || c == '*'
  }

  /** `s[a..b]` is made of `#` and `*` only. */
  predicate MaskRun(s: string, a: nat, b: nat) {
    a <= b <= |s| && forall m :: a <= m < b ==> IsMaskChar(s[m])
  }

  /** `s[a..b]` is white space (`\s`) only. */
  predicate SpaceRun(s: string, a: nat, b: nat) {
    a <= b <= |s| && forall m :: a <= m < b ==> IsSpace(s[m])
  }

  // ---------------------------------------------------------------------------
  // Anchored tests on the trimmed text
  // ---------------------------------------------------------------------------

  /** `/^<[^<>]+>$/` */
  predicate AngleOnly(t: string) {
    && |t| >= 3 && t[0] == '<' && t[|t| - 1] == '>'
    && forall m :: 1 <= m < |t| - 1 ==> t[m] != '<' && t[m] != '>'
  }

  /** `isOnlyAngleBrackets` */
  predicate IsOnlyAngleBrackets(s: string) {
    AngleOnly(Trim(s))
  }

  /** `isOnlyNumbers`: `/^\d+$/` on the trimmed text. */
  predicate IsOnlyNumbers(s: string) {
    var t := Trim(s);
    |t| > 0 && AllDigits(t)
  }

  /** `isOnlySymbols`: `/^[^a-zA-Z0-9]+$/` on the trimmed text. */
  predicate IsOnlySymbols(s: string) {
    var t := Trim(s);
    |t| > 0 && forall m :: 0 <= m < |t| ==> !IsAsciiAlnum(t[m])
  }

  /** `/^\d+%$/` */
  predicate PercentOnly(t: string) {
    |t| >= 2 && t[|t| - 1] == '%' && AllDigits(t[..|t| - 1])
  }

  /** `[\d.kKmM\s-]` */
  predicate IsRangeChar(c: char) {
    IsDigit(c) || c == '.' || c == 'k' || c == 'K' || c == 'm' || c == 'M' || IsSpace(c) || c == '-'
  }

  /** `[\d.kKmM\s-]+` over the whole of `t` */
  predicate RangeBody(t: string) {
    |t| > 0 && forall m :: 0 <= m < |t| ==> IsRangeChar(t[m])
  }

  /** `/^[<>]?[\d.kKmM\s-]+$/` */
  predicate RangeOnly(t: string) {
    RangeBody(t) || (|t| > 0 && (t[0] == '<' || t[0] == '>') && RangeBody(t[1..]))
  }

  /** `isRawPercentOrRange` */
  predicate IsRawPercentOrRange(s: string) {
    var t := Trim(s);
    PercentOnly(t) || RangeOnly(t)
  }

  // ---------------------------------------------------------------------------
  // `isCodePattern`: /\b(AA|UU)[#*]+(\s+or\s+(AA|UU)[#*]+)*\b/i on the trimmed text
  // ---------------------------------------------------------------------------

  predicate CodeWordAt(s: string, i: nat) {
    FoldedAt(s, i, "AA") || FoldedAt(s, i, "UU")
  }

  /** `(AA|UU)[#*]+` spans `s[i..e]`. */
  predicate CodeUnit(s: string, i: nat, e: nat) {
    i + 2 < e <= |s| && CodeWordAt(s, i) && MaskRun(s, i + 2, e)
  }

  /** `\s+or\s+` spans `s[a..b]`. */
  predicate OrSep(s: string, a: nat, b: nat) {
    exists p: nat :: a < p < b && p + 2 < b && SpaceRun(s, a, p) && FoldedAt(s, p, "OR") && SpaceRun(s, p + 2, b)
  }

  /** `(AA|UU)[#*]+(\s+or\s+(AA|UU)[#*]+)*` spans `s[i..e]`. */
  predicate CodeChain(s: string, i: nat, e: nat)
    decreases |s| - i
  {
    i <= |s| &&
    (|| CodeUnit(s, i, e)
     || exists m: nat, j: nat :: i < m < j <= |s| && CodeUnit(s, i, m) && OrSep(s, m, j) && CodeChain(s, j, e))
  }

  /** The regular expression, matched anywhere in `t`. */
  predicate CodeRegex(t: string) {
    exists i: nat, e: nat :: i <= |t| && e <= |t| && Boundary(t, i) && CodeChain(t, i, e) && Boundary(t, e)
  }

  /** `isCodePattern` */
  predicate IsCodePattern(s: string) {
    CodeRegex(Trim(s))
  }

  /** The reading the regular expression boils down to: `AA` or `UU` (any case)
      starting a word, one or more `#`/`*`, then a word character. */
  predicate CodeSimple(t: string) {
    exists i: nat, e: nat :: i <= |t| && e <= |t| && Boundary(t, i) && CodeUnit(t, i, e) && WordAt(t, e)
  }

  // ---------------------------------------------------------------------------
  // `isMaskedPattern`: /[#*]{3,}([-–][#*]{3,})*/ or /[#*]{3,}.*[#*]{3,}/
  // ---------------------------------------------------------------------------

  predicate IsDash(c: char) {
    c == '-' || c == '\U{2013}'
  }

  /** `[#*]{3,}([-–][#*]{3,})*` spans `s[i..e]`. */
  predicate MaskChain(s: string, i: nat, e: nat)
    decreases |s| - i
  {
    || (i + 3 <= e && MaskRun(s, i, e))
    || exists m: nat :: i + 3 <= m < |s| && MaskRun(s, i, m) && IsDash(s[m]) && MaskChain(s, m + 1, e)
  }

  /** The first regular expression matches somewhere. */
  predicate MaskedFirst(s: string) {
    exists i: nat, e: nat :: i <= |s| && e <= |s| && MaskChain(s, i, e)
  }

  /** `[#*]{3,}.*[#*]{3,}` spans from `a` to `b + 3`: the three-character run
      at `a` and the one at `b` are joined by characters `.` accepts (the
      extra `#`/`*` of the first run are among them). */
  predicate MaskPair(s: string, a: nat, b: nat) {
    && a + 3 <= b && MaskRun(s, a, a + 3) && MaskRun(s, b, b + 3)
    && forall m :: a + 3 <= m < b ==> !IsLineTerminator(s[m])
  }

  /** The second regular expression matches somewhere. */
  predicate MaskedSecond(s: string) {
    exists a: nat, b: nat :: a <= |s| && b <= |s| && MaskPair(s, a, b)
  }

  /** `isMaskedPattern` */
  predicate IsMaskedPattern(s: string) {
    MaskedFirst(s) || MaskedSecond(s)
  }

  /** `s[i..i + 3]` is three characters from `#` and `*`. */
  predicate TripleAt(s: string, i: nat) {
    MaskRun(s, i, i + 3)
  }

  /** Three consecutive characters from `#` and `*`. */
  predicate HasMaskTriple(s: string) {
    exists i: nat :: i <= |s| && TripleAt(s, i)
  }

  // ---------------------------------------------------------------------------
  // Key exemptions
  // ---------------------------------------------------------------------------

  /** `[^\s)]` */
  predicate IsUrlChar(c: char) {
    !IsSpace(c) && c != ')'
  }

  /** `https?:\/\/[^\s)]+` starts at `i`. */
  predicate UrlAt(s: string, i: nat) {
    || (OccursAt(s, "http://", i) && i + 7 < |s| && IsUrlChar(s[i + 7]))
    || (OccursAt(s, "https://", i) && i + 8 < |s| && IsUrlChar(s[i + 8]))
  }

  /** `containsUrl` */
  predicate ContainsUrl(s: string) {
    exists i: nat :: i <= |s| && UrlAt(s, i)
  }

  /** `\[[^\]]+\]\([^)]+\)` spans `s[i..l + 1]`, its `]` being at `j`. */
  predicate LinkSpan(s: string, i: nat, j: nat, l: nat) {
    && i + 1 < j && j + 2 < l < |s|
    && s[i] == '[' && s[j] == ']' && s[j + 1] == '(' && s[l] == ')'
    && (forall m :: i < m < j ==> s[m] != ']')
    && (forall m :: j + 1 < m < l ==> s[m] != ')')
  }

  /** `containsMarkdownLink` */
  predicate ContainsMarkdownLink(s: string) {
    exists i: nat, j: nat, l: nat :: i < |s| && j < |s| && l < |s| && LinkSpan(s, i, j, l)
  }

  const LegalWords: seq<string> := ["NJ", "PA", "REV", "IRS", "W8", "W9"]

  /** `\d{2,}` starts at `p`. */
  predicate TwoDigitsAt(s: string, p: nat) {
    p + 2 <= |s| && IsDigit(s[p]) && IsDigit(s[p + 1])
  }

  /** `[-_]?\d{2,}` starts at `p`. */
  predicate NumberAfter(s: string, p: nat) {
    TwoDigitsAt(s, p) || (p < |s| && (s[p] == '-' || s[p] == '_') && TwoDigitsAt(s, p + 1))
  }

  /** `\b(NJ|PA|REV|IRS|W8|W9)[-_]?\d{2,}` (case-insensitive) starts at `i`. */
  predicate LegalRefAt(s: string, i: nat) {
    Boundary(s, i)
    && exists n :: 0 <= n < |LegalWords| && FoldedAt(s, i, LegalWords[n]) && NumberAfter(s, i + |LegalWords[n]|)
  }

  /** `containsLegalRef` */
  predicate ContainsLegalRef(s: string) {
    exists i: nat :: i <= |s| && LegalRefAt(s, i)
  }

  // ---------------------------------------------------------------------------
  // The deletion rule
  // ---------------------------------------------------------------------------

  /** `shouldDelete` for an entry whose key is `key` and whose `en-US` value
      reads `val` once converted with `String`. */
  predicate ShouldDelete(key: string, val: string) {
    && !ContainsUrl(key)
    && !ContainsMarkdownLink(key)
    && !ContainsLegalRef(key)
    && (|| IsOnlyNumbers(key)
        || IsOnlyNumbers(val)
        || IsOnlySymbols(key)
        || IsOnlySymbols(val)
        || IsCodePattern(key)
        || IsCodePattern(val)
        || IsOnlyAngleBrackets(key)
        || IsOnlyAngleBrackets(val)
        || IsRawPercentOrRange(val)
        || IsMaskedPattern(key)
        || IsMaskedPattern(val))
  }

  // ---------------------------------------------------------------------------
  // What the masked test amounts to
  // ---------------------------------------------------------------------------

  lemma MaskChainStartsWithTriple(s: string, i: nat, e: nat)
    requires MaskChain(s, i, e)
    ensures TripleAt(s, i)
  {
    if !(i + 3 <= e && MaskRun(s, i, e)) {
      var m: nat :| i + 3 <= m < |s| && MaskRun(s, i, m) && IsDash(s[m]) && MaskChain(s, m + 1, e);
    }
  }

  /** `isMaskedPattern` holds exactly when the text has three consecutive
      characters from `#` and `*`: the dash-separated repetition and the
      second expression never add a match. */
  lemma MaskedIffTriple(s: string)
    ensures IsMaskedPattern(s) <==> HasMaskTriple(s)
  {
    if MaskedFirst(s) {
      var i: nat, e: nat :| i <= |s| && e <= |s| && MaskChain(s, i, e);
      MaskChainStartsWithTriple(s, i, e);
    }
    if MaskedSecond(s) {
      var a: nat, b: nat :| a <= |s| && b <= |s| && MaskPair(s, a, b);
      assert TripleAt(s, a);
    }
    if HasMaskTriple(s) {
      var i: nat :| i <= |s| && TripleAt(s, i);
      assert MaskChain(s, i, i + 3);
    }
  }

  /** A single left-to-right pass that counts the current run of `#`/`*`
      (`run`, the length of the run ending at `i`, below three so far). */
  function MaskScanFrom(s: string, i: nat, run: nat): (found: bool)
    requires i <= |s| && run <= i && run < 3
    requires MaskRun(s, i - run, i)
    requires run < i ==> !IsMaskChar(s[i - run - 1])
    requires forall j: nat :: j + 3 <= i ==> !TripleAt(s, j)
    ensures found <==> HasMaskTriple(s)
    decreases |s| - i
  {
    if i == |s| then false
    else if !IsMaskChar(s[i]) then MaskScanFrom(s, i + 1, 0)
    else if run == 2 then
      assert TripleAt(s, i - 2);
      true
    else MaskScanFrom(s, i + 1, run + 1)
  }

  /** `isMaskedPattern`, computed in one pass. */
  function MaskScan(s: string): (found: bool)
    ensures found <==> IsMaskedPattern(s)
  {
    MaskedIffTriple(s);
    MaskScanFrom(s, 0, 0)
  }

  // ---------------------------------------------------------------------------
  // What the code-pattern test amounts to
  // ---------------------------------------------------------------------------

  lemma CodeWordIsWord(s: string, i: nat)
    requires CodeWordAt(s, i)
    ensures WordAt(s, i)
  {
    if FoldedAt(s, i, "AA") {
      assert FoldsTo(s[i + 0], "AA"[0]);
    } else {
      assert FoldsTo(s[i + 0], "UU"[0]);
    }
  }

  /** A chain ends with `#` or `*`, so no word character precedes its end. */
  lemma {:induction false} ChainEndsInMask(s: string, i: nat, e: nat)
    requires CodeChain(s, i, e)
    ensures 0 < e <= |s| && IsMaskChar(s[e - 1]) && !WordBefore(s, e)
    decreases |s| - i
  {
    if !CodeUnit(s, i, e) {
      var m: nat, j: nat :| i < m < j <= |s| && CodeUnit(s, i, m) && OrSep(s, m, j) && CodeChain(s, j, e);
      ChainEndsInMask(s, j, e);
    }
  }

  /** A chain opens with `AA` or `UU`. */
  lemma ChainStartsWithCode(s: string, j: nat, e: nat)
    requires CodeChain(s, j, e)
    ensures CodeWordAt(s, j)
  {
    if !CodeUnit(s, j, e) {
      var m: nat, j2: nat :| j < m < j2 <= |s| && CodeUnit(s, j, m) && OrSep(s, m, j2) && CodeChain(s, j2, e);
    }
  }

  /** A chain of more than one unit goes on, after an `or` separator, with a
      shorter chain that starts at a word boundary. */
  lemma ChainNext(s: string, i: nat, e: nat) returns (j: nat)
    requires CodeChain(s, i, e) && !CodeUnit(s, i, e)
    ensures i < j <= |s| && CodeChain(s, j, e) && Boundary(s, j)
  {
    var m: nat;
    m, j :| i < m < j <= |s| && CodeUnit(s, i, m) && OrSep(s, m, j) && CodeChain(s, j, e);
    var p: nat :| m < p < j && p + 2 < j && SpaceRun(s, m, p) && FoldedAt(s, p, "OR") && SpaceRun(s, p + 2, j);
    assert IsSpace(s[j - 1]);
    SpaceNotWord(s[j - 1]);
    ChainStartsWithCode(s, j, e);
    CodeWordIsWord(s, j);
    assert !WordBefore(s, j) && WordAt(s, j);
  }

  /** White space is never a word character. */
  lemma SpaceNotWord(c: char)
    ensures IsSpace(c) ==> !IsWordChar(c)
  {
  }

  /** The last unit of a chain starts at a word boundary. */
  lemma {:induction false} ChainLastUnit(s: string, i: nat, e: nat) returns (k: nat)
    requires CodeChain(s, i, e) && Boundary(s, i)
    ensures k <= |s| && Boundary(s, k) && CodeUnit(s, k, e)
    decreases |s| - i
  {
    if CodeUnit(s, i, e) {
      k := i;
    } else {
      var j := ChainNext(s, i, e);
      k := ChainLastUnit(s, j, e);
    }
  }

  /** `isCodePattern` holds exactly when, in the trimmed text, `AA` or `UU`
      (in either case) starts a word and is followed by a run of `#`/`*` and
      then a word character: the `or` repetition adds nothing, and the final
      `\b` demands the word character. */
  lemma CodeRegexIffSimple(t: string)
    ensures CodeRegex(t) <==> CodeSimple(t)
  {
    if CodeRegex(t) {
      var i: nat, e: nat :| i <= |t| && e <= |t| && Boundary(t, i) && CodeChain(t, i, e) && Boundary(t, e);
      ChainEndsInMask(t, i, e);
      var k := ChainLastUnit(t, i, e);
      assert WordAt(t, e);
    }
    if CodeSimple(t) {
      var i: nat, e: nat :| i <= |t| && e <= |t| && Boundary(t, i) && CodeUnit(t, i, e) && WordAt(t, e);
      assert CodeChain(t, i, e);
      assert IsMaskChar(t[e - 1]);
    }
  }

  /** `AA##12` matches the code pattern. */
  lemma CodeExampleMatch()
    ensures CodeRegex("AA##12")
  {
    var yes := "AA##12";
    assert Boundary(yes, 0) && CodeUnit(yes, 0, 4) && WordAt(yes, 4);
    CodeRegexIffSimple(yes);
  }

  /** `AA##` does not, for want of a word character after the run. */
  lemma CodeExampleNoMatch()
    ensures !CodeRegex("AA##")
  {
    var no := "AA##";
    CodeRegexIffSimple(no);
    forall i: nat, e: nat | i <= |no| && e <= |no| && CodeUnit(no, i, e)
      ensures !WordAt(no, e)
    {
      assert CodeWordAt(no, i);
    }
  }

  // ---------------------------------------------------------------------------
  // The anchored tests
  // ---------------------------------------------------------------------------

  /** Empty or white-space-only text is never "only symbols", and neither
      "only numbers" nor a range. */
  lemma BlankMatchesNothing(s: string)
    requires forall m :: 0 <= m < |s| ==> IsSpace(s[m])
    ensures !IsOnlySymbols(s) && !IsOnlyNumbers(s) && !IsRawPercentOrRange(s) && !IsOnlyAngleBrackets(s)
  {
    TrimEmptyIff(s);
  }

  /** A lone tag such as `<br/>` or `<b>` is "only angle brackets". */
  lemma TagIsAngleOnly(n: string)
    requires |n| > 0 && forall m :: 0 <= m < |n| ==> n[m] != '<' && n[m] != '>'
    ensures IsOnlyAngleBrackets("<" + n + ">")
  {
    var t := "<" + n + ">";
    TrimNoSpace(t);
    forall m | 1 <= m < |t| - 1
      ensures t[m] != '<' && t[m] != '>'
    {
      assert t[m] == n[m - 1];
    }
  }

  /** A second `<` right after the first, as in `<<b>`, rules the test out. */
  lemma NestedAngleNotOnly(n: string)
    ensures !IsOnlyAngleBrackets("<<" + n + ">")
  {
    var t := "<<" + n + ">";
    TrimNoSpace(t);
    assert t[1] == '<';
  }

  /** One space on either side of a text that neither starts nor ends with
      white space is trimmed away. */
  lemma TrimSpaced(t: string)
    requires |t| > 0 && !IsSpace(t[0]) && !IsSpace(t[|t| - 1])
    ensures Trim(" " + t + " ") == t
  {
    var s := " " + t + " ";
    assert s[1..] == t + " ";
    assert TrimStart(s) == t + " ";
    assert (t + " ")[..|t|] == t;
    assert TrimEnd(t + " ") == t;
  }

  /** The test trims first: a lone tag with a space on either side, as in
      `" <b> "`, still counts as only angle brackets. */
  lemma SpacedTagIsAngleOnly(n: string)
    requires |n| > 0 && forall m :: 0 <= m < |n| ==> n[m] != '<' && n[m] != '>'
    ensures IsOnlyAngleBrackets(" " + ("<" + n + ">") + " ")
  {
    TrimSpaced("<" + n + ">");
    TagIsAngleOnly(n);
    TrimNoSpace("<" + n + ">");
  }

  /** Text with no ASCII letter or digit is "only symbols" once it holds
      anything besides white space: letters of other scripts count as
      symbols. */
  lemma SymbolsOnly(s: string, i: nat)
    requires i < |s| && !IsSpace(s[i])
    requires forall m :: 0 <= m < |s| ==> !IsAsciiAlnum(s[m])
    ensures IsOnlySymbols(s)
  {
    TrimKeeps(s, i);
    var t, k := Trim(s), TrimOffset(s);
    assert TrimmedAt(s, t, k);
    forall m | 0 <= m < |t|
      ensures !IsAsciiAlnum(t[m])
    {
      assert t[m] == s[k..k + |t|][m];
    }
  }

  /** One ASCII letter or digit anywhere rules "only symbols" out. */
  lemma AlnumNotSymbols(s: string, i: nat)
    requires i < |s| && IsAsciiAlnum(s[i])
    ensures !IsOnlySymbols(s)
  {
    TrimKeeps(s, i);
  }

  /** A value made only of digits is also caught by the range rule. */
  lemma NumbersAreRanges(s: string)
    requires IsOnlyNumbers(s)
    ensures IsRawPercentOrRange(s)
  {
  }

  /** Digits followed by `%`, as in `3%`, are a bare percentage. */
  lemma DigitsPercent(d: string)
    requires |d| > 0 && AllDigits(d)
    ensures IsRawPercentOrRange(d + "%")
  {
    var t := d + "%";
    TrimNoSpace(t);
    assert t[..|t| - 1] == d;
  }

  /** Range characters, as in `500k - 1M`, are a bare range once they hold
      anything besides white space. */
  lemma RangeCharsAreRange(s: string, i: nat)
    requires i < |s| && !IsSpace(s[i])
    requires forall m :: 0 <= m < |s| ==> IsRangeChar(s[m])
    ensures IsRawPercentOrRange(s)
  {
    TrimKeeps(s, i);
    var t, k := Trim(s), TrimOffset(s);
    assert TrimmedAt(s, t, k);
    forall m | 0 <= m < |t|
      ensures IsRangeChar(t[m])
    {
      assert t[m] == s[k..k + |t|][m];
    }
  }

  /** A comparison sign before range characters, as in `<1M`, still makes a
      bare range. */
  lemma BoundedRange(c: char, s: string)
    requires c == '<' || c == '>'
    requires |s| > 0 && !IsSpace(s[|s| - 1])
    requires forall m :: 0 <= m < |s| ==> IsRangeChar(s[m])
    ensures IsRawPercentOrRange([c] + s)
  {
    var t := [c] + s;
    TrimNoSpace(t);
    assert t[1..] == s;
  }

  /** A character that is neither white space, nor in `[\d.kKmM-]`, nor one
      of `%`, `<`, `>` (the `d` of `3 days`, say) rules out both a
      percentage and a range. */
  lemma ForeignCharNotRange(s: string, i: nat)
    requires i < |s| && !IsSpace(s[i]) && !IsRangeChar(s[i])
    requires s[i] != '%' && s[i] != '<' && s[i] != '>'
    ensures !IsRawPercentOrRange(s)
  {
    TrimKeeps(s, i);
    var t, j := Trim(s), i - TrimOffset(s);
    assert t[j] == s[i];
    assert !PercentOnly(t) by {
      if j < |t| - 1 {
        assert t[..|t| - 1][j] == t[j];
      }
    }
    assert !RangeBody(t);
    if |t| > 0 && (t[0] == '<' || t[0] == '>') {
      assert t[1..][j - 1] == t[j];
    }
  }

  // ---------------------------------------------------------------------------
  // Key exemptions
  // ---------------------------------------------------------------------------

  lemma OccursHead(s: string, pat: string, i: nat)
    requires |pat| > 0
    ensures OccursAt(s, pat, i) ==> i < |s| && s[i] == pat[0]
  {
    if OccursAt(s, pat, i) {
      assert s[i..i + |pat|][0] == s[i];
    }
  }

  /** Every character of a text whose trimmed form is all digits is white
      space or a digit. */
  lemma DigitsAndSpace(s: string)
    requires IsOnlyNumbers(s)
    ensures forall m :: 0 <= m < |s| ==> IsSpace(s[m]) || IsDigit(s[m])
  {
    var t, i := Trim(s), TrimOffset(s);
    assert TrimmedAt(s, t, i);
    forall m | i <= m < i + |t|
      ensures IsDigit(s[m])
    {
      assert s[m] == t[m - i];
    }
  }

  /** Text made of digits and white space holds no URL. */
  lemma DigitsNoUrl(s: string)
    requires forall m :: 0 <= m < |s| ==> IsSpace(s[m]) || IsDigit(s[m])
    ensures !ContainsUrl(s)
  {
    forall i: nat | i <= |s|
      ensures !UrlAt(s, i)
    {
      OccursHead(s, "http://", i);
      OccursHead(s, "https://", i);
    }
  }

  /** Text made of digits and white space holds no markdown link. */
  lemma DigitsNoLink(s: string)
    requires forall m :: 0 <= m < |s| ==> IsSpace(s[m]) || IsDigit(s[m])
    ensures !ContainsMarkdownLink(s)
  {
    forall i: nat, j: nat, l: nat | i < |s| && j < |s| && l < |s|
      ensures !LinkSpan(s, i, j, l)
    {
      assert s[i] != '[';
    }
  }

  /** Text made of digits and white space holds no legal reference. */
  lemma DigitsNoLegalRef(s: string)
    requires forall m :: 0 <= m < |s| ==> IsSpace(s[m]) || IsDigit(s[m])
    ensures !ContainsLegalRef(s)
  {
    forall i: nat, n | i <= |s| && 0 <= n < |LegalWords|
      ensures !FoldedAt(s, i, LegalWords[n])
    {
      assert IsAsciiLetter(LegalWords[n][0]);
    }
  }

  /** A key that is only digits never carries an exemption, so it is deleted
      whatever its value. */
  lemma NumericKeyDeleted(key: string, val: string)
    requires IsOnlyNumbers(key)
    ensures !ContainsUrl(key) && !ContainsMarkdownLink(key) && !ContainsLegalRef(key)
    ensures ShouldDelete(key, val)
  {
    DigitsAndSpace(key);
    DigitsNoUrl(key);
    DigitsNoLink(key);
    DigitsNoLegalRef(key);
  }

  /** A legal reference in the key protects the entry, even with a masked value. */
  lemma LegalKeyKept()
    ensures ContainsLegalRef("NJ-1234") && !ShouldDelete("NJ-1234", "###")
  {
    var k := "NJ-1234";
    assert FoldedAt(k, 0, LegalWords[0]) && NumberAfter(k, 2);
    assert LegalRefAt(k, 0);
  }

  lemma UrlExample()
    ensures ContainsUrl("see https://x.io")
  {
    var u := "see https://x.io";
    assert OccursAt(u, "https://", 4);
    assert UrlAt(u, 4);
  }

  lemma MarkdownExample()
    ensures ContainsMarkdownLink("[a](b)")
  {
    assert LinkSpan("[a](b)", 0, 2, 5);
  }

  /** A URL in the value gives no protection: only the key is checked. */
  lemma UrlInValueDeleted()
    ensures ShouldDelete("title", "see https://x.io ###")
  {
    var v := "see https://x.io ###";
    assert TripleAt(v, 17);
    MaskedIffTriple(v);
    assert !ContainsUrl("title") && !ContainsMarkdownLink("title") && !ContainsLegalRef("title");
  }
}
