/** Filename classification in efficientnet_pytorch/test_segmentation.py:
    the input-image test `re.search(r'\d+\.\w+', filename)` (line 20), the
    pair-indexer's filter `re.search(r'(\d+)\.\w+', img)` (line 49), the stem
    `re.search(r'\d+', img).group()` (line 51) and the mask name built from it
    (line 52).  `\d` is taken as ASCII '0'..'9' and `\w` as ASCII letters,
    digits and '_'. */
module FileNames {

  import opened Wrappers

  /** `\d`, restricted to ASCII. */
  predicate IsDigit(c: char) {
    '0' <= c <= '9'
  }

  /** `\w`, restricted to ASCII. */
  predicate IsWordChar(c: char) {
    IsDigit(c) || 'a' <= c <= 'z' || 'A' <= c <= 'Z' || c == '_'
  }

  predicate AllDigits(s: string) {
    forall k :: 0 <= k < |s| ==> IsDigit(s[k])
  }

  predicate NoDigits(s: string) {
    forall k :: 0 <= k < |s| ==> !IsDigit(s[k])
  }

  predicate AllWordChars(s: string) {
    forall k :: 0 <= k < |s| ==> IsWordChar(s[k])
  }

  // ---------------------------------------------------------------------------
  // Line 20: `\d+\.\w+`, searched anywhere in the string.
  // ---------------------------------------------------------------------------

  /** The meaning of the regular expression: `s[i..k]` is a match of
      `\d+\.\w+` whose '.' sits at position `j`. */
  ghost predicate PatternSpan(s: string, i: int, j: int, k: int) {
    0 <= i < j && j + 1 < k <= |s|
    && AllDigits(s[i..j]) && s[j] == '.' && AllWordChars(s[j + 1..k])
  }

  /** `re.search(r'\d+\.\w+', s)` finds a match. */
  ghost predicate PatternOccurs(s: string) {
    exists i, j, k :: PatternSpan(s, i, j, k)
  }

  /** A digit, then '.', then a word character, starting at position `m`. */
  predicate DigitDotWordAt(s: string, m: int) {
    0 <= m && m + 2 < |s| && IsDigit(s[m]) && s[m + 1] == '.' && IsWordChar(s[m + 2])
  }

  /** Scans `s[i..]` for a digit-dot-word triple. */
  function DigitDotWordFrom(s: string, i: nat): (b: bool)
    requires i <= |s|
    ensures b <==> exists m :: i <= m && DigitDotWordAt(s, m)
    decreases |s| - i
  {
    if i + 2 >= |s| then false
    else DigitDotWordAt(s, i) || DigitDotWordFrom(s, i + 1)
  }

  /** `is_input_image` (line 20): the unanchored search succeeds. */
  predicate IsInputImage(filename: string) {
    DigitDotWordFrom(filename, 0)
  }

  /** The scan decides exactly the regular expression's search. */
  lemma InputImageIffPatternOccurs(s: string)
    ensures IsInputImage(s) <==> PatternOccurs(s)
  {
    if IsInputImage(s) {
      var m :| 0 <= m && DigitDotWordAt(s, m);
      assert AllDigits(s[m..m + 1]);
      assert AllWordChars(s[m + 2..m + 3]);
      assert PatternSpan(s, m, m + 1, m + 3);
    }
    if PatternOccurs(s) {
      var i, j, k :| PatternSpan(s, i, j, k);
      assert s[i..j][j - 1 - i] == s[j - 1];
      assert s[j + 1..k][0] == s[j + 1];
      assert DigitDotWordAt(s, j - 1);
    }
  }

  /** The search is unanchored: a directory prefix keeps a matching name matching. */
  lemma InputImageUnderPrefix(dir: string, s: string)
    requires IsInputImage(s)
    ensures IsInputImage(dir + s)
  {
    var m :| 0 <= m && DigitDotWordAt(s, m);
    assert DigitDotWordAt(dir + s, |dir| + m);
  }

  /** ... and so does anything appended after the match. */
  lemma InputImageUnderSuffix(s: string, rest: string)
    requires IsInputImage(s)
    ensures IsInputImage(s + rest)
  {
    var m :| 0 <= m && DigitDotWordAt(s, m);
    assert DigitDotWordAt(s + rest, m);
  }

  /** Because the test sees the full path, a directory component alone can make a
      mask file pass: the mask name fails, the same name under `v1.2/` passes. */
  lemma DirectoryCanAdmitMask()
    ensures !IsInputImage("5_true_seg.png")
    ensures IsInputImage("SPI_eval/v1.2/5_true_seg.png")
  {
    assert DigitDotWordAt("SPI_eval/v1.2/5_true_seg.png", 10);
  }

  // ---------------------------------------------------------------------------
  // Line 49: `(\d+)\.\w+`, the same pattern with the digits captured.
  // ---------------------------------------------------------------------------

  /** The length of the maximal run of digits starting at position `i`. */
  function DigitRunLength(s: string, i: nat): (n: nat)
    requires i <= |s|
    ensures i + n <= |s|
    ensures forall k :: i <= k < i + n ==> IsDigit(s[k])
    ensures i + n == |s| || !IsDigit(s[i + n])
    decreases |s| - i
  {
    if i < |s| && IsDigit(s[i]) then 1 + DigitRunLength(s, i + 1) else 0
  }

  /** `(\d+)\.\w+` matches at position `i`: the greedy digit run from `i` is
      followed by '.' and a word character (a shorter run would be followed by a
      digit, never by '.', so backtracking cannot help). */
  predicate StemPatternAt(s: string, i: nat)
    requires i <= |s|
  {
    var n := DigitRunLength(s, i);
    0 < n && i + n + 1 < |s| && s[i + n] == '.' && IsWordChar(s[i + n + 1])
  }

  /** A match at `i` in the sense of the regular expression is exactly `StemPatternAt`. */
  lemma StemPatternAtIffSpan(s: string, i: nat)
    requires i <= |s|
    ensures StemPatternAt(s, i) <==> exists j, k :: PatternSpan(s, i, j, k)
  {
    var n := DigitRunLength(s, i);
    if StemPatternAt(s, i) {
      assert AllDigits(s[i..i + n]);
      assert AllWordChars(s[i + n + 1..i + n + 2]);
      assert PatternSpan(s, i, i + n, i + n + 2);
    }
    if exists j, k :: PatternSpan(s, i, j, k) {
      var j, k :| PatternSpan(s, i, j, k);
      if n < j - i {
        assert false;
      }
      if n > j - i {
        assert false;
      }
      assert s[j + 1..k][0] == s[j + 1];
    }
  }

  /** Group 1 of the leftmost match of `(\d+)\.\w+` that starts in `s[i..]`. */
  function StemPatternSearchFrom(s: string, i: nat): Option<string>
    requires i <= |s|
    decreases |s| - i
  {
    if i == |s| then None
    else if StemPatternAt(s, i) then Some(s[i..i + DigitRunLength(s, i)])
    else StemPatternSearchFrom(s, i + 1)
  }

  /** The search from `i` finds nothing exactly when no position of `s[i..]` matches. */
  lemma {:induction false} StemPatternSearchFromNone(s: string, i: nat)
    requires i <= |s|
    ensures StemPatternSearchFrom(s, i).None? <==> forall m :: i <= m <= |s| ==> !StemPatternAt(s, m)
    decreases |s| - i
  {
    if i < |s| && !StemPatternAt(s, i) {
      StemPatternSearchFromNone(s, i + 1);
    }
  }

  /** A result of the search from `i` is the digit run of the leftmost matching position. */
  lemma {:induction false} StemPatternSearchFromSome(s: string, i: nat)
    requires i <= |s| && StemPatternSearchFrom(s, i).Some?
    ensures exists m ::
      i <= m <= |s| && StemPatternAt(s, m)
      && (forall m' :: i <= m' < m ==> !StemPatternAt(s, m'))
      && StemPatternSearchFrom(s, i).value == s[m..m + DigitRunLength(s, m)]
    decreases |s| - i
  {
    if !StemPatternAt(s, i) {
      StemPatternSearchFromSome(s, i + 1);
    }
  }

  /** Both halves together: nothing is found exactly when no position matches, and
      otherwise the result is the digit run of the leftmost matching position. */
  lemma StemPatternSearchFromSpec(s: string, i: nat)
    requires i <= |s|
    ensures StemPatternSearchFrom(s, i).None? <==> forall m :: i <= m <= |s| ==> !StemPatternAt(s, m)
    ensures StemPatternSearchFrom(s, i).Some? ==>
      exists m :: i <= m <= |s| && StemPatternAt(s, m)
        && (forall m' :: i <= m' < m ==> !StemPatternAt(s, m'))
        && StemPatternSearchFrom(s, i).value == s[m..m + DigitRunLength(s, m)]
  {
    StemPatternSearchFromNone(s, i);
    if StemPatternSearchFrom(s, i).Some? {
      StemPatternSearchFromSome(s, i);
    }
  }

  /** `re.search(r'(\d+)\.\w+', s)`, reduced to its captured group. */
  function StemPatternSearch(s: string): Option<string> {
    StemPatternSearchFrom(s, 0)
  }

  /** The line-49 filter: the search returns a match (a match object is truthy). */
  predicate IsValidImage(img: string) {
    StemPatternSearch(img).Some?
  }

  /** A line-49 match ends its digit run with a digit-dot-word triple. */
  lemma ValidImageIsInputImage(s: string)
    requires IsValidImage(s)
    ensures IsInputImage(s)
  {
    StemPatternSearchFromSpec(s, 0);
    var m :| 0 <= m <= |s| && StemPatternAt(s, m);
    var n := DigitRunLength(s, m);
    assert IsDigit(s[m + n - 1]);
    assert DigitDotWordAt(s, m + n - 1);
  }

  /** A digit-dot-word triple is a line-49 match of a one-digit run. */
  lemma InputImageIsValidImage(s: string)
    requires IsInputImage(s)
    ensures IsValidImage(s)
  {
    var m :| 0 <= m && DigitDotWordAt(s, m);
    assert DigitRunLength(s, m + 1) == 0;
    assert StemPatternAt(s, m);
    StemPatternSearchFromSpec(s, 0);
  }

  /** The line-49 filter and the line-20 predicate accept exactly the same strings. */
  lemma ValidImageIffInputImage(s: string)
    ensures IsValidImage(s) <==> IsInputImage(s)
  {
    if IsValidImage(s) {
      ValidImageIsInputImage(s);
    }
    if IsInputImage(s) {
      InputImageIsValidImage(s);
    }
  }

  // ---------------------------------------------------------------------------
  // Line 51: `re.search(r'\d+', img).group()`.
  // ---------------------------------------------------------------------------

  /** The position of the first digit at or after `i`, or `|s|` if there is none. */
  function FirstDigitFrom(s: string, i: nat): (p: nat)
    requires i <= |s|
    ensures i <= p <= |s|
    ensures forall k :: i <= k < p ==> !IsDigit(s[k])
    ensures p < |s| ==> IsDigit(s[p])
    decreases |s| - i
  {
    if i == |s| || IsDigit(s[i]) then i else FirstDigitFrom(s, i + 1)
  }

  /** `s[p..p + n]` is the first maximal run of digits in `s`. */
  ghost predicate IsFirstDigitRun(s: string, p: int, n: int) {
    0 <= p && 0 < n && p + n <= |s|
    && (forall k :: 0 <= k < p ==> !IsDigit(s[k]))
    && (forall k :: p <= k < p + n ==> IsDigit(s[k]))
    && (p + n == |s| || !IsDigit(s[p + n]))
  }

  /** There is at most one first maximal digit run. */
  lemma FirstDigitRunUnique(s: string, p: int, n: int, q: int, m: int)
    requires IsFirstDigitRun(s, p, n) && IsFirstDigitRun(s, q, m)
    ensures p == q && n == m
  {
    assert IsDigit(s[p]) && IsDigit(s[q]);
    assert p == q;
  }

  /** The stem of line 51: the first maximal digit run, or `None` (where Python
      would raise on `None.group()`) when `s` holds no digit. */
  function ExtractStem(s: string): (r: Option<string>)
    ensures r.None? <==> NoDigits(s)
    ensures r.Some? ==> r.value != [] && AllDigits(r.value)
    ensures r.Some? ==> exists p :: IsFirstDigitRun(s, p, |r.value|) && r.value == s[p..p + |r.value|]
  {
    var p := FirstDigitFrom(s, 0);
    if p == |s| then None
    else
      var n := DigitRunLength(s, p);
      assert IsFirstDigitRun(s, p, n);
      Some(s[p..p + n])
  }

  /** Every name the line-49 filter keeps has a stem, so line 51 never fails on it. */
  lemma ValidImageHasStem(img: string)
    requires IsValidImage(img)
    ensures ExtractStem(img).Some?
  {
    StemPatternSearchFromSpec(img, 0);
    var m :| 0 <= m <= |img| && StemPatternAt(img, m);
    assert IsDigit(img[m]);
  }

  /** Whatever surrounds it, a name's first digit run is its stem; in particular a
      name with exactly one digit run yields that run verbatim. */
  lemma StemOfFirstRun(prefix: string, digits: string, rest: string)
    requires NoDigits(prefix) && digits != [] && AllDigits(digits)
    requires rest == [] || !IsDigit(rest[0])
    ensures ExtractStem(prefix + digits + rest) == Some(digits)
  {
    var s := prefix + digits + rest;
    assert IsFirstDigitRun(s, |prefix|, |digits|) by {
      forall k | |prefix| <= k < |prefix| + |digits| ensures IsDigit(s[k]) {
        assert s[k] == digits[k - |prefix|];
      }
      if rest != [] {
        assert s[|prefix| + |digits|] == rest[0];
      }
    }
    assert IsDigit(s[|prefix|]);
    var v := ExtractStem(s).value;
    var p :| IsFirstDigitRun(s, p, |v|) && v == s[p..p + |v|];
    FirstDigitRunUnique(s, p, |v|, |prefix|, |digits|);
    assert s[|prefix|..|prefix| + |digits|] == digits;
  }

  /** Line 51 takes the FIRST digit run of "a1b2.png" as its stem ... */
  lemma StemOfTwoRunName()
    ensures ExtractStem("a1b2.png") == Some("1")
  {
    assert "a1b2.png" == "a" + "1" + "b2.png";
    StemOfFirstRun("a", "1", "b2.png");
  }

  /** ... although the line-49 filter accepted it for the run "2" before the
      extension: the stem is not necessarily the captured group. */
  lemma CapturedRunOfTwoRunName()
    ensures IsValidImage("a1b2.png")
    ensures StemPatternSearch("a1b2.png") == Some("2")
  {
    var s := "a1b2.png";
    assert !StemPatternAt(s, 0) && !StemPatternAt(s, 1) && !StemPatternAt(s, 2) by {
      assert DigitRunLength(s, 0) == 0;
      assert DigitRunLength(s, 2) == 0;
      assert DigitRunLength(s, 1) == 1;
    }
    assert StemPatternSearchFrom(s, 3) == Some("2") by {
      assert DigitRunLength(s, 4) == 0;
      assert DigitRunLength(s, 3) == 1;
      assert StemPatternAt(s, 3);
      assert s[3..4] == "2";
    }
    assert StemPatternSearchFrom(s, 2) == StemPatternSearchFrom(s, 3);
    assert StemPatternSearchFrom(s, 1) == StemPatternSearchFrom(s, 2);
    assert StemPatternSearchFrom(s, 0) == StemPatternSearchFrom(s, 1);
  }

  // ---------------------------------------------------------------------------
  // Line 52: the mask file name.
  // ---------------------------------------------------------------------------

  const MaskSuffix: string := "_true_seg.png"

  /** `f"{stem}_true_seg.png"`, or `None` where line 51 would fail. */
  function MaskName(img: string): Option<string> {
    match ExtractStem(img)
    case Some(stem) => Some(stem + MaskSuffix)
    case None => None
  }

  /** A mask name is never itself an input image, under either pattern. */
  lemma MaskNameIsNotInputImage(img: string)
    requires MaskName(img).Some?
    ensures !IsInputImage(MaskName(img).value)
    ensures !IsValidImage(MaskName(img).value)
  {
    var stem := ExtractStem(img).value;
    var mask := stem + MaskSuffix;
    assert NoDigits(MaskSuffix);
    ValidImageIffInputImage(mask);
  }

  /** A name with one digit run: kept by the filter, and paired with the mask
      name built from that run. */
  lemma SingleRunNameMask()
    ensures IsValidImage("5.png")
    ensures MaskName("5.png") == Some("5_true_seg.png")
  {
    assert IsInputImage("5.png") by {
      assert DigitDotWordAt("5.png", 0);
    }
    ValidImageIffInputImage("5.png");
    assert ExtractStem("5.png") == Some("5") by {
      assert "5.png" == "" + "5" + ".png";
      StemOfFirstRun("", "5", ".png");
    }
    assert "5" + MaskSuffix == "5_true_seg.png";
  }
}
