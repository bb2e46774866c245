/**
  Hand-written matchers for the one regular-expression shape the caption helpers,
  the reconciler's number fallback and the sentence protector share:
  `(?:kw1|kw2|...)\s*(\d+)` searched case-insensitively, optionally anchored at a
  word boundary `\b`.  Alternatives are tried in order at each position and the
  leftmost position wins, as in Python's `re.search`.
 */
module Scan {
  import opened Text
  import opened Wrappers

  /** `s` holds the lower-case keyword `kw` at position `i`, compared case-insensitively. */
  predicate KeywordAt(s: string, i: int, kw: string) {
    0 <= i && i + |kw| <= |s| && Lower(s[i..i + |kw|]) == kw
  }

  /** `\b` in front of a keyword that starts with a letter: the previous character is not a word character. */
  predicate WordStart(s: string, i: int)
    requires 0 <= i <= |s|
  {
    i == 0 || !IsWordChar(s[i - 1])
  }

  /** End of the whitespace run that starts at `j`. */
  function SkipSpaces(s: string, j: nat): (e: nat)
    requires j <= |s|
    ensures j <= e <= |s|
    ensures AllSpace(s[j..e])
    ensures e == |s| || !IsSpace(s[e])
    decreases |s| - j
  {
    if j < |s| && IsSpace(s[j]) then SkipSpaces(s, j + 1) else j
  }

  /** End of the digit run that starts at `j`: where a greedy `\d+` stops. */
  function SkipDigits(s: string, j: nat): (e: nat)
    requires j <= |s|
    ensures j <= e <= |s|
    ensures AllDigits(s[j..e])
    ensures e == |s| || !IsDigit(s[e])
    decreases |s| - j
  {
    if j < |s| && IsDigit(s[j]) then SkipDigits(s, j + 1) else j
  }

  /** A match of `kw\s*(\d+)`: where it starts, where the captured digits start, and where it ends. */
  datatype Hit = Hit(start: nat, digits: nat, end: nat)

  /** `h` is the match of `kw\s*(\d+)` at `i`: keyword, a whitespace run, and a maximal non-empty digit run. */
  predicate IsHitWith(s: string, i: int, kw: string, h: Hit) {
    && h.start == i
    && KeywordAt(s, i, kw)
    && i + |kw| <= h.digits < h.end <= |s|
    && AllSpace(s[i + |kw|..h.digits])
    && AllDigits(s[h.digits..h.end])
    && (h.end == |s| || !IsDigit(s[h.end]))
  }

  /** The digits a hit captures, `match.group(1)`. */
  function Captured(s: string, h: Hit): string
    requires h.digits <= h.end <= |s|
  {
    s[h.digits..h.end]
  }

  /** `kw\s*(\d+)` tried at position `i`. */
  function MatchWith(s: string, i: nat, kw: string): (r: Option<Hit>)
    requires i <= |s|
    ensures r.Some? ==> IsHitWith(s, i, kw, r.value)
  {
    if !KeywordAt(s, i, kw) then None
    else
      var d := SkipSpaces(s, i + |kw|);
      if d < |s| && IsDigit(s[d]) then Some(Hit(i, d, SkipDigits(s, d))) else None
  }

  /** Every match at `i` is the one `MatchWith` finds: the whitespace and digit runs leave no choice. */
  lemma HitDetermined(s: string, i: nat, kw: string, h: Hit)
    requires i <= |s| && IsHitWith(s, i, kw, h)
    ensures MatchWith(s, i, kw) == Some(h)
  {
    assert IsDigit(s[h.digits..h.end][0]);
    SkipSpacesRun(s, i + |kw|, h.digits);
    SkipDigitsRun(s, h.digits, h.end);
  }

  /** A non-empty run of digits is what every hit captures. */
  lemma CapturedIsNumber(s: string, i: int, kw: string, h: Hit)
    requires IsHitWith(s, i, kw, h)
    ensures IsNumber(Captured(s, h))
    ensures OccursAt(s, Captured(s, h), h.digits)
  {
  }

  /** The alternatives `kws` tried in order at position `i`; the first that matches wins. */
  function KeywordNumberAt(s: string, i: nat, kws: seq<string>): (r: Option<Hit>)
    requires i <= |s|
    ensures r.Some? ==> r.value.start == i && r.value.digits < r.value.end <= |s|
  {
    if |kws| == 0 then None
    else
      var m := MatchWith(s, i, kws[0]);
      if m.Some? then m else KeywordNumberAt(s, i, kws[1..])
  }

  /** What `KeywordNumberAt` reports is a hit of one of the alternatives, and of the first one that has a hit. */
  lemma {:induction false} KeywordNumberAtFirst(s: string, i: nat, kws: seq<string>)
    requires i <= |s|
    ensures var r := KeywordNumberAt(s, i, kws);
      r.Some? ==> exists k | 0 <= k < |kws| :: IsHitWith(s, i, kws[k], r.value)
                    && r == MatchWith(s, i, kws[k])
                    && forall k' | 0 <= k' < k :: MatchWith(s, i, kws[k']).None?
    ensures KeywordNumberAt(s, i, kws).None? <==> forall k | 0 <= k < |kws| :: MatchWith(s, i, kws[k]).None?
  {
    if |kws| > 0 && MatchWith(s, i, kws[0]).None? {
      KeywordNumberAtFirst(s, i, kws[1..]);
      assert forall k | 1 <= k < |kws| :: kws[k] == kws[1..][k - 1];
      var r := KeywordNumberAt(s, i, kws[1..]);
      if r.Some? {
        var k :| 0 <= k < |kws[1..]| && IsHitWith(s, i, kws[1..][k], r.value)
                    && r == MatchWith(s, i, kws[1..][k])
                    && forall k' | 0 <= k' < k :: MatchWith(s, i, kws[1..][k']).None?;
        assert IsHitWith(s, i, kws[k + 1], r.value);
      }
    }
  }

  /** Some alternative matches at `i` whenever a hit of any alternative starts there. */
  lemma HitFound(s: string, i: nat, kws: seq<string>, k: nat, h: Hit)
    requires i <= |s| && k < |kws| && IsHitWith(s, i, kws[k], h)
    ensures KeywordNumberAt(s, i, kws).Some?
  {
    HitDetermined(s, i, kws[k], h);
    KeywordNumberAtFirst(s, i, kws);
  }

  /** None of the alternatives matches at `i`. */
  predicate NoMatchAt(s: string, i: nat, kws: seq<string>)
    requires i <= |s|
  {
    KeywordNumberAt(s, i, kws).None?
  }

  /** `re.search`: the first position at or after `from` where one of the alternatives matches. */
  function SearchFrom(s: string, kws: seq<string>, from: nat): (r: Option<Hit>)
    requires from <= |s|
    ensures r.Some? ==> from <= r.value.start <= |s| && KeywordNumberAt(s, r.value.start, kws) == r
    decreases |s| - from
  {
    var m := KeywordNumberAt(s, from, kws);
    if m.Some? then m
    else if from == |s| then None
    else SearchFrom(s, kws, from + 1)
  }

  /** The position `SearchFrom` reports is the leftmost one, and it reports none only when no position matches. */
  lemma {:induction false} SearchFromLeftmost(s: string, kws: seq<string>, from: nat)
    requires from <= |s|
    ensures var r := SearchFrom(s, kws, from);
      r.Some? ==> forall i | from <= i < r.value.start :: NoMatchAt(s, i, kws)
    ensures SearchFrom(s, kws, from).None? ==> forall i | from <= i <= |s| :: NoMatchAt(s, i, kws)
    decreases |s| - from
  {
    if KeywordNumberAt(s, from, kws).None? && from < |s| {
      SearchFromLeftmost(s, kws, from + 1);
    }
  }

  function Search(s: string, kws: seq<string>): (r: Option<Hit>)
    ensures r.Some? ==> r.value.start <= |s| && KeywordNumberAt(s, r.value.start, kws) == r
    ensures r.Some? ==> forall i | 0 <= i < r.value.start :: NoMatchAt(s, i, kws)
    ensures r.None? ==> forall i | 0 <= i <= |s| :: NoMatchAt(s, i, kws)
  {
    SearchFromLeftmost(s, kws, 0);
    SearchFrom(s, kws, 0)
  }

  /** The first number `Search` captures, as `re.search(...).group(1)`, or none. */
  function FirstNumber(s: string, kws: seq<string>): (r: Option<string>)
    ensures r.Some? ==> IsNumber(r.value) && Contains(s, r.value)
    ensures r.None? <==> Search(s, kws).None?
  {
    var h := Search(s, kws);
    if h.None? then None
    else
      KeywordNumberAtFirst(s, h.value.start, kws);
      var k :| 0 <= k < |kws| && IsHitWith(s, h.value.start, kws[k], h.value);
      CapturedIsNumber(s, h.value.start, kws[k], h.value);
      Some(Captured(s, h.value))
  }

  /** Some alternative occurs at a word start at or after `from`: `re.search(r'\b(?:...)', s)` succeeds. */
  predicate HasWordStartKeyword(s: string, kws: seq<string>, from: nat) {
    exists i, k | from <= i < |s| && 0 <= k < |kws| :: WordStart(s, i) && KeywordAt(s, i, kws[k])
  }

  /** Whether any alternative occurs at position `i`. */
  function AnyKeywordAt(s: string, i: nat, kws: seq<string>): (b: bool)
    ensures b <==> exists k | 0 <= k < |kws| :: KeywordAt(s, i, kws[k])
  {
    if |kws| == 0 then false
    else if KeywordAt(s, i, kws[0]) then true
    else
      var b := AnyKeywordAt(s, i, kws[1..]);
      assert forall k | 1 <= k < |kws| :: kws[k] == kws[1..][k - 1];
      b
  }

  /** The scan behind `re.search(r'\b(?:...)', s)`: tries every position from `from` on. */
  function FindWordStartKeyword(s: string, kws: seq<string>, from: nat): (b: bool)
    requires from <= |s|
    ensures b <==> HasWordStartKeyword(s, kws, from)
    decreases |s| - from
  {
    if from == |s| then false
    else if WordStart(s, from) && AnyKeywordAt(s, from, kws) then true
    else FindWordStartKeyword(s, kws, from + 1)
  }

  /** Every hit starts with one of the alternatives: a text holding none of them anywhere has no hit. */
  lemma SearchNeedsKeyword(s: string, kws: seq<string>)
    requires Search(s, kws).Some?
    ensures exists i, k | 0 <= i <= |s| && 0 <= k < |kws| :: KeywordAt(s, i, kws[k])
  {
    var h := Search(s, kws).value;
    KeywordNumberAtFirst(s, h.start, kws);
    var k :| 0 <= k < |kws| && IsHitWith(s, h.start, kws[k], h);
    assert KeywordAt(s, h.start, kws[k]);
  }

  /** A keyword found at `i` starts with the character that lowers to the keyword's first letter. */
  lemma KeywordInitial(s: string, i: int, kw: string)
    requires KeywordAt(s, i, kw) && |kw| > 0
    ensures ToLower(s[i]) == kw[0]
  {
    assert Lower(s[i..i + |kw|])[0] == ToLower(s[i]);
  }

  /**
    A text that opens with alternative `k` (in any case), one space and a number not
    followed by a further digit, where no earlier alternative matches: that is the hit.
   */
  lemma LeadingHit(s: string, kws: seq<string>, k: nat, w: string, n: string, rest: string)
    requires k < |kws| && Lower(w) == kws[k] && IsNumber(n) && s == w + " " + n + rest
    requires |rest| == 0 || !IsDigit(rest[0])
    requires forall k' | 0 <= k' < k :: MatchWith(s, 0, kws[k']).None?
    ensures KeywordNumberAt(s, 0, kws) == Some(Hit(0, |w| + 1, |w| + 1 + |n|))
  {
    var h := Hit(0, |w| + 1, |w| + 1 + |n|);
    assert s[0..|w|] == w;
    assert s[|w|..|w| + 1] == " ";
    assert s[|w| + 1..|w| + 1 + |n|] == n;
    if |rest| > 0 {
      assert s[h.end] == rest[0];
    }
    assert IsHitWith(s, 0, kws[k], h);
    HitDetermined(s, 0, kws[k], h);
    KeywordNumberAtFirst(s, 0, kws);
  }

  /** A text that is such an alternative, one space and a number: the search captures exactly that number. */
  lemma LeadingNumber(s: string, kws: seq<string>, k: nat, w: string, n: string)
    requires k < |kws| && Lower(w) == kws[k] && IsNumber(n) && s == w + " " + n
    requires forall k' | 0 <= k' < k :: MatchWith(s, 0, kws[k']).None?
    ensures FirstNumber(s, kws) == Some(n)
  {
    var h := Hit(0, |w| + 1, |s|);
    LeadingHit(s, kws, k, w, n, "");
    assert SearchFrom(s, kws, 0) == Some(h);
    assert s[|w| + 1..|s|] == n;
  }

  /** Index of the first digit at or after `from`, or `|s|` when there is none. */
  function DigitFrom(s: string, from: nat): (i: nat)
    requires from <= |s|
    ensures from <= i <= |s|
    ensures forall j | from <= j < i :: !IsDigit(s[j])
    ensures i < |s| ==> IsDigit(s[i])
    decreases |s| - from
  {
    if from == |s| || IsDigit(s[from]) then from else DigitFrom(s, from + 1)
  }

  /** `s[i..e]` is the first maximal run of digits in `s`. */
  predicate FirstRun(s: string, i: int, e: int) {
    && 0 <= i < e <= |s|
    && (forall j | 0 <= j < i :: !IsDigit(s[j]))
    && AllDigits(s[i..e])
    && (e == |s| || !IsDigit(s[e]))
  }

  /** `re.search(r'(\d+)', s).group(1)`: the first run of digits, or none. */
  function FirstDigits(s: string): (r: Option<string>)
    ensures r.None? <==> forall j | 0 <= j < |s| :: !IsDigit(s[j])
    ensures r.Some? ==> exists i, e | FirstRun(s, i, e) :: r.value == s[i..e]
    ensures r.Some? ==> IsNumber(r.value)
  {
    var i := DigitFrom(s, 0);
    if i == |s| then None
    else
      var e := SkipDigits(s, i);
      assert FirstRun(s, i, e);
      Some(s[i..e])
  }

  /** A text in which no character lowers to `c` holds no alternative starting with `c`. */
  lemma NoInitialNoKeyword(s: string, kws: seq<string>, c: char)
    requires forall i | 0 <= i < |s| :: ToLower(s[i]) != c
    requires forall k | 0 <= k < |kws| :: |kws[k]| > 0 && kws[k][0] == c
    ensures forall i, k | 0 <= i <= |s| && 0 <= k < |kws| :: !KeywordAt(s, i, kws[k])
  {
  }

  /** A maximal digit run from `j` to `k` is where `SkipDigits` stops. */
  lemma {:induction false} SkipDigitsRun(s: string, j: nat, k: nat)
    requires j <= k <= |s| && AllDigits(s[j..k]) && (k == |s| || !IsDigit(s[k]))
    ensures SkipDigits(s, j) == k
    decreases k - j
  {
    if j < k {
      assert IsDigit(s[j..k][0]);
      assert s[j + 1..k] == s[j..k][1..];
      SkipDigitsRun(s, j + 1, k);
    }
  }

  /** A maximal whitespace run from `j` to `k` is where `SkipSpaces` stops. */
  lemma {:induction false} SkipSpacesRun(s: string, j: nat, k: nat)
    requires j <= k <= |s| && AllSpace(s[j..k]) && (k == |s| || !IsSpace(s[k]))
    ensures SkipSpaces(s, j) == k
    decreases k - j
  {
    if j < k {
      assert IsSpace(s[j..k][0]);
      assert s[j + 1..k] == s[j..k][1..];
      SkipSpacesRun(s, j + 1, k);
    }
  }

  /** Stripping starts at the first non-space character. */
  lemma StripFirst(s: string)
    requires SkipSpaces(s, 0) < |s|
    ensures |Strip(s)| > 0 && Strip(s)[0] == s[SkipSpaces(s, 0)]
  {
    var k := SkipSpaces(s, 0);
    LStripFrom(s, k);
    var l := LStrip(s);
    var a := |s| - |l|;
    assert !AllSpace(s) by {
      assert !IsSpace(s[k]);
    }
    assert l[0] == s[k];
  }

  /** A digit run read after a prefix is the same run. */
  lemma SkipDigitsShift(pre: string, rest: string)
    ensures SkipDigits(pre + rest, |pre|) == |pre| + SkipDigits(rest, 0)
  {
    var s := pre + rest;
    var d := SkipDigits(rest, 0);
    assert s[|pre|..|pre| + d] == rest[0..d];
    assert |pre| + d < |s| ==> s[|pre| + d] == rest[d];
    SkipDigitsRun(s, |pre|, |pre| + d);
  }
}
