/**
  Section extraction by heading (`paper_vis/extractContentByHeading.py`): headings
  are compared through a "clean words" form (no `#`, no leading `N.` numbering,
  only word characters, whitespace, CJK ideographs and hyphens, single-spaced and
  lower-cased), and a section runs from the line of the target heading up to the
  line of the heading listed after it, or to the end of the document.
 */
module Headings {
  import opened Text
  import opened Scan

  /** `_normalizeHeading`: stripped, and a leading `#` glued to the stripped rest. */
  function NormalizeHeading(h: string): (r: string)
    ensures h == "" ==> r == ""
    ensures Stripped(r)
    ensures StartsWith(r, "#") <==> StartsWith(Strip(h), "#")
  {
    if h == "" then ""
    else
      var n := Strip(h);
      if StartsWith(n, "#") then "#" + Strip(n[1..]) else n
  }

  /** Normalising a normalised heading changes nothing. */
  lemma NormalizeIdempotent(h: string)
    ensures NormalizeHeading(NormalizeHeading(h)) == NormalizeHeading(h)
  {
    var r := NormalizeHeading(h);
    if r != "" {
      StrippedFixed(r);
      if StartsWith(r, "#") {
        var c := Strip(Strip(h)[1..]);
        assert r == "#" + c && r[1..] == c;
        StrippedFixed(c);
      }
    }
  }

  /** One leading `#` removed and the rest stripped again. */
  function DropHash(s: string): string {
    if StartsWith(s, "#") then Strip(s[1..]) else s
  }

  /** `re.sub(r'^\d+\.\s*', '', s)`: a leading `N.` and the whitespace after it removed. */
  function DropNumbering(s: string): (r: string)
    ensures |r| <= |s| && r == s[|s| - |r|..]
  {
    var d := SkipDigits(s, 0);
    if d > 0 && d < |s| && s[d] == '.' then s[SkipSpaces(s, d + 1)..] else s
  }

  /** The steps both heading forms start with: strip, drop one `#`, drop the numbering. */
  function HeadingCore(h: string): string {
    DropNumbering(DropHash(Strip(h)))
  }

  /** Text holds any of its suffixes. */
  lemma ContainsSuffix(s: string, k: nat)
    requires k <= |s|
    ensures Contains(s, s[k..])
  {
    assert OccursAt(s, s[k..], k);
  }

  lemma DropHashIn(n: string)
    ensures Contains(n, DropHash(n))
  {
    if StartsWith(n, "#") {
      ContainsSuffix(n, 1);
      ContainsStrip(n[1..]);
      ContainsTrans(n, n[1..], DropHash(n));
    } else {
      ContainsSuffix(n, 0);
      assert n[0..] == n;
    }
  }

  /** The core of a heading is a piece of it. */
  lemma CoreInHeading(h: string)
    ensures Contains(h, HeadingCore(h))
  {
    var d := DropHash(Strip(h));
    StrippedHashIn(h);
    NumberingIn(d);
    ContainsTrans(h, d, DropNumbering(d));
  }

  lemma StrippedHashIn(h: string)
    ensures Contains(h, DropHash(Strip(h)))
  {
    ContainsStrip(h);
    DropHashIn(Strip(h));
    ContainsTrans(h, Strip(h), DropHash(Strip(h)));
  }

  lemma NumberingIn(d: string)
    ensures Contains(d, DropNumbering(d))
  {
    ContainsSuffix(d, |d| - |DropNumbering(d)|);
  }

  /** `_extractHeadingContent`: no `#`, no numbering, whitespace collapsed. */
  function HeadingContent(h: string): (r: string)
    ensures SingleSpaced(r)
  {
    if h == "" then ""
    else
      NormalizeSpaceShape(HeadingCore(h));
      NormalizeSpace(HeadingCore(h))
  }

  /** The heading content is single-spaced text made of the heading's own non-space characters. */
  lemma HeadingContentChars(h: string)
    ensures var r := HeadingContent(h);
      forall i | 0 <= i < |r| :: r[i] == ' ' || (!IsSpace(r[i]) && r[i] in h)
  {
    if h != "" {
      var c := HeadingCore(h);
      CoreInHeading(h);
      ContainsChars(h, c);
      NormalizeSpaceShape(c);
    }
  }

  /** The characters `[\w\s一-鿿\-]` keeps. */
  predicate Keep(c: char) {
    IsWordChar(c) || IsSpace(c) || ('一' <= c <= '鿿') || c == '-'
  }

  /** `re.sub(r'[^\w\s一-鿿\-]', '', s)`: every other character deleted. */
  function KeepOnly(s: string): (r: string)
    ensures |r| <= |s|
    ensures forall i | 0 <= i < |r| :: Keep(r[i]) && r[i] in s
    decreases |s|
  {
    if |s| == 0 then ""
    else
      var rest := KeepOnly(s[1..]);
      if Keep(s[0]) then [s[0]] + rest else rest
  }

  /** Deleting the unwanted characters keeps the wanted ones, in order: a text of wanted characters is untouched. */
  lemma {:induction false} KeepOnlyFixed(s: string)
    requires forall i | 0 <= i < |s| :: Keep(s[i])
    ensures KeepOnly(s) == s
    decreases |s|
  {
    if |s| > 0 {
      KeepOnlyFixed(s[1..]);
      assert [s[0]] + s[1..] == s;
    }
  }

  /** `_extractCleanWords`. */
  function CleanWords(h: string): (r: string)
    ensures SingleSpaced(r)
    ensures forall i | 0 <= i < |r| :: Keep(r[i]) && !('A' <= r[i] <= 'Z')
  {
    if h == "" then ""
    else
      var k := KeepOnly(HeadingCore(h));
      CleanForm(k);
      Lower(NormalizeSpace(k))
  }

  /** Collapsing the spacing of wanted characters and lower-casing them gives single-spaced, wanted, lower-case text. */
  lemma CleanForm(k: string)
    requires forall i | 0 <= i < |k| :: Keep(k[i])
    ensures var r := Lower(NormalizeSpace(k));
      SingleSpaced(r) && forall i | 0 <= i < |r| :: Keep(r[i]) && !('A' <= r[i] <= 'Z')
  {
    var n := NormalizeSpace(k);
    assert SingleSpaced(n) && forall i | 0 <= i < |n| :: Keep(n[i]) by {
      NormalizeSpaceShape(k);
      forall i | 0 <= i < |n| ensures Keep(n[i]) {
        if n[i] != ' ' {
          var j :| 0 <= j < |k| && k[j] == n[i];
        }
      }
    }
    LowerKeeps(n);
  }

  lemma LowerKeeps(n: string)
    requires SingleSpaced(n) && forall i | 0 <= i < |n| :: Keep(n[i])
    ensures var r := Lower(n);
      SingleSpaced(r) && forall i | 0 <= i < |r| :: Keep(r[i]) && !('A' <= r[i] <= 'Z')
  {
    LowerSpacing(n);
  }

  /** Lower-casing keeps the spacing of a single-spaced text, and keeps wanted characters wanted. */
  lemma LowerSpacing(c: string)
    requires SingleSpaced(c)
    ensures SingleSpaced(Lower(c))
    ensures forall i | 0 <= i < |c| :: Keep(c[i]) ==> Keep(Lower(c)[i])
  {
    var l := Lower(c);
    forall i | 0 <= i < |c| ensures (IsSpace(l[i]) <==> IsSpace(c[i])) && (l[i] == ' ' <==> c[i] == ' ') {
    }
  }

  /** `_isHeadingMatch`: equal, non-empty clean forms. */
  predicate HeadingMatch(h1: string, h2: string) {
    CleanWords(h1) != "" && CleanWords(h2) != "" && CleanWords(h1) == CleanWords(h2)
  }

  /** Matching is symmetric and transitive: headings match exactly when they share one non-empty clean form. */
  lemma HeadingMatchClasses(h1: string, h2: string, h3: string)
    ensures HeadingMatch(h1, h2) <==> HeadingMatch(h2, h1)
    ensures HeadingMatch(h1, h2) && HeadingMatch(h2, h3) ==> HeadingMatch(h1, h3)
    ensures HeadingMatch(h1, h1) <==> CleanWords(h1) != ""
  {
  }

  /** Strip of a single space followed by a stripped, non-empty text. */
  lemma StripAfterSpace(x: string)
    requires |x| > 0 && Stripped(x)
    ensures Strip(" " + x) == x
  {
    assert (" " + x)[1..] == x;
    LStripFrom(" " + x, 1);
    RStripTo(x, |x|);
  }

  /** `# t` loses its `#` and the space after it. */
  lemma HashDropped(t: string)
    requires |t| > 0 && Stripped(t)
    ensures DropHash(Strip("# " + t)) == t
  {
    var s := "# " + t;
    assert s[..1] == "#" && s[1..] == " " + t;
    assert Strip(s) == s by {
      assert s[0] == '#' && s[|s| - 1] == t[|t| - 1];
      StrippedFixed(s);
    }
    assert Strip(s[1..]) == t by {
      StripAfterSpace(t);
    }
  }

  /** `N. body` loses its numbering. */
  lemma NumberDropped(n: string, body: string)
    requires IsNumber(n) && |body| > 0 && !IsDigit(body[0]) && !IsSpace(body[0])
    ensures DropNumbering(n + ". " + body) == body
  {
    var t := n + ". " + body;
    assert SkipDigits(t, 0) == |n| by {
      assert t[0..|n|] == n;
      SkipDigitsRun(t, 0, |n|);
    }
    assert SkipSpaces(t, |n| + 1) == |n| + 2 by {
      assert t[|n| + 1] == ' ' && t[|n| + 2] == body[0];
      assert SkipSpaces(t, |n| + 2) == |n| + 2;
    }
    assert t[|n|] == '.' && t[|n| + 2..] == body;
  }

  /** The core of `# N. body` is the body. */
  lemma NumberedCore(n: string, body: string)
    requires IsNumber(n) && |body| > 0 && Stripped(body)
    requires !IsDigit(body[0]) && !IsSpace(body[0])
    ensures HeadingCore("# " + n + ". " + body) == body
  {
    var t := n + ". " + body;
    assert "# " + n + ". " + body == "# " + t;
    assert Stripped(t) by {
      assert t[0] == n[0] && t[|t| - 1] == body[|body| - 1];
    }
    HashDropped(t);
    NumberDropped(n, body);
  }

  /** A plain title is its own core. */
  lemma PlainCore(body: string)
    requires |body| > 0 && Stripped(body)
    requires body[0] != '#' && !IsDigit(body[0])
    ensures HeadingCore(body) == body
  {
    StrippedFixed(body);
    assert Strip(body) == body;
    assert body[..1] == [body[0]];
    assert DropHash(body) == body;
    assert DropNumbering(body) == body by {
      assert SkipDigits(body, 0) == 0;
    }
  }

  /**
    A numbered heading `# N. body` matches its bare title: the `#`, the number,
    the dot and the space are all dropped before comparing.
   */
  lemma NumberedHeadingMatches(n: string, body: string)
    requires IsNumber(n) && |body| > 0 && Stripped(body)
    requires body[0] != '#' && !IsDigit(body[0])
    ensures CleanWords("# " + n + ". " + body) == CleanWords(body)
  {
    NumberedCore(n, body);
    PlainCore(body);
  }

  /** The first entry that matches `target`, searching from `from`; `-1` when none does. */
  function FirstMatch(items: seq<string>, target: string, matches: (string, string) -> bool, from: nat): (r: int)
    requires from <= |items|
    ensures r == -1 || from <= r < |items|
    ensures r == -1 <==> forall j | from <= j < |items| :: !matches(items[j], target)
    ensures r >= 0 ==> matches(items[r], target) && forall j | from <= j < r :: !matches(items[j], target)
    decreases |items| - from
  {
    if from == |items| then -1
    else if matches(items[from], target) then from
    else FirstMatch(items, target, matches, from + 1)
  }

  /** `_findHeadingIndex` and `_findHeadingInFile`, which run the same loop. */
  function FindHeading(items: seq<string>, target: string): int {
    FirstMatch(items, target, HeadingMatch, 0)
  }

  /** The prefix every error message carries. */
  const ErrorMark: string := "错误："

  function NotInList(target: string): string {
    ErrorMark + "在标题列表中未找到目标标题 '" + target + "'"
  }

  function NotInContent(target: string): string {
    ErrorMark + "在内容中未找到目标标题 '" + target + "'"
  }

  function NextNotInContent(next: string): string {
    ErrorMark + "在内容中未找到下一个标题 '" + next + "'"
  }

  /** Where the section of `target` ends in the lines of a document: the line of the next listed heading, or the end. */
  function SectionEnd(headings: seq<string>, lines: seq<string>, ti: nat): int
    requires ti < |headings|
  {
    if ti == |headings| - 1 then |lines| else FindHeading(lines, headings[ti + 1])
  }

  /**
    `extractContentByHeadingFromContent`: the lines from the target heading's line
    up to (not including) the next listed heading's line, joined and stripped;
    an error message when a heading is missing.
   */
  function ExtractFromContent(headings: seq<string>, content: string, target: string): (r: string)
    ensures FindHeading(headings, target) == -1 ==> r == NotInList(target)
    ensures FindHeading(headings, target) != -1 && FindHeading(SplitOn(content, '\n'), target) == -1 ==> r == NotInContent(target)
    ensures var lines := SplitOn(content, '\n'); var ti := FindHeading(headings, target);
      0 <= ti < |headings| - 1 && FindHeading(lines, target) != -1 && FindHeading(lines, headings[ti + 1]) == -1 ==>
        r == NextNotInContent(headings[ti + 1])
  {
    var lines := SplitOn(content, '\n');
    var ti := FindHeading(headings, target);
    if ti == -1 then NotInList(target)
    else
      var tl := FindHeading(lines, target);
      if tl == -1 then NotInContent(target)
      else
        var e := SectionEnd(headings, lines, ti);
        if e == -1 then NextNotInContent(headings[ti + 1])
        else Strip(Join(lines[tl..if e < tl then tl else e], "\n"))
  }

  /** The extraction succeeded: both headings were found. */
  predicate Found(headings: seq<string>, content: string, target: string) {
    var lines := SplitOn(content, '\n');
    var ti := FindHeading(headings, target);
    ti != -1 && FindHeading(lines, target) != -1 && SectionEnd(headings, lines, ti) != -1
  }

  /** When the heading after the target is missing from the document, the message names it. */
  lemma NextMissing(headings: seq<string>, content: string, target: string)
    requires FindHeading(headings, target) != -1 && FindHeading(SplitOn(content, '\n'), target) != -1
    requires !Found(headings, content, target)
    ensures var ti := FindHeading(headings, target);
      ti + 1 < |headings|
      && FindHeading(SplitOn(content, '\n'), headings[ti + 1]) == -1
      && ExtractFromContent(headings, content, target) == NextNotInContent(headings[ti + 1])
  {
    var lines := SplitOn(content, '\n');
    var ti := FindHeading(headings, target);
    assert SectionEnd(headings, lines, ti) == -1;
    assert ti + 1 < |headings|;
  }

  /** No line matches a heading exactly when the search for it gives -1. */
  lemma FindHeadingAbsent(items: seq<string>, target: string)
    ensures FindHeading(items, target) == -1 <==> forall j | 0 <= j < |items| :: !HeadingMatch(items[j], target)
  {
  }

  /**
    A successful extraction is the stripped join of the document's lines from the
    first line matching the target up to the first line matching the next listed
    heading (up to the end for the last listed heading); the run is empty when the
    next heading's line comes first.
   */
  lemma FoundSection(headings: seq<string>, content: string, target: string) returns (tl: nat, stop: nat)
    requires Found(headings, content, target)
    ensures var lines := SplitOn(content, '\n');
      && tl < |lines| && HeadingMatch(lines[tl], target)
      && (forall j | 0 <= j < tl :: !HeadingMatch(lines[j], target))
      && tl <= stop <= |lines|
    ensures var ti := FindHeading(headings, target);
      && 0 <= ti < |headings| && HeadingMatch(headings[ti], target)
      && (forall j | 0 <= j < ti :: !HeadingMatch(headings[j], target))
    ensures var lines := SplitOn(content, '\n');
      FindHeading(headings, target) == |headings| - 1 ==> stop == |lines|
    ensures var lines := SplitOn(content, '\n');
      var ti := FindHeading(headings, target);
      ti < |headings| - 1 ==>
        var e := FindHeading(lines, headings[ti + 1]);
        && 0 <= e < |lines| && HeadingMatch(lines[e], headings[ti + 1])
        && (forall j | 0 <= j < e :: !HeadingMatch(lines[j], headings[ti + 1]))
        && stop == (if e < tl then tl else e)
    ensures ExtractFromContent(headings, content, target) == Strip(Join(SplitOn(content, '\n')[tl..stop], "\n"))
  {
    var lines := SplitOn(content, '\n');
    var ti := FindHeading(headings, target);
    tl := FindHeading(lines, target);
    var e := SectionEnd(headings, lines, ti);
    stop := if e < tl then tl else e;
  }

  /** The stripped join of a run of a text's lines is a piece of the text. */
  lemma LinesIn(content: string, tl: nat, stop: nat)
    requires tl <= stop <= |SplitOn(content, '\n')|
    ensures Contains(content, Strip(Join(SplitOn(content, '\n')[tl..stop], "\n")))
  {
    var lines := SplitOn(content, '\n');
    var joined := Join(lines[tl..stop], "\n");
    SplitOnJoin(content, '\n');
    JoinSliceContained(lines, tl, stop, "\n");
    ContainsStrip(joined);
    ContainsTrans(content, joined, Strip(joined));
  }

  /** A successful extraction is a piece of the document. */
  lemma SectionInDocument(headings: seq<string>, content: string, target: string)
    requires Found(headings, content, target)
    ensures Contains(content, ExtractFromContent(headings, content, target))
  {
    var tl, stop := FoundSection(headings, content, target);
    LinesIn(content, tl, stop);
  }

  /** When the next listed heading occurs in the document no later than the target, the section is empty. */
  lemma NextBeforeTarget(headings: seq<string>, content: string, target: string)
    requires Found(headings, content, target)
    requires var lines := SplitOn(content, '\n'); var ti := FindHeading(headings, target);
      SectionEnd(headings, lines, ti) <= FindHeading(lines, target)
    ensures ExtractFromContent(headings, content, target) == ""
  {
    var tl, stop := FoundSection(headings, content, target);
    var lines := SplitOn(content, '\n');
    assert stop == tl;
    assert lines[tl..stop] == [];
    assert Join(lines[tl..stop], "\n") == "";
  }

  /** For the last listed heading, the section runs to the end of the document. */
  lemma LastSectionToEnd(headings: seq<string>, content: string, target: string)
    requires |headings| > 0 && FindHeading(headings, target) == |headings| - 1
    requires FindHeading(SplitOn(content, '\n'), target) != -1
    ensures Found(headings, content, target)
    ensures var lines := SplitOn(content, '\n');
      ExtractFromContent(headings, content, target) == Strip(Join(lines[FindHeading(lines, target)..|lines|], "\n"))
  {
    var lines := SplitOn(content, '\n');
    var tl := FindHeading(lines, target);
    assert SectionEnd(headings, lines, |headings| - 1) == |lines|;
  }
}
