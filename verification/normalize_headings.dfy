/**
  Heading levels (`paper_vis/NormalizeHeadings.py`): PDF converters mark every
  heading with a single `#`; the numbering (`1.`, `1.1.`, `1.1.1.`) tells the real
  level.  `normalize_headings` rewrites each `#` line by the first of four patterns
  that matches and collects the lines that end up as level-1 headings;
  `_is_unnumbered_h1` decides the level of a heading from its title alone.
 */
module HeadingLevels {
  import opened Wrappers
  import opened Text
  import opened Scan
  import opened Seqs

  /** Titles that are level-1 headings without a number. */
  const UnnumberedKeywords: seq<string> := [
    "Abstract", "Introduction", "Conclusion", "References", "Appendix",
    "Acknowledgments", "Acknowledgements", "Bibliography", "Index",
    "Preface", "Foreword", "Summary", "Executive Summary",
    "Table of Contents", "List of Figures", "List of Tables",
    "Nomenclature", "Glossary", "Abbreviations"]

  // ---------------------------------------------------------------- the opening `\s*#\s+`

  /** Where the `#` of a heading line sits, and where the text after the whitespace that follows it starts. */
  datatype Opening = Opening(hash: nat, title: nat)

  /** `re.match(r'^\s*#\s+', line)`. */
  function HeadingOpening(line: string): (r: Option<Opening>)
    ensures r.Some? ==> var o := r.value;
      && o.hash == SkipSpaces(line, 0) && o.hash + 1 < o.title <= |line| && line[o.hash] == '#'
      && AllSpace(line[..o.hash]) && AllSpace(line[o.hash + 1..o.title])
      && (o.title == |line| || !IsSpace(line[o.title]))
    ensures r.None? ==> var k := SkipSpaces(line, 0);
      k == |line| || line[k] != '#' || k + 1 == |line| || !IsSpace(line[k + 1])
  {
    var k := SkipSpaces(line, 0);
    if k < |line| && line[k] == '#' then
      var e := SkipSpaces(line, k + 1);
      if e > k + 1 then Some(Opening(k, e)) else None
    else None
  }

  // ---------------------------------------------------------------- the four patterns

  /** `(\d+\.){n}\s+` at `from`: `n` numbers each followed by a dot, then whitespace. */
  function DottedNumber(s: string, from: nat, n: nat): bool
    requires from <= |s|
    decreases n
  {
    if n == 0 then from < |s| && IsSpace(s[from])
    else
      var d := SkipDigits(s, from);
      d > from && d < |s| && s[d] == '.' && DottedNumber(s, d + 1, n - 1)
  }

  /** The title starts with one of the keywords, case-sensitively: the alternation of the fourth pattern. */
  predicate StartsWithKeyword(s: string) {
    exists k | 0 <= k < |UnnumberedKeywords| :: StartsWith(s, UnnumberedKeywords[k])
  }

  /** Which pattern rewrites a heading line: the first that matches, in priority order. */
  datatype Pattern = Level3 | Level2 | Level1 | Named | NoPattern

  function PatternOf(line: string, o: Opening): Pattern
    requires o.title <= |line|
  {
    var rest := line[o.title..];
    if DottedNumber(rest, 0, 3) then Level3
    else if DottedNumber(rest, 0, 2) then Level2
    else if DottedNumber(rest, 0, 1) then Level1
    else if StartsWithKeyword(rest) then Named
    else NoPattern
  }

  /** The replacement: the indentation, `###`, `##` or `#`, one space, and the rest of the line. */
  function NewLine(line: string, o: Opening, p: Pattern): string
    requires o.hash < o.title <= |line|
  {
    var mark := match p
      case Level3 => "###"
      case Level2 => "##"
      case _ => "#";
    line[..o.hash] + mark + " " + line[o.title..]
  }

  // ---------------------------------------------------------------- `_is_unnumbered_h1`

  /** End of the run of `#` that starts at `j`. */
  function SkipHashes(s: string, j: nat): (e: nat)
    requires j <= |s|
    ensures j <= e <= |s|
    ensures forall i | j <= i < e :: s[i] == '#'
    ensures e == |s| || s[e] != '#'
    decreases |s| - j
  {
    if j < |s| && s[j] == '#' then SkipHashes(s, j + 1) else j
  }

  /** `re.sub(r'^\s*#+\s*', '', line).strip()`: the title of a heading line. */
  function Title(line: string): (t: string)
    ensures Stripped(t)
  {
    var k := SkipSpaces(line, 0);
    var h := SkipHashes(line, k);
    Strip(if h > k then line[SkipSpaces(line, h)..] else line)
  }

  /** The title is, ignoring case, one of the keywords. */
  predicate KeywordTitle(t: string) {
    exists k | 0 <= k < |UnnumberedKeywords| :: Lower(t) == Lower(UnnumberedKeywords[k])
  }

  /** `re.match(r'^\d+\.?\s+', t)`: a number, maybe a dot, and whitespace. */
  predicate LeadingOrdinal(t: string) {
    var d := SkipDigits(t, 0);
    var e := if d < |t| && t[d] == '.' then d + 1 else d;
    d > 0 && e < |t| && IsSpace(t[e])
  }

  /** A digit, a dot and a digit start at `i`. */
  predicate DottedAt(t: string, i: int) {
    0 <= i && i + 2 < |t| && IsDigit(t[i]) && t[i + 1] == '.' && IsDigit(t[i + 2])
  }

  /** `re.search(r'\d+\.\d+', t[from:])`, as a scan. */
  function FindDotted(t: string, from: nat): (b: bool)
    ensures b <==> exists i | from <= i :: DottedAt(t, i)
    decreases |t| - from
  {
    if from + 2 >= |t| then false
    else DottedAt(t, from) || FindDotted(t, from + 1)
  }

  /** `_is_unnumbered_h1`, branch by branch. */
  function IsUnnumberedH1(line: string): bool {
    var t := Title(line);
    if KeywordTitle(t) then true
    else if LeadingOrdinal(t) && !FindDotted(t, 0) then true
    else if FindDotted(t, 0) then false
    else true
  }

  /**
    The numbering test in the middle decides nothing: a heading is level 1 exactly
    when its title is a keyword or carries no `a.b` number.
   */
  lemma UnnumberedSpec(line: string)
    ensures IsUnnumberedH1(line) <==> KeywordTitle(Title(line)) || !exists i :: DottedAt(Title(line), i)
  {
    var t := Title(line);
    if exists i :: DottedAt(t, i) {
      var i :| DottedAt(t, i);
      assert 0 <= i;
    }
  }

  // ---------------------------------------------------------------- `normalize_headings`

  /** `re.match(r'^\s*##', s)`. */
  predicate StartsDoubleHash(s: string) {
    var k := SkipSpaces(s, 0);
    k + 1 < |s| && s[k] == '#' && s[k + 1] == '#'
  }

  /** `re.match(r'^\s*#\s+\d+\.', s)`. */
  predicate NumberedOpening(s: string) {
    match HeadingOpening(s)
    case None => false
    case Some(o) =>
      var d := SkipDigits(s, o.title);
      d > o.title && d < |s| && s[d] == '.'
  }

  /** What a rewritten line contributes: the collection tests run on the new line. */
  function Classify(nl: string): Option<string> {
    if Contains(nl, "###") then None
    else if Contains(nl, "##") then None
    else if Contains(nl, "# ") && !StartsDoubleHash(nl) then
      if NumberedOpening(nl) then Some(Strip(nl))
      else if IsUnnumberedH1(nl) then Some(Strip(nl))
      else None
    else None
  }

  /** The level-1 heading one line of the document gives, if any. */
  function H1Of(line: string): Option<string> {
    match HeadingOpening(line)
    case None => None
    case Some(o) =>
      var p := PatternOf(line, o);
      if p == NoPattern then
        if IsUnnumberedH1(line) then Some(Strip(line)) else None
      else Classify(NewLine(line, o, p))
  }

  /** `H1Of` as a list of zero or one headings. */
  function H1List(line: string): seq<string> {
    match H1Of(line)
    case None => []
    case Some(h) => [h]
  }

  /** `normalize_headings`: the level-1 headings of the document, line by line. */
  function NormalizeHeadings(text: string): seq<string> {
    FlatMap(SplitOn(text, '\n'), H1List)
  }

  // ---------------------------------------------------------------- what `normalize_headings` collects

  /** The rewritten line keeps the indentation and the `#` where they were. */
  lemma NewLineOpening(line: string, o: Opening, p: Pattern)
    requires HeadingOpening(line) == Some(o)
    ensures var nl := NewLine(line, o, p);
      && o.hash + 2 < |nl| + 1 && nl[o.hash] == '#' && SkipSpaces(nl, 0) == o.hash
      && nl[..o.hash] == line[..o.hash]
  {
    var nl := NewLine(line, o, p);
    assert nl[..o.hash] == line[..o.hash];
    assert nl[0..o.hash] == line[..o.hash];
    SkipSpacesRun(nl, 0, o.hash);
  }

  /** Every collected heading is a stripped line that starts with `#`. */
  lemma H1Shape(line: string)
    requires H1Of(line).Some?
    ensures var h := H1Of(line).value; |h| > 0 && h[0] == '#' && Stripped(h)
  {
    var nl := H1Source(line);
    StripFirst(nl);
  }

  /** A collected heading is the strip of the line or of its rewrite, which opens with `#` after the indentation. */
  lemma H1Source(line: string) returns (nl: string)
    requires H1Of(line).Some?
    ensures H1Of(line) == Some(Strip(nl))
    ensures SkipSpaces(nl, 0) < |nl| && nl[SkipSpaces(nl, 0)] == '#'
  {
    var o := HeadingOpening(line).value;
    var p := PatternOf(line, o);
    if p == NoPattern {
      nl := line;
    } else {
      nl := NewLine(line, o, p);
      NewLineOpening(line, o, p);
    }
  }

  /** Lines numbered `a.b.` or `a.b.c.` are demoted to `##` or `###` and never collected. */
  lemma DemotedNotCollected(line: string)
    requires HeadingOpening(line).Some?
    requires PatternOf(line, HeadingOpening(line).value) in {Level3, Level2}
    ensures H1Of(line).None?
  {
    var o := HeadingOpening(line).value;
    var nl := NewLine(line, o, PatternOf(line, o));
    NewLineOpening(line, o, PatternOf(line, o));
    assert OccursAt(nl, "##", o.hash);
  }

  /** A line numbered `N.` is matched by the third pattern and by neither of the deeper ones. */
  lemma OneDotOnly(rest: string)
    requires DottedNumber(rest, 0, 1)
    ensures !DottedNumber(rest, 0, 2) && !DottedNumber(rest, 0, 3)
  {
    var d := SkipDigits(rest, 0);
    assert IsSpace(rest[d + 1]);
    assert SkipDigits(rest, d + 1) == d + 1;
  }

  /** A text with a `###` has a `##`. */
  lemma TripleHasDouble(s: string)
    ensures Contains(s, "###") ==> Contains(s, "##")
  {
    if Contains(s, "###") {
      var i :| 0 <= i <= |s| - 3 && OccursAt(s, "###", i);
      assert s[i..i + 2] == s[i..i + 3][..2];
      assert OccursAt(s, "##", i);
    }
  }

  /** Indentation, `# ` and a title without `##` that does not start with `#` hold no `##`. */
  lemma NoDoubleHash(indent: string, rest: string)
    requires AllSpace(indent) && |rest| > 0 && rest[0] != '#' && !Contains(rest, "##")
    ensures !Contains(indent + "#" + " " + rest, "##")
  {
    var nl := indent + "#" + " " + rest;
    var n := |indent|;
    forall i | 0 <= i <= |nl| - 2 ensures !OccursAt(nl, "##", i) {
      if i < n {
        assert nl[i] == indent[i];
        assert nl[i..i + 2][0] == nl[i];
      } else if i == n {
        assert nl[i..i + 2][1] == nl[n + 1] == ' ';
      } else if i == n + 1 {
        assert nl[i..i + 2][0] == ' ';
      } else {
        assert nl[i..i + 2] == rest[i - n - 2..i - n];
        assert !OccursAt(rest, "##", i - n - 2);
      }
    }
  }

  /** A line rewritten to `#` opens with its `#` after the indentation and its title two places later. */
  lemma RewrittenOpening(indent: string, rest: string)
    requires AllSpace(indent) && |rest| > 0 && !IsSpace(rest[0])
    ensures var nl := indent + "#" + " " + rest; var n := |indent|;
      SkipSpaces(nl, 0) == n && HeadingOpening(nl) == Some(Opening(n, n + 2)) && nl[n + 1] == ' '
  {
    var nl := indent + "#" + " " + rest;
    var n := |indent|;
    assert SkipSpaces(nl, 0) == n by {
      assert nl[0..n] == indent && nl[n] == '#';
      SkipSpacesRun(nl, 0, n);
    }
    assert SkipSpaces(nl, n + 1) == n + 2 by {
      assert nl[n + 2] == rest[0];
      assert nl[n + 1..n + 2] == " ";
      SkipSpacesRun(nl, n + 1, n + 2);
    }
  }

  /** The rewritten `# N. title` line opens as a numbered level-1 heading. */
  lemma NumberedOpens(indent: string, rest: string)
    requires AllSpace(indent) && DottedNumber(rest, 0, 1)
    ensures var nl := indent + "#" + " " + rest;
      Contains(nl, "# ") && !StartsDoubleHash(nl) && NumberedOpening(nl)
  {
    var nl := indent + "#" + " " + rest;
    var n := |indent|;
    var d := SkipDigits(rest, 0);
    RewrittenOpening(indent, rest);
    assert OccursAt(nl, "# ", n) by {
      assert nl[n..n + 2] == "# ";
    }
    assert SkipDigits(nl, n + 2) == n + 2 + d && nl[n + 2 + d] == '.' by {
      var pre := indent + "#" + " ";
      assert nl == pre + rest;
      SkipDigitsShift(pre, rest);
      AppendSeam(pre, rest, d);
    }
  }

  /** The rewritten `# N. title` line passes the level-1 tests. */
  lemma NumberedClassified(indent: string, rest: string)
    requires AllSpace(indent) && DottedNumber(rest, 0, 1) && !Contains(rest, "##")
    ensures var nl := indent + "#" + " " + rest; Classify(nl) == Some(Strip(nl))
  {
    var nl := indent + "#" + " " + rest;
    NoDoubleHash(indent, rest);
    TripleHasDouble(nl);
    NumberedOpens(indent, rest);
  }

  /**
    A `# N. title` line is collected whenever its title holds no `##`, as the
    rewritten line `# N. title`, stripped.
   */
  lemma NumberedCollected(line: string)
    requires HeadingOpening(line).Some?
    requires var o := HeadingOpening(line).value;
      DottedNumber(line[o.title..], 0, 1) && !Contains(line[o.title..], "##")
    ensures var o := HeadingOpening(line).value;
      H1Of(line) == Some(Strip(NewLine(line, o, Level1)))
  {
    var o := HeadingOpening(line).value;
    var rest := line[o.title..];
    OneDotOnly(rest);
    assert PatternOf(line, o) == Level1;
    assert NewLine(line, o, Level1) == line[..o.hash] + "#" + " " + rest;
    NumberedClassified(line[..o.hash], rest);
  }

  /** Every collected heading is what some line of the document gives. */
  lemma CollectedFromLine(text: string, h: string)
    requires h in NormalizeHeadings(text)
    ensures exists i | 0 <= i < |SplitOn(text, '\n')| :: H1Of(SplitOn(text, '\n')[i]) == Some(h)
  {
    var lines := SplitOn(text, '\n');
    FlatMapMembers(lines, H1List, h);
    var i :| 0 <= i < |lines| && h in H1List(lines[i]);
    H1ListHolds(lines[i], h);
  }

  lemma H1ListHolds(line: string, h: string)
    requires h in H1List(line)
    ensures H1Of(line) == Some(h)
  {
  }

  /** Every level-1 heading a line gives is collected. */
  lemma LineCollected(text: string, i: nat)
    requires i < |SplitOn(text, '\n')| && H1Of(SplitOn(text, '\n')[i]).Some?
    ensures H1Of(SplitOn(text, '\n')[i]).value in NormalizeHeadings(text)
  {
    var lines := SplitOn(text, '\n');
    FlatMapIntro(lines, H1List, i, H1Of(lines[i]).value);
  }

  /** Every collected heading starts with `#` and is stripped. */
  lemma NormalizeShape(text: string, h: string)
    requires h in NormalizeHeadings(text)
    ensures |h| > 0 && h[0] == '#' && Stripped(h)
  {
    CollectedFromLine(text, h);
    var lines := SplitOn(text, '\n');
    var i :| 0 <= i < |lines| && H1Of(lines[i]) == Some(h);
    H1Shape(lines[i]);
  }

  /** Headings come out in document order: the headings of two parts are those of the first, then those of the second. */
  lemma NormalizeAppend(a: string, b: string)
    ensures NormalizeHeadings(a + "\n" + b) == NormalizeHeadings(a) + NormalizeHeadings(b)
  {
    SplitOnAppend(a, b, '\n');
    FlatMapAppend(SplitOn(a, '\n'), SplitOn(b, '\n'), H1List);
  }

  // ---------------------------------------------------------------- titles of rewritten and stripped lines

  /** The title of a heading line is its text after the opening, stripped. */
  lemma TitleAfterOpening(line: string)
    requires HeadingOpening(line).Some?
    ensures Title(line) == Strip(line[HeadingOpening(line).value.title..])
  {
    var o := HeadingOpening(line).value;
    assert line[o.hash + 1..o.title][0] == line[o.hash + 1];
    assert SkipHashes(line, o.hash) == o.hash + 1 by {
      assert SkipHashes(line, o.hash + 1) == o.hash + 1;
    }
  }

  /** A keyword-led title starts with a capital letter. */
  lemma KeywordInitial(rest: string)
    requires StartsWithKeyword(rest)
    ensures |rest| > 0 && 'A' <= rest[0] <= 'Z'
  {
    var k :| 0 <= k < |UnnumberedKeywords| && StartsWith(rest, UnnumberedKeywords[k]);
    var w := UnnumberedKeywords[k];
    assert |w| > 0 && 'A' <= w[0] <= 'Z';
    assert rest[..|w|][0] == rest[0];
  }

  /** The title of a rewritten line is its text after `# `, stripped. */
  lemma RewrittenTitle(indent: string, rest: string)
    requires AllSpace(indent) && |rest| > 0 && !IsSpace(rest[0])
    ensures Title(indent + "#" + " " + rest) == Strip(rest)
  {
    var nl := indent + "#" + " " + rest;
    RewrittenOpening(indent, rest);
    TitleAfterOpening(nl);
    assert nl[|indent| + 2..] == rest;
  }

  /** The rewritten `# Keyword ...` line opens as a level-1 heading without a number. */
  lemma NamedOpens(indent: string, rest: string)
    requires AllSpace(indent) && |rest| > 0 && 'A' <= rest[0] <= 'Z'
    ensures var nl := indent + "#" + " " + rest;
      Contains(nl, "# ") && !StartsDoubleHash(nl) && !NumberedOpening(nl)
  {
    var nl := indent + "#" + " " + rest;
    var n := |indent|;
    RewrittenOpening(indent, rest);
    assert OccursAt(nl, "# ", n) by {
      assert nl[n..n + 2] == "# ";
    }
    assert nl[n + 2] == rest[0];
  }

  /** The rewritten `# Keyword ...` line is collected exactly when it passes `_is_unnumbered_h1`. */
  lemma NamedClassified(indent: string, rest: string)
    requires AllSpace(indent) && |rest| > 0 && 'A' <= rest[0] <= 'Z' && !Contains(rest, "##")
    ensures var nl := indent + "#" + " " + rest;
      Classify(nl) == (if IsUnnumberedH1(nl) then Some(Strip(nl)) else None)
  {
    var nl := indent + "#" + " " + rest;
    NoDoubleHash(indent, rest);
    TripleHasDouble(nl);
    NamedOpens(indent, rest);
  }

  /**
    A line opening with a keyword (`# Abstract`, `# Introduction to ...`) is
    collected, when its title holds no `##`, exactly when its title is a keyword or
    carries no `a.b` number.
   */
  lemma NamedCollected(line: string)
    requires HeadingOpening(line).Some?
    requires var o := HeadingOpening(line).value;
      PatternOf(line, o) == Named && !Contains(line[o.title..], "##")
    ensures H1Of(line).Some? <==> KeywordTitle(Title(line)) || !exists i :: DottedAt(Title(line), i)
  {
    var o := HeadingOpening(line).value;
    var rest := line[o.title..];
    var indent := line[..o.hash];
    KeywordInitial(rest);
    var nl := NewLine(line, o, Named);
    assert nl == indent + "#" + " " + rest;
    NamedClassified(indent, rest);
    RewrittenTitle(indent, rest);
    TitleAfterOpening(line);
    UnnumberedSpec(nl);
  }

  /** A `#` at `k` after whitespace, then whitespace up to `title`, which starts the text or ends the line. */
  predicate HashAt(line: string, k: nat, title: nat) {
    && k + 1 < title <= |line| && line[k] == '#'
    && (forall i | 0 <= i < k :: IsSpace(line[i]))
    && (forall i | k < i < title :: IsSpace(line[i]))
    && (title == |line| || !IsSpace(line[title]))
  }

  lemma OpeningHashAt(line: string)
    requires HeadingOpening(line).Some?
    ensures HashAt(line, HeadingOpening(line).value.hash, HeadingOpening(line).value.title)
  {
    var o := HeadingOpening(line).value;
    forall i | 0 <= i < o.hash ensures IsSpace(line[i]) {
      assert line[..o.hash][i] == line[i];
    }
    forall i | o.hash < i < o.title ensures IsSpace(line[i]) {
      assert line[o.hash + 1..o.title][i - o.hash - 1] == line[i];
    }
  }

  /** A line that starts with a single `#` has the stripped text after it as its title. */
  lemma TitleFromHash(t: string)
    requires |t| > 0 && t[0] == '#' && (|t| == 1 || IsSpace(t[1]))
    ensures Title(t) == Strip(t[SkipSpaces(t, 1)..])
  {
    assert SkipSpaces(t, 0) == 0;
    assert SkipHashes(t, 1) == 1;
  }

  /** The stripped line has the same title as the line. */
  lemma TitleOfStripped(line: string)
    requires HeadingOpening(line).Some?
    ensures Title(Strip(line)) == Title(line)
  {
    var o := HeadingOpening(line).value;
    OpeningHashAt(line);
    var e := StripFrom(line, o.hash);
    TitleOfSlice(line, o.hash, o.title, e);
    TitleAfterOpening(line);
  }

  /** The title of the line cut down to `k..e` is the text from `title` on, stripped. */
  lemma TitleOfSlice(line: string, k: nat, title: nat, e: nat)
    requires HashAt(line, k, title)
    requires k < e <= |line| && !IsSpace(line[e - 1]) && forall i | e <= i < |line| :: IsSpace(line[i])
    ensures Title(line[k..e]) == Strip(line[title..])
  {
    var t := line[k..e];
    assert Title(t) == Strip(t[SkipSpaces(t, 1)..]) by {
      assert t[0] == '#' && (|t| == 1 || t[1] == line[k + 1]);
      TitleFromHash(t);
    }
    if title < |line| {
      TitleTail(line, k, title, e);
    } else {
      TitleBlank(line, k, title, e);
    }
  }

  lemma TitleTail(line: string, k: nat, title: nat, e: nat)
    requires HashAt(line, k, title) && title < |line|
    requires k < e <= |line| && !IsSpace(line[e - 1]) && forall i | e <= i < |line| :: IsSpace(line[i])
    ensures var t := line[k..e]; Strip(t[SkipSpaces(t, 1)..]) == Strip(line[title..])
  {
    var t := line[k..e];
    SkipAfterHash(line, k, title, e);
    assert t[SkipSpaces(t, 1)..] == line[title..e];
    StripToEnd(line, title, e);
  }

  /** In the line cut down to `k..e`, the whitespace after the `#` ends where the title starts. */
  lemma SkipAfterHash(line: string, k: nat, title: nat, e: nat)
    requires HashAt(line, k, title) && title < |line|
    requires k < e <= |line| && !IsSpace(line[e - 1]) && forall i | e <= i < |line| :: IsSpace(line[i])
    ensures title < e
    ensures var t := line[k..e]; SkipSpaces(t, 1) == title - k && t[title - k..] == line[title..e]
  {
    var t := line[k..e];
    assert title < e;
    assert t[title - k] == line[title];
    var y := t[1..title - k];
    assert AllSpace(y) by {
      forall i | 0 <= i < |y| ensures IsSpace(y[i]) {
        assert y[i] == line[k + 1 + i];
      }
    }
    SkipSpacesRun(t, 1, title - k);
    assert t[title - k..] == line[title..e];
  }

  /** Text running from a non-space to the last non-space of the line strips to exactly that run, and so does the run itself. */
  lemma StripToEnd(line: string, title: nat, e: nat)
    requires title < e <= |line| && !IsSpace(line[title]) && !IsSpace(line[e - 1])
    requires forall i | e <= i < |line| :: IsSpace(line[i])
    ensures Strip(line[title..]) == line[title..e]
    ensures Strip(line[title..e]) == line[title..e]
  {
    var x := line[title..];
    forall i | e - title <= i < |x| ensures IsSpace(x[i]) {
      assert x[i] == line[title + i];
    }
    assert x[0] == line[title] && x[e - title - 1] == line[e - 1];
    StripBetween(x, 0, e - title);
    assert x[0..e - title] == line[title..e];
    StrippedFixed(line[title..e]);
  }

  lemma TitleBlank(line: string, k: nat, title: nat, e: nat)
    requires HashAt(line, k, title) && title == |line|
    requires k < e <= |line|
    ensures var t := line[k..e]; Strip(t[SkipSpaces(t, 1)..]) == Strip(line[title..])
  {
    var t := line[k..e];
    assert AllSpace(t[1..]) by {
      forall i | 0 <= i < |t| - 1 ensures IsSpace(t[1..][i]) {
        assert t[1..][i] == line[k + 1 + i];
      }
    }
    assert SkipSpaces(t, 1) == |t|;
    assert line[title..] == [];
  }

  // ---------------------------------------------------------------- `extract_h1_headings`

  /** What one line contributes: the stripped line, when it starts with `#` and passes `_is_unnumbered_h1`. */
  function ExtractH1Line(line: string): (hs: seq<string>)
    ensures |hs| <= 1
    ensures forall h | h in hs :: h == Strip(line) && |h| > 0 && h[0] == '#'
  {
    var s := Strip(line);
    if |s| > 0 && s[0] == '#' && IsUnnumberedH1(s) then [s] else []
  }

  /** `extract_h1_headings`: the level-1 lines, stripped, in document order. */
  function ExtractH1Headings(text: string): seq<string> {
    FlatMap(SplitOn(text, '\n'), ExtractH1Line)
  }

  /**
    A heading is extracted exactly when some line, stripped, is that heading, starts
    with `#`, and has a keyword title or a title without an `a.b` number.  The
    number of `#` is not looked at, so `## Related Work` is extracted too.
   */
  lemma ExtractH1Members(text: string, h: string)
    ensures h in ExtractH1Headings(text) <==>
      && |h| > 0 && h[0] == '#' && (KeywordTitle(Title(h)) || !exists i :: DottedAt(Title(h), i))
      && exists i | 0 <= i < |SplitOn(text, '\n')| :: Strip(SplitOn(text, '\n')[i]) == h
  {
    var lines := SplitOn(text, '\n');
    FlatMapMembersIff(lines, ExtractH1Line, h);
    UnnumberedSpec(h);
    if exists i | 0 <= i < |lines| :: Strip(lines[i]) == h {
      var i :| 0 <= i < |lines| && Strip(lines[i]) == h;
      assert h in ExtractH1Line(lines[i]) <==> |h| > 0 && h[0] == '#' && IsUnnumberedH1(h);
    }
  }

  /**
    On a `# title` line that matches none of the four patterns the rewriting falls back
    to `_is_unnumbered_h1` on the line itself; that gives what `extract_h1_headings`
    gives for the line.
   */
  lemma FallbackAgrees(line: string)
    requires HeadingOpening(line).Some? && PatternOf(line, HeadingOpening(line).value) == NoPattern
    ensures H1List(line) == ExtractH1Line(line)
  {
    FallbackH1Of(line);
    StrippedHeadingStart(line);
    TitleOfStripped(line);
  }

  lemma FallbackH1Of(line: string)
    requires HeadingOpening(line).Some? && PatternOf(line, HeadingOpening(line).value) == NoPattern
    ensures H1List(line) == (if IsUnnumberedH1(line) then [Strip(line)] else [])
  {
  }

  /** A `# title` line stripped starts with its `#`. */
  lemma StrippedHeadingStart(line: string)
    requires HeadingOpening(line).Some?
    ensures |Strip(line)| > 0 && Strip(line)[0] == '#'
  {
    var o := HeadingOpening(line).value;
    OpeningHashAt(line);
    var e := StripFrom(line, o.hash);
  }

  // ---------------------------------------------------------------- `extract_headings_only`

  /** `re.match(r'^\s*#+\s+', line)`: a run of `#` after whitespace, then whitespace. */
  predicate LevelOpening(line: string) {
    var k := SkipSpaces(line, 0);
    var h := SkipHashes(line, k);
    h > k && h < |line| && IsSpace(line[h])
  }

  /** What one line contributes to `extract_headings_only`. */
  function HeadingLine(line: string): (hs: seq<string>)
    ensures |hs| <= 1 && (hs != [] <==> LevelOpening(line))
    ensures forall h | h in hs :: h == Strip(line)
  {
    if LevelOpening(line) then [Strip(line)] else []
  }

  /** `extract_headings_only`: every heading line of any level, stripped, in document order. */
  function HeadingsOnly(text: string): seq<string> {
    FlatMap(SplitOn(text, '\n'), HeadingLine)
  }

  /** `len(re.match(r'^#+', heading).group())`: the number of leading `#`. */
  function Level(h: string): (l: nat)
    ensures l <= |h| && forall i | 0 <= i < l :: h[i] == '#'
    ensures l == |h| || h[l] != '#'
  {
    SkipHashes(h, 0)
  }

  /** A maximal run of `#` from `j` to `k` is where `SkipHashes` stops. */
  lemma {:induction false} SkipHashesRun(s: string, j: nat, k: nat)
    requires j <= k <= |s| && (forall i | j <= i < k :: s[i] == '#') && (k == |s| || s[k] != '#')
    ensures SkipHashes(s, j) == k
    decreases k - j
  {
    if j < k {
      SkipHashesRun(s, j + 1, k);
    }
  }

  /** A heading line keeps its `#` run when stripped: its level is the number of `#` it opens with. */
  lemma HeadingLineLevel(line: string)
    requires LevelOpening(line)
    ensures var k := SkipSpaces(line, 0); var t := Strip(line);
      Stripped(t) && |t| > 0 && t[0] == '#' && Level(t) == SkipHashes(line, k) - k
  {
    var k := SkipSpaces(line, 0);
    var h := SkipHashes(line, k);
    assert forall i | 0 <= i < k :: IsSpace(line[i]) by {
      forall i | 0 <= i < k ensures IsSpace(line[i]) {
        assert line[0..k][i] == line[i];
      }
    }
    var e := StripFrom(line, k);
    assert h <= e by {
      assert !IsSpace(line[h - 1]);
    }
    SliceLevel(line, k, h, e);
  }

  /** The level of the slice from the `#` run at `k` to `e`, past the run's end `h`. */
  lemma SliceLevel(line: string, k: nat, h: nat, e: nat)
    requires k <= h <= e <= |line| && (forall i | k <= i < h :: line[i] == '#') && (h == e || line[h] != '#')
    ensures Level(line[k..e]) == h - k
  {
    var t := line[k..e];
    assert forall i | 0 <= i < h - k :: t[i] == line[k + i];
    assert h - k == |t| || t[h - k] == line[h];
    SkipHashesRun(t, 0, h - k);
  }

  /** Every heading `extract_headings_only` returns is stripped and starts with `#`, so its level is at least 1. */
  lemma HeadingsShape(text: string, h: string)
    requires h in HeadingsOnly(text)
    ensures Stripped(h) && |h| > 0 && h[0] == '#' && Level(h) >= 1
  {
    var lines := SplitOn(text, '\n');
    FlatMapMembers(lines, HeadingLine, h);
    var i :| 0 <= i < |lines| && h in HeadingLine(lines[i]);
    var line := lines[i];
    assert LevelOpening(line) && h == Strip(line);
    HeadingLineLevel(line);
  }

  /** A line gives a heading exactly when it opens with `#`s followed by whitespace. */
  lemma HeadingsMembers(text: string, h: string)
    ensures h in HeadingsOnly(text) <==>
      exists i | 0 <= i < |SplitOn(text, '\n')| :: LevelOpening(SplitOn(text, '\n')[i]) && Strip(SplitOn(text, '\n')[i]) == h
  {
    FlatMapMembersIff(SplitOn(text, '\n'), HeadingLine, h);
  }

  // ---------------------------------------------------------------- `analyze_heading_structure`

  /** The counts `h1_count` .. `h6_count` and `headings_by_level`. */
  datatype Tallies = Tallies(counts: seq<nat>, byLevel: map<nat, seq<string>>)

  /** The structure dictionary. */
  datatype Structure = Structure(total: nat, counts: seq<nat>, byLevel: map<nat, seq<string>>)

  /**
    The loop over the headings, in order.  A heading of level 7 or more has no
    `h{level}_count` key and one of level 0 no `#` match: both raise, so the
    whole analysis gives nothing.
   */
  function Tally(hs: seq<string>): (r: Option<Tallies>)
    ensures r.Some? ==> |r.value.counts| == 6
    decreases |hs|
  {
    if |hs| == 0 then Some(Tallies([0, 0, 0, 0, 0, 0], map[]))
    else
      match Tally(hs[..|hs| - 1])
      case None => None
      case Some(t) =>
        var h := hs[|hs| - 1];
        var l := Level(h);
        if l < 1 || l > 6 then None
        else
          var listed := if l in t.byLevel then t.byLevel[l] else [];
          Some(Tallies(t.counts[l - 1 := t.counts[l - 1] + 1], t.byLevel[l := listed + [h]]))
  }

  /** `analyze_heading_structure`. */
  function AnalyzeStructure(text: string): Option<Structure> {
    var hs := HeadingsOnly(text);
    match Tally(hs)
    case None => None
    case Some(t) => Some(Structure(|hs|, t.counts, t.byLevel))
  }

  /** Reference definition: the headings of level `l`, in order. */
  function LevelMembers(hs: seq<string>, l: nat): seq<string>
    decreases |hs|
  {
    if |hs| == 0 then [] else (if Level(hs[0]) == l then [hs[0]] else []) + LevelMembers(hs[1..], l)
  }

  /** The sum of the six counts. */
  function Sum6(c: seq<nat>): nat
    requires |c| == 6
  {
    c[0] + c[1] + c[2] + c[3] + c[4] + c[5]
  }

  lemma {:induction false} LevelMembersSnoc(hs: seq<string>, h: string, l: nat)
    ensures LevelMembers(hs + [h], l) == LevelMembers(hs, l) + (if Level(h) == l then [h] else [])
    decreases |hs|
  {
    if |hs| == 0 {
      assert hs + [h] == [h];
    } else {
      assert (hs + [h])[0] == hs[0] && (hs + [h])[1..] == hs[1..] + [h];
      LevelMembersSnoc(hs[1..], h, l);
    }
  }

  /** The analysis succeeds exactly when every heading has between one and six `#`. */
  lemma {:induction false} TallyDefined(hs: seq<string>)
    ensures Tally(hs).Some? <==> forall i | 0 <= i < |hs| :: 1 <= Level(hs[i]) <= 6
    decreases |hs|
  {
    if |hs| > 0 {
      var init := hs[..|hs| - 1];
      TallyDefined(init);
      assert forall i | 0 <= i < |init| :: init[i] == hs[i];
    }
  }

  /**
    For each level, the count is the number of headings of that level, the level
    has a list exactly when it has headings, and the list holds them in order;
    no other key appears.
   */
  lemma {:induction false} TallySpec(hs: seq<string>, l: nat)
    requires Tally(hs).Some?
    ensures var t := Tally(hs).value;
      && (forall k | k in t.byLevel :: 1 <= k <= 6)
      && (1 <= l <= 6 ==> t.counts[l - 1] == |LevelMembers(hs, l)|)
      && (l in t.byLevel <==> LevelMembers(hs, l) != [])
      && (l in t.byLevel ==> t.byLevel[l] == LevelMembers(hs, l))
    decreases |hs|
  {
    if |hs| > 0 {
      var init := hs[..|hs| - 1];
      var h := hs[|hs| - 1];
      assert hs == init + [h];
      TallySpec(init, l);
      LevelMembersSnoc(init, h, l);
    }
  }

  /** Every heading is counted once: the six counts add up to the total. */
  lemma {:induction false} TallySum(hs: seq<string>)
    requires Tally(hs).Some?
    ensures Sum6(Tally(hs).value.counts) == |hs|
    decreases |hs|
  {
    if |hs| > 0 {
      TallySum(hs[..|hs| - 1]);
    }
  }

  /**
    The analysis of a document fails exactly when one of its heading lines opens with
    seven or more `#`; when it succeeds the counts add up to `total_headings`.
   */
  lemma AnalyzeSpec(text: string)
    ensures var hs := HeadingsOnly(text);
      AnalyzeStructure(text).Some? <==> forall i | 0 <= i < |hs| :: Level(hs[i]) <= 6
    ensures AnalyzeStructure(text).Some? ==>
      var s := AnalyzeStructure(text).value;
      s.total == |HeadingsOnly(text)| && Sum6(s.counts) == s.total
  {
    var hs := HeadingsOnly(text);
    forall i | 0 <= i < |hs| ensures Level(hs[i]) >= 1 {
      HeadingsShape(text, hs[i]);
    }
    TallyDefined(hs);
    if Tally(hs).Some? {
      TallySum(hs);
    }
  }
}
