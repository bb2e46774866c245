/**
  The string helpers of the lane assignment (`FigureMapGenerator`, the same code
  at the top level and in `paper_vis/`): caption cleaning, the case-insensitive
  caption test, and the word-overlap similarity.
 */
module LaneText {
  import opened Wrappers
  import opened Text
  import opened Scan
  import opened Seqs

  /** `(Figure|Fig|Table|Tab)` under IGNORECASE, alternatives in the order the engine tries them. */
  const PrefixKeywords: seq<string> := ["figure", "fig", "table", "tab"]

  /** The optional `[:\-\.]` after the number. */
  predicate IsPrefixMark(c: char) {
    c == ':' || c == '-' || c == '.'
  }

  /** What is left after a prefix match whose number ends at `e`: the optional mark and the whitespace run after it are dropped. */
  function AfterPrefix(s: string, e: nat): (r: string)
    requires e <= |s|
    ensures |r| <= |s| - e && r == s[|s| - |r|..]
    ensures |r| > 0 ==> !IsSpace(r[0])
  {
    var m := if e < |s| && IsPrefixMark(s[e]) then e + 1 else e;
    s[SkipSpaces(s, m)..]
  }

  /** `re.sub(r'^(Figure|Fig|Table|Tab)\s*\d+[:\-\.]?\s*', '', caption, flags=re.IGNORECASE)`. */
  function StripPrefix(caption: string): (r: string)
    ensures |r| <= |caption|
    ensures KeywordNumberAt(caption, 0, PrefixKeywords).None? ==> r == caption
  {
    var h := KeywordNumberAt(caption, 0, PrefixKeywords);
    if h.None? then caption else AfterPrefix(caption, h.value.end)
  }

  /** `_clean_figure_caption`: the prefix removed, whitespace runs collapsed and the ends trimmed. */
  function CleanCaption(caption: string): (r: string)
    ensures SingleSpaced(r)
  {
    if caption == "" then ""
    else
      NormalizeSpaceShape(StripPrefix(caption));
      NormalizeSpace(StripPrefix(caption))
  }

  /** `_is_caption_in_content`: a case-insensitive substring test that fails on empty inputs. */
  function CaptionInContent(caption: string, content: string): (b: bool)
    ensures b ==> caption != "" && content != ""
  {
    caption != "" && content != "" && Contains(Lower(content), Lower(caption))
  }

  // ---------------------------------------------------------------- caption cleaning, properties

  /** A text opening with `Figure` or `Table` (any case), a space and a number has that prefix hit. */
  lemma PrefixHit(s: string, w: string, n: string, rest: string)
    requires Lower(w) == "figure" || Lower(w) == "table"
    requires IsNumber(n) && s == w + " " + n + rest && |rest| > 0 && !IsDigit(rest[0])
    ensures KeywordNumberAt(s, 0, PrefixKeywords) == Some(Hit(0, |w| + 1, |w| + 1 + |n|))
  {
    assert s[0] == w[0];
    var k := if Lower(w) == "figure" then 0 else 2;
    if k == 2 {
      assert ToLower(s[0]) == 't';
      if KeywordAt(s, 0, PrefixKeywords[0]) {
        KeywordInitial(s, 0, PrefixKeywords[0]);
      }
      if KeywordAt(s, 0, PrefixKeywords[1]) {
        KeywordInitial(s, 0, PrefixKeywords[1]);
      }
    }
    LeadingHit(s, PrefixKeywords, k, w, n, rest);
  }

  /** After a number ending at `e`, an optional mark and one space are dropped before the first non-space. */
  lemma AfterPrefixSpec(s: string, e: nat, mark: string, body: string)
    requires e <= |s| && s[e..] == mark + " " + body
    requires mark == "" || (|mark| == 1 && IsPrefixMark(mark[0]))
    requires |body| > 0 && !IsSpace(body[0])
    ensures AfterPrefix(s, e) == body
  {
    var t := mark + " " + body;
    assert s[e] == t[0];
    var m := e + |mark|;
    assert t[|mark|] == ' ' && t[|mark| + 1] == body[0];
    assert s[m] == ' ' && s[m + 1] == body[0];
    assert SkipSpaces(s, m) == m + 1;
    assert t[|mark| + 1..] == body;
    assert s[m + 1..] == s[e..][|mark| + 1..];
  }

  /** A `Figure N: ` or `Table N. ` prefix is removed together with the space after it. */
  lemma StripPrefixed(w: string, n: string, mark: string, body: string)
    requires Lower(w) == "figure" || Lower(w) == "table"
    requires IsNumber(n) && (mark == "" || (|mark| == 1 && IsPrefixMark(mark[0])))
    requires |body| > 0 && !IsSpace(body[0])
    ensures StripPrefix(w + " " + n + mark + " " + body) == body
  {
    var rest := mark + " " + body;
    var s := w + " " + n + rest;
    var e := |w| + 1 + |n|;
    assert w + " " + n + mark + " " + body == s;
    assert KeywordNumberAt(s, 0, PrefixKeywords) == Some(Hit(0, |w| + 1, e)) by {
      assert rest[0] == (if mark == "" then ' ' else mark[0]);
      PrefixHit(s, w, n, rest);
    }
    assert AfterPrefix(s, e) == body by {
      assert s[e..] == rest;
      AfterPrefixSpec(s, e, mark, body);
    }
  }

  /** ... and then the rest is single-spaced. */
  lemma CleanPrefixed(w: string, n: string, mark: string, body: string)
    requires Lower(w) == "figure" || Lower(w) == "table"
    requires IsNumber(n) && (mark == "" || (|mark| == 1 && IsPrefixMark(mark[0])))
    requires |body| > 0 && !IsSpace(body[0])
    ensures CleanCaption(w + " " + n + mark + " " + body) == NormalizeSpace(body)
  {
    StripPrefixed(w, n, mark, body);
  }

  /** The text opens with `Fig.`, in any case. */
  predicate OpensWithFigDot(s: string) {
    |s| >= 4 && ToLower(s[0]) == 'f' && ToLower(s[1]) == 'i' && ToLower(s[2]) == 'g' && s[3] == '.'
  }

  /** No alternative of the prefix pattern matches a text that opens with `Fig.`. */
  lemma FigDotNoHit(s: string)
    requires OpensWithFigDot(s)
    ensures KeywordNumberAt(s, 0, PrefixKeywords).None?
  {
    assert MatchWith(s, 0, PrefixKeywords[0]).None? by {
      if KeywordAt(s, 0, PrefixKeywords[0]) {
        assert Lower(s[0..6])[3] == ToLower(s[3]);
      }
    }
    assert MatchWith(s, 0, PrefixKeywords[1]).None? by {
      assert SkipSpaces(s, 3) == 3;
    }
    assert MatchWith(s, 0, PrefixKeywords[2]).None? by {
      if KeywordAt(s, 0, PrefixKeywords[2]) {
        KeywordInitial(s, 0, PrefixKeywords[2]);
      }
    }
    assert MatchWith(s, 0, PrefixKeywords[3]).None? by {
      if KeywordAt(s, 0, PrefixKeywords[3]) {
        KeywordInitial(s, 0, PrefixKeywords[3]);
      }
    }
    KeywordNumberAtFirst(s, 0, PrefixKeywords);
  }

  /** `Fig. 2` is not stripped, since the pattern wants digits right after the word: only the whitespace is collapsed. */
  lemma FigDotKept(s: string)
    requires OpensWithFigDot(s)
    ensures CleanCaption(s) == NormalizeSpace(s)
  {
    FigDotNoHit(s);
  }

  /** Only one prefix is removed: a caption that starts with two keeps the second. */
  lemma OnePrefixOnly(n1: string, n2: string, rest: string)
    requires IsNumber(n1)
    ensures CleanCaption("Figure " + n1 + ": " + ("Figure " + n2 + rest)) == NormalizeSpace("Figure " + n2 + rest)
  {
    var body := "Figure " + n2 + rest;
    assert "Figure " + n1 + ": " + body == "Figure" + " " + n1 + ":" + " " + body;
    assert body[0] == 'F';
    CleanPrefixed("Figure", n1, ":", body);
  }

  // ---------------------------------------------------------------- caption containment, properties

  /** Lower-casing twice is lower-casing once. */
  lemma LowerIdempotent(s: string)
    ensures Lower(Lower(s)) == Lower(s)
  {
  }

  /** The test ignores case on both sides. */
  lemma CaptionInContentCaseless(caption: string, content: string)
    ensures CaptionInContent(caption, content) == CaptionInContent(Lower(caption), Lower(content))
  {
    LowerIdempotent(caption);
    LowerIdempotent(content);
  }

  /** A non-empty caption that occurs verbatim in the text is found. */
  lemma VerbatimFound(caption: string, content: string)
    requires caption != "" && Contains(content, caption)
    ensures CaptionInContent(caption, content)
  {
    var i :| 0 <= i <= |content| - |caption| && OccursAt(content, caption, i);
    assert Lower(content)[i..i + |caption|] == Lower(caption);
    assert OccursAt(Lower(content), Lower(caption), i);
  }

  // ---------------------------------------------------------------- word overlap

  /** Length of the leading run of `\w` characters. */
  function RunLen(s: string): (n: nat)
    ensures n <= |s|
    ensures forall i | 0 <= i < n :: IsWordChar(s[i])
    ensures n < |s| ==> !IsWordChar(s[n])
  {
    if |s| == 0 || !IsWordChar(s[0]) then 0 else 1 + RunLen(s[1..])
  }

  /** `re.findall(r'\b\w+\b', s)`: the maximal runs of word characters, in order. */
  function WordRuns(s: string): (ws: seq<string>)
    ensures forall k | 0 <= k < |ws| :: |ws[k]| > 0 && forall i | 0 <= i < |ws[k]| :: IsWordChar(ws[k][i])
    decreases |s|
  {
    if |s| == 0 then []
    else if !IsWordChar(s[0]) then WordRuns(s[1..])
    else
      var n := RunLen(s);
      [s[..n]] + WordRuns(s[n..])
  }

  /** The set of lower-cased words of a text. */
  function WordSet(t: string): set<string> {
    set w | w in WordRuns(Lower(t))
  }

  /** `len(a & b) / len(a | b)` for two non-empty sets. */
  function Overlap(a: set<string>, b: set<string>): (r: real)
    requires a != {} && b != {}
    ensures 0.0 < r <= 1.0 || (r == 0.0 && a * b == {})
  {
    SubsetCard(a * b, a + b);
    var x :| x in a;
    assert x in a + b;
    (|a * b| as real) / (|a + b| as real)
  }

  /** The overlap is 1 exactly when the two sets are equal. */
  lemma OverlapOne(a: set<string>, b: set<string>)
    requires a != {} && b != {}
    ensures Overlap(a, b) == 1.0 <==> a == b
  {
    SubsetCard(a * b, a + b);
    if a == b {
      assert a * b == a && a + b == a;
    }
  }

  /** `_calculate_text_similarity`: the Jaccard index of the two word sets, 0 when either text or set is empty. */
  function Jaccard(t1: string, t2: string): (r: real)
    ensures 0.0 <= r <= 1.0
    ensures WordSet(t1) == {} || WordSet(t2) == {} ==> r == 0.0
  {
    if t1 == "" || t2 == "" then 0.0
    else
      var a := WordSet(t1);
      var b := WordSet(t2);
      if a == {} || b == {} then 0.0 else Overlap(a, b)
  }

  /** The index does not depend on the order of its arguments. */
  lemma JaccardSymmetric(t1: string, t2: string)
    ensures Jaccard(t1, t2) == Jaccard(t2, t1)
  {
    var a := WordSet(t1);
    var b := WordSet(t2);
    assert a * b == b * a && a + b == b + a;
  }

  /** The index is 1 exactly when both texts have the same non-empty word set. */
  lemma JaccardOne(t1: string, t2: string)
    ensures Jaccard(t1, t2) == 1.0 <==> WordSet(t1) != {} && WordSet(t1) == WordSet(t2)
  {
    var a := WordSet(t1);
    var b := WordSet(t2);
    if a != {} && b != {} {
      OverlapOne(a, b);
    }
  }
}
