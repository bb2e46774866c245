/**
  The reference extractor's sentence splitter (`_split_sentences`): abbreviated
  references such as `Fig. 3` are first glued to their number with a sentinel so
  that their period cannot end a sentence, the text is cut after every `.`, `!`
  or `?` followed by whitespace, and the sentinel is turned back into a space.
 */
module Sentences {
  import opened Text
  import opened Scan
  import opened Seqs

  /** The placeholder that stands for the whitespace between a protected keyword and its number. */
  const Sentinel: string := "___SPACE___"

  /** The protection passes, in order: `Fig.`, `Table.`, `Tab.`, each matched case-insensitively at a word start. */
  const ProtectedKeywords: seq<string> := ["fig.", "table.", "tab."]

  // ---------------------------------------------------------------- protection

  /** `\b(kw)\s*(\d+)` matches at `p`: a word start, the keyword, optional whitespace and a digit. */
  predicate Protectable(t: string, p: nat, kw: string)
    requires p <= |t|
  {
    && WordStart(t, p)
    && KeywordAt(t, p, kw)
    && var d := SkipSpaces(t, p + |kw|);
       d < |t| && IsDigit(t[d])
  }

  /**
    One `re.sub` pass from position `i` on: each match is rewritten to the keyword as
    written, the sentinel and the digits; the whitespace between them is dropped.
   */
  function ProtectFrom(s: string, kw: string, i: nat): string
    requires i <= |s|
    decreases |s| - i
  {
    if i == |s| then ""
    else if Protectable(s, i, kw) then
      var d := SkipSpaces(s, i + |kw|);
      var e := SkipDigits(s, d);
      s[i..i + |kw|] + Sentinel + s[d..e] + ProtectFrom(s, kw, e)
    else [s[i]] + ProtectFrom(s, kw, i + 1)
  }

  function ProtectPass(s: string, kw: string): string {
    ProtectFrom(s, kw, 0)
  }

  /** The three protection passes, one after the other. */
  function Protect(s: string): string {
    ProtectPass(ProtectPass(ProtectPass(s, ProtectedKeywords[0]), ProtectedKeywords[1]), ProtectedKeywords[2])
  }

  /** The shape the argument below needs of a protected keyword: it starts with `f` or `t` and holds no `_`. */
  predicate KeywordShape(kw: string) {
    |kw| > 0 && (kw[0] == 'f' || kw[0] == 't') && '_' !in kw
  }

  /**
    Two keywords the passes can be interleaved with: a match of one cannot start
    where the other one matched or inside it, unless they are the same keyword.
   */
  predicate Compatible(kwA: string, kwB: string) {
    && KeywordShape(kwA) && KeywordShape(kwB)
    && kwA[0] !in kwB[1..]
    && (kwA != kwB ==> !(|kwA| <= |kwB| && kwA == kwB[..|kwA|]))
  }

  lemma KeywordsCompatible(a: nat, b: nat)
    requires a < |ProtectedKeywords| && b < |ProtectedKeywords|
    ensures Compatible(ProtectedKeywords[a], ProtectedKeywords[b])
  {
    assert "fig."[1..] == "ig." && "table."[1..] == "able." && "tab."[1..] == "ab.";
    assert "table."[..4] == "tabl" && "table."[..4] != "tab.";
  }

  /** The end of a whitespace run is determined by where the first non-space character is. */
  lemma SkipSpacesUnique(t: string, j: nat, e: nat)
    requires j <= e < |t| && AllSpace(t[j..e]) && !IsSpace(t[e])
    ensures SkipSpaces(t, j) == e
    decreases e - j
  {
    if j < e {
      assert IsSpace(t[j..e][0]);
      assert t[j + 1..e] == t[j..e][1..];
      SkipSpacesUnique(t, j + 1, e);
    }
  }

  /** A whitespace run stops at the first non-space character. */
  lemma SkipSpacesStops(t: string, j: nat, q: nat)
    requires j <= q < |t| && !IsSpace(t[q])
    ensures SkipSpaces(t, j) <= q
    decreases |t| - j
  {
    if j < q && IsSpace(t[j]) {
      SkipSpacesStops(t, j + 1, q);
    }
  }

  /**
    Two texts that agree on a window holding a keyword, the whitespace after it and
    the character that ends the whitespace agree on whether a match starts there.
   */
  lemma SameWindow(t: string, p: nat, x: string, i: nat, kw: string, m: nat)
    requires p + m <= |t| && i + m <= |x| && t[p..p + m] == x[i..i + m]
    requires |kw| <= m
    requires SkipSpaces(t, p + |kw|) < p + m
    ensures KeywordAt(t, p, kw) == KeywordAt(x, i, kw)
    ensures SkipSpaces(x, i + |kw|) - i == SkipSpaces(t, p + |kw|) - p
    ensures IsDigit(t[SkipSpaces(t, p + |kw|)]) == IsDigit(x[SkipSpaces(x, i + |kw|)])
  {
    var d := SkipSpaces(t, p + |kw|);
    var e := i + (d - p);
    SubWindow(t, p, x, i, m, 0, |kw|);
    WindowChar(t, p, x, i, m, d - p);
    assert t[d] == x[e];
    SubWindow(t, p, x, i, m, |kw|, d - p);
    assert t[p + |kw|..d] == x[i + |kw|..e];
    SkipSpacesUnique(x, i + |kw|, e);
  }

  /** Two texts that agree on a window agree on every piece of it. */
  lemma SubWindow(t: string, p: nat, x: string, i: nat, m: nat, a: nat, b: nat)
    requires p + m <= |t| && i + m <= |x| && t[p..p + m] == x[i..i + m]
    requires a <= b <= m
    ensures t[p + a..p + b] == x[i + a..i + b]
  {
    SliceOfSlice(t, p, p + m, a, b - a);
    SliceOfSlice(x, i, i + m, a, b - a);
  }

  /** Two texts that agree on a window agree on each character of it. */
  lemma WindowChar(t: string, p: nat, x: string, i: nat, m: nat, q: nat)
    requires p + m <= |t| && i + m <= |x| && t[p..p + m] == x[i..i + m]
    requires q < m
    ensures t[p + q] == x[i + q]
  {
    assert t[p + q] == t[p..p + m][q];
    assert x[i + q] == x[i..i + m][q];
  }

  /**
    The output of a pass from `i` copies the input up to the first match's keyword,
    and then shows the sentinel's `_`; with no match ahead it is the input's rest.
   */
  lemma {:induction false} Agreement(x: string, kw: string, i: nat) returns (l: nat)
    requires i <= |x| && |kw| > 0
    ensures l <= |ProtectFrom(x, kw, i)| && i + l <= |x|
    ensures ProtectFrom(x, kw, i)[..l] == x[i..i + l]
    ensures l == |ProtectFrom(x, kw, i)| ==> i + l == |x|
    ensures l < |ProtectFrom(x, kw, i)| ==> ProtectFrom(x, kw, i)[l] == '_'
    decreases |x| - i
  {
    var out := ProtectFrom(x, kw, i);
    if i == |x| {
      l := 0;
    } else if Protectable(x, i, kw) {
      l := |kw|;
      RewriteHead(x, kw, i);
    } else {
      var l' := Agreement(x, kw, i + 1);
      l := l' + 1;
      var rest := ProtectFrom(x, kw, i + 1);
      assert out == [x[i]] + rest;
      assert out[..l] == [x[i]] + rest[..l'];
      assert x[i..i + l] == [x[i]] + x[i + 1..i + 1 + l'];
      if l < |out| {
        assert out[l] == rest[l'];
      }
    }
  }

  /** Where a match starts, the pass output starts with the keyword as written, then the sentinel. */
  lemma RewriteHead(x: string, kw: string, i: nat)
    requires i < |x| && Protectable(x, i, kw)
    ensures var out := ProtectFrom(x, kw, i);
      i + |kw| <= |x| && |kw| < |out| && out[..|kw|] == x[i..i + |kw|] && out[|kw|] == '_'
  {
    var out := ProtectFrom(x, kw, i);
    var d := SkipSpaces(x, i + |kw|);
    var e := SkipDigits(x, d);
    assert out == x[i..i + |kw|] + Sentinel + x[d..e] + ProtectFrom(x, kw, e);
    assert out[|kw|] == Sentinel[0];
  }

  /** At `p`, `t` does not hold the keyword when the character at offset `q` of the window cannot be the keyword's. */
  lemma MismatchAt(t: string, p: nat, kw: string, q: nat)
    requires q < |kw| && p + |kw| <= |t| && ToLower(t[p + q]) != kw[q]
    ensures !KeywordAt(t, p, kw)
  {
    assert Lower(t[p..p + |kw|])[q] == ToLower(t[p + q]);
  }

  /**
    Inside a rewritten match (keyword, sentinel, digits) no match of a compatible
    keyword starts.
   */
  lemma ChunkSafe(t: string, c: nat, x: string, i: nat, kwA: string, kwB: string, digits: string, p: nat)
    requires Compatible(kwA, kwB)
    requires i + |kwB| <= |x| && KeywordAt(x, i, kwB) && IsNumber(digits)
    requires c + |kwB| + |Sentinel| + |digits| <= |t|
    requires t[c..c + |kwB| + |Sentinel| + |digits|] == x[i..i + |kwB|] + Sentinel + digits
    requires c <= p < c + |kwB| + |Sentinel| + |digits|
    ensures !Protectable(t, p, kwA)
  {
    if p + |kwA| <= |t| {
      if p == c {
        ChunkSafeAtStart(t, c, x, i, kwA, kwB, digits);
      } else {
        ChunkSafeInside(t, c, x, i, kwA, kwB, digits, p);
      }
    }
  }

  /** The characters of a rewritten match `w`, sentinel, digits, one by one. */
  lemma ChunkChars(t: string, c: nat, w: string, digits: string)
    requires c + |w| + |Sentinel| + |digits| <= |t|
    requires t[c..c + |w| + |Sentinel| + |digits|] == w + Sentinel + digits
    ensures forall q | 0 <= q < |w| :: t[c + q] == w[q]
    ensures forall q | 0 <= q < |Sentinel| :: t[c + |w| + q] == Sentinel[q]
    ensures forall q | 0 <= q < |digits| :: t[c + |w| + |Sentinel| + q] == digits[q]
  {
    var n := |w| + |Sentinel| + |digits|;
    var chunk := w + Sentinel + digits;
    forall q | 0 <= q < n ensures t[c + q] == chunk[q] {
      assert t[c..c + n][q] == t[c + q];
    }
    forall q | 0 <= q < |w| ensures t[c + q] == w[q] {
      assert chunk[q] == w[q];
    }
    forall q | 0 <= q < |Sentinel| ensures t[c + |w| + q] == Sentinel[q] {
      assert chunk[|w| + q] == Sentinel[q];
    }
    forall q | 0 <= q < |digits| ensures t[c + |w| + |Sentinel| + q] == digits[q] {
      assert chunk[|w| + |Sentinel| + q] == digits[q];
    }
  }

  /** No compatible keyword matches where the rewritten match starts. */
  lemma ChunkSafeAtStart(t: string, c: nat, x: string, i: nat, kwA: string, kwB: string, digits: string)
    requires Compatible(kwA, kwB)
    requires i + |kwB| <= |x| && KeywordAt(x, i, kwB) && IsNumber(digits)
    requires c + |kwB| + |Sentinel| + |digits| <= |t| && c + |kwA| <= |t|
    requires t[c..c + |kwB| + |Sentinel| + |digits|] == x[i..i + |kwB|] + Sentinel + digits
    ensures !Protectable(t, c, kwA)
  {
    var p := c;
    ChunkChars(t, c, x[i..i + |kwB|], digits);
    assert t[c + |kwB|] == '_' by {
      assert t[c + |kwB| + 0] == Sentinel[0];
    }
    if kwA == kwB {
      SkipSpacesUnique(t, p + |kwA|, p + |kwA|);
    } else if |kwA| > |kwB| {
      MismatchAt(t, p, kwA, |kwB|);
    } else {
      var n := |kwB| + |Sentinel| + |digits|;
      var chunk := x[i..i + |kwB|] + Sentinel + digits;
      SliceOfSlice(t, c, c + n, 0, |kwA|);
      assert chunk[..|kwA|] == x[i..i + |kwB|][..|kwA|];
      assert t[p..p + |kwA|] == x[i..i + |kwB|][..|kwA|];
      assert Lower(t[p..p + |kwA|]) == Lower(x[i..i + |kwB|])[..|kwA|];
    }
  }

  /** No compatible keyword matches inside the rewritten match, past its first character. */
  lemma ChunkSafeInside(t: string, c: nat, x: string, i: nat, kwA: string, kwB: string, digits: string, p: nat)
    requires Compatible(kwA, kwB)
    requires i + |kwB| <= |x| && KeywordAt(x, i, kwB) && IsNumber(digits)
    requires c + |kwB| + |Sentinel| + |digits| <= |t|
    requires t[c..c + |kwB| + |Sentinel| + |digits|] == x[i..i + |kwB|] + Sentinel + digits
    requires c < p < c + |kwB| + |Sentinel| + |digits| && p + |kwA| <= |t|
    ensures !KeywordAt(t, p, kwA)
  {
    var w := x[i..i + |kwB|];
    ChunkChars(t, c, w, digits);
    assert ToLower(t[p]) != kwA[0] by {
      if p < c + |kwB| {
        var q := p - c;
        assert t[p] == w[q];
        KeywordCharLower(w, kwB, q);
        assert kwB[q] == kwB[1..][q - 1];
      } else if p < c + |kwB| + |Sentinel| {
        assert t[p] == Sentinel[p - c - |kwB|];
        SentinelLower(p - c - |kwB|);
      } else {
        assert t[p] == digits[p - c - |kwB| - |Sentinel|];
      }
    }
    MismatchAt(t, p, kwA, 0);
  }

  /** A text that holds a keyword lower-cases to it character by character. */
  lemma KeywordCharLower(w: string, kw: string, q: nat)
    requires |w| == |kw| && Lower(w) == kw && q < |w|
    ensures ToLower(w[q]) == kw[q]
  {
  }

  /** No character of the sentinel lower-cases to `f` or `t`. */
  lemma SentinelLower(j: nat)
    requires j < |Sentinel|
    ensures ToLower(Sentinel[j]) != 'f' && ToLower(Sentinel[j]) != 't'
  {
  }

  /**
    Where a pass copied an input character that starts no match of `kwA`, the
    output starts none either: the output agrees with the input for `l` characters
    and then either ends together with it or shows a `_`.
   */
  lemma HeadSafe(t: string, c: nat, x: string, i: nat, kwA: string, l: nat)
    requires KeywordShape(kwA)
    requires i < |x| && !Protectable(x, i, kwA)
    requires c + l <= |t| && i + l <= |x| && t[c..c + l] == x[i..i + l]
    requires (c + l == |t| && i + l == |x|) || (c + l < |t| && t[c + l] == '_')
    requires WordStart(t, c) == WordStart(x, i)
    ensures !Protectable(t, c, kwA)
  {
    if c + |kwA| <= |t| {
      if c + l == |t| {
        var d := SkipSpaces(t, c + |kwA|);
        if d < |t| {
          SameWindow(t, c, x, i, kwA, l);
        }
      } else if l < |kwA| {
        MismatchAt(t, c, kwA, l);
      } else {
        SkipSpacesStops(t, c + |kwA|, c + l);
        var d := SkipSpaces(t, c + |kwA|);
        if d < c + l {
          SameWindow(t, c, x, i, kwA, l);
        }
      }
    }
  }

  /** The first character a pass copies unchanged starts no new match. */
  lemma CopiedHeadSafe(x: string, kwA: string, kwB: string, i: nat, pre: string)
    requires Compatible(kwA, kwB) && i < |x| && !Protectable(x, i, kwB)
    requires (|pre| == 0 || !IsWordChar(pre[|pre| - 1])) == WordStart(x, i)
    requires kwA != kwB ==> !Protectable(x, i, kwA)
    ensures !Protectable(pre + ProtectFrom(x, kwB, i), |pre|, kwA)
  {
    var l := Agreement(x, kwB, i);
    SeamSafe(pre, ProtectFrom(x, kwB, i), x, i, kwA, l);
  }

  /** Text written after `pre` that agrees with the input for `l` characters, then ends with it or shows a `_`, starts no new match. */
  lemma SeamSafe(pre: string, out: string, x: string, i: nat, kwA: string, l: nat)
    requires KeywordShape(kwA) && i < |x| && !Protectable(x, i, kwA)
    requires (|pre| == 0 || !IsWordChar(pre[|pre| - 1])) == WordStart(x, i)
    requires l <= |out| && i + l <= |x| && out[..l] == x[i..i + l]
    requires l == |out| ==> i + l == |x|
    requires l < |out| ==> out[l] == '_'
    ensures !Protectable(pre + out, |pre|, kwA)
  {
    var t := pre + out;
    AppendSeam(pre, out, l);
    HeadSafe(t, |pre|, x, i, kwA, l);
  }

  /** No match starts inside a match a pass rewrote. */
  lemma RewrittenChunkSafe(x: string, kwA: string, kwB: string, i: nat, pre: string, p: nat)
    requires Compatible(kwA, kwB) && i < |x| && Protectable(x, i, kwB)
    requires var e := SkipDigits(x, SkipSpaces(x, i + |kwB|));
      |pre| <= p < |pre| + |kwB| + |Sentinel| + (e - SkipSpaces(x, i + |kwB|))
    ensures !Protectable(pre + ProtectFrom(x, kwB, i), p, kwA)
  {
    var d := SkipSpaces(x, i + |kwB|);
    var e := SkipDigits(x, d);
    var digits := x[d..e];
    var chunk := x[i..i + |kwB|] + Sentinel + digits;
    var t := pre + ProtectFrom(x, kwB, i);
    RewriteStep(x, kwB, i);
    AppendAssoc(pre, chunk, ProtectFrom(x, kwB, e));
    MiddleSlice(pre, chunk, ProtectFrom(x, kwB, e));
    ChunkSafe(t, |pre|, x, i, kwA, kwB, digits, p);
  }

  /**
    After a pass for `kwB`, no match of `kwA` starts at a position `p` the pass wrote
    from `i` on: the pass rewrites its own matches, and it creates none of another
    compatible keyword that the input did not already have.
   */
  lemma {:induction false} NoMatchAfterPass(x: string, kwA: string, kwB: string, i: nat, pre: string, p: nat)
    requires Compatible(kwA, kwB) && i <= |x|
    requires (|pre| == 0 || !IsWordChar(pre[|pre| - 1])) == WordStart(x, i)
    requires kwA != kwB ==> forall j | i <= j < |x| :: !Protectable(x, j, kwA)
    requires |pre| <= p < |pre| + |ProtectFrom(x, kwB, i)|
    ensures !Protectable(pre + ProtectFrom(x, kwB, i), p, kwA)
    decreases |x| - i, 1
  {
    if Protectable(x, i, kwB) {
      NoMatchAfterRewrite(x, kwA, kwB, i, pre, p);
    } else {
      NoMatchAfterCopy(x, kwA, kwB, i, pre, p);
    }
  }

  /** The step of `NoMatchAfterPass` where the pass rewrites a match at `i`. */
  lemma {:induction false} NoMatchAfterRewrite(x: string, kwA: string, kwB: string, i: nat, pre: string, p: nat)
    requires Compatible(kwA, kwB) && i <= |x|
    requires (|pre| == 0 || !IsWordChar(pre[|pre| - 1])) == WordStart(x, i)
    requires kwA != kwB ==> forall j | i <= j < |x| :: !Protectable(x, j, kwA)
    requires |pre| <= p < |pre| + |ProtectFrom(x, kwB, i)|
    requires Protectable(x, i, kwB)
    ensures !Protectable(pre + ProtectFrom(x, kwB, i), p, kwA)
    decreases |x| - i, 0
  {
    var d := SkipSpaces(x, i + |kwB|);
    var e := SkipDigits(x, d);
    var chunk := x[i..i + |kwB|] + Sentinel + x[d..e];
    if p < |pre| + |chunk| {
      RewrittenChunkSafe(x, kwA, kwB, i, pre, p);
    } else {
      RewriteShape(x, kwB, i, pre);
      NoMatchAfterPass(x, kwA, kwB, e, pre + chunk, p);
    }
  }

  /** A rewritten match ends with a digit, so the pass goes on after it at a position that is no word start. */
  lemma RewriteShape(x: string, kwB: string, i: nat, pre: string)
    requires i < |x| && |kwB| > 0 && Protectable(x, i, kwB)
    ensures var d := SkipSpaces(x, i + |kwB|);
      var e := SkipDigits(x, d);
      var chunk := x[i..i + |kwB|] + Sentinel + x[d..e];
      && i < e
      && pre + ProtectFrom(x, kwB, i) == (pre + chunk) + ProtectFrom(x, kwB, e)
      && IsWordChar((pre + chunk)[|pre + chunk| - 1])
      && !WordStart(x, e)
  {
    var d := SkipSpaces(x, i + |kwB|);
    var e := SkipDigits(x, d);
    var chunk := x[i..i + |kwB|] + Sentinel + x[d..e];
    RewriteSplit(x, kwB, i, pre, chunk);
    RewriteEndsWord(x, kwB, i, pre, chunk);
  }

  lemma RewriteSplit(x: string, kwB: string, i: nat, pre: string, chunk: string)
    requires i < |x| && Protectable(x, i, kwB)
    requires var d := SkipSpaces(x, i + |kwB|); chunk == x[i..i + |kwB|] + Sentinel + x[d..SkipDigits(x, d)]
    ensures pre + ProtectFrom(x, kwB, i) == (pre + chunk) + ProtectFrom(x, kwB, SkipDigits(x, SkipSpaces(x, i + |kwB|)))
  {
    RewriteStep(x, kwB, i);
    AppendAssoc(pre, chunk, ProtectFrom(x, kwB, SkipDigits(x, SkipSpaces(x, i + |kwB|))));
  }

  lemma RewriteEndsWord(x: string, kwB: string, i: nat, pre: string, chunk: string)
    requires i < |x| && Protectable(x, i, kwB)
    requires var d := SkipSpaces(x, i + |kwB|); chunk == x[i..i + |kwB|] + Sentinel + x[d..SkipDigits(x, d)]
    ensures var e := SkipDigits(x, SkipSpaces(x, i + |kwB|));
      i < e && IsWordChar((pre + chunk)[|pre + chunk| - 1]) && !WordStart(x, e)
  {
    var d := SkipSpaces(x, i + |kwB|);
    var e := SkipDigits(x, d);
    DigitsEnd(x, d, e);
    LastOfAppend(x[i..i + |kwB|] + Sentinel, x[d..e]);
    LastOfAppend(pre, chunk);
  }

  lemma AppendAssoc(a: string, b: string, c: string)
    ensures a + (b + c) == (a + b) + c
  {
  }

  lemma MiddleSlice(a: string, b: string, c: string)
    ensures (a + b + c)[|a|..|a| + |b|] == b
  {
  }

  lemma LastOfAppend(a: string, b: string)
    requires |b| > 0
    ensures (a + b)[|a + b| - 1] == b[|b| - 1]
  {
  }

  /** Where a match starts, the pass writes the keyword, the sentinel and the digits, and goes on after the digits. */
  lemma RewriteStep(x: string, kw: string, i: nat)
    requires i < |x| && Protectable(x, i, kw)
    ensures var d := SkipSpaces(x, i + |kw|);
      var e := SkipDigits(x, d);
      ProtectFrom(x, kw, i) == (x[i..i + |kw|] + Sentinel + x[d..e]) + ProtectFrom(x, kw, e)
  {
  }

  /** A digit run that starts at a digit is non-empty and ends with a digit. */
  lemma DigitsEnd(x: string, d: nat, e: nat)
    requires d < |x| && IsDigit(x[d]) && e == SkipDigits(x, d)
    ensures d < e && IsDigit(x[d..e][e - d - 1]) && x[d..e][e - d - 1] == x[e - 1]
  {
  }

  /** The step of `NoMatchAfterPass` where the pass copies the character at `i`. */
  lemma {:induction false} NoMatchAfterCopy(x: string, kwA: string, kwB: string, i: nat, pre: string, p: nat)
    requires Compatible(kwA, kwB) && i <= |x|
    requires (|pre| == 0 || !IsWordChar(pre[|pre| - 1])) == WordStart(x, i)
    requires kwA != kwB ==> forall j | i <= j < |x| :: !Protectable(x, j, kwA)
    requires |pre| <= p < |pre| + |ProtectFrom(x, kwB, i)|
    requires !Protectable(x, i, kwB)
    ensures !Protectable(pre + ProtectFrom(x, kwB, i), p, kwA)
    decreases |x| - i, 0
  {
    if p == |pre| {
      CopiedHeadSafe(x, kwA, kwB, i, pre);
    } else {
      var pre' := pre + [x[i]];
      assert i < |x|;
      CopyOne(x, kwB, i, pre);
      assert (|pre'| == 0 || !IsWordChar(pre'[|pre'| - 1])) == WordStart(x, i + 1);
      NoMatchAfterPass(x, kwA, kwB, i + 1, pre', p);
    }
  }

  /** Where no match starts, the pass copies one character. */
  lemma CopyOne(x: string, kw: string, i: nat, pre: string)
    requires i < |x| && !Protectable(x, i, kw)
    ensures pre + ProtectFrom(x, kw, i) == (pre + [x[i]]) + ProtectFrom(x, kw, i + 1)
  {
  }

  /** No match of `kw` anywhere in `t`. */
  predicate Unprotectable(t: string, kw: string) {
    forall p | 0 <= p < |t| :: !Protectable(t, p, kw)
  }

  /** A pass leaves none of its own matches behind. */
  lemma PassComplete(x: string, kw: string)
    requires KeywordShape(kw) && kw[0] !in kw[1..]
    ensures Unprotectable(ProtectPass(x, kw), kw)
  {
    forall p | 0 <= p < |ProtectPass(x, kw)| ensures !Protectable(ProtectPass(x, kw), p, kw) {
      NoMatchAfterPass(x, kw, kw, 0, "", p);
      assert "" + ProtectPass(x, kw) == ProtectPass(x, kw);
    }
  }

  /** A pass for another compatible keyword keeps a text free of matches of `kwA`. */
  lemma PassPreserves(x: string, kwA: string, kwB: string)
    requires Compatible(kwA, kwB) && Unprotectable(x, kwA)
    ensures Unprotectable(ProtectPass(x, kwB), kwA)
  {
    forall p | 0 <= p < |ProtectPass(x, kwB)| ensures !Protectable(ProtectPass(x, kwB), p, kwA) {
      NoMatchAfterPass(x, kwA, kwB, 0, "", p);
      assert "" + ProtectPass(x, kwB) == ProtectPass(x, kwB);
    }
  }

  /**
    After the three passes no `Fig.`, `Table.` or `Tab.` at a word start is followed
    by optional whitespace and a digit, so none of their periods can be followed by
    the whitespace a sentence cut needs.
   */
  lemma ProtectComplete(s: string)
    ensures forall k | 0 <= k < |ProtectedKeywords| :: Unprotectable(Protect(s), ProtectedKeywords[k])
  {
    var k0, k1, k2 := ProtectedKeywords[0], ProtectedKeywords[1], ProtectedKeywords[2];
    KeywordsCompatible(0, 0);
    KeywordsCompatible(0, 1);
    KeywordsCompatible(0, 2);
    KeywordsCompatible(1, 1);
    KeywordsCompatible(1, 2);
    KeywordsCompatible(2, 2);
    var x1 := ProtectPass(s, k0);
    var x2 := ProtectPass(x1, k1);
    PassComplete(s, k0);
    PassPreserves(x1, k0, k1);
    PassPreserves(x2, k0, k2);
    PassComplete(x1, k1);
    PassPreserves(x2, k1, k2);
    PassComplete(x2, k2);
  }

  /** A text without matches goes through a pass unchanged. */
  lemma {:induction false} PassNoop(x: string, kw: string, i: nat)
    requires i <= |x| && forall j | i <= j < |x| :: !Protectable(x, j, kw)
    ensures ProtectFrom(x, kw, i) == x[i..]
    decreases |x| - i
  {
    if i < |x| {
      PassNoop(x, kw, i + 1);
      assert x[i..] == [x[i]] + x[i + 1..];
    }
  }

  // ---------------------------------------------------------------- cutting

  predicate IsStop(c: char) {
    c == '.' || c == '!' || c == '?'
  }

  /** `[.!?]\s+` matches at `c`. */
  predicate CutAt(t: string, c: nat)
    requires c < |t|
  {
    IsStop(t[c]) && c + 1 < |t| && IsSpace(t[c + 1])
  }

  /** A piece with no `[.!?]` followed by whitespace inside it. */
  predicate Uncut(piece: string) {
    forall c | 0 <= c < |piece| - 1 :: !(IsStop(piece[c]) && IsSpace(piece[c + 1]))
  }

  /**
    `re.split(r'[.!?]\s+', t)` from a piece that started at `start`, scanning at `i`:
    each match ends a piece and is dropped with its whole whitespace run.
   */
  function CutFrom(t: string, start: nat, i: nat): (pieces: seq<string>)
    requires start <= i <= |t|
    requires forall c | start <= c < i :: !CutAt(t, c)
    ensures |pieces| > 0
    ensures forall k | 0 <= k < |pieces| :: Uncut(pieces[k])
    decreases |t| - i
  {
    if i == |t| then
      assert Uncut(t[start..]) by {
        forall c | 0 <= c < |t[start..]| - 1 ensures !(IsStop(t[start..][c]) && IsSpace(t[start..][c + 1])) {
          assert !CutAt(t, start + c);
        }
      }
      [t[start..]]
    else if CutAt(t, i) then
      assert Uncut(t[start..i]) by {
        forall c | 0 <= c < |t[start..i]| - 1 ensures !(IsStop(t[start..i][c]) && IsSpace(t[start..i][c + 1])) {
          assert !CutAt(t, start + c);
        }
      }
      var e := SkipSpaces(t, i + 1);
      [t[start..i]] + CutFrom(t, e, e)
    else CutFrom(t, start, i + 1)
  }

  /** Every piece of a whitespace-only text is whitespace-only. */
  lemma {:induction false} CutFromAllSpace(t: string, start: nat, i: nat)
    requires start <= i <= |t| && AllSpace(t)
    requires forall c | start <= c < i :: !CutAt(t, c)
    ensures forall k | 0 <= k < |CutFrom(t, start, i)| :: AllSpace(CutFrom(t, start, i)[k])
    decreases |t| - i
  {
    if i < |t| {
      assert !IsStop(t[i]);
      CutFromAllSpace(t, start, i + 1);
    }
  }

  // ---------------------------------------------------------------- restoring

  /** The sentinel turned back into a space, then stripped. */
  function Restore(piece: string): (r: string)
    ensures Stripped(r)
    ensures !Contains(r, Sentinel)
  {
    var u := Replace(piece, Sentinel, " ");
    ReplaceRemovesAll(piece, Sentinel, " ");
    StripKeepsAbsence(u, Sentinel);
    Strip(u)
  }

  /** Stripping a text without occurrences of `pat` leaves none. */
  lemma StripKeepsAbsence(s: string, pat: string)
    requires !Contains(s, pat)
    ensures !Contains(Strip(s), pat)
  {
    var a := StripSlice(s);
    NoOccurrenceInSlice(s, pat, a, a + |Strip(s)|);
  }

  /** A slice of a text without occurrences of `pat` has none either. */
  lemma NoOccurrenceInSlice(s: string, pat: string, a: nat, b: nat)
    requires a <= b <= |s| && !Contains(s, pat)
    ensures !Contains(s[a..b], pat)
  {
    forall q | 0 <= q <= |s[a..b]| - |pat| ensures !OccursAt(s[a..b], pat, q) {
      SliceOfSlice(s, a, b, q, |pat|);
      assert !OccursAt(s, pat, a + q);
    }
  }

  /** The restored pieces that are not blank, in order. */
  function RestoreAll(pieces: seq<string>): (r: seq<string>)
    ensures |r| <= |pieces|
    ensures forall k | 0 <= k < |r| :: |r[k]| > 0 && Stripped(r[k]) && !Contains(r[k], Sentinel)
  {
    if |pieces| == 0 then []
    else
      var s := Restore(pieces[0]);
      (if |s| > 0 then [s] else []) + RestoreAll(pieces[1..])
  }

  /** `_split_sentences`. */
  function SplitSentences(text: string): (r: seq<string>)
    ensures forall k | 0 <= k < |r| :: |r[k]| > 0 && Stripped(r[k]) && !Contains(r[k], Sentinel)
  {
    RestoreAll(CutFrom(Protect(text), 0, 0))
  }

  /** Replacing a pattern whose first character the text lacks changes nothing. */
  lemma {:induction false} ReplaceAbsent(s: string, pat: string, rep: string)
    requires |pat| > 0 && pat[0] !in s
    ensures Replace(s, pat, rep) == s
    decreases |s|
  {
    if |s| >= |pat| {
      assert s[..|pat|][0] == s[0];
      ReplaceAbsent(s[1..], pat, rep);
      assert s == [s[0]] + s[1..];
    }
  }

  lemma {:induction false} RestoreAllBlank(pieces: seq<string>)
    requires forall k | 0 <= k < |pieces| :: AllSpace(pieces[k])
    ensures RestoreAll(pieces) == []
  {
    if |pieces| > 0 {
      assert forall c | c in pieces[0] :: IsSpace(c);
      ReplaceAbsent(pieces[0], Sentinel, " ");
      RestoreAllBlank(pieces[1..]);
    }
  }

  /** A blank text has no sentences. */
  lemma SplitBlank(text: string)
    requires AllSpace(text)
    ensures SplitSentences(text) == []
  {
    forall k, j | 0 <= k < |ProtectedKeywords| && 0 <= j < |text| ensures !Protectable(text, j, ProtectedKeywords[k]) {
      if j + |ProtectedKeywords[k]| <= |text| {
        MismatchAt(text, j, ProtectedKeywords[k], 0);
      }
    }
    PassNoop(text, ProtectedKeywords[0], 0);
    PassNoop(text, ProtectedKeywords[1], 0);
    PassNoop(text, ProtectedKeywords[2], 0);
    assert Protect(text) == text;
    CutFromAllSpace(text, 0, 0);
    RestoreAllBlank(CutFrom(text, 0, 0));
  }

  // ---------------------------------------------------------------- what the split keeps

  /** What one cut drops: a `.`, `!` or `?` and the whole whitespace run after it. */
  predicate IsCut(g: string) {
    |g| >= 2 && IsStop(g[0]) && AllSpace(g[1..])
  }

  /** The separators `re.split(r'[.!?]\s+', t)` cuts at, in order, found by the same scan as `CutFrom`. */
  function CutGaps(t: string, start: nat, i: nat): (gaps: seq<string>)
    requires start <= i <= |t|
    requires forall c | start <= c < i :: !CutAt(t, c)
    ensures forall k | 0 <= k < |gaps| :: IsCut(gaps[k])
    decreases |t| - i
  {
    if i == |t| then []
    else if CutAt(t, i) then
      var e := SkipSpaces(t, i + 1);
      assert t[i..e][1..] == t[i + 1..e];
      [t[i..e]] + CutGaps(t, e, e)
    else CutGaps(t, start, i + 1)
  }

  /** Pieces with the separators between them, put back together. */
  function Weave(pieces: seq<string>, gaps: seq<string>): string
    requires |pieces| == |gaps| + 1
    decreases |gaps|
  {
    if |gaps| == 0 then pieces[0] else pieces[0] + gaps[0] + Weave(pieces[1..], gaps[1..])
  }

  /**
    Cutting loses nothing: the pieces, with the separators they were cut at put back
    between them, give the text from `start` on.
   */
  lemma {:induction false} CutRejoin(t: string, start: nat, i: nat)
    requires start <= i <= |t|
    requires forall c | start <= c < i :: !CutAt(t, c)
    ensures |CutFrom(t, start, i)| == |CutGaps(t, start, i)| + 1
    ensures Weave(CutFrom(t, start, i), CutGaps(t, start, i)) == t[start..]
    decreases |t| - i
  {
    if i < |t| {
      if CutAt(t, i) {
        var e := SkipSpaces(t, i + 1);
        CutRejoin(t, e, e);
        var ps := CutFrom(t, e, e);
        var gs := CutGaps(t, e, e);
        assert CutFrom(t, start, i) == [t[start..i]] + ps;
        assert CutGaps(t, start, i) == [t[i..e]] + gs;
        WeaveCons(t[start..i], t[i..e], ps, gs);
        ThreeSlices(t, start, i, e);
      } else {
        CutRejoin(t, start, i + 1);
        assert CutFrom(t, start, i) == CutFrom(t, start, i + 1);
        assert CutGaps(t, start, i) == CutGaps(t, start, i + 1);
      }
    }
  }

  lemma WeaveCons(p: string, g: string, ps: seq<string>, gs: seq<string>)
    requires |ps| == |gs| + 1
    ensures Weave([p] + ps, [g] + gs) == p + g + Weave(ps, gs)
  {
    assert ([p] + ps)[1..] == ps;
    assert ([g] + gs)[1..] == gs;
  }

  lemma ThreeSlices(t: string, a: nat, b: nat, c: nat)
    requires a <= b <= c <= |t|
    ensures t[a..] == t[a..b] + t[b..c] + t[c..]
  {
  }

  /** The whitespace run after a stop is dropped whole: no piece after the first starts with whitespace. */
  lemma {:induction false} CutPiecesStart(t: string, start: nat, i: nat)
    requires start <= i <= |t|
    requires forall c | start <= c < i :: !CutAt(t, c)
    ensures var ps := CutFrom(t, start, i);
      forall k | 1 <= k < |ps| :: ps[k] == "" || !IsSpace(ps[k][0])
    decreases |t| - i
  {
    if i < |t| {
      if CutAt(t, i) {
        var e := SkipSpaces(t, i + 1);
        CutPiecesStart(t, e, e);
        CutFirstPiece(t, e, e);
        var ps := CutFrom(t, e, e);
        assert CutFrom(t, start, i) == [t[start..i]] + ps;
        forall k | 1 <= k < |[t[start..i]] + ps| ensures ([t[start..i]] + ps)[k] == ps[k - 1] {
        }
        if ps[0] != "" {
          assert ps[0][0] == t[e];
        }
      } else {
        CutPiecesStart(t, start, i + 1);
        assert CutFrom(t, start, i) == CutFrom(t, start, i + 1);
      }
    }
  }

  /** The first piece is where the text from `start` begins. */
  lemma {:induction false} CutFirstPiece(t: string, start: nat, i: nat)
    requires start <= i <= |t|
    requires forall c | start <= c < i :: !CutAt(t, c)
    ensures var p := CutFrom(t, start, i)[0]; start + |p| <= |t| && p == t[start..start + |p|]
    decreases |t| - i
  {
    if i < |t| && !CutAt(t, i) {
      CutFirstPiece(t, start, i + 1);
    }
  }

  /** The sentences a piece contributes: its restored text, unless that is blank. */
  function Kept(piece: string): seq<string> {
    var s := Restore(piece);
    if |s| > 0 then [s] else []
  }

  /** `RestoreAll` keeps, in order, the restored text of each piece whose restored text is not blank. */
  lemma {:induction false} RestoreAllKept(pieces: seq<string>)
    ensures RestoreAll(pieces) == FlatMap(pieces, Kept)
    decreases |pieces|
  {
    if |pieces| > 0 {
      RestoreAllKept(pieces[1..]);
    }
  }

  /** Restoring distributes over the pieces: two runs of pieces restore to the two results, one after the other. */
  lemma RestoreAllAppend(a: seq<string>, b: seq<string>)
    ensures RestoreAll(a + b) == RestoreAll(a) + RestoreAll(b)
  {
    RestoreAllKept(a + b);
    RestoreAllKept(a);
    RestoreAllKept(b);
    FlatMapAppend(a, b, Kept);
  }

  /** A sentence is kept exactly when it is the non-blank restored text of some piece. */
  lemma RestoreAllMembers(pieces: seq<string>, s: string)
    ensures s in RestoreAll(pieces) <==> |s| > 0 && exists j | 0 <= j < |pieces| :: Restore(pieces[j]) == s
  {
    RestoreAllKept(pieces);
    FlatMapMembersIff(pieces, Kept, s);
  }

  /**
    What `_split_sentences` returns: the protected text is the pieces of the cut with
    the separators between them, and the sentences are the non-blank restored pieces,
    in order.
   */
  lemma SplitSentencesSpec(text: string) returns (pieces: seq<string>, gaps: seq<string>)
    ensures |pieces| == |gaps| + 1 && Weave(pieces, gaps) == Protect(text)
    ensures forall k | 0 <= k < |gaps| :: IsCut(gaps[k])
    ensures forall k | 0 <= k < |pieces| :: Uncut(pieces[k])
    ensures forall k | 1 <= k < |pieces| :: pieces[k] == "" || !IsSpace(pieces[k][0])
    ensures SplitSentences(text) == FlatMap(pieces, Kept)
  {
    var t := Protect(text);
    pieces := CutFrom(t, 0, 0);
    gaps := CutGaps(t, 0, 0);
    CutRejoin(t, 0, 0);
    CutPiecesStart(t, 0, 0);
    RestoreAllKept(pieces);
  }

  // ---------------------------------------------------------------- splitting undoes joining

  /** A sentence as the splitter returns it: non-empty, stripped, no stop followed by whitespace, no sentinel. */
  predicate SentenceText(w: string) {
    |w| > 0 && Stripped(w) && Uncut(w) && !Contains(w, Sentinel)
  }

  /** No `Fig.`, `Table.` or `Tab.` followed by a number anywhere in the text. */
  predicate NothingToProtect(t: string) {
    forall k, j | 0 <= k < |ProtectedKeywords| && 0 <= j < |t| :: !Protectable(t, j, ProtectedKeywords[k])
  }

  /** Whitespace runs are read the same after a prefix. */
  lemma {:induction false} SkipSpacesShift(p: string, r: string, j: nat)
    requires j <= |r|
    ensures SkipSpaces(p + r, |p| + j) == |p| + SkipSpaces(r, j)
    decreases |r| - j
  {
    if j < |r| {
      assert (p + r)[|p| + j] == r[j];
      if IsSpace(r[j]) {
        SkipSpacesShift(p, r, j + 1);
      }
    }
  }

  /** Cutting text written after a prefix gives the pieces of the text alone. */
  lemma {:induction false} CutFromShift(p: string, r: string, start: nat, i: nat)
    requires start <= i <= |r|
    requires forall c | start <= c < i :: !CutAt(r, c)
    ensures forall c | |p| + start <= c < |p| + i :: !CutAt(p + r, c)
    ensures CutFrom(p + r, |p| + start, |p| + i) == CutFrom(r, start, i)
    decreases |r| - i
  {
    var t := p + r;
    forall c | |p| + start <= c < |p| + i ensures !CutAt(t, c) {
      CutAtShift(p, r, c - |p|);
    }
    if i == |r| {
      assert t[|p| + start..] == r[start..];
    } else {
      CutAtShift(p, r, i);
      if CutAt(r, i) {
        var e := SkipSpaces(r, i + 1);
        CutFromShift(p, r, e, e);
        CutShiftStep(p, r, start, i);
      } else {
        CutFromShift(p, r, start, i + 1);
      }
    }
  }

  /** The step of `CutFromShift` at a cut. */
  lemma CutShiftStep(p: string, r: string, start: nat, i: nat)
    requires start <= i < |r| && CutAt(r, i)
    requires forall c | start <= c < i :: !CutAt(r, c)
    requires forall c | |p| + start <= c < |p| + i :: !CutAt(p + r, c)
    requires CutAt(p + r, |p| + i)
    requires var e := SkipSpaces(r, i + 1); CutFrom(p + r, |p| + e, |p| + e) == CutFrom(r, e, e)
    ensures CutFrom(p + r, |p| + start, |p| + i) == CutFrom(r, start, i)
  {
    var t := p + r;
    var e := SkipSpaces(r, i + 1);
    SkipSpacesShift(p, r, i + 1);
    CutFromAtCut(t, |p| + start, |p| + i, |p| + e);
    CutFromAtCut(r, start, i, e);
    SliceAfterPrefix(p, r, start, i);
  }

  /** At a cut the scan ends the current piece and starts the next one after the whitespace run, which ends at `e`. */
  lemma CutFromAtCut(t: string, start: nat, i: nat, e: nat)
    requires start <= i < |t| && CutAt(t, i)
    requires forall c | start <= c < i :: !CutAt(t, c)
    requires e == SkipSpaces(t, i + 1)
    ensures CutFrom(t, start, i) == [t[start..i]] + CutFrom(t, e, e)
  {
  }

  /** A slice of the text after a prefix is the slice of the text alone. */
  lemma SliceAfterPrefix(p: string, r: string, a: nat, b: nat)
    requires a <= b <= |r|
    ensures (p + r)[|p| + a..|p| + b] == r[a..b]
  {
    var u := (p + r)[|p| + a..|p| + b];
    var v := r[a..b];
    assert forall k | 0 <= k < |u| :: u[k] == v[k];
  }

  /** A cut is found at the same place of the text after a prefix. */
  lemma CutAtShift(p: string, r: string, c: nat)
    requires c < |r|
    ensures CutAt(p + r, |p| + c) == CutAt(r, c)
  {
    assert (p + r)[|p| + c] == r[c];
    if c + 1 < |r| {
      assert (p + r)[|p| + c + 1] == r[c + 1];
    }
  }

  /** With no cut between `i` and `j`, the scan may as well go on from `j`. */
  lemma {:induction false} CutFromSkip(t: string, start: nat, i: nat, j: nat)
    requires start <= i <= j <= |t|
    requires forall c | start <= c < j :: !CutAt(t, c)
    ensures CutFrom(t, start, i) == CutFrom(t, start, j)
    decreases j - i
  {
    if i < j {
      CutFromSkip(t, start, i + 1, j);
    }
  }

  /** Sentences joined with `. ` are cut back into the same sentences. */
  lemma {:induction false} CutJoin(ws: seq<string>)
    requires |ws| > 0 && forall k | 0 <= k < |ws| :: SentenceText(ws[k])
    ensures CutFrom(Join(ws, ". "), 0, 0) == ws
    decreases |ws|
  {
    var w := ws[0];
    var t := Join(ws, ". ");
    if |ws| == 1 {
      forall c | 0 <= c < |t| ensures !CutAt(t, c) {
        assert c + 1 < |t| ==> !(IsStop(w[c]) && IsSpace(w[c + 1]));
      }
      CutFromSkip(t, 0, 0, |t|);
    } else {
      var rest := Join(ws[1..], ". ");
      JoinCons(ws, ". ");
      var p := w + ". ";
      assert t == p + rest;
      CutJoin(ws[1..]);
      assert rest[0] == ws[1][0] by {
        if |ws[1..]| > 1 {
          JoinCons(ws[1..], ". ");
        }
      }
      forall c | 0 <= c < |w| ensures !CutAt(t, c) {
        assert t[c] == w[c];
        if c + 1 < |w| {
          assert t[c + 1] == w[c + 1];
        } else {
          assert t[c + 1] == '.';
        }
      }
      CutFromSkip(t, 0, 0, |w|);
      assert t[|w|] == '.' && t[|w| + 1] == ' ' && t[|w| + 2] == rest[0];
      assert t[|w| + 1..|w| + 2] == " ";
      SkipSpacesUnique(t, |w| + 1, |w| + 2);
      CutFromShift(p, rest, 0, 0);
      assert t[0..|w|] == w;
    }
  }

  /** A text without the pattern is left alone by `replace`. */
  lemma {:induction false} ReplaceWithout(s: string, pat: string, rep: string)
    requires |pat| > 0 && !Contains(s, pat)
    ensures Replace(s, pat, rep) == s
    decreases |s|
  {
    if |s| >= |pat| {
      assert !OccursAt(s, pat, 0);
      assert !Contains(s[1..], pat) by {
        forall q | 0 <= q <= |s[1..]| - |pat| ensures !OccursAt(s[1..], pat, q) {
          assert s[1..][q..q + |pat|] == s[q + 1..q + 1 + |pat|];
          assert !OccursAt(s, pat, q + 1);
        }
      }
      ReplaceWithout(s[1..], pat, rep);
      assert s == [s[0]] + s[1..];
    }
  }

  /** Sentences the splitter could have returned are restored to themselves. */
  lemma {:induction false} RestoreAllFixed(ws: seq<string>)
    requires forall k | 0 <= k < |ws| :: SentenceText(ws[k])
    ensures RestoreAll(ws) == ws
    decreases |ws|
  {
    if |ws| > 0 {
      RestoreFixed(ws[0]);
      RestoreAllFixed(ws[1..]);
    }
  }

  lemma RestoreFixed(w: string)
    requires SentenceText(w)
    ensures Restore(w) == w
  {
    ReplaceWithout(w, Sentinel, " ");
    StrippedFixed(w);
  }

  /** Text with nothing to protect goes through the three passes unchanged. */
  lemma ProtectNothing(t: string)
    requires NothingToProtect(t)
    ensures Protect(t) == t
  {
    PassNoop(t, ProtectedKeywords[0], 0);
    PassNoop(t, ProtectedKeywords[1], 0);
    PassNoop(t, ProtectedKeywords[2], 0);
  }

  /** The sentences of a text are those of its protected form, cut and restored. */
  lemma SplitVia(text: string, t: string)
    requires Protect(text) == t
    ensures SplitSentences(text) == RestoreAll(CutFrom(t, 0, 0))
  {
  }

  /** The empty text has no sentences. */
  lemma SplitEmpty()
    ensures SplitSentences("") == []
  {
    ProtectNothing("");
    assert CutFrom("", 0, 0) == [""];
    StrippedFixed("");
  }

  /**
    Splitting undoes joining: sentences joined with `. ` split back into the same
    sentences, when the joined text has no abbreviated reference to protect.
   */
  lemma SplitJoin(ws: seq<string>)
    requires forall k | 0 <= k < |ws| :: SentenceText(ws[k])
    requires NothingToProtect(Join(ws, ". "))
    ensures SplitSentences(Join(ws, ". ")) == ws
  {
    var t := Join(ws, ". ");
    if |ws| == 0 {
      SplitEmpty();
    } else {
      ProtectNothing(t);
      JoinRestored(ws);
      SplitVia(t, t);
    }
  }

  lemma JoinRestored(ws: seq<string>)
    requires |ws| > 0 && forall k | 0 <= k < |ws| :: SentenceText(ws[k])
    ensures RestoreAll(CutFrom(Join(ws, ". "), 0, 0)) == ws
  {
    CutJoin(ws);
    RestoreAllFixed(ws);
  }
}
