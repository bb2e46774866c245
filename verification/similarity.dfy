/**
  The reconciler's text similarity (`DataMerger._calculate_similarity` and
  `_clean_text_for_comparison`) and its block-type compatibility table
  (`DataMerger._type_match`).  `difflib.SequenceMatcher.ratio` is a parameter.
 */
module SimilarityScore {
  import opened Text
  import opened Json
  import opened Wrappers

  /**
    `SequenceMatcher(None, a, b).ratio()`, left abstract: any function into [0, 1]
    that rates every string against itself as 1 (difflib returns 2*M/T, and 1.0
    when both strings are empty).
   */
  type Ratio = f: (string, string) -> real
    | (forall a, b :: 0.0 <= f(a, b) <= 1.0) && (forall a :: f(a, a) == 1.0)
    witness (a: string, b: string) => if a == b then 1.0 else 0.0

  function Min(a: real, b: real): real {
    if a <= b then a else b
  }

  predicate WordOrSpace(c: char) {
    IsWordChar(c) || IsSpace(c)
  }

  /** `re.sub(r'[^\w\s]', ' ', ...)` on one character. */
  function Blank(c: char): (d: char)
    ensures WordOrSpace(d)
  {
    if WordOrSpace(c) then c else ' '
  }

  /** `_clean_text_for_comparison`: lower-case, punctuation to spaces, whitespace collapsed. */
  function Clean(s: string): string {
    NormalizeSpace(Blanked(s))
  }

  function Blanked(s: string): (b: string)
    ensures |b| == |s|
    ensures forall i | 0 <= i < |b| :: WordOrSpace(b[i])
  {
    seq(|s|, i requires 0 <= i < |s| => Blank(ToLower(s[i])))
  }

  /** The cleaned text is single-spaced and made of word characters and spaces only. */
  lemma CleanShape(s: string)
    ensures SingleSpaced(Clean(s))
    ensures forall i | 0 <= i < |Clean(s)| :: Clean(s)[i] == ' ' || IsWordChar(Clean(s)[i])
  {
    var b := Blanked(s);
    NormalizeSpaceShape(b);
    CleanChars(b);
  }

  lemma CleanChars(b: string)
    requires forall i | 0 <= i < |b| :: WordOrSpace(b[i])
    ensures var r := NormalizeSpace(b); forall i | 0 <= i < |r| :: r[i] == ' ' || IsWordChar(r[i])
  {
    var r := NormalizeSpace(b);
    NormalizeSpaceShape(b);
    forall i | 0 <= i < |r| ensures r[i] == ' ' || IsWordChar(r[i]) {
      if r[i] != ' ' {
        var j :| 0 <= j < |b| && b[j] == r[i];
      }
    }
  }

  /** Python's `s[:n]` for `n >= 0`: the slice is clamped to the string. */
  function Take(s: string, n: nat): (r: string)
    ensures |r| == if n <= |s| then n else |s|
    ensures StartsWith(s, r)
  {
    if n <= |s| then s[..n] else s
  }

  /** `max(10, int(min_len * 0.8))`; `int` truncates, which on a non-negative product is `(4 * min_len) / 5`. */
  function PrefixLen(minLen: nat): (p: nat)
    ensures p >= 10 && p >= (4 * minLen) / 5
    ensures p == 10 || p == (4 * minLen) / 5
  {
    if (4 * minLen) / 5 > 10 then (4 * minLen) / 5 else 10
  }

  /** The two cleaned prefixes the first ratio is computed on: each cleaned text cut to `PrefixLen` of the shorter one. */
  function Prefixes(c1: string, c2: string): (string, string) {
    var p := PrefixLen(if |c1| <= |c2| then |c1| else |c2|);
    (Take(c1, p), Take(c2, p))
  }

  /** `prefix_ratio`, on the cleaned texts. */
  function PrefixRatio(ratio: Ratio, c1: string, c2: string): real {
    var p := Prefixes(c1, c2);
    ratio(p.0, p.1)
  }

  /** `set(text.split())`. */
  function WordSet(s: string): set<string> {
    set w | w in Words(s)
  }

  /** `len(a & b) / len(a | b)`, and 0 when either set is empty. */
  function Jaccard(a: set<string>, b: set<string>): (r: real)
    ensures 0.0 <= r <= 1.0
    ensures r == 0.0 <==> a * b == {}
    ensures r == 1.0 <==> a == b && a != {}
  {
    if a == {} || b == {} then 0.0
    else
      JaccardCards(a, b);
      (|a * b| as real) / (|a + b| as real)
  }

  /** A subset is no larger than its superset. */
  lemma {:induction false} SubsetCard(x: set<string>, y: set<string>)
    requires x <= y
    ensures |x| <= |y|
    decreases |y|
  {
    if x != {} {
      var e :| e in x;
      SubsetCard(x - {e}, y - {e});
    }
  }

  /** Two different non-empty sets share strictly fewer elements than they have together. */
  lemma StrictSubsetCard(a: set<string>, b: set<string>)
    requires a != b
    ensures |a * b| < |a + b|
  {
    var e :| e in (a - b) + (b - a);
    SubsetCard(a * b, (a + b) - {e});
  }

  lemma JaccardCards(a: set<string>, b: set<string>)
    requires a != {}
    ensures 0 < |a + b| && |a * b| <= |a + b|
    ensures a != b ==> |a * b| < |a + b|
  {
    var e :| e in a;
    SubsetCard({e}, a + b);
    SubsetCard(a * b, a + b);
    if a != b {
      StrictSubsetCard(a, b);
    }
  }

  lemma JaccardSymmetric(a: set<string>, b: set<string>)
    ensures Jaccard(a, b) == Jaccard(b, a)
  {
    assert a * b == b * a && a + b == b + a;
  }

  /** The score of two cleaned texts: a high prefix ratio short-circuits to at least 0.98; otherwise a weighted sum capped at 1. */
  function Score(ratio: Ratio, c1: string, c2: string): (r: real)
    ensures 0.0 <= r <= 1.0
    ensures PrefixRatio(ratio, c1, c2) >= 0.8 ==> r >= 0.98
  {
    var prefixRatio := PrefixRatio(ratio, c1, c2);
    if prefixRatio >= 0.8 then Min(0.9 + prefixRatio * 0.1, 1.0)
    else
      var seqRatio := ratio(c1, c2);
      var containBonus := if Contains(c2, c1) || Contains(c1, c2) then 0.3 else 0.0;
      var wordOverlap := Jaccard(WordSet(c1), WordSet(c2));
      Min(prefixRatio * 0.5 + seqRatio * 0.3 + wordOverlap * 0.2 + containBonus, 1.0)
  }

  /** `_calculate_similarity`: 0 when either raw text is empty, otherwise the score of the cleaned texts. */
  function Similarity(ratio: Ratio, text1: string, text2: string): (r: real)
    ensures 0.0 <= r <= 1.0
    ensures |text1| == 0 || |text2| == 0 ==> r == 0.0
    ensures |text1| > 0 && |text2| > 0 && PrefixRatio(ratio, Clean(text1), Clean(text2)) >= 0.8 ==> r >= 0.98
  {
    if |text1| == 0 || |text2| == 0 then 0.0
    else Score(ratio, Clean(text1), Clean(text2))
  }

  /** A non-empty text is similar to itself with score at least 0.98. */
  lemma SimilarityReflexive(ratio: Ratio, t: string)
    requires |t| > 0
    ensures Similarity(ratio, t, t) >= 0.98
  {
    assert PrefixRatio(ratio, Clean(t), Clean(t)) == 1.0;
  }

  lemma ScoreSymmetric(ratio: Ratio, c1: string, c2: string)
    requires forall a, b :: ratio(a, b) == ratio(b, a)
    ensures Score(ratio, c1, c2) == Score(ratio, c2, c1)
  {
    var p := Prefixes(c1, c2);
    assert Prefixes(c2, c1) == (p.1, p.0);
    assert ratio(p.0, p.1) == ratio(p.1, p.0);
    assert ratio(c1, c2) == ratio(c2, c1);
    JaccardSymmetric(WordSet(c1), WordSet(c2));
  }

  /** The similarity is symmetric when the ratio is; difflib's ratio is not symmetric in general, so neither is the similarity. */
  lemma SimilaritySymmetric(ratio: Ratio, text1: string, text2: string)
    requires forall a, b :: ratio(a, b) == ratio(b, a)
    ensures Similarity(ratio, text1, text2) == Similarity(ratio, text2, text1)
  {
    if |text1| > 0 && |text2| > 0 {
      ScoreSymmetric(ratio, Clean(text1), Clean(text2));
    }
  }

  /** `_type_match`'s table: each listed content type and the middle types it accepts. */
  function MappedTypes(contentType: string): Option<seq<string>> {
    if contentType == "text" then Some(["text", "paragraph", "para"])
    else if contentType == "image" then Some(["image", "figure"])
    else if contentType == "title" then Some(["title", "heading"])
    else if contentType == "table" then Some(["table"])
    else None
  }

  /** `_type_match`: listed content types accept their listed middle types; any other content type needs Python equality. */
  predicate TypeMatch(contentType: Json, middleType: Json)
    requires Hashable(contentType)
  {
    if contentType.JStr? && MappedTypes(contentType.s).Some? then
      middleType.JStr? && middleType.s in MappedTypes(contentType.s).value
    else PyEq(contentType, middleType)
  }

  /** Every content type matches itself: each listed type is in its own list. */
  lemma TypeMatchReflexive(t: Json)
    requires Hashable(t)
    ensures TypeMatch(t, t)
  {
  }

  /** Between two type names, matching is equality or one of the four entries of the mapping table beyond the identity. */
  lemma TypeMatchStrings(a: string, b: string)
    ensures TypeMatch(JStr(a), JStr(b)) <==>
      || a == b
      || (a == "text" && (b == "paragraph" || b == "para"))
      || (a == "image" && b == "figure")
      || (a == "title" && b == "heading")
  {
  }

  /** Two type names that match each other both ways are equal: no accepted middle type is itself a listed content type. */
  lemma TypeMatchAntisymmetric(a: string, b: string)
    requires TypeMatch(JStr(a), JStr(b)) && TypeMatch(JStr(b), JStr(a))
    ensures a == b
  {
    TypeMatchStrings(a, b);
    TypeMatchStrings(b, a);
  }

  /** Worked example: a text entry accepts a paragraph block, a paragraph entry does not accept a text block. */
  lemma TypeMatchAsymmetric()
    ensures TypeMatch(JStr("text"), JStr("paragraph"))
    ensures !TypeMatch(JStr("paragraph"), JStr("text"))
  {
  }
}
