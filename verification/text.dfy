/**
  Character classes and the handful of Python `str` operations the pipeline is
  built from: `strip`, `split()`, `split(sep)`, `join`, `lower`, `replace` and the
  `in` substring test.  Strings are sequences of Unicode scalar values, so `|s|`
  is Python's `len(s)`.
 */
module Text {

  /** The characters Python's `str.isspace()` accepts; `\s`, `split()` and `strip()` use the same set. */
  predicate IsSpace(c: char) {
    || c == ' '
    || ('\t' <= c <= '\r')
    || ('\U{1c}' <= c <= '\U{1f}')
    || c == '\U{85}' || c == '\U{a0}' || c == '\U{1680}'
    || ('\U{2000}' <= c <= '\U{200a}')
    || c == '\U{2028}' || c == '\U{2029}' || c == '\U{202f}' || c == '\U{205f}' || c == '\U{3000}'
  }

  /** `\d`, restricted to the ASCII digits. */
  predicate IsDigit(c: char) {
    '0' <= c <= '9'
  }

  predicate IsAsciiLetter(c: char) {
    ('a' <= c <= 'z') || ('A' <= c <= 'Z')
  }

  /** Non-ASCII punctuation and symbols that `\w` does not match (Latin-1 symbols, General Punctuation, CJK and full-width punctuation). */
  predicate IsWidePunct(c: char) {
    || ('\U{a1}' <= c <= '\U{bf}'
        && c != '\U{aa}' && c != '\U{b2}' && c != '\U{b3}' && c != '\U{b5}'
        && c != '\U{b9}' && c != '\U{ba}' && !('\U{bc}' <= c <= '\U{be}'))
    || c == '\U{d7}' || c == '\U{f7}'
    || ('\U{2010}' <= c <= '\U{2027}')
    || ('\U{2030}' <= c <= '\U{205e}')
    || ('\U{3001}' <= c <= '\U{3003}')
    || ('\U{3008}' <= c <= '\U{3011}')
    || ('\U{3014}' <= c <= '\U{301f}')
    || ('\U{ff01}' <= c <= '\U{ff0f}')
    || ('\U{ff1a}' <= c <= '\U{ff20}')
    || ('\U{ff3b}' <= c <= '\U{ff40}')
    || ('\U{ff5b}' <= c <= '\U{ff65}')
  }

  /** `\w`: ASCII letters, digits and `_`, and every other non-ASCII character that is neither whitespace nor punctuation. */
  predicate IsWordChar(c: char) {
    IsAsciiLetter(c) || IsDigit(c) || c == '_' || (c > '\U{7f}' && !IsSpace(c) && !IsWidePunct(c))
  }

  /**
    Worked example of where the approximation of `\w` stands: the no-break space,
    the ideographic comma and the full-width comma are not word characters, while
    the euro sign is one here although Python's `\w` rejects it.
   */
  lemma WordCharSamples()
    ensures !IsWordChar('\U{a0}') && !IsWordChar('\U{3001}') && !IsWordChar('\U{ff0c}')
    ensures IsWordChar('\U{20ac}') && IsWordChar('\U{4e2d}')
  {
  }

  function ToLower(c: char): (d: char)
    ensures IsAsciiLetter(c) ==> 'a' <= d <= 'z'
    ensures !('A' <= c <= 'Z') ==> d == c
  {
    if 'A' <= c <= 'Z' then (c as int + 32) as char else c
  }

  /** `str.lower()` on ASCII letters; other characters are kept. */
  function Lower(s: string): (r: string)
    ensures |r| == |s|
    ensures forall i | 0 <= i < |s| :: r[i] == ToLower(s[i])
  {
    seq(|s|, i requires 0 <= i < |s| => ToLower(s[i]))
  }

  predicate AllSpace(s: string) {
    forall i | 0 <= i < |s| :: IsSpace(s[i])
  }

  predicate AllDigits(s: string) {
    forall i | 0 <= i < |s| :: IsDigit(s[i])
  }

  /** A non-empty run of ASCII digits: what a `(\d+)` group captures. */
  predicate IsNumber(s: string) {
    |s| > 0 && AllDigits(s)
  }

  /** Neither end is whitespace: what `strip()` produces. */
  predicate Stripped(s: string) {
    |s| == 0 || (!IsSpace(s[0]) && !IsSpace(s[|s| - 1]))
  }

  /** The first non-whitespace position at or after `j`, or `|s|`. */
  function FirstNonSpace(s: string, j: nat): (e: nat)
    requires j <= |s|
    ensures j <= e <= |s|
    ensures forall i | j <= i < e :: IsSpace(s[i])
    ensures e == |s| || !IsSpace(s[e])
    decreases |s| - j
  {
    if j < |s| && IsSpace(s[j]) then FirstNonSpace(s, j + 1) else j
  }

  /** The position after the last non-whitespace character before `j`, or 0. */
  function TrailStart(s: string, j: nat): (e: nat)
    requires j <= |s|
    ensures e <= j
    ensures forall i | e <= i < j :: IsSpace(s[i])
    ensures e == 0 || !IsSpace(s[e - 1])
    decreases j
  {
    if j > 0 && IsSpace(s[j - 1]) then TrailStart(s, j - 1) else j
  }

  /** Python's `str.lstrip()`. */
  function LStrip(s: string): (r: string)
    ensures |r| <= |s| && r == s[|s| - |r|..]
    ensures AllSpace(s[..|s| - |r|])
    ensures |r| > 0 ==> !IsSpace(r[0])
    ensures |r| == 0 <==> AllSpace(s)
  {
    var e := FirstNonSpace(s, 0);
    assert forall i | 0 <= i < e :: s[..e][i] == s[i];
    s[e..]
  }

  /** Python's `str.rstrip()`. */
  function RStrip(s: string): (r: string)
    ensures |r| <= |s| && r == s[..|r|]
    ensures AllSpace(s[|r|..])
    ensures |r| > 0 ==> !IsSpace(r[|r| - 1])
    ensures |s| > 0 && !IsSpace(s[0]) ==> |r| > 0
  {
    var e := TrailStart(s, |s|);
    assert forall i | e <= i < |s| :: s[e..][i - e] == s[i];
    s[..e]
  }

  /** Python's `str.strip()`. */
  function Strip(s: string): (r: string)
    ensures Stripped(r)
    ensures |r| == 0 <==> AllSpace(s)
  {
    RStrip(LStrip(s))
  }

  /** Left-stripping drops exactly the whitespace in front of the first other character. */
  lemma LStripFrom(s: string, k: nat)
    requires k <= |s| && (k == |s| || !IsSpace(s[k])) && forall i | 0 <= i < k :: IsSpace(s[i])
    ensures LStrip(s) == s[k..]
  {
    var e := FirstNonSpace(s, 0);
  }

  /** Right-stripping drops exactly the whitespace after the last other character. */
  lemma RStripTo(s: string, k: nat)
    requires k <= |s| && (k == 0 || !IsSpace(s[k - 1])) && forall i | k <= i < |s| :: IsSpace(s[i])
    ensures RStrip(s) == s[..k]
  {
    var e := TrailStart(s, |s|);
  }

  /** A leading whitespace character does not change the left strip. */
  lemma LStripSpaceCons(c: char, rest: string)
    requires IsSpace(c)
    ensures LStrip([c] + rest) == LStrip(rest)
  {
    var s := [c] + rest;
    var e := FirstNonSpace(rest, 0);
    forall i | 0 <= i < e + 1 ensures IsSpace(s[i]) {
      if i > 0 {
        assert s[i] == rest[i - 1];
      }
    }
    if e < |rest| {
      assert s[e + 1] == rest[e];
    }
    LStripFrom(s, e + 1);
    LStripFrom(rest, e);
    assert s[e + 1..] == rest[e..];
  }

  /** Right-stripping text that starts with a non-space keeps a non-empty prefix and drops only whitespace. */
  lemma RStripShape(s: string) returns (n: nat)
    requires |s| > 0 && !IsSpace(s[0])
    ensures 0 < n <= |s| && RStrip(s) == s[..n] && !IsSpace(s[n - 1])
    ensures forall i | n <= i < |s| :: IsSpace(s[i])
  {
    var r := RStrip(s);
    n := |r|;
    assert r[n - 1] == s[n - 1];
    forall i | n <= i < |s| ensures IsSpace(s[i]) {
      assert s[n..][i - n] == s[i];
    }
  }

  lemma PrefixOfSuffix(s: string, k: nat, n: nat)
    requires k + n <= |s|
    ensures s[k..][..n] == s[k..k + n]
  {
    forall j | 0 <= j < n ensures s[k..][..n][j] == s[k..k + n][j] {
      assert s[k..][j] == s[k + j];
    }
  }

  lemma SuffixOfSuffix(s: string, k: nat, n: nat)
    requires k + n <= |s|
    ensures s[k..][n..] == s[k + n..]
  {
  }

  /** Stripping text whose first non-space sits at `k` keeps it from `k` to its last non-space. */
  lemma StripFrom(s: string, k: nat) returns (e: nat)
    requires k < |s| && !IsSpace(s[k]) && forall i | 0 <= i < k :: IsSpace(s[i])
    ensures k < e <= |s| && Strip(s) == s[k..e] && !IsSpace(s[e - 1])
    ensures forall i | e <= i < |s| :: IsSpace(s[i])
  {
    e := TrailStart(s, |s|);
    StripBetween(s, k, e);
  }

  /** Text with whitespace before `a`, from `b` on, and none at `a` or `b - 1` strips to `a..b`. */
  lemma StripBetween(s: string, a: nat, b: nat)
    requires a < b <= |s| && !IsSpace(s[a]) && !IsSpace(s[b - 1])
    requires forall i | 0 <= i < a :: IsSpace(s[i])
    requires forall i | b <= i < |s| :: IsSpace(s[i])
    ensures Strip(s) == s[a..b]
  {
    LStripFrom(s, a);
    var x := s[a..];
    forall i | b - a <= i < |x| ensures IsSpace(x[i]) {
      assert x[i] == s[a + i];
    }
    assert x[b - a - 1] == s[b - 1];
    RStripTo(x, b - a);
    assert x[..b - a] == s[a..b];
  }

  /** Where the stripped text sits in the original: it is the slice between two all-whitespace margins. */
  lemma StripSlice(s: string) returns (a: nat)
    ensures a + |Strip(s)| <= |s| && Strip(s) == s[a..a + |Strip(s)|]
    ensures AllSpace(s[..a]) && AllSpace(s[a + |Strip(s)|..])
  {
    var l := LStrip(s);
    var r := RStrip(l);
    assert Strip(s) == r;
    a := |s| - |l|;
    var n := |r|;
    assert l == s[a..] && r == l[..n] && AllSpace(l[n..]);
    PrefixOfSuffix(s, a, n);
    SuffixOfSuffix(s, a, n);
    assert s[a + n..] == l[n..];
  }

  /** A string that is already stripped is its own strip. */
  lemma StrippedFixed(s: string)
    requires Stripped(s)
    ensures Strip(s) == s
  {
    LStripFrom(s, 0);
    RStripTo(s, |s|);
  }

  lemma StripIdempotent(s: string)
    ensures Strip(Strip(s)) == Strip(s)
  {
    StrippedFixed(Strip(s));
  }

  function StartsWith(s: string, p: string): bool {
    |p| <= |s| && s[..|p|] == p
  }

  function EndsWith(s: string, p: string): bool {
    |p| <= |s| && s[|s| - |p|..] == p
  }

  /** `sub` occurs in `s` starting at position `i`. */
  predicate OccursAt(s: string, sub: string, i: int) {
    0 <= i && i + |sub| <= |s| && s[i..i + |sub|] == sub
  }

  /** Python's `sub in s`. */
  predicate Contains(s: string, sub: string) {
    exists i | 0 <= i <= |s| - |sub| :: OccursAt(s, sub, i)
  }

  /** A slice occurs where it was cut, and so does any slice within it. */
  lemma SliceContains(s: string, a: nat, c: nat, d: nat, b: nat)
    requires a <= c <= d <= b <= |s|
    ensures Contains(s, s[a..b])
    ensures Contains(s[a..b], s[c..d])
  {
    var m := s[a..b];
    assert OccursAt(s, m, a);
    var n := s[c..d];
    assert m[c - a..d - a] == n by {
      forall k | 0 <= k < d - c ensures m[c - a..d - a][k] == n[k] {
        assert m[c - a + k] == s[a + (c - a + k)];
      }
    }
    assert OccursAt(m, n, c - a);
  }

  /** Length of the leading run of non-whitespace characters. */
  function TokenLen(s: string): (n: nat)
    ensures n <= |s|
    ensures forall i | 0 <= i < n :: !IsSpace(s[i])
    ensures n < |s| ==> IsSpace(s[n])
  {
    if |s| == 0 || IsSpace(s[0]) then 0 else 1 + TokenLen(s[1..])
  }

  /** A token of `split()`: non-empty and free of whitespace. */
  predicate IsToken(w: string) {
    |w| > 0 && forall i | 0 <= i < |w| :: !IsSpace(w[i])
  }

  /** Python's `str.split()` with no argument: the maximal runs of non-whitespace characters, in order. */
  function Words(s: string): (ws: seq<string>)
    ensures AllTokens(ws)
    decreases |s|
  {
    var t := LStrip(s);
    if |t| == 0 then []
    else
      var n := TokenLen(t);
      TokenStart(t);
      var w := t[..n];
      var rest := Words(t[n..]);
      TokensCons(w, rest);
      [w] + rest
  }

  predicate AllTokens(ws: seq<string>) {
    forall k | 0 <= k < |ws| :: IsToken(ws[k])
  }

  /** A string that starts with a non-space character starts with a token. */
  lemma TokenStart(t: string)
    requires |t| > 0 && !IsSpace(t[0])
    ensures 0 < TokenLen(t) && IsToken(t[..TokenLen(t)])
  {
    var n := TokenLen(t);
    var w := t[..n];
    assert forall i | 0 <= i < n :: w[i] == t[i];
  }

  lemma TokensCons(w: string, rest: seq<string>)
    requires IsToken(w) && AllTokens(rest)
    ensures AllTokens([w] + rest)
  {
    assert forall k | 1 <= k < |rest| + 1 :: ([w] + rest)[k] == rest[k - 1];
  }

  /** Python's `sep.join(ws)`. */
  function Join(ws: seq<string>, sep: string): string {
    if |ws| == 0 then ""
    else if |ws| == 1 then ws[0]
    else ws[0] + sep + Join(ws[1..], sep)
  }

  /** `' '.join(s.split())`, equivalently `re.sub(r'\s+', ' ', s).strip()`: whitespace runs collapsed to one space, ends trimmed. */
  function NormalizeSpace(s: string): string {
    Join(Words(s), " ")
  }

  /** Single-spaced: stripped, and no two spaces in a row. */
  predicate SingleSpaced(r: string) {
    Stripped(r) && forall i | 0 <= i < |r| - 1 :: !(r[i] == ' ' && r[i + 1] == ' ')
  }

  /** Every character of `w` occurs in `src`. */
  predicate CharsIn(w: string, src: string) {
    forall i | 0 <= i < |w| :: w[i] in src
  }

  lemma CharsInTrans(w: string, x: string, y: string)
    requires CharsIn(w, x) && CharsIn(x, y)
    ensures CharsIn(w, y)
  {
  }

  lemma CharsInSuffix(s: string, a: nat)
    requires a <= |s|
    ensures CharsIn(s[a..], s)
  {
    forall i | 0 <= i < |s| - a ensures s[a..][i] in s {
      assert s[a..][i] == s[a + i];
    }
  }

  lemma CharsInPrefix(s: string, b: nat)
    requires b <= |s|
    ensures CharsIn(s[..b], s)
  {
    forall i | 0 <= i < b ensures s[..b][i] in s {
      assert s[..b][i] == s[i];
    }
  }

  /** Every character of every word comes from the split string. */
  lemma {:induction false} WordsChars(s: string)
    ensures forall k | 0 <= k < |Words(s)| :: CharsIn(Words(s)[k], s)
    decreases |s|
  {
    var t := LStrip(s);
    if |t| > 0 {
      var n := TokenLen(t);
      var ws := Words(s);
      var tail := Words(t[n..]);
      WordsChars(t[n..]);
      assert ws == [t[..n]] + tail;
      CharsInSuffix(s, |s| - |t|);
      CharsInPrefix(t, n);
      CharsInTrans(t[..n], t, s);
      CharsInSuffix(t, n);
      CharsInTrans(t[n..], t, s);
      forall k | 0 <= k < |ws| ensures CharsIn(ws[k], s) {
        if k > 0 {
          assert ws[k] == tail[k - 1];
          CharsInTrans(tail[k - 1], t[n..], s);
        }
      }
    }
  }

  /** Joining non-empty whitespace-free words with single spaces gives a single-spaced string made of their characters and spaces. */
  lemma {:induction false} JoinWordsShape(ws: seq<string>, src: string)
    requires forall k | 0 <= k < |ws| :: IsToken(ws[k])
    requires forall k | 0 <= k < |ws| :: CharsIn(ws[k], src)
    ensures var r := Join(ws, " ");
      && (|r| == 0 <==> |ws| == 0)
      && SingleSpaced(r)
      && forall i | 0 <= i < |r| :: r[i] == ' ' || (!IsSpace(r[i]) && r[i] in src)
  {
    if |ws| > 1 {
      var w := ws[0];
      var rest := Join(ws[1..], " ");
      JoinWordsShape(ws[1..], src);
      var r := Join(ws, " ");
      assert r == w + " " + rest;
      forall i | 0 <= i < |r| ensures r[i] == ' ' || (!IsSpace(r[i]) && r[i] in src) {
        if i < |w| {
          assert r[i] == w[i];
          assert CharsIn(ws[0], src);
        } else if i > |w| {
          assert r[i] == rest[i - |w| - 1];
        }
      }
      forall i | 0 <= i < |r| - 1 ensures !(r[i] == ' ' && r[i + 1] == ' ') {
        if i < |w| {
          assert r[i] == w[i];
        } else if i == |w| {
          assert r[i + 1] == rest[0];
        } else {
          assert r[i] == rest[i - |w| - 1] && r[i + 1] == rest[i - |w|];
        }
      }
    }
  }

  /** `NormalizeSpace` leaves a single-spaced string whose other characters are the non-space characters of its input. */
  lemma NormalizeSpaceShape(s: string)
    ensures var r := NormalizeSpace(s);
      && SingleSpaced(r)
      && (|r| == 0 <==> AllSpace(s))
      && forall i | 0 <= i < |r| :: r[i] == ' ' || (!IsSpace(r[i]) && r[i] in s)
  {
    WordsChars(s);
    JoinWordsShape(Words(s), s);
    if !AllSpace(s) {
      assert |LStrip(s)| > 0;
    }
  }

  /** A word followed by a space reads as that word: the token ends where the word ends. */
  lemma {:induction false} TokenLenOfWord(w: string, rest: string)
    requires IsToken(w)
    ensures TokenLen(w + " " + rest) == |w|
    decreases |w|
  {
    var t := w + " " + rest;
    if |w| > 1 {
      assert t[1..] == w[1..] + " " + rest;
      TokenLenOfWord(w[1..], rest);
    } else {
      assert t[1..] == " " + rest;
    }
  }

  /** A leading space does not change how a string splits. */
  lemma WordsAfterSpace(rest: string)
    ensures Words(" " + rest) == Words(rest)
  {
    LStripSpaceCons(' ', rest);
  }

  /** A single word splits to itself. */
  lemma WordsOfToken(w: string)
    requires IsToken(w)
    ensures Words(w) == [w]
  {
    TokenLenWhole(w);
    LStripFrom(w, 0);
    assert w[..|w|] == w;
    assert w[|w|..] == "";
    assert Words("") == [];
  }

  /** A word, a space and more text: the word is the first piece and the text splits on its own. */
  lemma WordsOfTokenThen(w: string, rest: string)
    requires IsToken(w)
    ensures Words(w + " " + rest) == [w] + Words(rest)
  {
    var t := w + " " + rest;
    TokenLenOfWord(w, rest);
    assert t[..|w|] == w;
    assert t[|w|..] == " " + rest;
    WordsCut(t, w, " " + rest);
    WordsAfterSpace(rest);
  }

  lemma WordsCut(t: string, w: string, tail: string)
    requires IsToken(w) && t == w + tail && TokenLen(t) == |w|
    ensures Words(t) == [w] + Words(tail)
  {
    assert t[0] == w[0];
    WordsFromToken(t);
    assert t[..|w|] == w && t[|w|..] == tail;
  }

  /** Text that starts with a non-space splits into its first token and the splitting of what follows. */
  lemma WordsFromToken(t: string)
    requires |t| > 0 && !IsSpace(t[0])
    ensures Words(t) == [t[..TokenLen(t)]] + Words(t[TokenLen(t)..])
  {
    LStripFrom(t, 0);
  }

  lemma JoinCons(ws: seq<string>, sep: string)
    requires |ws| > 1
    ensures Join(ws, sep) == ws[0] + sep + Join(ws[1..], sep)
  {
  }

  /** `split()` undoes `' '.join` on whitespace-free non-empty words. */
  lemma {:induction false} WordsOfJoin(ws: seq<string>)
    requires forall k | 0 <= k < |ws| :: IsToken(ws[k])
    ensures Words(Join(ws, " ")) == ws
  {
    if |ws| == 1 {
      WordsOfToken(ws[0]);
    } else if |ws| > 1 {
      WordsOfJoin(ws[1..]);
      WordsOfJoinStep(ws);
    }
  }

  lemma WordsOfJoinStep(ws: seq<string>)
    requires |ws| > 1 && IsToken(ws[0])
    requires Words(Join(ws[1..], " ")) == ws[1..]
    ensures Words(Join(ws, " ")) == ws
  {
    JoinCons(ws, " ");
    WordsOfTokenThen(ws[0], Join(ws[1..], " "));
    assert ws == [ws[0]] + ws[1..];
  }

  lemma {:induction false} TokenLenWhole(w: string)
    requires forall i | 0 <= i < |w| :: !IsSpace(w[i])
    ensures TokenLen(w) == |w|
    decreases |w|
  {
    if |w| > 0 {
      TokenLenWhole(w[1..]);
    }
  }

  /** Collapsing whitespace twice is the same as collapsing it once. */
  lemma NormalizeSpaceIdempotent(s: string)
    ensures NormalizeSpace(NormalizeSpace(s)) == NormalizeSpace(s)
  {
    WordsOfJoin(Words(s));
  }

  /** Position of the first `c` in `s`. */
  function IndexOf(s: string, c: char): (i: nat)
    requires c in s
    ensures i < |s| && s[i] == c && c !in s[..i]
  {
    if s[0] == c then 0 else 1 + IndexOf(s[1..], c)
  }

  /** Python's `s.split(sep)` for a one-character separator: every piece is kept, empty ones included. */
  function SplitOn(s: string, sep: char): (parts: seq<string>)
    ensures |parts| >= 1
    ensures forall k | 0 <= k < |parts| :: sep !in parts[k]
    decreases |s|
  {
    if sep !in s then [s]
    else
      var i := IndexOf(s, sep);
      [s[..i]] + SplitOn(s[i + 1..], sep)
  }

  /** Splitting on a separator and joining back with it gives the original string. */
  lemma {:induction false} SplitOnJoin(s: string, sep: char)
    ensures Join(SplitOn(s, sep), [sep]) == s
    decreases |s|
  {
    if sep in s {
      var i := IndexOf(s, sep);
      var rest := SplitOn(s[i + 1..], sep);
      SplitOnJoin(s[i + 1..], sep);
      assert SplitOn(s, sep) == [s[..i]] + rest;
      assert s == s[..i] + [sep] + s[i + 1..];
    }
  }

  /** Python's `s.replace(pat, rep)`: leftmost, non-overlapping occurrences of `pat` are replaced. */
  function Replace(s: string, pat: string, rep: string): string
    requires |pat| > 0
    decreases |s|
  {
    if |s| < |pat| then s
    else if s[..|pat|] == pat then rep + Replace(s[|pat|..], pat, rep)
    else [s[0]] + Replace(s[1..], pat, rep)
  }

  predicate Disjoint(a: string, b: string) {
    forall i | 0 <= i < |a| :: a[i] !in b
  }

  /** A prefix of the replaced text that shows no replacement character was copied unchanged. */
  lemma {:induction false} ReplacePrefixUntouched(u: string, pat: string, rep: string, m: nat)
    requires |pat| > 0 && |rep| > 0 && Disjoint(rep, pat)
    requires m <= |Replace(u, pat, rep)|
    requires forall i | 0 <= i < m :: Replace(u, pat, rep)[i] !in rep
    ensures m <= |u| && Replace(u, pat, rep)[..m] == u[..m]
    decreases |u|
  {
    var out := Replace(u, pat, rep);
    if |u| < |pat| {
    } else if u[..|pat|] == pat {
      assert out[0] == rep[0];
    } else if m > 0 {
      var tail := Replace(u[1..], pat, rep);
      assert out == [u[0]] + tail;
      forall i | 0 <= i < m - 1 ensures tail[i] !in rep {
        assert tail[i] == out[i + 1];
      }
      ReplacePrefixUntouched(u[1..], pat, rep, m - 1);
      assert out[..m] == [u[0]] + tail[..m - 1];
      assert u[..m] == [u[0]] + u[1..][..m - 1];
    }
  }

  /** Replacing every occurrence of `pat` with characters foreign to it leaves no occurrence behind. */
  lemma {:induction false} ReplaceRemovesAll(s: string, pat: string, rep: string)
    requires |pat| > 0 && |rep| > 0 && Disjoint(rep, pat)
    ensures !Contains(Replace(s, pat, rep), pat)
    decreases |s|
  {
    if |s| < |pat| {
    } else if s[..|pat|] == pat {
      ReplaceRemovesAll(s[|pat|..], pat, rep);
      ForeignHeadSafe(rep, Replace(s[|pat|..], pat, rep), pat);
    } else {
      var tail := Replace(s[1..], pat, rep);
      ReplaceRemovesAll(s[1..], pat, rep);
      if |pat| - 1 <= |tail| {
        assert !OccursAt([s[0]] + tail, pat, 0) by {
          if exists i | 0 <= i < |pat| - 1 :: tail[i] in rep {
            var i :| 0 <= i < |pat| - 1 && tail[i] in rep;
            assert ([s[0]] + tail)[i + 1] == tail[i];
            assert pat[i + 1] !in rep;
          } else {
            ReplacePrefixUntouched(s[1..], pat, rep, |pat| - 1);
            assert ([s[0]] + tail)[..|pat|] == [s[0]] + tail[..|pat| - 1];
            assert s[..|pat|] == [s[0]] + s[1..][..|pat| - 1];
          }
        }
      }
      ConsSafe(s[0], tail, pat);
    }
  }

  /** Characters foreign to `pat` in front of text without `pat` bring in no occurrence. */
  lemma ForeignHeadSafe(head: string, tail: string, pat: string)
    requires |pat| > 0 && |head| > 0 && Disjoint(head, pat) && !Contains(tail, pat)
    ensures !Contains(head + tail, pat)
  {
    var out := head + tail;
    forall p | 0 <= p <= |out| - |pat| ensures !OccursAt(out, pat, p) {
      if p < |head| {
        assert out[p] == head[p] && out[p..p + |pat|][0] == out[p];
      } else {
        assert tail[p - |head|..p - |head| + |pat|] == out[p..p + |pat|];
        assert !OccursAt(tail, pat, p - |head|);
      }
    }
  }

  /** One character in front of text without `pat` brings in no occurrence unless it starts one. */
  lemma ConsSafe(c: char, tail: string, pat: string)
    requires |pat| > 0 && !Contains(tail, pat) && !OccursAt([c] + tail, pat, 0)
    ensures !Contains([c] + tail, pat)
  {
    var out := [c] + tail;
    forall p | 0 < p <= |out| - |pat| ensures !OccursAt(out, pat, p) {
      assert tail[p - 1..p - 1 + |pat|] == out[p..p + |pat|];
      assert !OccursAt(tail, pat, p - 1);
    }
  }

  function DigitChar(d: nat): (c: char)
    requires d < 10
    ensures IsDigit(c)
  {
    ('0' as int + d) as char
  }

  /** Decimal digits of a natural number, as `str(n)` writes them. */
  function NatToString(n: nat): (r: string)
    ensures IsNumber(r)
  {
    if n < 10 then [DigitChar(n)] else NatToString(n / 10) + [DigitChar(n % 10)]
  }

  /** `str(i)` for a Python `int`. */
  function IntToString(i: int): (r: string)
    ensures |r| > 0
    ensures i >= 0 ==> IsNumber(r)
    ensures i < 0 ==> r[0] == '-' && IsNumber(r[1..])
  {
    if i < 0 then "-" + NatToString(-i) else NatToString(i)
  }

  /** `in` is transitive. */
  lemma ContainsTrans(s: string, m: string, n: string)
    requires Contains(s, m) && Contains(m, n)
    ensures Contains(s, n)
  {
    var i :| 0 <= i <= |s| - |m| && OccursAt(s, m, i);
    var j :| 0 <= j <= |m| - |n| && OccursAt(m, n, j);
    forall k | 0 <= k < |n| ensures s[i + j + k] == n[k] {
      assert n[k] == m[j + k] == s[i..i + |m|][j + k];
    }
    assert s[i + j..i + j + |n|] == n;
    assert OccursAt(s, n, i + j);
  }

  /** A text holds its own strip. */
  lemma ContainsStrip(s: string)
    ensures Contains(s, Strip(s))
  {
    var a := StripSlice(s);
    assert OccursAt(s, Strip(s), a);
  }

  /** What a text holds, a longer text ending with it holds too. */
  lemma ContainsInSuffix(p: string, t: string, m: string)
    requires Contains(t, m)
    ensures Contains(p + t, m)
  {
    var i :| 0 <= i <= |t| - |m| && OccursAt(t, m, i);
    assert (p + t)[|p| + i..|p| + i + |m|] == t[i..i + |m|];
    assert OccursAt(p + t, m, |p| + i);
  }

  /** Joining the first `b` pieces gives a prefix of joining them all. */
  lemma {:induction false} JoinPrefix(xs: seq<string>, b: nat, sep: string)
    requires b <= |xs|
    ensures StartsWith(Join(xs, sep), Join(xs[..b], sep))
    decreases |xs|
  {
    if b == |xs| {
      assert xs[..b] == xs;
    } else if b == 1 {
      assert xs[..b] == [xs[0]];
    } else if b > 1 {
      JoinPrefix(xs[1..], b - 1, sep);
      assert xs[..b][1..] == xs[1..][..b - 1];
      var rest := Join(xs[1..], sep);
      var front := Join(xs[1..][..b - 1], sep);
      assert Join(xs, sep) == xs[0] + sep + rest;
      assert Join(xs[..b], sep) == xs[0] + sep + front;
      assert rest[..|front|] == front;
      assert (xs[0] + sep + rest)[..|xs[0] + sep + front|] == xs[0] + sep + front;
    }
  }

  /** Joining a run of consecutive pieces gives a piece of the whole joined text. */
  lemma {:induction false} JoinSliceContained(xs: seq<string>, a: nat, b: nat, sep: string)
    requires a <= b <= |xs|
    ensures Contains(Join(xs, sep), Join(xs[a..b], sep))
    decreases a
  {
    if a == b {
      assert OccursAt(Join(xs, sep), "", 0);
    } else if a == 0 {
      JoinPrefix(xs, b, sep);
      assert xs[a..b] == xs[..b];
      assert OccursAt(Join(xs, sep), Join(xs[..b], sep), 0);
    } else {
      JoinSliceContained(xs[1..], a - 1, b - 1, sep);
      assert xs[1..][a - 1..b - 1] == xs[a..b];
      ContainsInSuffix(xs[0] + sep, Join(xs[1..], sep), Join(xs[a..b], sep));
    }
  }

  /** A text holds every character of each of its pieces. */
  lemma ContainsChars(s: string, sub: string)
    requires Contains(s, sub)
    ensures CharsIn(sub, s)
  {
    var i :| 0 <= i <= |s| - |sub| && OccursAt(s, sub, i);
    forall k | 0 <= k < |sub| ensures sub[k] in s {
      assert sub[k] == s[i + k];
    }
  }

  /** Splitting two texts joined by the separator splits each of them. */
  lemma {:induction false} SplitOnAppend(a: string, b: string, sep: char)
    ensures SplitOn(a + [sep] + b, sep) == SplitOn(a, sep) + SplitOn(b, sep)
    decreases |a|
  {
    if sep in a {
      var i := IndexOf(a, sep);
      var rest := a[i + 1..];
      SplitOnAppend(rest, b, sep);
      SplitAppendFirst(a, b, sep);
      HeadThenSplit(SplitOn(a + [sep] + b, sep), SplitOn(a, sep), a[..i], SplitOn(rest + [sep] + b, sep), SplitOn(rest, sep), SplitOn(b, sep));
    } else {
      SplitAppendPlain(a, b, sep);
    }
  }

  lemma HeadThenSplit<T>(whole: seq<T>, left: seq<T>, h: T, tail: seq<T>, p: seq<T>, q: seq<T>)
    requires whole == [h] + tail && tail == p + q && left == [h] + p
    ensures whole == left + q
  {
  }

  /** When the first text holds the separator, its first piece comes first and the rest is split again. */
  lemma SplitAppendFirst(a: string, b: string, sep: char)
    requires sep in a
    ensures var i := IndexOf(a, sep);
      SplitOn(a + [sep] + b, sep) == [a[..i]] + SplitOn(a[i + 1..] + [sep] + b, sep)
      && SplitOn(a, sep) == [a[..i]] + SplitOn(a[i + 1..], sep)
  {
    var s := a + [sep] + b;
    var i := IndexOf(a, sep);
    assert s[..|a|] == a;
    IndexOfPrefix(s, a, sep);
    assert s[..i] == a[..i];
    assert s[i + 1..] == a[i + 1..] + [sep] + b;
  }

  /** When the first text has no separator, it is the first piece whole. */
  lemma SplitAppendPlain(a: string, b: string, sep: char)
    requires sep !in a
    ensures SplitOn(a + [sep] + b, sep) == [a] + SplitOn(b, sep)
    ensures SplitOn(a, sep) == [a]
  {
    var s := a + [sep] + b;
    IndexOfAfter(a, [sep] + b, sep);
    assert s == a + ([sep] + b);
    assert s[..|a|] == a;
    assert s[|a| + 1..] == b;
  }

  /** The first separator after a separator-free text is the one right after it. */
  lemma {:induction false} IndexOfAfter(a: string, rest: string, c: char)
    requires c !in a && |rest| > 0 && rest[0] == c
    ensures c in a + rest && IndexOf(a + rest, c) == |a|
    decreases |a|
  {
    assert (a + rest)[|a|] == c;
    if |a| > 0 {
      assert (a + rest)[0] == a[0] && (a + rest)[1..] == a[1..] + rest;
      IndexOfAfter(a[1..], rest, c);
    }
  }

  /** The first separator of a text is the first separator of any prefix holding one. */
  lemma {:induction false} IndexOfPrefix(s: string, p: string, c: char)
    requires |p| <= |s| && s[..|p|] == p && c in p
    ensures c in s && IndexOf(s, c) == IndexOf(p, c)
    decreases |p|
  {
    assert s[0] == p[0];
    if p[0] != c {
      assert s[1..][..|p| - 1] == p[1..];
      IndexOfPrefix(s[1..], p[1..], c);
    }
  }

  /** The strip of a text is the slice between its whitespace margins, whichever way the margins are found. */
  lemma StripUnique(s: string, a: nat, b: nat)
    requires a <= b <= |s| && AllSpace(s[..a]) && AllSpace(s[b..])
    requires a == b || (!IsSpace(s[a]) && !IsSpace(s[b - 1]))
    ensures Strip(s) == s[a..b]
  {
    SpaceMargins(s, a, b);
    if a < b {
      StripBetween(s, a, b);
    }
  }

  /** Margins as facts about single characters. */
  lemma SpaceMargins(s: string, a: nat, b: nat)
    requires a <= b <= |s| && AllSpace(s[..a]) && AllSpace(s[b..])
    ensures forall i | 0 <= i < a :: IsSpace(s[i])
    ensures forall i | b <= i < |s| :: IsSpace(s[i])
    ensures a == b ==> AllSpace(s)
  {
    forall i | 0 <= i < a ensures IsSpace(s[i]) {
      assert s[..a][i] == s[i];
    }
    forall i | b <= i < |s| ensures IsSpace(s[i]) {
      assert s[b..][i - b] == s[i];
    }
  }
}
