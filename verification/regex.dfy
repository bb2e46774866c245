/**
  The fragment of Python's `re` the reference patterns are written in, matched
  with `re.IGNORECASE`: literal text, `\b`, alternation, concatenation and greedy
  repetition of a one-character class.  A pattern's ways of matching at a position
  are listed in the order backtracking tries them, so the first one is the match
  `re` reports; `Matches` says, independently of that order, which spans match.
 */
module Regex {
  import opened Wrappers
  import opened Text
  import opened Seqs

  /** A one-character class: a literal character, `\s`, `\d`, or a bracketed set. */
  datatype Atom = Ch(c: char) | Space | Digit | OneOf(cs: string)

  /** Whether a character belongs to the class, ignoring (ASCII) case. */
  predicate AtomMatches(a: Atom, c: char) {
    match a
    case Ch(x) => ToLower(c) == ToLower(x)
    case Space => IsSpace(c)
    case Digit => IsDigit(c)
    case OneOf(cs) => ToLower(c) in Lower(cs)
  }

  datatype Re =
    | Lit(w: string)                            // literal text, ignoring case
    | Rep(a: Atom, min: nat, max: Option<nat>)  // greedy `a{min,max}`; no `max` is unbounded
    | Bound                                     // `\b`
    | Alt(left: Re, right: Re)                  // `left|right`
    | Cat(first: Re, second: Re)                // `first second`

  /** `\b`: a word character on exactly one side of `i`. */
  predicate Boundary(s: string, i: nat)
    requires i <= |s|
  {
    (i > 0 && IsWordChar(s[i - 1])) != (i < |s| && IsWordChar(s[i]))
  }

  /** How many characters from `i` on belong to the class, counting at most `max`. */
  function Run(a: Atom, s: string, i: nat, max: Option<nat>): (n: nat)
    requires i <= |s|
    ensures i + n <= |s|
    ensures forall k | i <= k < i + n :: AtomMatches(a, s[k])
    ensures max.Some? ==> n <= max.value
    ensures i + n == |s| || (max.Some? && n == max.value) || !AtomMatches(a, s[i + n])
    decreases |s| - i
  {
    if i == |s| || (max.Some? && max.value == 0) || !AtomMatches(a, s[i]) then 0
    else 1 + Run(a, s, i + 1, if max.Some? then Some(max.value - 1) else None)
  }

  /** Where a match of `r` that starts at `i` can end, in the order backtracking tries them. */
  function Ends(r: Re, s: string, i: nat): seq<nat>
    decreases r
  {
    if i > |s| then []
    else
      match r
      case Lit(w) => if i + |w| <= |s| && Lower(s[i..i + |w|]) == Lower(w) then [i + |w|] else []
      case Rep(a, min, max) =>
        var n := Run(a, s, i, max);
        if n < min then [] else seq(n - min + 1, k requires 0 <= k < n - min + 1 => i + n - k)
      case Bound => if Boundary(s, i) then [i] else []
      case Alt(x, y) => Ends(x, s, i) + Ends(y, s, i)
      case Cat(x, y) => FlatMap(Ends(x, s, i), (m: nat) => Ends(y, s, m))
  }

  /** The span `s[i..j]` matches `r`. */
  predicate Matches(r: Re, s: string, i: nat, j: nat)
    decreases r
  {
    && i <= j <= |s|
    && match r
       case Lit(w) => j == i + |w| && Lower(s[i..j]) == Lower(w)
       case Rep(a, min, max) =>
         && min <= j - i
         && (max.None? || j - i <= max.value)
         && forall k | i <= k < j :: AtomMatches(a, s[k])
       case Bound => j == i && Boundary(s, i)
       case Alt(x, y) => Matches(x, s, i, j) || Matches(y, s, i, j)
       case Cat(x, y) => exists m | i <= m <= j :: Matches(x, s, i, m) && Matches(y, s, m, j)
  }

  /** The greedy run is the longest span of the class within the bound. */
  lemma RunLongest(a: Atom, s: string, i: nat, max: Option<nat>, j: nat)
    requires i <= j <= |s| && (max.None? || j - i <= max.value)
    requires forall k | i <= k < j :: AtomMatches(a, s[k])
    ensures j - i <= Run(a, s, i, max)
  {
  }

  /** A match of a concatenation splits into matches of its parts. */
  lemma CatSplit(x: Re, y: Re, s: string, i: nat, j: nat)
    requires Matches(Cat(x, y), s, i, j)
    ensures exists m: nat | i <= m <= j :: Matches(x, s, i, m) && Matches(y, s, m, j)
  {
  }

  /** The ends backtracking tries are exactly the ends of the matching spans. */
  lemma {:induction false} EndsMatch(r: Re, s: string, i: nat, j: nat)
    ensures j in Ends(r, s, i) <==> Matches(r, s, i, j)
    decreases r
  {
    if i <= |s| {
      match r
      case Lit(w) =>
      case Bound =>
      case Rep(a, min, max) =>
        RepEnds(a, min, max, s, i, j);
      case Alt(x, y) =>
        EndsMatch(x, s, i, j);
        EndsMatch(y, s, i, j);
      case Cat(x, y) =>
        if j in Ends(r, s, i) {
          var m := CatEndsSplit(x, y, s, i, j);
          EndsMatch(x, s, i, m);
          EndsMatch(y, s, m, j);
        }
        if Matches(r, s, i, j) {
          CatSplit(x, y, s, i, j);
          var m: nat :| i <= m <= j && Matches(x, s, i, m) && Matches(y, s, m, j);
          EndsMatch(x, s, i, m);
          EndsMatch(y, s, m, j);
          CatEndsJoin(x, y, s, i, m, j);
        }
    }
  }

  /** The ends a repetition tries are exactly the lengths between its bounds that the greedy run allows. */
  lemma RepEnds(a: Atom, min: nat, max: Option<nat>, s: string, i: nat, j: nat)
    requires i <= |s|
    ensures j in Ends(Rep(a, min, max), s, i) <==> Matches(Rep(a, min, max), s, i, j)
  {
    var n := Run(a, s, i, max);
    var es := Ends(Rep(a, min, max), s, i);
    if Matches(Rep(a, min, max), s, i, j) {
      RunLongest(a, s, i, max, j);
      assert es[i + n - j] == j;
    }
    if j in es {
      var k :| 0 <= k < |es| && es[k] == j;
      assert j == i + n - k;
    }
  }

  /** An end a concatenation tries comes from an end of its first part. */
  lemma CatEndsSplit(x: Re, y: Re, s: string, i: nat, j: nat) returns (m: nat)
    requires i <= |s| && j in Ends(Cat(x, y), s, i)
    ensures m in Ends(x, s, i) && j in Ends(y, s, m)
  {
    var f := (m: nat) => Ends(y, s, m);
    var firsts := Ends(x, s, i);
    FlatMapMembers(firsts, f, j);
    var k :| 0 <= k < |firsts| && j in f(firsts[k]);
    m := firsts[k];
  }

  /** An end of the second part after an end of the first is an end the concatenation tries. */
  lemma CatEndsJoin(x: Re, y: Re, s: string, i: nat, m: nat, j: nat)
    requires i <= |s| && m in Ends(x, s, i) && j in Ends(y, s, m)
    ensures j in Ends(Cat(x, y), s, i)
  {
    var f := (m: nat) => Ends(y, s, m);
    var firsts := Ends(x, s, i);
    var k :| 0 <= k < |firsts| && firsts[k] == m;
    FlatMapIntro(firsts, f, k, j);
  }

  /** `\d+`, the capturing group of every reference pattern. */
  const Number: Re := Rep(Digit, 1, None)

  /** A reference pattern `before(\d+)after`: its one group is the number. */
  datatype Pattern = Pattern(before: Re, after: Re)

  /** A match: where it starts, where the number starts and ends, and where it ends. */
  datatype Found = Found(start: nat, numStart: nat, numEnd: nat, end: nat)

  /** The spans of a match fit together: the part before the number, the number, the part after. */
  predicate MatchesAt(p: Pattern, s: string, f: Found) {
    && Matches(p.before, s, f.start, f.numStart)
    && Matches(Number, s, f.numStart, f.numEnd)
    && Matches(p.after, s, f.numEnd, f.end)
  }

  function Wrap(i: nat, a: nat, b: nat, ends: seq<nat>): seq<Found> {
    seq(|ends|, k requires 0 <= k < |ends| => Found(i, a, b, ends[k]))
  }

  /** All ways `p` matches at `i`, in the order backtracking tries them. */
  function Attempts(p: Pattern, s: string, i: nat): seq<Found> {
    FlatMap(Ends(p.before, s, i), (a: nat) =>
      FlatMap(Ends(Number, s, a), (b: nat) =>
        Wrap(i, a, b, Ends(p.after, s, b))))
  }

  /** The attempts at `i` are exactly the matches that start at `i`. */
  lemma AttemptsMatch(p: Pattern, s: string, i: nat, f: Found)
    ensures f in Attempts(p, s, i) <==> f.start == i && MatchesAt(p, s, f)
  {
    if f in Attempts(p, s, i) {
      AttemptsSound(p, s, i, f);
    }
    if f.start == i && MatchesAt(p, s, f) {
      AttemptsComplete(p, s, i, f);
    }
  }

  /** Every attempt at `i` is a match starting at `i`. */
  lemma AttemptsSound(p: Pattern, s: string, i: nat, f: Found)
    requires f in Attempts(p, s, i)
    ensures f.start == i && MatchesAt(p, s, f)
  {
    var h := (a: nat) => FlatMap(Ends(Number, s, a), (b: nat) => Wrap(i, a, b, Ends(p.after, s, b)));
    var firsts := Ends(p.before, s, i);
    FlatMapMembers(firsts, h, f);
    var k :| 0 <= k < |firsts| && f in h(firsts[k]);
    InnerAttempt(p, s, i, firsts[k], f);
    assert f.numStart in firsts;
    EndsMatch(p.before, s, i, f.numStart);
    EndsMatch(Number, s, f.numStart, f.numEnd);
    EndsMatch(p.after, s, f.numEnd, f.end);
  }

  /** An attempt through the number starting at `a` has that number start and ends the backtracking tries. */
  lemma InnerAttempt(p: Pattern, s: string, i: nat, a: nat, f: Found)
    requires f in FlatMap(Ends(Number, s, a), (b: nat) => Wrap(i, a, b, Ends(p.after, s, b)))
    ensures f.start == i && f.numStart == a
    ensures f.numEnd in Ends(Number, s, a) && f.end in Ends(p.after, s, f.numEnd)
  {
    var ms := Ends(Number, s, a);
    FlatMapMembers(ms, (b: nat) => Wrap(i, a, b, Ends(p.after, s, b)), f);
    var l :| 0 <= l < |ms| && f in Wrap(i, a, ms[l], Ends(p.after, s, ms[l]));
    WrapMember(i, a, ms[l], Ends(p.after, s, ms[l]), f);
  }

  lemma WrapMember(i: nat, a: nat, b: nat, ends: seq<nat>, f: Found)
    requires f in Wrap(i, a, b, ends)
    ensures f.start == i && f.numStart == a && f.numEnd == b && f.end in ends
  {
    var w := Wrap(i, a, b, ends);
    var q :| 0 <= q < |w| && w[q] == f;
  }

  /** Every match starting at `i` is among the attempts at `i`. */
  lemma AttemptsComplete(p: Pattern, s: string, i: nat, f: Found)
    requires f.start == i && MatchesAt(p, s, f)
    ensures f in Attempts(p, s, i)
  {
    var g := (b: nat) => Wrap(i, f.numStart, b, Ends(p.after, s, b));
    var h := (a: nat) => FlatMap(Ends(Number, s, a), (b: nat) => Wrap(i, a, b, Ends(p.after, s, b)));
    var firsts := Ends(p.before, s, i);
    var mids := Ends(Number, s, f.numStart);
    var lasts := Ends(p.after, s, f.numEnd);
    EndsMatch(p.before, s, i, f.numStart);
    EndsMatch(Number, s, f.numStart, f.numEnd);
    EndsMatch(p.after, s, f.numEnd, f.end);
    var k :| 0 <= k < |firsts| && firsts[k] == f.numStart;
    var l :| 0 <= l < |mids| && mids[l] == f.numEnd;
    var q :| 0 <= q < |lasts| && lasts[q] == f.end;
    assert Wrap(i, f.numStart, f.numEnd, lasts)[q] == f;
    FlatMapIntro(mids, g, l, f);
    FlatMapIntro(firsts, h, k, f);
  }

  /** A match holds a non-empty run of digits, so it ends after it starts. */
  lemma MatchShape(p: Pattern, s: string, f: Found)
    requires MatchesAt(p, s, f)
    ensures f.start <= f.numStart < f.numEnd <= f.end <= |s|
    ensures IsNumber(s[f.numStart..f.numEnd])
  {
  }

  /**
    `re.finditer` from position `i`: the first attempt at the leftmost position that
    has one, then the search goes on from where that match ends.
   */
  function FindFrom(p: Pattern, s: string, i: nat): seq<Found>
    decreases |s| + 1 - i
  {
    if i > |s| then []
    else
      var tries := Attempts(p, s, i);
      if |tries| == 0 then FindFrom(p, s, i + 1)
      else
        AttemptsMatch(p, s, i, tries[0]);
        [tries[0]] + FindFrom(p, s, tries[0].end)
  }

  function FindAll(p: Pattern, s: string): seq<Found> {
    FindFrom(p, s, 0)
  }

  /** Some reported match covers position `q`. */
  predicate Covered(found: seq<Found>, q: nat) {
    exists k | 0 <= k < |found| :: found[k].start <= q < found[k].end
  }

  /** The search's first step: where its first report comes from, and where it goes on. */
  lemma FindFromStep(p: Pattern, s: string, i: nat)
    requires i <= |s|
    ensures var tries := Attempts(p, s, i);
      && (|tries| == 0 ==> FindFrom(p, s, i) == FindFrom(p, s, i + 1))
      && (|tries| > 0 ==>
            && MatchesAt(p, s, tries[0]) && tries[0].start == i && i < tries[0].end
            && FindFrom(p, s, i) == [tries[0]] + FindFrom(p, s, tries[0].end))
  {
    var tries := Attempts(p, s, i);
    if |tries| > 0 {
      AttemptsMatch(p, s, i, tries[0]);
      MatchShape(p, s, tries[0]);
    }
  }

  /** `f` is the attempt backtracking tries first at its start. */
  predicate FirstAttempt(p: Pattern, s: string, f: Found) {
    0 < |Attempts(p, s, f.start)| && f == Attempts(p, s, f.start)[0]
  }

  /**
    What the search reports at index `k`: a match of the pattern that is the first
    attempt at its start, at or after `i`, and after the end of the report before it.
   */
  lemma {:induction false} FindFromSound(p: Pattern, s: string, i: nat, k: nat)
    requires k < |FindFrom(p, s, i)|
    ensures var r := FindFrom(p, s, i);
      && MatchesAt(p, s, r[k])
      && FirstAttempt(p, s, r[k])
      && i <= r[k].start
      && (k > 0 ==> r[k - 1].end <= r[k].start)
    decreases |s| + 1 - i
  {
    var tries := Attempts(p, s, i);
    FindFromStep(p, s, i);
    if |tries| == 0 {
      FindFromSound(p, s, i + 1, k);
    } else {
      var f := tries[0];
      var rest := FindFrom(p, s, f.end);
      if k == 0 {
        assert FirstAttempt(p, s, f);
      } else {
        FindFromSound(p, s, f.end, k - 1);
        if k > 1 {
          FindFromSound(p, s, f.end, k - 2);
        }
        ConsIndex(f, rest, k);
      }
    }
  }

  lemma ConsIndex(f: Found, rest: seq<Found>, k: nat)
    requires 0 < k <= |rest|
    ensures ([f] + rest)[k] == rest[k - 1]
    ensures ([f] + rest)[k - 1] == if k == 1 then f else rest[k - 2]
  {
  }

  /** Every position from `i` on where the pattern could match lies inside a reported match. */
  lemma {:induction false} FindFromCovers(p: Pattern, s: string, i: nat, q: nat)
    requires i <= q <= |s| && 0 < |Attempts(p, s, q)|
    ensures Covered(FindFrom(p, s, i), q)
    decreases |s| + 1 - i
  {
    var tries := Attempts(p, s, i);
    FindFromStep(p, s, i);
    if |tries| == 0 {
      FindFromCovers(p, s, i + 1, q);
    } else {
      var f := tries[0];
      if f.end <= q {
        FindFromCovers(p, s, f.end, q);
      }
      ConsCovered(f, FindFrom(p, s, f.end), q);
    }
  }

  /** A report in front covers what it spans, and what the rest covers stays covered. */
  lemma ConsCovered(f: Found, rest: seq<Found>, q: nat)
    requires f.start <= q < f.end || Covered(rest, q)
    ensures Covered([f] + rest, q)
  {
    var r := [f] + rest;
    if f.start <= q < f.end {
      assert r[0].start <= q < r[0].end;
    } else {
      var k :| 0 <= k < |rest| && rest[k].start <= q < rest[k].end;
      assert r[k + 1] == rest[k];
    }
  }
}
