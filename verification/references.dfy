/**
  `FigureReferenceExtractor`: the figure and table reference patterns and
  `extract_references`, which splits a text into sentences and reports every
  match of every pattern in every sentence of at least ten characters.
 */
module References {
  import opened Wrappers
  import opened Text
  import opened Seqs
  import opened Regex
  import opened Sentences

  // ---------------------------------------------------------------- pattern pieces

  /** `\s*` */
  const Spaces: Re := Rep(Space, 0, None)
  /** `\s+` */
  const Gap: Re := Rep(Space, 1, None)
  /** The empty pattern. */
  const Empty: Re := Lit("")

  /** `c?` */
  function Opt(c: char): Re {
    Rep(Ch(c), 0, Some(1))
  }

  /** A bracketed class `[cs]`. */
  function Class(cs: string): Re {
    Rep(OneOf(cs), 1, Some(1))
  }

  /** `(?:r0|r1|...)`, tried left to right. */
  function AnyOf(rs: seq<Re>): Re
    requires |rs| > 0
  {
    if |rs| == 1 then rs[0] else Alt(rs[0], AnyOf(rs[1..]))
  }

  /** `r0 r1 ...` */
  function AllOf(rs: seq<Re>): Re {
    if |rs| == 0 then Empty else if |rs| == 1 then rs[0] else Cat(rs[0], AllOf(rs[1..]))
  }

  /** `(?:w0|w1|...)` over literal words. */
  function Words(ws: seq<string>): Re
    requires |ws| > 0
  {
    if |ws| == 1 then Lit(ws[0]) else Alt(Lit(ws[0]), Words(ws[1..]))
  }

  /** `(?:Fig\.|Figure|FIG\.?|fig\.?)` */
  const FigureWord: Re := AnyOf([Lit("Fig."), Lit("Figure"), Cat(Lit("FIG"), Opt('.')), Cat(Lit("fig"), Opt('.'))])

  /** `(?:Table|Tab\.|TABLE\.?|table|tab\.?)` */
  const TableWord: Re := AnyOf([Lit("Table"), Lit("Tab."), Cat(Lit("TABLE"), Opt('.')), Lit("table"), Cat(Lit("tab"), Opt('.'))])

  /** `\bK\s*(\d+)` */
  function Bare(kw: Re): Pattern {
    Pattern(AllOf([Bound, kw, Spaces]), Empty)
  }

  /** `oK\s*(\d+)c` for an opening and a closing text. */
  function Wrapped(open: string, kw: Re, close: string): Pattern {
    Pattern(AllOf([Lit(open), kw, Spaces]), Lit(close))
  }

  /** `\b(?:w...)\s+K\s*(\d+)` */
  function Led(ws: seq<string>, kw: Re): Pattern
    requires |ws| > 0
  {
    Pattern(AllOf([Bound, Words(ws), Gap, kw, Spaces]), Empty)
  }

  /** `\bK\s*(\d+)\s*(?:w...)` */
  function Trailed(kw: Re, ws: seq<string>): Pattern
    requires |ws| > 0
  {
    Pattern(AllOf([Bound, kw, Spaces]), Cat(Spaces, Words(ws)))
  }

  /** `o\s*K\s*(\d+)` followed by `after`: the mixed Chinese and English forms. */
  function Mixed(open: string, kw: Re, after: Re): Pattern {
    Pattern(AllOf([Lit(open), Spaces, kw, Spaces]), after)
  }

  /** `o\s*(\d+)` followed by `after`, where `o` already names the figure or table. */
  function Named(open: string, after: Re): Pattern {
    Pattern(Cat(Lit(open), Spaces), after)
  }

  /** `\s*w` */
  function Then(w: string): Re {
    Cat(Spaces, Lit(w))
  }

  // Chinese characters of the patterns.
  const Ru: string := "\U{5982}"              // "as"
  const Jian: string := "\U{89c1}"            // "see"
  const CanJian: string := "\U{53c2}\U{89c1}" // "refer to"
  const SuoShi: string := "\U{6240}\U{793a}"  // "shown"
  const Di: string := "\U{7b2c}"              // ordinal prefix
  const Tu: string := "\U{56fe}"              // "figure"
  const Biao: string := "\U{8868}"            // "table"

  const CuePhrases: seq<string> := ["see", "See", "refer to", "Refer to", "shown in", "Shown in", "as in", "As in"]
  const Articles: seq<string> := ["The", "the"]
  const Places: seq<string> := ["above", "below", "following", "previous", "next", "aforementioned", "aforesaid"]
  const Positions: seq<string> := ["above", "below", "shown", "presented"]

  /** `figure_patterns`, in order. */
  const FigurePatterns: seq<Pattern> := [
    Bare(FigureWord),
    Wrapped("(", FigureWord, ")"),
    Wrapped("[", FigureWord, "]"),
    Led(CuePhrases, FigureWord),
    Trailed(FigureWord, ["shows", "depicts", "illustrates", "presents", "displays"]),
    Led(Articles, FigureWord),
    Led(Places, FigureWord),
    Trailed(FigureWord, Positions),
    Mixed(Ru, FigureWord, Then(SuoShi)),
    Mixed(Jian, FigureWord, Empty),
    Mixed(CanJian, FigureWord, Empty),
    Mixed("(" + Jian, FigureWord, Lit(")")),
    Mixed("(" + CanJian, FigureWord, Lit(")")),
    Named(Tu, Empty),
    Named(Di, Then(Tu)),
    Named(Jian + Tu, Empty),
    Named(Ru + Tu, Then(SuoShi)),
    Named(CanJian + Tu, Empty),
    Named("(" + Tu, Lit(")")),
    Named("(" + Jian + Tu, Lit(")")),
    Bare(Lit("fig")),
    Bare(Lit("Fig")),
    Bare(Lit("Figure")),
    Named("figure", Empty),
    Pattern(Cat(FigureWord, Spaces), Class(",\U{ff0c}.")),
    Pattern(Cat(FigureWord, Spaces), Class("\U{ff1a}:")),
    Led(["in", "In"], FigureWord),
    Led(["from", "From"], FigureWord),
    Led(["of", "Of"], FigureWord),
    Trailed(FigureWord, ["demonstrates", "reveals", "indicates", "suggests"]),
    Led(["According to", "according to"], FigureWord),
    Led(["Based on", "based on"], FigureWord)
  ]

  /** `table_patterns`, in order. */
  const TablePatterns: seq<Pattern> := [
    Bare(TableWord),
    Wrapped("(", TableWord, ")"),
    Wrapped("[", TableWord, "]"),
    Led(CuePhrases, TableWord),
    Trailed(TableWord, ["shows", "lists", "presents", "summarizes", "contains"]),
    Led(Articles, TableWord),
    Led(Places, TableWord),
    Trailed(TableWord, Positions),
    Pattern(AllOf([Bound, Words(["data", "Data", "results", "Results", "statistics", "Statistics"]), Gap,
                   Words(["in", "from", "of"]), Gap, TableWord, Spaces]), Empty),
    Pattern(AllOf([Bound, Words(["summarized", "presented", "listed", "shown", "reported"]), Gap,
                   Lit("in"), Gap, TableWord, Spaces]), Empty),
    Mixed(Ru, TableWord, Then(SuoShi)),
    Mixed(Jian, TableWord, Empty),
    Mixed(CanJian, TableWord, Empty),
    Mixed("(" + Jian, TableWord, Lit(")")),
    Mixed("(" + CanJian, TableWord, Lit(")")),
    Named(Biao, Empty),
    Named(Di, Then(Biao)),
    Named(Jian + Biao, Empty),
    Named(Ru + Biao, Then(SuoShi)),
    Named(CanJian + Biao, Empty),
    Named("(" + Biao, Lit(")")),
    Named("(" + Jian + Biao, Lit(")")),
    Bare(Lit("tab")),
    Bare(Lit("Tab")),
    Bare(Lit("Table")),
    Named("table", Empty),
    Pattern(Cat(TableWord, Spaces), Class(",\U{ff0c}.")),
    Pattern(Cat(TableWord, Spaces), Class("\U{ff1a}:")),
    Led(["in", "In"], TableWord),
    Led(["from", "From"], TableWord),
    Led(["of", "Of"], TableWord),
    Trailed(TableWord, ["demonstrates", "reveals", "indicates", "suggests", "provides"]),
    Led(["According to", "according to"], TableWord),
    Led(["Based on", "based on"], TableWord)
  ]

  /** The two pattern lists the extractor scans each sentence with. */
  datatype Kinds = Kinds(figures: seq<Pattern>, tables: seq<Pattern>)

  /** The patterns of a reference type. */
  function KindPatterns(ks: Kinds, refType: string): seq<Pattern> {
    if refType == "figure" then ks.figures else ks.tables
  }

  /** The extractor's own pattern lists. */
  const Extractor: Kinds := Kinds(FigurePatterns, TablePatterns)

  // ---------------------------------------------------------------- extraction

  /** One reference: the stripped sentence, its index, `figure` or `table`, the number and the matched text. */
  datatype Reference = Reference(sentence: string, sentenceIdx: nat, refType: string, number: string, matchText: string)

  /** The match lies inside the sentence in order: start, number, end. */
  predicate FitsIn(f: Found, sentence: string) {
    f.start <= f.numStart <= f.numEnd <= f.end <= |sentence|
  }

  /** The reference a match in `sentence` makes: `match.group(1)` and `match.group()`. */
  function MakeRef(sentence: string, idx: nat, refType: string, f: Found): Reference
    requires FitsIn(f, sentence)
  {
    Reference(Strip(sentence), idx, refType, sentence[f.numStart..f.numEnd], sentence[f.start..f.end])
  }

  /** The `k`-th match `re.finditer` reports fits in the sentence. */
  lemma FoundFits(p: Pattern, sentence: string, k: nat)
    requires k < |FindAll(p, sentence)|
    ensures FitsIn(FindAll(p, sentence)[k], sentence)
    ensures MatchesAt(p, sentence, FindAll(p, sentence)[k])
  {
    FindFromSound(p, sentence, 0, k);
    MatchShape(p, sentence, FindAll(p, sentence)[k]);
  }

  function RefAt(p: Pattern, sentence: string, idx: nat, refType: string, k: nat): Reference
    requires k < |FindAll(p, sentence)|
  {
    FoundFits(p, sentence, k);
    MakeRef(sentence, idx, refType, FindAll(p, sentence)[k])
  }

  /** The references one pattern makes in one sentence, in match order. */
  function PatternRefs(p: Pattern, sentence: string, idx: nat, refType: string): seq<Reference> {
    seq(|FindAll(p, sentence)|, k requires 0 <= k < |FindAll(p, sentence)| => RefAt(p, sentence, idx, refType, k))
  }

  /** The references a list of patterns makes in one sentence, pattern by pattern. */
  function KindRefs(ps: seq<Pattern>, sentence: string, idx: nat, refType: string): seq<Reference> {
    FlatMap(ps, (p: Pattern) => PatternRefs(p, sentence, idx, refType))
  }

  /** The body of the sentence loop: nothing for a sentence shorter than ten characters once stripped. */
  function SentenceRefs(ks: Kinds, sentence: string, idx: nat): seq<Reference> {
    if |Strip(sentence)| < 10 then []
    else KindRefs(ks.figures, sentence, idx, "figure") + KindRefs(ks.tables, sentence, idx, "table")
  }

  /** The loop body as a value, for the loop over sentences. */
  function SentenceStep(ks: Kinds): (string, nat) -> seq<Reference> {
    (x: string, j: nat) => SentenceRefs(ks, x, j)
  }

  /** The sentence loop over the split text. */
  function ExtractWith(ks: Kinds, text: string): seq<Reference> {
    FlatMapIndexed(SplitSentences(text), 0, SentenceStep(ks))
  }

  /** `extract_references` */
  function ExtractReferences(text: string): seq<Reference> {
    ExtractWith(Extractor, text)
  }

  // ---------------------------------------------------------------- what is reported

  /** Some match of some pattern of the list makes `r` in `sentence`. */
  predicate MadeBy(ps: seq<Pattern>, sentence: string, idx: nat, refType: string, r: Reference) {
    exists p, f | p in ps && f in FindAll(p, sentence) :: FitsIn(f, sentence) && r == MakeRef(sentence, idx, refType, f)
  }

  /** `sentence`, at index `idx`, is long enough and a pattern of `r`'s type makes `r` there. */
  predicate Reports(ks: Kinds, sentence: string, idx: nat, r: Reference) {
    && |Strip(sentence)| >= 10
    && (r.refType == "figure" || r.refType == "table")
    && MadeBy(KindPatterns(ks, r.refType), sentence, idx, r.refType, r)
  }

  lemma PatternRefsMembers(p: Pattern, sentence: string, idx: nat, refType: string, r: Reference)
    ensures r in PatternRefs(p, sentence, idx, refType) <==>
      exists f | f in FindAll(p, sentence) :: FitsIn(f, sentence) && r == MakeRef(sentence, idx, refType, f)
  {
    if r in PatternRefs(p, sentence, idx, refType) {
      var k := RefFromMatch(p, sentence, idx, refType, r);
    }
    if exists f | f in FindAll(p, sentence) :: FitsIn(f, sentence) && r == MakeRef(sentence, idx, refType, f) {
      var f :| f in FindAll(p, sentence) && FitsIn(f, sentence) && r == MakeRef(sentence, idx, refType, f);
      MatchGivesRef(p, sentence, idx, refType, f);
    }
  }

  /** A reported reference comes from the match at the same position. */
  lemma RefFromMatch(p: Pattern, sentence: string, idx: nat, refType: string, r: Reference) returns (k: nat)
    requires r in PatternRefs(p, sentence, idx, refType)
    ensures k < |FindAll(p, sentence)| && FitsIn(FindAll(p, sentence)[k], sentence)
    ensures r == MakeRef(sentence, idx, refType, FindAll(p, sentence)[k])
  {
    var refs := PatternRefs(p, sentence, idx, refType);
    k :| 0 <= k < |refs| && refs[k] == r;
    FoundFits(p, sentence, k);
  }

  /** Every match makes a reported reference. */
  lemma MatchGivesRef(p: Pattern, sentence: string, idx: nat, refType: string, f: Found)
    requires f in FindAll(p, sentence) && FitsIn(f, sentence)
    ensures MakeRef(sentence, idx, refType, f) in PatternRefs(p, sentence, idx, refType)
  {
    var found := FindAll(p, sentence);
    var k :| 0 <= k < |found| && found[k] == f;
    assert PatternRefs(p, sentence, idx, refType)[k] == MakeRef(sentence, idx, refType, f);
  }

  lemma KindRefsMembers(ps: seq<Pattern>, sentence: string, idx: nat, refType: string, r: Reference)
    ensures r in KindRefs(ps, sentence, idx, refType) <==> MadeBy(ps, sentence, idx, refType, r)
  {
    var g := (p: Pattern) => PatternRefs(p, sentence, idx, refType);
    if r in KindRefs(ps, sentence, idx, refType) {
      FlatMapMembers(ps, g, r);
      var k :| 0 <= k < |ps| && r in g(ps[k]);
      PatternRefsMembers(ps[k], sentence, idx, refType, r);
    }
    if MadeBy(ps, sentence, idx, refType, r) {
      var p, f :| p in ps && f in FindAll(p, sentence) && FitsIn(f, sentence) && r == MakeRef(sentence, idx, refType, f);
      var k :| 0 <= k < |ps| && ps[k] == p;
      PatternRefsMembers(p, sentence, idx, refType, r);
      FlatMapIntro(ps, g, k, r);
    }
  }

  /** The references of one sentence are exactly those it reports at its index. */
  lemma SentenceRefsMembers(ks: Kinds, sentence: string, idx: nat, r: Reference)
    ensures r in SentenceRefs(ks, sentence, idx) <==> r.sentenceIdx == idx && Reports(ks, sentence, idx, r)
  {
    if |Strip(sentence)| >= 10 {
      KindRefsMembers(ks.figures, sentence, idx, "figure", r);
      KindRefsMembers(ks.tables, sentence, idx, "table", r);
    }
  }

  /** A reference of a sentence records that sentence's index. */
  lemma SentenceRefsIndex(ks: Kinds, sentence: string, idx: nat, r: Reference)
    requires r in SentenceRefs(ks, sentence, idx)
    ensures r.sentenceIdx == idx
  {
    SentenceRefsMembers(ks, sentence, idx, r);
  }

  /** The sentence a reference names, as a key for the sentence loop. */
  function RefIndex(z: Reference): int {
    z.sentenceIdx
  }

  /** Every reference the loop body makes names the sentence it was made from. */
  lemma StepKeyed(ks: Kinds)
    ensures forall x, j, z | z in SentenceStep(ks)(x, j) :: RefIndex(z) == j
  {
    forall x, j, z | z in SentenceStep(ks)(x, j) ensures RefIndex(z) == j {
      StepApplies(ks, x, j);
      SentenceRefsMembers(ks, x, j, z);
    }
  }

  /**
    The sentence loop reports exactly the references that some pattern of their type
    makes in the sentence they name, when that sentence has at least ten characters.
   */
  lemma ExtractWithSpec(ks: Kinds, text: string, r: Reference)
    ensures var sentences := SplitSentences(text);
      r in ExtractWith(ks, text) <==> r.sentenceIdx < |sentences| && Reports(ks, sentences[r.sentenceIdx], r.sentenceIdx, r)
  {
    var sentences := SplitSentences(text);
    assert ExtractWith(ks, text) == FlatMapIndexed(sentences, 0, SentenceStep(ks));
    LoopMembers(ks, sentences, 0, r);
    if r.sentenceIdx < |sentences| {
      var sentence := sentences[r.sentenceIdx];
      assert sentences[r.sentenceIdx - 0] == sentence;
      StepApplies(ks, sentence, r.sentenceIdx);
      SentenceRefsMembers(ks, sentence, r.sentenceIdx, r);
    }
  }

  lemma StepApplies(ks: Kinds, x: string, j: nat)
    ensures SentenceStep(ks)(x, j) == SentenceRefs(ks, x, j)
  {
  }

  /** A reference comes out of the sentence loop exactly when the sentence it names yields it. */
  lemma LoopMembers(ks: Kinds, sentences: seq<string>, base: nat, r: Reference)
    ensures r in FlatMapIndexed(sentences, base, SentenceStep(ks)) <==>
      base <= r.sentenceIdx < base + |sentences| && r in SentenceStep(ks)(sentences[r.sentenceIdx - base], r.sentenceIdx)
  {
    var f := SentenceStep(ks);
    var key := RefIndex;
    StepKeyed(ks);
    assert key(r) == r.sentenceIdx;
    FlatMapIndexedKeyed(sentences, base, f, key, r);
  }

  /**
    The sentence loop lists references sentence by sentence, and within one sentence
    all figure references before all table references.
   */
  lemma ExtractWithOrdered(ks: Kinds, text: string)
    ensures var refs := ExtractWith(ks, text);
      forall a, b | 0 <= a < b < |refs| :: refs[a].sentenceIdx <= refs[b].sentenceIdx
    ensures var refs := ExtractWith(ks, text);
      forall a, b | 0 <= a < b < |refs| && refs[a].sentenceIdx == refs[b].sentenceIdx && refs[a].refType == "table" ::
        refs[b].refType == "table"
  {
    var refs := ExtractWith(ks, text);
    var f := SentenceStep(ks);
    StepKeyed(ks);
    StepSorted(ks);
    forall a, b | 0 <= a < b < |refs| ensures refs[a].sentenceIdx <= refs[b].sentenceIdx {
      FlatMapIndexedOrdered(SplitSentences(text), 0, f, RefIndex, a, b);
    }
    forall a, b | 0 <= a < b < |refs| && refs[a].sentenceIdx == refs[b].sentenceIdx && refs[a].refType == "table"
      ensures refs[b].refType == "table"
    {
      FlatMapIndexedRanked(SplitSentences(text), 0, f, RefIndex, TableRank, a, b);
    }
  }

  /** 1 for a table reference, 0 for a figure reference: the order the loop body makes them in. */
  function TableRank(z: Reference): int {
    if z.refType == "table" then 1 else 0
  }

  /** The loop body makes a sentence's figure references before its table references. */
  lemma StepSorted(ks: Kinds)
    ensures forall x, j, p, q | 0 <= p < q < |SentenceStep(ks)(x, j)| ::
      TableRank(SentenceStep(ks)(x, j)[p]) <= TableRank(SentenceStep(ks)(x, j)[q])
  {
    forall x, j, p, q | 0 <= p < q < |SentenceStep(ks)(x, j)|
      ensures TableRank(SentenceStep(ks)(x, j)[p]) <= TableRank(SentenceStep(ks)(x, j)[q])
    {
      StepApplies(ks, x, j);
      SentenceSorted(ks, x, j, p, q);
    }
  }

  /** Within one sentence's references, a table reference is followed only by table references. */
  lemma SentenceSorted(ks: Kinds, sentence: string, idx: nat, p: nat, q: nat)
    requires p < q < |SentenceRefs(ks, sentence, idx)|
    ensures TableRank(SentenceRefs(ks, sentence, idx)[p]) <= TableRank(SentenceRefs(ks, sentence, idx)[q])
  {
    var figs := KindRefs(ks.figures, sentence, idx, "figure");
    var tabs := KindRefs(ks.tables, sentence, idx, "table");
    SentenceRefsParts(ks, sentence, idx);
    KindRefsAllType(ks.figures, sentence, idx, "figure");
    KindRefsAllType(ks.tables, sentence, idx, "table");
    FiguresThenTables(figs, tabs, p, q);
  }

  /** A sentence with references has the figure patterns' references, then the table patterns'. */
  lemma SentenceRefsParts(ks: Kinds, sentence: string, idx: nat)
    requires |SentenceRefs(ks, sentence, idx)| > 0
    ensures SentenceRefs(ks, sentence, idx)
      == KindRefs(ks.figures, sentence, idx, "figure") + KindRefs(ks.tables, sentence, idx, "table")
  {
  }

  /** Figure references followed by table references are ordered by rank. */
  lemma FiguresThenTables(figs: seq<Reference>, tabs: seq<Reference>, p: nat, q: nat)
    requires forall k | 0 <= k < |figs| :: figs[k].refType == "figure"
    requires forall k | 0 <= k < |tabs| :: tabs[k].refType == "table"
    requires p < q < |figs + tabs|
    ensures TableRank((figs + tabs)[p]) <= TableRank((figs + tabs)[q])
  {
    if p >= |figs| {
      assert (figs + tabs)[p] == tabs[p - |figs|] && (figs + tabs)[q] == tabs[q - |figs|];
    } else {
      assert (figs + tabs)[p] == figs[p];
    }
  }

  /** All references a pattern list makes carry the list's type. */
  lemma KindRefsAllType(ps: seq<Pattern>, sentence: string, idx: nat, refType: string)
    ensures var refs := KindRefs(ps, sentence, idx, refType);
      forall k | 0 <= k < |refs| :: refs[k].refType == refType
  {
    var refs := KindRefs(ps, sentence, idx, refType);
    forall k | 0 <= k < |refs| ensures refs[k].refType == refType {
      KindRefsType(ps, sentence, idx, refType, refs[k]);
    }
  }

  /** Every reference a pattern list makes carries the list's type. */
  lemma KindRefsType(ps: seq<Pattern>, sentence: string, idx: nat, refType: string, r: Reference)
    requires r in KindRefs(ps, sentence, idx, refType)
    ensures r.refType == refType
  {
    KindRefsMembers(ps, sentence, idx, refType, r);
  }

  /** The number of matches a list of patterns has in a sentence, overlapping or repeated ones included. */
  function MatchCount(ps: seq<Pattern>, sentence: string): nat {
    if |ps| == 0 then 0 else |FindAll(ps[0], sentence)| + MatchCount(ps[1..], sentence)
  }

  /** A pattern list makes one reference per match: duplicates are kept. */
  lemma {:induction false} KindRefsCount(ps: seq<Pattern>, sentence: string, idx: nat, refType: string)
    ensures |KindRefs(ps, sentence, idx, refType)| == MatchCount(ps, sentence)
    decreases |ps|
  {
    var g := (p: Pattern) => PatternRefs(p, sentence, idx, refType);
    assert KindRefs(ps, sentence, idx, refType) == FlatMap(ps, g);
    if |ps| > 0 {
      assert FlatMap(ps, g) == g(ps[0]) + FlatMap(ps[1..], g);
      KindRefsCount(ps[1..], sentence, idx, refType);
      assert KindRefs(ps[1..], sentence, idx, refType) == FlatMap(ps[1..], g);
    }
  }

  /**
    A sentence of at least ten characters yields one reference per match of each
    figure pattern and each table pattern; a shorter one yields none.
   */
  lemma SentenceRefsCount(ks: Kinds, sentence: string, idx: nat)
    ensures |SentenceRefs(ks, sentence, idx)|
      == if |Strip(sentence)| < 10 then 0 else MatchCount(ks.figures, sentence) + MatchCount(ks.tables, sentence)
  {
    KindRefsCount(ks.figures, sentence, idx, "figure");
    KindRefsCount(ks.tables, sentence, idx, "table");
  }

  /** The reference made from a span whose number part is digits. */
  lemma MakeRefShape(sentence: string, idx: nat, refType: string, f: Found)
    requires f.start <= f.numStart < f.numEnd <= f.end <= |sentence|
    requires IsNumber(sentence[f.numStart..f.numEnd])
    ensures var r := MakeRef(sentence, idx, refType, f);
      IsNumber(r.number) && Contains(r.matchText, r.number) && Contains(sentence, r.matchText)
  {
    SliceContains(sentence, f.start, f.numStart, f.numEnd, f.end);
  }

  /** What a match makes: a number of digits, inside the matched text, inside the sentence. */
  lemma MadeShape(ps: seq<Pattern>, sentence: string, idx: nat, refType: string, r: Reference)
    requires MadeBy(ps, sentence, idx, refType, r)
    ensures r.sentence == Strip(sentence) && r.sentenceIdx == idx && r.refType == refType
    ensures IsNumber(r.number) && Contains(r.matchText, r.number) && Contains(sentence, r.matchText)
  {
    var p, f :| p in ps && f in FindAll(p, sentence) && FitsIn(f, sentence) && r == MakeRef(sentence, idx, refType, f);
    var k :| 0 <= k < |FindAll(p, sentence)| && FindAll(p, sentence)[k] == f;
    FoundFits(p, sentence, k);
    MatchShape(p, sentence, f);
    MakeRefShape(sentence, idx, refType, f);
  }

  /**
    What a reported reference holds: its sentence as split, of at least ten characters;
    a number made of digits; a matched text that holds the number and lies in the sentence.
   */
  lemma ReferenceShape(ks: Kinds, text: string, r: Reference)
    requires r in ExtractWith(ks, text)
    ensures var sentences := SplitSentences(text);
      && r.sentenceIdx < |sentences|
      && r.sentence == sentences[r.sentenceIdx]
      && |r.sentence| >= 10
      && (r.refType == "figure" || r.refType == "table")
      && IsNumber(r.number)
      && Contains(r.matchText, r.number)
      && Contains(r.sentence, r.matchText)
  {
    var sentences := SplitSentences(text);
    ExtractWithSpec(ks, text, r);
    var sentence := sentences[r.sentenceIdx];
    MadeShape(KindPatterns(ks, r.refType), sentence, r.sentenceIdx, r.refType, r);
    StrippedFixed(sentence);
  }

  /** A blank text has no references. */
  lemma ExtractBlank(ks: Kinds, text: string)
    requires AllSpace(text)
    ensures ExtractWith(ks, text) == []
  {
    SplitBlank(text);
  }

  /** `extract_references` is the sentence loop with the extractor's own patterns. */
  lemma ExtractSpec(text: string, r: Reference)
    ensures var sentences := SplitSentences(text);
      r in ExtractReferences(text) <==> r.sentenceIdx < |sentences| && Reports(Extractor, sentences[r.sentenceIdx], r.sentenceIdx, r)
  {
    ExtractWithSpec(Extractor, text, r);
  }
}
