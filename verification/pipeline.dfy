/**
  `FigureTextMatchingPipeline`: figures are read off the merged records, references
  are extracted from their text records and deduplicated, each figure is paired with
  the references of its number and kind, each pair is weighted by page distance, the
  pairs are stable-sorted by weight, and the whole is summarised.

  The reference extractor is a parameter `extract`; `Process` plugs in
  `References.ExtractReferences`.
 */
module Pipeline {
  import opened Wrappers
  import opened Text
  import opened Json
  import opened Seqs
  import opened Distinct
  import Enhancement
  import References

  type Extractor = string -> seq<References.Reference>

  // ---------------------------------------------------------------- record fields

  /** `item.get('page_idx', 0)`. */
  function PageOf(item: Record): int {
    if "page_idx" in item && item["page_idx"].JInt? then item["page_idx"].i else 0
  }

  /** The page number is absent or an integer: the pipeline subtracts page numbers. */
  predicate PageOk(item: Record) {
    "page_idx" !in item || item["page_idx"].JInt?
  }

  predicate IsNumeric(j: Json) {
    j.JInt? || j.JReal?
  }

  /** A bounding box is falsy or a list of numbers: its `len` and its entries are compared. */
  predicate BboxOk(j: Json) {
    !Truthy(j) || (j.JArr? && forall k | 0 <= k < |j.items| :: IsNumeric(j.items[k]))
  }

  /** A caption field is falsy, a string, or a list of strings: what `' '.join` and the caption regexes accept. */
  predicate CaptionFieldOk(j: Json) {
    !Truthy(j) || j.JStr? || IsStrList(j)
  }

  /** The strings of a list of strings. */
  function Strings(items: seq<Json>): (r: seq<string>)
    ensures |r| == |items|
    ensures forall k | 0 <= k < |items| && items[k].JStr? :: r[k] == items[k].s
  {
    seq(|items|, k requires 0 <= k < |items| => if items[k].JStr? then items[k].s else "")
  }

  /** The caption as the figure stores it: a list is joined with spaces, a string is kept. */
  function CaptionString(j: Json): string {
    if j.JStr? then j.s else if j.JArr? then Join(Strings(j.items), " ") else ""
  }

  /** `item.get('img_path', '')`: a path, or none when the field is falsy. */
  predicate PathOk(item: Record) {
    !Truthy(Get(item, "img_path")) || Get(item, "img_path").JStr?
  }

  // ---------------------------------------------------------------- figure ids

  /** Position of the last `c` in `s`, or -1. */
  function LastIndex(s: string, c: char): (i: int)
    ensures -1 <= i < |s|
    ensures i >= 0 ==> s[i] == c
    ensures forall j | i < j < |s| :: s[j] != c
    decreases |s|
  {
    if |s| == 0 then -1
    else if s[|s| - 1] == c then |s| - 1
    else LastIndex(s[..|s| - 1], c)
  }

  /** `os.path.basename`: what follows the last `/`. */
  function BaseName(path: string): (name: string)
    ensures '/' !in name
  {
    var i := LastIndex(path, '/');
    path[i + 1..]
  }

  /**
    `os.path.splitext(name)[0]`: the name up to its last dot, unless every character
    before that dot is a dot too (a leading dot starts a name, not an extension).
   */
  function Stem(name: string): (root: string)
    ensures |root| <= |name| && root == name[..|root|]
  {
    var d := LastIndex(name, '.');
    if d >= 0 && exists k | 0 <= k < d :: name[k] != '.' then name[..d] else name
  }

  /** `_extract_id_from_path`: `unknown` for an empty path, else the file name without directory and extension. */
  function IdFromPath(path: string): (id: string)
    ensures '/' !in id
    ensures |path| == 0 ==> id == "unknown"
  {
    if |path| == 0 then "unknown" else Stem(BaseName(path))
  }

  /** The id of a figure record: from `img_path`, which reads as `''` when absent or falsy. */
  function FigureId(item: Record): string {
    var p := Get(item, "img_path");
    IdFromPath(if Truthy(p) && p.JStr? then p.s else "")
  }

  /**
    The id round trip: a path made of a directory part, a file name and one extension
    gives back the file name.
   */
  lemma IdFromPathRoundTrip(dir: string, name: string, ext: string)
    requires dir == [] || dir[|dir| - 1] == '/'
    requires '/' !in name && exists k | 0 <= k < |name| :: name[k] != '.'
    requires |ext| > 0 && ext[0] == '.' && '/' !in ext && '.' !in ext[1..]
    ensures IdFromPath(dir + name + ext) == name
  {
    var file := name + ext;
    assert dir + name + ext == dir + file;
    assert '/' !in file by {
      forall k | 0 <= k < |file| ensures file[k] != '/' {
        if k < |name| { assert file[k] == name[k]; } else { assert file[k] == ext[k - |name|]; }
      }
    }
    BaseNameAfterDir(dir, file);
    StemOfNameExt(name, ext);
  }

  /** The base name of a directory part followed by a file name is the file name. */
  lemma BaseNameAfterDir(dir: string, file: string)
    requires dir == [] || dir[|dir| - 1] == '/'
    requires '/' !in file
    ensures BaseName(dir + file) == file
  {
    if |dir| > 0 {
      LastIndexAfter(dir, file, '/');
    } else {
      assert dir + file == file;
    }
  }

  /** The stem of a name followed by one extension is the name. */
  lemma StemOfNameExt(name: string, ext: string)
    requires exists k | 0 <= k < |name| :: name[k] != '.'
    requires |ext| > 0 && ext[0] == '.' && '.' !in ext[1..]
    ensures Stem(name + ext) == name
  {
    var file := name + ext;
    assert LastIndex(ext, '.') == 0;
    LastIndexAfter(name, ext, '.');
    var k :| 0 <= k < |name| && name[k] != '.';
    assert file[k] == name[k];
    assert file[..|name|] == name;
  }

  /** ... and a path without an extension gives back its file name. */
  lemma IdFromPathNoExtension(dir: string, name: string)
    requires dir == [] || dir[|dir| - 1] == '/'
    requires |name| > 0 && '/' !in name && '.' !in name
    ensures IdFromPath(dir + name) == name
  {
    LastIndexAfter(dir, name, '/');
    assert BaseName(dir + name) == name;
  }

  /** The last `c` of `a + b` is in `b` when `b` holds one, and is the last character of `a` when `a` ends in `c` and `b` has none. */
  lemma LastIndexAfter(a: string, b: string, c: char)
    ensures c in b ==> LastIndex(a + b, c) == |a| + LastIndex(b, c)
    ensures c !in b && |a| > 0 && a[|a| - 1] == c ==> LastIndex(a + b, c) == |a| - 1
  {
    var s := a + b;
    if c in b {
      var j := LastIndex(b, c);
      assert s[|a| + j] == b[j];
    } else if |a| > 0 && a[|a| - 1] == c {
      assert s[|a| - 1] == c;
    }
  }

  // ---------------------------------------------------------------- figures

  /** A figure as `_extract_figures_from_merged_data` builds it. */
  datatype Figure = Figure(id: string, caption: string, kind: string, page: int, bbox: Json)

  /** An image record with a truthy `image_caption`, or a table record with a truthy `table_caption`. */
  predicate FigureRecord(item: Record) {
    || (Get(item, "type") == JStr("image") && Truthy(Get(item, "image_caption")))
    || (Get(item, "type") == JStr("table") && Truthy(Get(item, "table_caption")))
  }

  /** The figure one record contributes: none, or one read off its caption field. */
  function ItemFigure(item: Record): (r: seq<Figure>)
    ensures |r| <= 1
    ensures |r| == 1 <==> FigureRecord(item)
    ensures |r| == 1 ==> r[0].id == FigureId(item) && r[0].page == PageOf(item) && r[0].bbox == Get(item, "bbox")
    ensures |r| == 1 && Get(item, "type") == JStr("image") ==> r[0].kind == "image" && r[0].caption == CaptionString(Get(item, "image_caption"))
    ensures |r| == 1 && Get(item, "type") == JStr("table") ==> r[0].kind == "table" && r[0].caption == CaptionString(Get(item, "table_caption"))
  {
    if Get(item, "type") == JStr("image") && Truthy(Get(item, "image_caption")) then
      [Figure(FigureId(item), CaptionString(Get(item, "image_caption")), "image", PageOf(item), Get(item, "bbox"))]
    else if Get(item, "type") == JStr("table") && Truthy(Get(item, "table_caption")) then
      [Figure(FigureId(item), CaptionString(Get(item, "table_caption")), "table", PageOf(item), Get(item, "bbox"))]
    else []
  }

  /** `_extract_figures_from_merged_data`. */
  function ExtractFigures(items: seq<Record>): seq<Figure> {
    FlatMap(items, ItemFigure)
  }

  /** The figure list is laid out record by record: record `i` contributes its figure between those of the records around it. */
  lemma FiguresInOrder(items: seq<Record>, i: nat)
    requires i < |items|
    ensures ExtractFigures(items) == ExtractFigures(items[..i]) + ItemFigure(items[i]) + ExtractFigures(items[i + 1..])
  {
    FlatMapAt(items, i, ItemFigure);
  }

  /** A figure comes from a figure record, and every figure record yields one. */
  lemma FiguresMembers(items: seq<Record>, f: Figure)
    ensures f in ExtractFigures(items) <==> exists i | 0 <= i < |items| :: FigureRecord(items[i]) && ItemFigure(items[i]) == [f]
  {
    if f in ExtractFigures(items) {
      FlatMapMembers(items, ItemFigure, f);
      var i :| 0 <= i < |items| && f in ItemFigure(items[i]);
      assert ItemFigure(items[i]) == [f];
    }
    if exists i | 0 <= i < |items| :: FigureRecord(items[i]) && ItemFigure(items[i]) == [f] {
      var i :| 0 <= i < |items| && FigureRecord(items[i]) && ItemFigure(items[i]) == [f];
      FlatMapIntro(items, ItemFigure, i, f);
    }
  }

  /** An image record whose caption sits under `img_caption` (the key the reconciler reads) yields no figure. */
  lemma ImageCaptionKey(item: Record)
    requires Get(item, "type") == JStr("image") && "image_caption" !in item
    ensures ItemFigure(item) == []
  {
  }

  // ---------------------------------------------------------------- references

  /** A reference tagged with the page and box of the record it was found in. */
  datatype Located = Located(ref: References.Reference, page: int, bbox: Json)

  /** A text record with truthy text. */
  predicate TextRecord(item: Record) {
    Get(item, "type") == JStr("text") && Truthy(Get(item, "text"))
  }

  /** The references of one record, tagged with its page and box. */
  function ItemRefs(extract: Extractor, item: Record): (r: seq<Located>)
    ensures !TextRecord(item) ==> r == []
    ensures TextRecord(item) && Get(item, "text").JStr? ==>
      |r| == |extract(Get(item, "text").s)|
      && forall k | 0 <= k < |r| :: r[k] == Located(extract(Get(item, "text").s)[k], PageOf(item), Get(item, "bbox"))
  {
    if TextRecord(item) && Get(item, "text").JStr? then
      var refs := extract(Get(item, "text").s);
      seq(|refs|, k requires 0 <= k < |refs| => Located(refs[k], PageOf(item), Get(item, "bbox")))
    else []
  }

  function ItemRefsOf(extract: Extractor): Record -> seq<Located> {
    (item: Record) => ItemRefs(extract, item)
  }

  /** The references of all text records, in record order, before deduplication. */
  function RawRefs(extract: Extractor, items: seq<Record>): seq<Located> {
    FlatMap(items, ItemRefsOf(extract))
  }

  /** The deduplication key: stripped sentence, number and kind. */
  function RefKey(l: Located): (string, string, string) {
    (Strip(l.ref.sentence), l.ref.number, l.ref.refType)
  }

  /** `_extract_references_from_merged_data`. */
  function UniqueRefs(extract: Extractor, items: seq<Record>): seq<Located> {
    Dedup(RawRefs(extract, items), RefKey)
  }

  /** A raw reference is one the extractor found in a text record, tagged with that record's page and box. */
  lemma RawRefsMembers(extract: Extractor, items: seq<Record>, l: Located)
    requires forall i | 0 <= i < |items| :: TextRecord(items[i]) ==> Get(items[i], "text").JStr?
    ensures l in RawRefs(extract, items) <==>
      exists i | 0 <= i < |items| && TextRecord(items[i]) ::
        l.ref in extract(Get(items[i], "text").s) && l.page == PageOf(items[i]) && l.bbox == Get(items[i], "bbox")
  {
    var g := ItemRefsOf(extract);
    if l in RawRefs(extract, items) {
      FlatMapMembers(items, g, l);
      var i :| 0 <= i < |items| && l in g(items[i]);
      var k :| 0 <= k < |g(items[i])| && g(items[i])[k] == l;
      assert extract(Get(items[i], "text").s)[k] == l.ref;
    }
    if exists i | 0 <= i < |items| && TextRecord(items[i]) ::
        l.ref in extract(Get(items[i], "text").s) && l.page == PageOf(items[i]) && l.bbox == Get(items[i], "bbox") {
      var i :| 0 <= i < |items| && TextRecord(items[i])
        && l.ref in extract(Get(items[i], "text").s) && l.page == PageOf(items[i]) && l.bbox == Get(items[i], "bbox");
      var refs := extract(Get(items[i], "text").s);
      var k :| 0 <= k < |refs| && refs[k] == l.ref;
      assert g(items[i])[k] == l;
      FlatMapIntro(items, g, i, l);
    }
  }

  /**
    Deduplication keeps, in order, exactly the first reference of each
    (stripped sentence, number, kind) key: no key twice, and no key lost.
   */
  lemma UniqueRefsSpec(extract: Extractor, items: seq<Record>)
    ensures UniqueRefs(extract, items) == KeepFirst(RawRefs(extract, items), RefKey)
    ensures Keys(UniqueRefs(extract, items), RefKey) == Keys(RawRefs(extract, items), RefKey)
    ensures forall a, b | 0 <= a < b < |UniqueRefs(extract, items)| ::
      RefKey(UniqueRefs(extract, items)[a]) != RefKey(UniqueRefs(extract, items)[b])
  {
    var raw := RawRefs(extract, items);
    DedupIsKeepFirst(raw, RefKey);
    KeepFirstKeys(raw, RefKey);
    forall a, b | 0 <= a < b < |UniqueRefs(extract, items)|
      ensures RefKey(UniqueRefs(extract, items)[a]) != RefKey(UniqueRefs(extract, items)[b])
    {
      KeepFirstDistinct(raw, RefKey, a, b);
    }
  }

  // ---------------------------------------------------------------- weights

  function Num(j: Json): real {
    match j
    case JInt(i) => i as real
    case JReal(x) => x
    case _ => 0.0
  }

  /**
    `_calculate_position_weight` as written: the distance table across pages; on the
    same page the box comparison at lines 237-251 answers 1.0 on every path.
    (A truthy box is a list under `BboxOk`, so the `JArr?` tests only name that.)
   */
  function PositionWeightOf(fig: Figure, l: Located): real {
    if fig.page != l.page then
      var d := Enhancement.Abs(fig.page - l.page);
      if d == 1 then 0.8 else if d <= 3 then 0.6 else 0.3
    else if Truthy(fig.bbox) && Truthy(l.bbox) && fig.bbox.JArr? && l.bbox.JArr?
      && |fig.bbox.items| >= 4 && |l.bbox.items| >= 4 then
      if Num(l.bbox.items[1]) < Num(fig.bbox.items[1]) then 1.0 else 1.0
    else 1.0
  }

  /** The weight is the page-distance table of `calculate_position_distance`, boxes or not. */
  lemma PositionWeightIsDistance(fig: Figure, l: Located)
    ensures PositionWeightOf(fig, l) == Enhancement.PositionWeight(fig.page, l.page)
  {
  }

  // ---------------------------------------------------------------- matching

  /** One entry of a figure's `matches`. */
  datatype Match = Match(referenceText: string, matchText: string, pageDistance: nat, weight: real, confidence: real)

  function MatchOf(fig: Figure, l: Located): (m: Match)
    ensures m.pageDistance == Enhancement.Abs(fig.page - l.page)
    ensures m.weight == m.confidence == Enhancement.PositionWeight(fig.page, l.page)
    ensures m.referenceText == l.ref.sentence && m.matchText == l.ref.matchText
  {
    PositionWeightIsDistance(fig, l);
    var w := PositionWeightOf(fig, l);
    Match(l.ref.sentence, l.ref.matchText, Enhancement.Abs(fig.page - l.page), w, w)
  }

  /** The references of the given number and kind, in order. */
  function Qualifying(refs: seq<Located>, number: string, kind: string): (r: seq<Located>)
    ensures forall k | 0 <= k < |r| :: r[k].ref.number == number && r[k].ref.refType == kind
    ensures forall l :: l in r <==> l in refs && l.ref.number == number && l.ref.refType == kind
    decreases |refs|
  {
    if |refs| == 0 then []
    else
      var rest := Qualifying(refs[1..], number, kind);
      if refs[0].ref.number == number && refs[0].ref.refType == kind then [refs[0]] + rest else rest
  }

  /** The sentence-level deduplication key. */
  function SentenceKey(l: Located): string {
    Strip(l.ref.sentence)
  }

  /** The references a figure of this number and kind keeps: one per stripped sentence. */
  function Chosen(refs: seq<Located>, number: string, kind: string): seq<Located> {
    Dedup(Qualifying(refs, number, kind), SentenceKey)
  }

  /** The matches in discovery order. */
  function Discovered(fig: Figure, refs: seq<Located>): (ms: seq<Match>)
    ensures |ms| == |refs|
    ensures forall k | 0 <= k < |refs| :: ms[k] == MatchOf(fig, refs[k])
  {
    seq(|refs|, k requires 0 <= k < |refs| => MatchOf(fig, refs[k]))
  }

  /** `_match_figure_with_references`. */
  function MatchFigure(fig: Figure, refs: seq<Located>): seq<Match> {
    match Enhancement.CaptionNumber(fig.caption)
    case None => []
    case Some(n) => SortByWeight(Discovered(fig, Chosen(refs, n, Enhancement.CaptionKind(fig.caption).Name())))
  }

  /**
    What a figure is paired with: each kept reference has the caption's number and kind,
    was the first reference of its stripped sentence among those, and no stripped
    sentence is kept twice.
   */
  lemma ChosenSpec(refs: seq<Located>, number: string, kind: string, l: Located)
    ensures l in Chosen(refs, number, kind) <==>
      exists i | FirstAt(Qualifying(refs, number, kind), SentenceKey, i) :: Qualifying(refs, number, kind)[i] == l
    ensures l in Chosen(refs, number, kind) ==> l in refs && l.ref.number == number && l.ref.refType == kind
  {
    var q := Qualifying(refs, number, kind);
    DedupIsKeepFirst(q, SentenceKey);
    KeepFirstMembers(q, SentenceKey, l);
  }

  lemma ChosenDistinct(refs: seq<Located>, number: string, kind: string, a: nat, b: nat)
    requires a < b < |Chosen(refs, number, kind)|
    ensures SentenceKey(Chosen(refs, number, kind)[a]) != SentenceKey(Chosen(refs, number, kind)[b])
  {
    var q := Qualifying(refs, number, kind);
    DedupIsKeepFirst(q, SentenceKey);
    KeepFirstDistinct(q, SentenceKey, a, b);
  }

  /** A caption without a figure or table number gets no matches. */
  lemma NoNumberNoMatches(fig: Figure, refs: seq<Located>)
    requires Enhancement.CaptionNumber(fig.caption).None?
    ensures MatchFigure(fig, refs) == []
  {
  }

  /**
    The matches of a figure are the chosen references, weighted and stable-sorted:
    the same entries, heaviest first, equal weights in discovery order.
   */
  lemma MatchFigureSpec(fig: Figure, refs: seq<Located>)
    requires Enhancement.CaptionNumber(fig.caption).Some?
    ensures var n := Enhancement.CaptionNumber(fig.caption).value;
      var chosen := Chosen(refs, n, Enhancement.CaptionKind(fig.caption).Name());
      var ms := MatchFigure(fig, refs);
      && multiset(ms) == multiset(Discovered(fig, chosen))
      && NonIncreasing(ms)
      && forall w :: WithWeight(ms, w) == WithWeight(Discovered(fig, chosen), w)
  {
    var n := Enhancement.CaptionNumber(fig.caption).value;
    var kind := Enhancement.CaptionKind(fig.caption).Name();
    var d := Discovered(fig, Chosen(refs, n, kind));
    SortSpec(d);
  }

  // ---------------------------------------------------------------- stable sort

  /** Heaviest first. */
  predicate NonIncreasing(ms: seq<Match>) {
    forall a, b | 0 <= a < b < |ms| :: ms[a].weight >= ms[b].weight
  }

  /** The entries of weight `w`, in order. */
  function WithWeight(ms: seq<Match>, w: real): seq<Match>
    decreases |ms|
  {
    if |ms| == 0 then [] else (if ms[0].weight == w then [ms[0]] else []) + WithWeight(ms[1..], w)
  }

  /** Put `m` after every entry at least as heavy: a later entry goes after earlier equal ones. */
  function Insert(m: Match, s: seq<Match>): seq<Match>
    decreases |s|
  {
    if |s| == 0 then [m]
    else if s[0].weight >= m.weight then [s[0]] + Insert(m, s[1..])
    else [m] + s
  }

  /** `matches.sort(key=weight, reverse=True)`: Python's sort is stable, also in reverse. */
  function SortByWeight(ms: seq<Match>): seq<Match>
    decreases |ms|
  {
    if |ms| == 0 then [] else Insert(ms[|ms| - 1], SortByWeight(ms[..|ms| - 1]))
  }

  lemma WithWeightAppend(a: seq<Match>, b: seq<Match>, w: real)
    ensures WithWeight(a + b, w) == WithWeight(a, w) + WithWeight(b, w)
    decreases |a|
  {
    if |a| > 0 {
      assert (a + b)[1..] == a[1..] + b;
      WithWeightAppend(a[1..], b, w);
    } else {
      assert a + b == b;
    }
  }

  lemma WithWeightNone(s: seq<Match>, w: real)
    requires forall k | 0 <= k < |s| :: s[k].weight < w
    ensures WithWeight(s, w) == []
    decreases |s|
  {
    if |s| > 0 {
      WithWeightNone(s[1..], w);
    }
  }

  lemma {:induction false} InsertKeeps(m: Match, s: seq<Match>)
    ensures multiset(Insert(m, s)) == multiset(s) + multiset{m}
    decreases |s|
  {
    if |s| > 0 {
      assert s == [s[0]] + s[1..];
      if s[0].weight >= m.weight {
        InsertKeeps(m, s[1..]);
      }
    }
  }

  predicate AtMost(s: seq<Match>, v: real) {
    forall k | 0 <= k < |s| :: s[k].weight <= v
  }

  lemma {:induction false} InsertAtMost(m: Match, s: seq<Match>, v: real)
    requires AtMost(s, v) && m.weight <= v
    ensures AtMost(Insert(m, s), v)
    decreases |s|
  {
    if |s| > 0 && s[0].weight >= m.weight {
      InsertAtMost(m, s[1..], v);
    }
  }

  lemma ConsSorted(x: Match, rest: seq<Match>)
    requires NonIncreasing(rest) && AtMost(rest, x.weight)
    ensures NonIncreasing([x] + rest)
  {
  }

  lemma {:induction false} InsertSorted(m: Match, s: seq<Match>)
    requires NonIncreasing(s)
    ensures NonIncreasing(Insert(m, s))
    decreases |s|
  {
    if |s| > 0 {
      if s[0].weight >= m.weight {
        InsertSorted(m, s[1..]);
        InsertAtMost(m, s[1..], s[0].weight);
        ConsSorted(s[0], Insert(m, s[1..]));
      } else {
        ConsSorted(m, s);
      }
    }
  }

  lemma {:induction false} InsertStable(m: Match, s: seq<Match>, w: real)
    requires NonIncreasing(s)
    ensures WithWeight(Insert(m, s), w) == WithWeight(s, w) + (if m.weight == w then [m] else [])
    decreases |s|
  {
    if |s| == 0 {
      assert WithWeight([m], w) == (if m.weight == w then [m] else []) + WithWeight([], w);
    } else if s[0].weight >= m.weight {
      var r := [s[0]] + Insert(m, s[1..]);
      InsertStable(m, s[1..], w);
      assert r[1..] == Insert(m, s[1..]);
    } else {
      WithWeightNone(s, m.weight);
      var r := [m] + s;
      assert r[1..] == s;
    }
  }

  /** The sort keeps the entries, orders them heaviest first, and keeps equal weights in their original order. */
  lemma {:induction false} SortSpec(ms: seq<Match>)
    ensures multiset(SortByWeight(ms)) == multiset(ms)
    ensures NonIncreasing(SortByWeight(ms))
    ensures forall w :: WithWeight(SortByWeight(ms), w) == WithWeight(ms, w)
    decreases |ms|
  {
    if |ms| > 0 {
      var init := ms[..|ms| - 1];
      var last := ms[|ms| - 1];
      assert ms == init + [last];
      SortSpec(init);
      InsertKeeps(last, SortByWeight(init));
      InsertSorted(last, SortByWeight(init));
      forall w ensures WithWeight(SortByWeight(ms), w) == WithWeight(ms, w) {
        InsertStable(last, SortByWeight(init), w);
        WithWeightAppend(init, [last], w);
      }
    }
  }

  // ---------------------------------------------------------------- summary

  /** One entry of `results`. */
  datatype FigureResult = FigureResult(figureId: string, caption: string, figureType: string, page: int, matches: seq<Match>)

  datatype Statistics = Statistics(withMatches: nat, withoutMatches: nat, average: real)

  /** The dictionary `_format_output` returns. */
  datatype Output = Output(documentId: string, totalFigures: nat, totalMatches: nat, results: seq<FigureResult>, statistics: Statistics)

  /** The number of matches over all results. */
  function TotalMatches(rs: seq<FigureResult>): nat
    decreases |rs|
  {
    if |rs| == 0 then 0 else |rs[0].matches| + TotalMatches(rs[1..])
  }

  lemma {:induction false} TotalMatchesAppend(a: seq<FigureResult>, b: seq<FigureResult>)
    ensures TotalMatches(a + b) == TotalMatches(a) + TotalMatches(b)
    decreases |a|
  {
    if |a| > 0 {
      assert (a + b)[0] == a[0] && (a + b)[1..] == a[1..] + b;
      TotalMatchesAppend(a[1..], b);
    } else {
      assert a + b == b;
    }
  }

  /** A single result contributes its own matches. */
  lemma TotalMatchesOne(r: FigureResult)
    ensures TotalMatches([r]) == |r.matches|
  {
    assert [r][1..] == [];
  }

  /** How many results have (`want`) or lack matches. */
  function CountMatched(rs: seq<FigureResult>, want: bool): (n: nat)
    ensures n <= |rs|
    decreases |rs|
  {
    if |rs| == 0 then 0 else (if (|rs[0].matches| > 0) == want then 1 else 0) + CountMatched(rs[1..], want)
  }

  lemma {:induction false} CountsSplit(rs: seq<FigureResult>)
    ensures CountMatched(rs, true) + CountMatched(rs, false) == |rs|
    decreases |rs|
  {
    if |rs| > 0 {
      CountsSplit(rs[1..]);
    }
  }

  lemma {:induction false} CountMatchedAppend(a: seq<FigureResult>, b: seq<FigureResult>, want: bool)
    ensures CountMatched(a + b, want) == CountMatched(a, want) + CountMatched(b, want)
    decreases |a|
  {
    if |a| > 0 {
      assert (a + b)[0] == a[0] && (a + b)[1..] == a[1..] + b;
      CountMatchedAppend(a[1..], b, want);
    } else {
      assert a + b == b;
    }
  }

  /** The positions of the results that have (`want`) or lack matches. */
  function Matched(rs: seq<FigureResult>, want: bool): set<nat> {
    set k: nat | k < |rs| && (|rs[k].matches| > 0) == want
  }

  /** The count is the size of the list comprehension `[r for r in results if r['matches']]` (or `if not`). */
  lemma {:induction false} CountMatchedCard(rs: seq<FigureResult>, want: bool)
    ensures CountMatched(rs, want) == |Matched(rs, want)|
    decreases |rs|
  {
    if |rs| == 0 {
      assert Matched(rs, want) == {};
    } else {
      var init := rs[..|rs| - 1];
      var last := rs[|rs| - 1];
      assert rs == init + [last];
      CountMatchedAppend(init, [last], want);
      CountMatchedCard(init, want);
      assert [last][1..] == [];
      MatchedSnoc(rs, want);
    }
  }

  /** The last result adds its own position to the positions of the results before it, or nothing. */
  lemma MatchedSnoc(rs: seq<FigureResult>, want: bool)
    requires |rs| > 0
    ensures |Matched(rs, want)|
      == |Matched(rs[..|rs| - 1], want)| + if (|rs[|rs| - 1].matches| > 0) == want then 1 else 0
  {
    var init := rs[..|rs| - 1];
    var n := |rs| - 1;
    assert forall k | 0 <= k < |init| :: init[k] == rs[k];
    if (|rs[n].matches| > 0) == want {
      assert Matched(rs, want) == Matched(init, want) + {n};
      assert n !in Matched(init, want);
    } else {
      assert Matched(rs, want) == Matched(init, want);
    }
  }

  /** Every result with matches adds at least one to the total, so the total is 0 exactly when no result has matches. */
  lemma {:induction false} MatchedWithinTotal(rs: seq<FigureResult>)
    ensures CountMatched(rs, true) <= TotalMatches(rs)
    ensures TotalMatches(rs) == 0 <==> CountMatched(rs, true) == 0
    decreases |rs|
  {
    if |rs| > 0 {
      MatchedWithinTotal(rs[1..]);
    }
  }

  /** `_format_output`: totals, and the per-figure average (0 with no figures). */
  function Format(rs: seq<FigureResult>, documentId: Option<string>): (o: Output)
    ensures o.results == rs && o.totalFigures == |rs| && o.totalMatches == TotalMatches(rs)
    ensures o.statistics.withMatches == CountMatched(rs, true) && o.statistics.withoutMatches == CountMatched(rs, false)
    ensures o.statistics.withMatches + o.statistics.withoutMatches == o.totalFigures
    ensures |rs| == 0 ==> o.statistics.average == 0.0 && o.totalMatches == 0
    ensures |rs| > 0 ==> o.statistics.average * (|rs| as real) == o.totalMatches as real
    ensures documentId.Some? && |documentId.value| > 0 ==> o.documentId == documentId.value
    ensures documentId.None? || |documentId.value| == 0 ==> o.documentId == "unknown"
  {
    CountsSplit(rs);
    var total := TotalMatches(rs);
    Output(
      if documentId.Some? && |documentId.value| > 0 then documentId.value else "unknown",
      |rs|, total, rs,
      Statistics(CountMatched(rs, true), CountMatched(rs, false),
        if |rs| > 0 then total as real / |rs| as real else 0.0))
  }

  // ---------------------------------------------------------------- the whole run

  /** What the source needs of a record it reads: the fields it touches have the types it uses. */
  predicate ItemOk(item: Record) {
    && (FigureRecord(item) ==>
          && PageOk(item) && PathOk(item) && BboxOk(Get(item, "bbox"))
          && CaptionFieldOk(Get(item, "image_caption")) && CaptionFieldOk(Get(item, "table_caption")))
    && (TextRecord(item) ==> Get(item, "text").JStr? && PageOk(item) && BboxOk(Get(item, "bbox")))
  }

  function ResultOf(fig: Figure, refs: seq<Located>): (r: FigureResult)
    ensures r.figureId == fig.id && r.caption == fig.caption && r.figureType == fig.kind && r.page == fig.page
  {
    FigureResult(fig.id, fig.caption, fig.kind, fig.page, MatchFigure(fig, refs))
  }

  /** `process_merged_document` with the reference extractor as a parameter. */
  function ProcessWith(extract: Extractor, items: seq<Record>, documentId: Option<string>): (o: Output)
    requires forall i | 0 <= i < |items| :: ItemOk(items[i])
    ensures |o.results| == |ExtractFigures(items)| == o.totalFigures
    ensures forall k | 0 <= k < |o.results| ::
      o.results[k] == ResultOf(ExtractFigures(items)[k], UniqueRefs(extract, items))
  {
    var figs := ExtractFigures(items);
    var refs := UniqueRefs(extract, items);
    Format(seq(|figs|, k requires 0 <= k < |figs| => ResultOf(figs[k], refs)), documentId)
  }

  /** `process_merged_document`. */
  function Process(items: seq<Record>, documentId: Option<string>): Output
    requires forall i | 0 <= i < |items| :: ItemOk(items[i])
  {
    ProcessWith(References.ExtractReferences, items, documentId)
  }
}
