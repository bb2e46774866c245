/**
  `DataMerger` proper: each content-list entry is matched against the blocks of
  its page in the middle index and receives the matched block's position, or an
  explicit "no match" marker.  Images and tables are matched through their
  captions, everything else through its text.
 */
module Reconcile {
  import opened Text
  import opened Json
  import opened Wrappers
  import opened Scan
  import opened SimilarityScore
  import opened Select
  import opened MiddleIndex

  /** What a match contributes to the merged record. */
  datatype MatchInfo = MatchInfo(
    bbox: Json,
    firstSpanBbox: Json,
    middleType: Json,
    middleContent: string,
    confidence: real,
    how: string,
    typeMatched: bool)

  /**
    `_calculate_similarity` as the matchers see it: some score in [0, 1] for a pair
    of texts.  The matchers are stated for any such score; `Calculate` plugs in the
    one the merger uses.
   */
  type SimFn = f: (string, string) -> real
    | forall a, b :: 0.0 <= f(a, b) <= 1.0
    witness (a: string, b: string) => 0.0

  function Calculate(ratio: Ratio): SimFn {
    (a: string, b: string) => Similarity(ratio, a, b)
  }

  /** A candidate block and the list it came from (`preproc_blocks` or `para_blocks`). */
  datatype Tagged = Tagged(block: IndexedBlock, source: string)

  /** The page's blocks in search order: all of `preproc_blocks`, then all of `para_blocks`. */
  function Candidates(pb: PageBlocks): (t: seq<Tagged>)
    ensures |t| == |pb.preproc| + |pb.para|
    ensures forall k | 0 <= k < |pb.preproc| :: t[k] == Tagged(pb.preproc[k], "preproc_blocks")
    ensures forall k | 0 <= k < |pb.para| :: t[|pb.preproc| + k] == Tagged(pb.para[k], "para_blocks")
  {
    seq(|pb.preproc|, k requires 0 <= k < |pb.preproc| => Tagged(pb.preproc[k], "preproc_blocks"))
    + seq(|pb.para|, k requires 0 <= k < |pb.para| => Tagged(pb.para[k], "para_blocks"))
  }

  // ---------------------------------------------------------------- text entries

  /** The text loop's candidates: similarity plus 0.2 when the types match, eligible above 0.6 similarity. */
  function TextCands(sim: SimFn, text: string, contentType: Json, t: seq<Tagged>): (cs: seq<Cand>)
    requires |t| > 0 ==> Hashable(contentType)
    ensures |cs| == |t|
    ensures PositiveWhenEligible(cs)
  {
    seq(|t|, k requires 0 <= k < |t| =>
      var sim := sim(text, t[k].block.content);
      Cand(sim + (if TypeMatch(contentType, t[k].block.kind) then 0.2 else 0.0), sim > 0.6))
  }

  /** The record the text loop builds for the block it keeps. */
  function TextInfo(sim: SimFn, text: string, contentType: Json, c: Tagged): MatchInfo
    requires Hashable(contentType)
  {
    var b := c.block;
    MatchInfo(b.bbox, b.firstSpanBbox, b.kind, b.content, sim(text, b.content),
      c.source + "_similarity", TypeMatch(contentType, b.kind))
  }

  /** The generic branch of `_find_matching_bbox`: the best-scoring block whose similarity exceeds 0.6. */
  function TextMatch(sim: SimFn, text: string, contentType: Json, pb: PageBlocks): (r: Option<MatchInfo>)
    requires |pb.preproc| + |pb.para| > 0 ==> Hashable(contentType)
    ensures r.Some? ==> 0.6 < r.value.confidence <= 1.0
    ensures r.Some? ==> r.value.how == "preproc_blocks_similarity" || r.value.how == "para_blocks_similarity"
    ensures r.Some? ==> Hashable(contentType) && r.value.typeMatched == TypeMatch(contentType, r.value.middleType)
  {
    var t := Candidates(pb);
    var cs := TextCands(sim, text, contentType, t);
    var pick := PickBest(cs);
    PickBestSpec(cs);
    if pick.None? || pick.value >= |t| then None
    else
      TextKept(sim, text, contentType, pb, pick.value);
      Some(TextInfo(sim, text, contentType, t[pick.value]))
  }

  /** The record kept for an eligible candidate reports a similarity above 0.6 from one of the two lists. */
  lemma TextKept(sim: SimFn, text: string, contentType: Json, pb: PageBlocks, k: nat)
    requires k < |pb.preproc| + |pb.para| && Hashable(contentType)
    requires TextCands(sim, text, contentType, Candidates(pb))[k].eligible
    ensures var m := TextInfo(sim, text, contentType, Candidates(pb)[k]);
      && 0.6 < m.confidence <= 1.0
      && (m.how == "preproc_blocks_similarity" || m.how == "para_blocks_similarity")
      && m.typeMatched == TypeMatch(contentType, m.middleType)
  {
    CandidateSource(pb, k);
    var c := Candidates(pb)[k];
    assert TextCands(sim, text, contentType, Candidates(pb))[k].eligible == (sim(text, c.block.content) > 0.6);
  }

  /** Every candidate comes from one of the two block lists. */
  lemma CandidateSource(pb: PageBlocks, k: nat)
    requires k < |pb.preproc| + |pb.para|
    ensures Candidates(pb)[k].source == "preproc_blocks" || Candidates(pb)[k].source == "para_blocks"
  {
    if k >= |pb.preproc| {
      assert Candidates(pb)[k] == Tagged(pb.para[k - |pb.preproc|], "para_blocks");
    }
  }

  /**
    The text branch keeps nothing exactly when every block's similarity is at most 0.6;
    otherwise it keeps the first block with the highest similarity-plus-bonus among those above 0.6.
   */
  lemma TextMatchSpec(sim: SimFn, text: string, contentType: Json, pb: PageBlocks)
    requires |pb.preproc| + |pb.para| > 0 ==> Hashable(contentType)
    ensures var t := Candidates(pb);
      var none := TextMatch(sim, text, contentType, pb).None?;
      none <==> forall k | 0 <= k < |t| :: sim(text, t[k].block.content) <= 0.6
    ensures var t := Candidates(pb);
      TextMatch(sim, text, contentType, pb).Some? ==>
        exists k: nat | FirstBest(TextCands(sim, text, contentType, t), k) ::
          TextMatch(sim, text, contentType, pb) == Some(TextInfo(sim, text, contentType, t[k]))
  {
    var t := Candidates(pb);
    var cs := TextCands(sim, text, contentType, t);
    var pick := PickBest(cs);
    PickBestSpec(cs);
    TextEligible(sim, text, contentType, t);
    TextMatchUnfold(sim, text, contentType, pb);
    if pick.Some? {
      var k := pick.value;
      assert FirstBest(cs, k);
      assert TextMatch(sim, text, contentType, pb) == Some(TextInfo(sim, text, contentType, t[k]));
    }
  }

  lemma TextMatchUnfold(sim: SimFn, text: string, contentType: Json, pb: PageBlocks)
    requires |pb.preproc| + |pb.para| > 0 ==> Hashable(contentType)
    ensures var t := Candidates(pb);
      var pick := PickBest(TextCands(sim, text, contentType, t));
      TextMatch(sim, text, contentType, pb) == if pick.None? || pick.value >= |t| then None else Some(TextInfo(sim, text, contentType, t[pick.value]))
  {
  }

  /** No text candidate is eligible exactly when no block's similarity exceeds 0.6. */
  lemma TextEligible(sim: SimFn, text: string, contentType: Json, t: seq<Tagged>)
    requires |t| > 0 ==> Hashable(contentType)
    ensures var cs := TextCands(sim, text, contentType, t);
      (forall j | 0 <= j < |cs| :: !cs[j].eligible) <==> forall k | 0 <= k < |t| :: sim(text, t[k].block.content) <= 0.6
  {
    var cs := TextCands(sim, text, contentType, t);
    assert forall k | 0 <= k < |t| :: cs[k].eligible == (sim(text, t[k].block.content) > 0.6);
  }

  // ---------------------------------------------------------------- captions

  /** The two caption branches: images match `image_caption` blocks, tables `table_caption` blocks. */
  datatype CaptionPath = ImagePath | TablePath {
    /** The entry field holding the caption. */
    function Field(): string {
      if this == ImagePath then "img_caption" else "table_caption"
    }

    /** The block type searched, which is also the reported `middle_type`. */
    function BlockType(): string {
      if this == ImagePath then "image_caption" else "table_caption"
    }

    /** The word the number fallback looks for. */
    function Word(): string {
      if this == ImagePath then "figure" else "table"
    }

    function NumberMethod(): string {
      if this == ImagePath then "figure_number_" else "table_number_"
    }
  }

  /** A caption value `str()` or `' '.join` turns into text here: a list of strings, a string, null, a boolean or an integer. */
  predicate CaptionOk(j: Json) {
    IsStrList(j) || j.JStr? || j.JNull? || j.JBool? || j.JInt?
  }

  function Strs(items: seq<Json>): (r: seq<string>)
    requires forall k | 0 <= k < |items| :: items[k].JStr?
    ensures |r| == |items|
    ensures forall k | 0 <= k < |items| :: items[k] == JStr(r[k])
  {
    seq(|items|, k requires 0 <= k < |items| => items[k].s)
  }

  /** The caption text: a list is joined with spaces, anything else goes through `str()`; an absent field reads as `[]`. */
  function CaptionText(item: Record, field: string): (r: string)
    requires field in item ==> CaptionOk(item[field])
    ensures field !in item ==> r == ""
    ensures field in item && item[field].JStr? ==> r == item[field].s
    ensures field in item && IsStrList(item[field]) ==> r == Join(Strs(item[field].items), " ")
    ensures field in item && item[field].JInt? ==> |r| > 0 && (item[field].i >= 0 <==> IsNumber(r))
  {
    if field !in item then ""
    else
      match item[field]
      case JArr(items) => Join(Strs(items), " ")
      case JStr(s) => s
      case JNull => "None"
      case JBool(b) => if b then "True" else "False"
      case JInt(i) => IntToString(i)
  }

  /** The similarity loop of a caption branch: only blocks of the branch's type compete, and only above 0.2. */
  function CaptionCands(sim: SimFn, path: CaptionPath, caption: string, t: seq<Tagged>): (cs: seq<Cand>)
    ensures |cs| == |t|
    ensures PositiveWhenEligible(cs)
  {
    seq(|t|, k requires 0 <= k < |t| =>
      if t[k].block.kind == JStr(path.BlockType()) then
        var sim := sim(caption, t[k].block.content);
        Cand(sim, sim > 0.2)
      else Cand(0.0, false))
  }

  /** The first number after the fallback's word in a lower-cased text (`re.findall(r'figure\s*(\d+)', ...)[0]`). */
  function LeadNumber(path: CaptionPath, s: string): Option<string> {
    FirstNumber(Lower(s), [path.Word()])
  }

  /** The fallback's test on one block: right type, the word in both texts, and equal first numbers. */
  predicate NumbersAgree(path: CaptionPath, caption: string, c: Tagged) {
    && c.block.kind == JStr(path.BlockType())
    && Contains(Lower(c.block.content), path.Word())
    && Contains(Lower(caption), path.Word())
    && LeadNumber(path, caption).Some?
    && LeadNumber(path, c.block.content) == LeadNumber(path, caption)
  }

  function FallbackTests(path: CaptionPath, caption: string, t: seq<Tagged>): (tests: seq<bool>)
    ensures |tests| == |t|
    ensures forall k | 0 <= k < |t| :: tests[k] == NumbersAgree(path, caption, t[k])
  {
    seq(|t|, k requires 0 <= k < |t| => NumbersAgree(path, caption, t[k]))
  }

  /** `_find_image_caption_bbox` and `_find_table_caption_bbox`. */
  function CaptionMatch(sim: SimFn, path: CaptionPath, caption: string, pb: PageBlocks): (r: Option<MatchInfo>)
    ensures AllSpace(caption) ==> r.None?
    ensures r.Some? ==> r.value.middleType == JStr(path.BlockType()) && r.value.typeMatched
    ensures r.Some? ==> 0.2 < r.value.confidence <= 1.0
  {
    if AllSpace(caption) then None
    else
      var t := Candidates(pb);
      var cs := CaptionCands(sim, path, caption, t);
      var pick := PickBest(cs);
      PickBestSpec(cs);
      if pick.Some? && pick.value < |t| then
        var b := t[pick.value].block;
        Some(MatchInfo(b.bbox, b.firstSpanBbox, JStr(path.BlockType()), b.content,
          sim(caption, b.content), path.BlockType() + "_" + t[pick.value].source, true))
      else
        var first := FirstWhere(FallbackTests(path, caption, t));
        if first.None? || first.value >= |t| then None
        else
          var b := t[first.value].block;
          Some(MatchInfo(b.bbox, b.firstSpanBbox, JStr(path.BlockType()), b.content,
            0.8, path.NumberMethod() + t[first.value].source, true))
  }

  /**
    When some block of the branch's type scores above 0.2, the similarity pass keeps the
    first best such block and reports its similarity; otherwise the fallback keeps the
    first block, in search order, whose number agrees, with confidence 0.8, and nothing
    when no block's number agrees.
   */
  lemma CaptionMatchSpec(sim: SimFn, path: CaptionPath, caption: string, pb: PageBlocks)
    requires !AllSpace(caption)
    ensures var t := Candidates(pb);
      var cs := CaptionCands(sim, path, caption, t);
      var r := CaptionMatch(sim, path, caption, pb);
      (exists k | 0 <= k < |t| :: cs[k].eligible) ==>
        exists k: nat | FirstBest(cs, k) ::
          && k < |t|
          && t[k].block.kind == JStr(path.BlockType())
          && r == Some(MatchInfo(t[k].block.bbox, t[k].block.firstSpanBbox, JStr(path.BlockType()),
               t[k].block.content, sim(caption, t[k].block.content), path.BlockType() + "_" + t[k].source, true))
    ensures var t := Candidates(pb);
      var cs := CaptionCands(sim, path, caption, t);
      var r := CaptionMatch(sim, path, caption, pb);
      (forall k | 0 <= k < |t| :: !cs[k].eligible) ==>
        && (r.None? <==> forall k | 0 <= k < |t| :: !NumbersAgree(path, caption, t[k]))
        && (r.Some? ==> exists k | 0 <= k < |t| ::
              && NumbersAgree(path, caption, t[k])
              && (forall j | 0 <= j < k :: !NumbersAgree(path, caption, t[j]))
              && r == Some(MatchInfo(t[k].block.bbox, t[k].block.firstSpanBbox, JStr(path.BlockType()),
                   t[k].block.content, 0.8, path.NumberMethod() + t[k].source, true)))
  {
    var t := Candidates(pb);
    var cs := CaptionCands(sim, path, caption, t);
    PickBestSpec(cs);
    if PickBest(cs).Some? {
      CaptionSimilarityCase(sim, path, caption, pb);
    } else {
      CaptionFallbackCase(sim, path, caption, pb);
    }
  }

  /** The similarity pass's record, when some block of the branch's type scores above 0.2. */
  lemma CaptionSimilarityCase(sim: SimFn, path: CaptionPath, caption: string, pb: PageBlocks)
    requires !AllSpace(caption)
    requires PickBest(CaptionCands(sim, path, caption, Candidates(pb))).Some?
    ensures var t := Candidates(pb);
      var cs := CaptionCands(sim, path, caption, t);
      exists k: nat | FirstBest(cs, k) ::
        && k < |t|
        && t[k].block.kind == JStr(path.BlockType())
        && CaptionMatch(sim, path, caption, pb) == Some(MatchInfo(t[k].block.bbox, t[k].block.firstSpanBbox,
             JStr(path.BlockType()), t[k].block.content, sim(caption, t[k].block.content), path.BlockType() + "_" + t[k].source, true))
  {
    var t := Candidates(pb);
    var cs := CaptionCands(sim, path, caption, t);
    PickBestSpec(cs);
    var k := PickBest(cs).value;
    assert FirstBest(cs, k);
    assert t[k].block.kind == JStr(path.BlockType());
  }

  /** The fallback's record, when no block of the branch's type scores above 0.2. */
  lemma CaptionFallbackCase(sim: SimFn, path: CaptionPath, caption: string, pb: PageBlocks)
    requires !AllSpace(caption)
    requires PickBest(CaptionCands(sim, path, caption, Candidates(pb))).None?
    ensures var t := Candidates(pb);
      var r := CaptionMatch(sim, path, caption, pb);
      && (r.None? <==> forall k | 0 <= k < |t| :: !NumbersAgree(path, caption, t[k]))
      && (r.Some? ==> exists k | 0 <= k < |t| ::
            && NumbersAgree(path, caption, t[k])
            && (forall j | 0 <= j < k :: !NumbersAgree(path, caption, t[j]))
            && r == Some(MatchInfo(t[k].block.bbox, t[k].block.firstSpanBbox, JStr(path.BlockType()),
                 t[k].block.content, 0.8, path.NumberMethod() + t[k].source, true)))
  {
    var t := Candidates(pb);
    var first := FirstWhere(FallbackTests(path, caption, t));
    CaptionFallbackUnfold(sim, path, caption, pb);
    if first.Some? {
      assert NumbersAgree(path, caption, t[first.value]);
    }
  }

  lemma CaptionFallbackUnfold(sim: SimFn, path: CaptionPath, caption: string, pb: PageBlocks)
    requires !AllSpace(caption)
    requires PickBest(CaptionCands(sim, path, caption, Candidates(pb))).None?
    ensures var t := Candidates(pb);
      var first := FirstWhere(FallbackTests(path, caption, t));
      CaptionMatch(sim, path, caption, pb) ==
        if first.None? || first.value >= |t| then None
        else Some(MatchInfo(t[first.value].block.bbox, t[first.value].block.firstSpanBbox, JStr(path.BlockType()),
          t[first.value].block.content, 0.8, path.NumberMethod() + t[first.value].source, true))
  {
  }

  /** No block of the branch's type on the page means no match at all. */
  lemma CaptionNeedsBlockType(sim: SimFn, path: CaptionPath, caption: string, pb: PageBlocks)
    requires forall k | 0 <= k < |Candidates(pb)| :: Candidates(pb)[k].block.kind != JStr(path.BlockType())
    ensures CaptionMatch(sim, path, caption, pb).None?
  {
    var t := Candidates(pb);
    if !AllSpace(caption) {
      var cs := CaptionCands(sim, path, caption, t);
      PickBestSpec(cs);
      var tests := FallbackTests(path, caption, t);
      assert forall k | 0 <= k < |t| :: !tests[k];
    }
  }

  /** A word found by the fallback's number pattern occurs in the lower-cased text, so the fallback's `in` tests are implied by its number test. */
  lemma LeadNumberHasWord(path: CaptionPath, s: string)
    requires LeadNumber(path, s).Some?
    ensures Contains(Lower(s), path.Word())
  {
    var l := Lower(s);
    var w := path.Word();
    SearchNeedsKeyword(l, [w]);
    var i, k :| 0 <= i <= |l| && 0 <= k < 1 && KeywordAt(l, i, [w][k]);
    LoweredKeywordOccurs(s, i, w);
  }

  /** A lower-case keyword found in lower-cased text occurs there as written. */
  lemma LoweredKeywordOccurs(s: string, i: nat, w: string)
    requires KeywordAt(Lower(s), i, w)
    ensures Contains(Lower(s), w)
  {
    var l := Lower(s);
    var slice := l[i..i + |w|];
    forall j | 0 <= j < |slice| ensures slice[j] == w[j] {
      assert slice[j] == ToLower(s[i + j]);
      assert Lower(slice)[j] == w[j];
    }
    assert OccursAt(l, w, i);
  }

  /** The fallback's test reduces to: right block type and equal first numbers. */
  lemma NumbersAgreeSimplified(path: CaptionPath, caption: string, c: Tagged)
    ensures NumbersAgree(path, caption, c) <==>
      c.block.kind == JStr(path.BlockType()) && LeadNumber(path, caption).Some?
      && LeadNumber(path, c.block.content) == LeadNumber(path, caption)
  {
    if LeadNumber(path, caption).Some? && LeadNumber(path, c.block.content) == LeadNumber(path, caption) {
      LeadNumberHasWord(path, caption);
      LeadNumberHasWord(path, c.block.content);
    }
  }

  // ---------------------------------------------------------------- one entry

  /**
    What `_find_matching_bbox` needs of an entry to run without raising: a string
    `text` if any, a hashable `page_idx`, and on a page that is indexed a caption it
    can turn into text (images and tables) or a hashable `type` when there are
    blocks to compare it with (everything else).
   */
  predicate ItemOk(item: Record, index: Index) {
    && ("text" in item ==> item["text"].JStr?)
    && Hashable(Get(item, "page_idx"))
    && (PyKey(Get(item, "page_idx")) in index ==>
          var pb := index[PyKey(Get(item, "page_idx"))];
          var ty := Get(item, "type");
          if ty == JStr("image") then "img_caption" in item ==> CaptionOk(item["img_caption"])
          else if ty == JStr("table") then "table_caption" in item ==> CaptionOk(item["table_caption"])
          else |pb.preproc| + |pb.para| > 0 ==> Hashable(ty))
  }

  /** `content_item.get('text', '').strip()`. */
  function EntryText(item: Record): (r: string)
    requires "text" in item ==> item["text"].JStr?
    ensures Stripped(r)
  {
    if "text" in item then Strip(item["text"].s) else ""
  }

  /** `_find_matching_bbox` for a dict entry. */
  function FindMatchingBbox(sim: SimFn, item: Record, index: Index): (r: Option<MatchInfo>)
    requires ItemOk(item, index)
    ensures PyKey(Get(item, "page_idx")) !in index ==> r.None?
    ensures r.Some? && Get(item, "type") == JStr("image") ==> r.value.middleType == JStr("image_caption")
    ensures r.Some? && Get(item, "type") == JStr("table") ==> r.value.middleType == JStr("table_caption")
  {
    var key := PyKey(Get(item, "page_idx"));
    if key !in index then None
    else
      var pb := index[key];
      var ty := Get(item, "type");
      if ty == JStr("image") then CaptionMatch(sim, ImagePath, CaptionText(item, "img_caption"), pb)
      else if ty == JStr("table") then CaptionMatch(sim, TablePath, CaptionText(item, "table_caption"), pb)
      else TextMatch(sim, EntryText(item), ty, pb)
  }

  /** The keys a match adds. */
  const InfoKeys: set<string> :=
    {"bbox", "first_span_bbox", "middle_type", "middle_content", "match_confidence", "match_method", "type_matched"}

  /** The keys the no-match marker adds. */
  const NoMatchKeys: set<string> := {"bbox", "middle_type", "match_confidence", "match_method"}

  function InfoFields(m: MatchInfo): (r: Record)
    ensures r.Keys == InfoKeys
  {
    map[
      "bbox" := m.bbox,
      "first_span_bbox" := m.firstSpanBbox,
      "middle_type" := m.middleType,
      "middle_content" := JStr(m.middleContent),
      "match_confidence" := JReal(m.confidence),
      "match_method" := JStr(m.how),
      "type_matched" := JBool(m.typeMatched)]
  }

  const NoMatchFields: Record :=
    map["bbox" := JNull, "middle_type" := JNull, "match_confidence" := JReal(0.0), "match_method" := JStr("no_match")]

  /** `merged_item = item.copy(); merged_item.update(...)` for one dict entry. */
  function MergeRecord(sim: SimFn, item: Record, index: Index): (r: Record)
    requires ItemOk(item, index)
    ensures r.Keys == item.Keys + (if FindMatchingBbox(sim, item, index).Some? then InfoKeys else NoMatchKeys)
    ensures forall k | k in item && k !in InfoKeys :: r[k] == item[k]
  {
    var m := FindMatchingBbox(sim, item, index);
    if m.Some? then item + InfoFields(m.value) else item + NoMatchFields
  }

  /** A merged record reports "no_match" exactly when no block was found, and then carries no position and no type. */
  lemma NoMatchMarker(sim: SimFn, item: Record, index: Index)
    requires ItemOk(item, index)
    ensures var r := MergeRecord(sim, item, index);
      && (r["match_method"] == JStr("no_match") <==> FindMatchingBbox(sim, item, index).None?)
      && (FindMatchingBbox(sim, item, index).None? ==>
            r["bbox"] == JNull && r["middle_type"] == JNull && r["match_confidence"] == JReal(0.0))
      && (FindMatchingBbox(sim, item, index).Some? ==> r["match_confidence"].JReal? && r["match_confidence"].r > 0.2)
  {
    var m := FindMatchingBbox(sim, item, index);
    if m.Some? {
      FoundMethod(sim, item, index);
      InfoLookup(item, m.value);
    } else {
      NoMatchLookup(item);
    }
  }

  /** A found block is reported with a method other than "no_match" and a confidence above 0.2. */
  lemma FoundMethod(sim: SimFn, item: Record, index: Index)
    requires ItemOk(item, index) && FindMatchingBbox(sim, item, index).Some?
    ensures var m := FindMatchingBbox(sim, item, index).value;
      m.how != "no_match" && m.confidence > 0.2
  {
    var m := FindMatchingBbox(sim, item, index);
    var ty := Get(item, "type");
    assert m.value.how != "no_match" by {
      var pb := index[PyKey(Get(item, "page_idx"))];
      if ty == JStr("image") || ty == JStr("table") {
        CaptionMethodNotNoMatch(sim, if ty == JStr("image") then ImagePath else TablePath,
          CaptionText(item, if ty == JStr("image") then "img_caption" else "table_caption"), pb);
      }
    }
    assert m.value.confidence > 0.2 by {
      if !(ty == JStr("image") || ty == JStr("table")) {
        assert m.value.confidence > 0.6;
      }
    }
  }

  lemma InfoLookup(item: Record, m: MatchInfo)
    ensures (item + InfoFields(m))["match_method"] == JStr(m.how)
    ensures (item + InfoFields(m))["match_confidence"] == JReal(m.confidence)
  {
  }

  lemma NoMatchLookup(item: Record)
    ensures (item + NoMatchFields)["match_method"] == JStr("no_match")
    ensures (item + NoMatchFields)["bbox"] == JNull
    ensures (item + NoMatchFields)["middle_type"] == JNull
    ensures (item + NoMatchFields)["match_confidence"] == JReal(0.0)
  {
  }

  /** Caption methods start with the block type or the fallback's prefix, never with "no_match". */
  lemma CaptionMethodNotNoMatch(sim: SimFn, path: CaptionPath, caption: string, pb: PageBlocks)
    ensures var r := CaptionMatch(sim, path, caption, pb);
      r.Some? ==> r.value.how != "no_match"
  {
    var r := CaptionMatch(sim, path, caption, pb);
    if r.Some? {
      assert r.value.how[0] == 'i' || r.value.how[0] == 't' || r.value.how[0] == 'f';
    }
  }

  // ---------------------------------------------------------------- the whole list

  /** An entry of the content list: a bare string or a dict. */
  datatype Entry = TextEntry(text: string) | RecordEntry(fields: Record)

  /** The dict the merge loop makes of a bare string entry. */
  function StringRecord(s: string): Record {
    map["type" := JStr("text"), "text" := JStr(s), "page_idx" := JInt(0)]
  }

  predicate EntryOk(e: Entry, index: Index) {
    e.RecordEntry? ==> ItemOk(e.fields, index)
  }

  predicate PagesOk(pages: seq<Page>) {
    forall i | 0 <= i < |pages| :: PageOk(pages[i])
  }

  /** One merged record, with bare strings handled as the loop's first branch intends: a text dict that matches nothing. */
  function MergeEntry(sim: SimFn, e: Entry, index: Index): Record
    requires EntryOk(e, index)
  {
    match e
    case TextEntry(s) => StringRecord(s) + NoMatchFields
    case RecordEntry(item) => MergeRecord(sim, item, index)
  }

  /** `merge_data`: one merged record per entry, in order. */
  function Merge(sim: SimFn, entries: seq<Entry>, pages: seq<Page>): (r: seq<Record>)
    requires PagesOk(pages)
    requires forall k | 0 <= k < |entries| :: EntryOk(entries[k], BuildIndex(pages))
    ensures |r| == |entries|
    ensures forall k | 0 <= k < |entries| :: "match_method" in r[k] && "bbox" in r[k] && "middle_type" in r[k]
    ensures forall k | 0 <= k < |entries| && entries[k].RecordEntry? :: entries[k].fields.Keys <= r[k].Keys
  {
    var index := BuildIndex(pages);
    seq(|entries|, k requires 0 <= k < |entries| => MergeEntry(sim, entries[k], index))
  }

  predicate HasString(entries: seq<Entry>) {
    exists k | 0 <= k < |entries| :: entries[k].TextEntry?
  }

  /**
    `merge_data` as written: a bare string entry raises `AttributeError` in the
    "no match" report (`item.get` on a `str`), and an empty list raises
    `ZeroDivisionError` in the match-rate report; `None` stands for the exception.
   */
  function MergeAsWritten(sim: SimFn, entries: seq<Entry>, pages: seq<Page>): (r: Option<seq<Record>>)
    requires PagesOk(pages)
    requires forall k | 0 <= k < |entries| :: EntryOk(entries[k], BuildIndex(pages))
    ensures r.None? <==> |entries| == 0 || HasString(entries)
  {
    var index := BuildIndex(pages);
    if HasString(entries) then None
    else if |entries| == 0 then None
    else
      assert forall k | 0 <= k < |entries| :: !entries[k].TextEntry?;
      assert forall k | 0 <= k < |entries| :: EntryOk(entries[k], index);
      Some(seq(|entries|, k requires 0 <= k < |entries| => MergeRecord(sim, entries[k].fields, index)))
  }

  /** Where the code as written returns, it agrees with the corrected merge. */
  lemma MergeAsWrittenAgrees(sim: SimFn, entries: seq<Entry>, pages: seq<Page>)
    requires PagesOk(pages)
    requires forall k | 0 <= k < |entries| :: EntryOk(entries[k], BuildIndex(pages))
    ensures MergeAsWritten(sim, entries, pages).Some? ==> MergeAsWritten(sim, entries, pages).value == Merge(sim, entries, pages)
  {
  }

  /** A single bare string: the code as written raises, while the intended result is one unmatched text record. */
  lemma StringEntryRaises(sim: SimFn, pages: seq<Page>)
    requires PagesOk(pages)
    ensures MergeAsWritten(sim, [TextEntry("x")], pages).None?
    ensures Merge(sim, [TextEntry("x")], pages) ==
      [map["type" := JStr("text"), "text" := JStr("x"), "page_idx" := JInt(0), "bbox" := JNull,
           "middle_type" := JNull, "match_confidence" := JReal(0.0), "match_method" := JStr("no_match")]]
  {
    var es := [TextEntry("x")];
    assert es[0].TextEntry?;
    var r := Merge(sim, es, pages);
    var m := StringRecord("x") + NoMatchFields;
    assert r[0] == m;
    var lit := map["type" := JStr("text"), "text" := JStr("x"), "page_idx" := JInt(0), "bbox" := JNull,
           "middle_type" := JNull, "match_confidence" := JReal(0.0), "match_method" := JStr("no_match")];
    assert m.Keys == lit.Keys;
    assert m == lit;
    assert r == [lit];
  }

  /** An empty content list: the code as written raises, the corrected merge returns an empty list. */
  lemma EmptyListRaises(sim: SimFn, pages: seq<Page>)
    requires PagesOk(pages)
    ensures MergeAsWritten(sim, [], pages).None?
    ensures Merge(sim, [], pages) == []
  {
  }

  /** A dict entry keeps every field the merge does not own, and each merged record depends on its own entry only. */
  lemma MergeKeepsFields(sim: SimFn, entries: seq<Entry>, pages: seq<Page>, k: nat, key: string)
    requires PagesOk(pages)
    requires forall j | 0 <= j < |entries| :: EntryOk(entries[j], BuildIndex(pages))
    requires k < |entries| && entries[k].RecordEntry? && key in entries[k].fields && key !in InfoKeys
    ensures Merge(sim, entries, pages)[k][key] == entries[k].fields[key]
  {
  }
}
