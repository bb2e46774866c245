/**
  The per-page "middle" layout structure and the index `DataMerger` builds from it
  (`_build_middle_index`, `_extract_content_from_block`, `_get_first_span_bbox`):
  pages of blocks, blocks of lines, lines of spans; each block's text is rebuilt
  from its spans and its caption sub-blocks are lifted out next to it.
 */
module MiddleIndex {
  import opened Text
  import opened Json
  import opened Wrappers
  import opened Seqs

  /** A span: its text (`content`, read with default `''`) and its `bbox`. */
  datatype Span = Span(content: string, bbox: Json)

  datatype Line = Line(spans: seq<Span>)

  /** A layout block: `type`, `bbox`, `lines`, and the nested `blocks` (absent lists read as empty). */
  datatype Block = Block(kind: Json, bbox: Json, lines: seq<Line>, subBlocks: seq<Block>)

  /**
    An entry of `pdf_info`: either a bare string, which the index skips, or a page
    with an optional `page_idx` and its `preproc_blocks` and `para_blocks`.
   */
  datatype Page =
    | TextPage(text: string)
    | Page(pageIdx: Option<Json>, preproc: seq<Block>, para: seq<Block>)

  /** What the index keeps of a block. */
  datatype IndexedBlock = IndexedBlock(kind: Json, bbox: Json, content: string, firstSpanBbox: Json)

  datatype PageBlocks = PageBlocks(preproc: seq<IndexedBlock>, para: seq<IndexedBlock>)

  /** The index, keyed by page number as Python hashes it. */
  type Index = map<Json, PageBlocks>

  // ---------------------------------------------------------------- block text

  /** A hyphen, an em dash or an en dash. */
  predicate IsDash(c: char) {
    c == '-' || c == '\U{2014}' || c == '\U{2013}'
  }

  predicate EndsWithDash(s: string) {
    |s| > 0 && IsDash(s[|s| - 1])
  }

  /** Ends in `.`, `!`, `?` or `:`: the only case in which the next line is glued with a space. */
  predicate EndsSentence(s: string) {
    |s| > 0 && (s[|s| - 1] == '.' || s[|s| - 1] == '!' || s[|s| - 1] == '?' || s[|s| - 1] == ':')
  }

  /** The stripped contents of the spans that are not blank, in order. */
  function SpanParts(spans: seq<Span>): (parts: seq<string>)
    ensures |parts| <= |spans|
    ensures PartsOk(parts)
  {
    if |spans| == 0 then []
    else
      var c := Strip(spans[0].content);
      var rest := SpanParts(spans[1..]);
      PartsCons(c, rest);
      (if |c| > 0 then [c] else []) + rest
  }

  /** Every part is non-empty and stripped. */
  predicate PartsOk(parts: seq<string>) {
    forall k | 0 <= k < |parts| :: |parts[k]| > 0 && Stripped(parts[k])
  }

  lemma PartsCons(c: string, rest: seq<string>)
    requires Stripped(c) && PartsOk(rest)
    ensures PartsOk((if |c| > 0 then [c] else []) + rest)
  {
    var ps := (if |c| > 0 then [c] else []) + rest;
    if |c| > 0 {
      forall k | 1 <= k < |ps| ensures ps[k] == rest[k - 1] {
      }
    } else {
      assert ps == rest;
    }
  }

  /** The text one span contributes: its stripped content, unless that is blank. */
  function SpanPart(s: Span): seq<string> {
    var c := Strip(s.content);
    if |c| > 0 then [c] else []
  }

  /** `SpanParts` keeps, in order, the stripped content of every span that is not blank. */
  lemma {:induction false} SpanPartsEach(spans: seq<Span>)
    ensures SpanParts(spans) == FlatMap(spans, SpanPart)
    decreases |spans|
  {
    if |spans| > 0 {
      SpanPartsEach(spans[1..]);
    }
  }

  /** Span lists contribute their parts one after the other. */
  lemma SpanPartsAppend(a: seq<Span>, b: seq<Span>)
    ensures SpanParts(a + b) == SpanParts(a) + SpanParts(b)
  {
    SpanPartsEach(a + b);
    SpanPartsEach(a);
    SpanPartsEach(b);
    FlatMapAppend(a, b, SpanPart);
  }

  /** A single span contributes its stripped content when that is not blank, and nothing otherwise. */
  lemma SpanPartsOne(s: Span)
    ensures SpanParts([s]) == if AllSpace(s.content) then [] else [Strip(s.content)]
  {
    assert [s][1..] == [];
  }

  /** A text is a part exactly when it is the non-blank stripped content of some span. */
  lemma SpanPartsMembers(spans: seq<Span>, c: string)
    ensures c in SpanParts(spans) <==> |c| > 0 && exists j | 0 <= j < |spans| :: Strip(spans[j].content) == c
  {
    SpanPartsEach(spans);
    FlatMapMembersIff(spans, SpanPart, c);
  }

  /** A line has no parts exactly when all its spans are blank. */
  lemma SpanPartsNone(spans: seq<Span>)
    ensures SpanParts(spans) == [] <==> forall j | 0 <= j < |spans| :: AllSpace(spans[j].content)
  {
    if SpanParts(spans) != [] {
      SpanPartsMembers(spans, SpanParts(spans)[0]);
    }
    if j :| 0 <= j < |spans| && !AllSpace(spans[j].content) {
      SpanPartsMembers(spans, Strip(spans[j].content));
    }
  }

  /** `line_text[:-1]` when the text ends in a dash: exactly one trailing dash is removed, nothing else changes. */
  function DropDash(t: string): (r: string)
    ensures StartsWith(t, r)
    ensures EndsWithDash(t) ==> |r| == |t| - 1
    ensures !EndsWithDash(t) ==> r == t
  {
    if EndsWithDash(t) then t[..|t| - 1] else t
  }

  /** The text of one line, or none when all its spans are blank. */
  function LineText(line: Line): (r: Option<string>)
    ensures r.None? <==> |SpanParts(line.spans)| == 0
  {
    var parts := SpanParts(line.spans);
    if |parts| == 0 then None else Some(DropDash(Join(parts, " ")))
  }

  /** A joined text ends with the last character of its last piece. */
  lemma {:induction false} JoinLast(ws: seq<string>, sep: string)
    requires |ws| > 0 && |ws[|ws| - 1]| > 0
    ensures var j := Join(ws, sep); var w := ws[|ws| - 1];
      |j| > 0 && j[|j| - 1] == w[|w| - 1]
    decreases |ws|
  {
    if |ws| > 1 {
      JoinLast(ws[1..], sep);
    }
  }

  /**
    A line gives no text exactly when all its spans are blank; otherwise its text is
    the non-blank stripped span contents joined by single spaces, less the last
    character exactly when the last non-blank span ends in a dash.
   */
  lemma LineTextSpec(line: Line)
    ensures LineText(line).None? <==> forall j | 0 <= j < |line.spans| :: AllSpace(line.spans[j].content)
    ensures LineText(line).Some? ==>
      var ps := SpanParts(line.spans);
      var j := Join(ps, " ");
      var last := ps[|ps| - 1];
      if IsDash(last[|last| - 1]) then j == LineText(line).value + [last[|last| - 1]] else LineText(line).value == j
  {
    SpanPartsNone(line.spans);
    if LineText(line).Some? {
      LineTextSome(line);
      DashOfJoin(SpanParts(line.spans));
    }
  }

  lemma LineTextSome(line: Line)
    requires LineText(line).Some?
    ensures var ps := SpanParts(line.spans);
      |ps| > 0 && LineText(line).value == DropDash(Join(ps, " ")) && PartsOk(ps)
  {
  }

  /** The dash rule on joined parts looks only at the last part's last character. */
  lemma DashOfJoin(ps: seq<string>)
    requires |ps| > 0 && PartsOk(ps)
    ensures var j := Join(ps, " "); var last := ps[|ps| - 1];
      if IsDash(last[|last| - 1]) then j == DropDash(j) + [last[|last| - 1]] else DropDash(j) == j
  {
    var j := Join(ps, " ");
    JoinLast(ps, " ");
    if EndsWithDash(j) {
      assert j == j[..|j| - 1] + [j[|j| - 1]];
    }
  }

  /** The `contents` list: one text per line that has a non-blank span. */
  function LineTexts(lines: seq<Line>): (cs: seq<string>)
    ensures |cs| <= |lines|
  {
    if |lines| == 0 then []
    else
      var t := LineText(lines[0]);
      (if t.Some? then [t.value] else []) + LineTexts(lines[1..])
  }

  /** The glue put between the accumulated text and the next line. */
  function Glue(acc: string): string {
    if EndsSentence(acc) then " " else ""
  }

  /** The accumulated text after the first `|cs|` line texts. */
  function Joined(cs: seq<string>): string {
    if |cs| == 0 then ""
    else if |cs| == 1 then cs[0]
    else
      var acc := Joined(cs[..|cs| - 1]);
      acc + Glue(acc) + cs[|cs| - 1]
  }

  /** `_extract_content_from_block`. */
  function ExtractContent(b: Block): string {
    Joined(LineTexts(b.lines))
  }

  /** The gluing loop as the source writes it, one line at a time. */
  method JoinLines(contents: seq<string>) returns (result: string)
    ensures result == Joined(contents)
  {
    result := "";
    var i := 0;
    while i < |contents|
      invariant 0 <= i <= |contents|
      invariant result == Joined(contents[..i])
    {
      if i == 0 {
        result := contents[0];
      } else if EndsWithDash(result) || !EndsSentence(result) {
        result := result + contents[i];
      } else {
        result := result + " " + contents[i];
      }
      assert contents[..i + 1][..i] == contents[..i];
      i := i + 1;
    }
    assert contents[..i] == contents;
  }

  /** The text with every space removed. */
  function Unspaced(s: string): (r: string)
    ensures |r| <= |s|
  {
    if |s| == 0 then ""
    else (if s[0] == ' ' then "" else [s[0]]) + Unspaced(s[1..])
  }

  lemma {:induction false} UnspacedAppend(a: string, b: string)
    ensures Unspaced(a + b) == Unspaced(a) + Unspaced(b)
    decreases |a|
  {
    if |a| > 0 {
      assert (a + b)[0] == a[0];
      assert (a + b)[1..] == a[1..] + b;
      UnspacedAppend(a[1..], b);
    } else {
      assert a + b == b;
    }
  }

  /** The line texts laid end to end. */
  function Concat(cs: seq<string>): string {
    if |cs| == 0 then "" else Concat(cs[..|cs| - 1]) + cs[|cs| - 1]
  }

  /** Gluing only ever inserts spaces: without spaces, the block text is the line texts laid end to end. */
  lemma {:induction false} JoinedOnlyAddsSpaces(cs: seq<string>)
    ensures Unspaced(Joined(cs)) == Unspaced(Concat(cs))
  {
    if |cs| == 1 {
      assert cs[..0] == [];
      assert Concat(cs) == Concat(cs[..0]) + cs[0] == cs[0];
      assert Joined(cs) == cs[0];
    } else if |cs| > 1 {
      var init := cs[..|cs| - 1];
      var acc := Joined(init);
      JoinedOnlyAddsSpaces(init);
      UnspacedAppend(acc + Glue(acc), cs[|cs| - 1]);
      UnspacedAppend(acc, Glue(acc));
      assert Unspaced(Glue(acc)) == "";
      UnspacedAppend(Concat(init), cs[|cs| - 1]);
    }
  }

  /** At most one space is inserted between two lines. */
  lemma {:induction false} JoinedLength(cs: seq<string>)
    requires |cs| > 0
    ensures |Concat(cs)| <= |Joined(cs)| <= |Concat(cs)| + |cs| - 1
  {
    if |cs| == 1 {
      assert cs[..0] == [];
      assert Concat(cs) == Concat(cs[..0]) + cs[0];
    } else {
      JoinedLength(cs[..|cs| - 1]);
    }
  }

  /** `_get_first_span_bbox`: none without lines or without spans on the first line, else the first span's box. */
  function FirstSpanBbox(b: Block): (r: Json)
    ensures |b.lines| == 0 || |b.lines[0].spans| == 0 ==> r == JNull
    ensures |b.lines| > 0 && |b.lines[0].spans| > 0 ==> r == b.lines[0].spans[0].bbox
  {
    if |b.lines| == 0 then JNull
    else if |b.lines[0].spans| == 0 then JNull
    else b.lines[0].spans[0].bbox
  }

  /** The first span's box is reported even when that span is blank and contributes no text. */
  lemma FirstSpanBboxOfBlankSpan(b: Block)
    requires |b.lines| > 0 && |b.lines[0].spans| > 0 && AllSpace(b.lines[0].spans[0].content)
    ensures FirstSpanBbox(b) == b.lines[0].spans[0].bbox
    ensures SpanParts(b.lines[0].spans) == SpanParts(b.lines[0].spans[1..])
  {
    var spans := b.lines[0].spans;
    SpanPartsOne(spans[0]);
    SpanPartsAppend([spans[0]], spans[1..]);
    assert [spans[0]] + spans[1..] == spans;
  }

  // ---------------------------------------------------------------- flattening

  /** A sub-block the index lifts out: `type` is `image_caption` or `table_caption`. */
  predicate IsCaptionKind(k: Json) {
    k == JStr("image_caption") || k == JStr("table_caption")
  }

  function Info(b: Block): IndexedBlock {
    IndexedBlock(b.kind, b.bbox, ExtractContent(b), FirstSpanBbox(b))
  }

  /** The caption sub-blocks of a block, in order. */
  function CaptionSubs(subs: seq<Block>): (r: seq<Block>)
    ensures |r| <= |subs|
    ensures forall k | 0 <= k < |r| :: IsCaptionKind(r[k].kind) && r[k] in subs
    ensures forall x | x in subs && IsCaptionKind(x.kind) :: x in r
  {
    if |subs| == 0 then []
    else (if IsCaptionKind(subs[0].kind) then [subs[0]] else []) + CaptionSubs(subs[1..])
  }

  function InfoAll(bs: seq<Block>): (r: seq<IndexedBlock>)
    ensures |r| == |bs|
    ensures forall k | 0 <= k < |bs| :: r[k] == Info(bs[k])
  {
    seq(|bs|, k requires 0 <= k < |bs| => Info(bs[k]))
  }

  /** What one top-level block contributes: itself, then its caption sub-blocks. */
  function Group(b: Block): seq<IndexedBlock> {
    [Info(b)] + InfoAll(CaptionSubs(b.subBlocks))
  }

  /** The block list of one source (`preproc_blocks` or `para_blocks`) as the index stores it. */
  function Flatten(bs: seq<Block>): seq<IndexedBlock> {
    FlatMap(bs, Group)
  }

  /** A block's group is the block itself, then its caption sub-blocks in their order. */
  lemma GroupShape(b: Block)
    ensures |Group(b)| == 1 + |CaptionSubs(b.subBlocks)|
    ensures Group(b)[0] == Info(b)
    ensures forall k | 0 <= k < |CaptionSubs(b.subBlocks)| :: Group(b)[1 + k] == Info(CaptionSubs(b.subBlocks)[k])
  {
    ConsShape(Info(b), InfoAll(CaptionSubs(b.subBlocks)));
  }

  /** Every entry of the flattened list is a top-level block or one of its caption sub-blocks. */
  lemma FlattenMembers(bs: seq<Block>, x: IndexedBlock)
    requires x in Flatten(bs)
    ensures exists i | 0 <= i < |bs| :: x == Info(bs[i]) || exists c | c in CaptionSubs(bs[i].subBlocks) :: x == Info(c)
  {
    FlatMapMembers(bs, Group, x);
    var i :| 0 <= i < |bs| && x in Group(bs[i]);
    GroupMember(bs[i], x);
  }

  /** An entry of a block's group is the block or one of its caption sub-blocks. */
  lemma GroupMember(b: Block, x: IndexedBlock)
    requires x in Group(b)
    ensures x == Info(b) || exists c | c in CaptionSubs(b.subBlocks) :: x == Info(c)
  {
    var subs := CaptionSubs(b.subBlocks);
    var g := Group(b);
    GroupShape(b);
    var k :| 0 <= k < |g| && g[k] == x;
    if k > 0 {
      assert subs[k - 1] in subs && x == Info(subs[k - 1]);
    }
  }

  // ---------------------------------------------------------------- the index

  /** A page whose `page_idx`, if given, can key a dict. */
  predicate PageOk(p: Page) {
    p.Page? && p.pageIdx.Some? ==> Hashable(p.pageIdx.value)
  }

  /** `page_info.get('page_idx', array_idx)`, as the dict hashes it. */
  function PageKey(p: Page, arrayIdx: nat): Json
    requires p.Page?
  {
    PyKey(p.pageIdx.GetOr(JInt(arrayIdx)))
  }

  function Blocks(p: Page): PageBlocks
    requires p.Page?
  {
    PageBlocks(Flatten(p.preproc), Flatten(p.para))
  }

  /** `_build_middle_index`: string pages are skipped; a later page with the same key replaces an earlier one. */
  function BuildIndex(pages: seq<Page>): Index {
    if |pages| == 0 then map[]
    else
      var n := |pages| - 1;
      var p := pages[n];
      if p.TextPage? then BuildIndex(pages[..n]) else BuildIndex(pages[..n])[PageKey(p, n) := Blocks(p)]
  }

  /** One step of the loop: the last page is skipped or stored over what the earlier pages built. */
  lemma BuildIndexStep(pages: seq<Page>)
    requires |pages| > 0
    ensures var n := |pages| - 1;
      BuildIndex(pages) == if pages[n].TextPage? then BuildIndex(pages[..n]) else BuildIndex(pages[..n])[PageKey(pages[n], n) := Blocks(pages[n])]
  {
  }

  /** The index has an entry for exactly the keys of the non-string pages. */
  lemma {:induction false} BuildIndexKeys(pages: seq<Page>, k: Json)
    ensures k in BuildIndex(pages) <==> exists i | 0 <= i < |pages| :: pages[i].Page? && PageKey(pages[i], i) == k
    decreases |pages|
  {
    if |pages| > 0 {
      var n := |pages| - 1;
      var prefix := pages[..n];
      BuildIndexStep(pages);
      BuildIndexKeys(prefix, k);
      assert forall i | 0 <= i < n :: prefix[i] == pages[i];
    }
  }

  /** The blocks stored under a key are those of the last page carrying that key. */
  lemma {:induction false} BuildIndexLastWins(pages: seq<Page>, i: nat)
    requires i < |pages| && pages[i].Page?
    requires forall j | i < j < |pages| :: !(pages[j].Page? && PageKey(pages[j], j) == PageKey(pages[i], i))
    ensures PageKey(pages[i], i) in BuildIndex(pages)
    ensures BuildIndex(pages)[PageKey(pages[i], i)] == Blocks(pages[i])
    decreases |pages|
  {
    var n := |pages| - 1;
    var key := PageKey(pages[i], i);
    var prefix := pages[..n];
    BuildIndexStep(pages);
    if i < n {
      assert prefix[i] == pages[i];
      forall j | i < j < n ensures !(prefix[j].Page? && PageKey(prefix[j], j) == PageKey(prefix[i], i)) {
        assert prefix[j] == pages[j];
      }
      BuildIndexLastWins(prefix, i);
      if pages[n].Page? {
        assert PageKey(pages[n], n) != key;
      }
    }
  }
}
