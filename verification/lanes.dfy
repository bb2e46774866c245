/**
  Lane assignment (`FigureMapGenerator`, the same code at the top level and in
  `paper_vis/`): each figure of the matching result is placed in the first of the
  four summary lanes whose text mentions it — first by its cleaned caption, then
  by its file name, then by its number — and the figure map lists, per lane, the
  placed figures with their reference sentences and image data.
 */
module Lanes {
  import opened Wrappers
  import opened Text
  import opened Scan
  import opened Seqs
  import opened Grouping
  import opened LaneText
  import Pipeline

  /** The four keys of the figure map, in the order it is built. */
  const LaneNames: seq<string> := ["Context & Related Work", "Methodology & Setup", "Results & Analysis", "Conclusion"]

  /** `content_by_lane.items()`: lane name and lane text, in the dictionary's order. */
  type LaneTexts = seq<(string, string)>

  /**
    Every lane a figure could be placed in is one of the four keys.  A lane with an
    empty text is never chosen, and one with an empty name counts as no lane, so
    such lanes may carry any name.
   */
  predicate LanesOk(lanes: LaneTexts) {
    forall i | 0 <= i < |lanes| :: lanes[i].0 != "" && lanes[i].1 != "" ==> lanes[i].0 in LaneNames
  }

  // ---------------------------------------------------------------- the three passes

  /** What one pass looks for in a lane's lower-cased text. */
  datatype Test =
    | ByCaption(clean: string)   // the cleaned caption, case-insensitively
    | ById(id: string)           // the file name, case-insensitively
    | ByNumber(number: string)   // `figure N` or `table N`

  predicate Holds(t: Test, content: string) {
    match t
    case ByCaption(c) => CaptionInContent(c, content)
    case ById(id) => Contains(Lower(content), Lower(id))
    case ByNumber(n) => Contains(Lower(content), "figure " + n) || Contains(Lower(content), "table " + n)
  }

  /** A lane passes when its text is non-empty (`if not lane_content: continue`) and the test holds. */
  predicate Passes(lane: (string, string), t: Test) {
    lane.1 != "" && Holds(t, lane.1)
  }

  /** The first lane at or after `from` that passes, or `|lanes|`. */
  function FirstPassing(lanes: LaneTexts, t: Test, from: nat): (i: nat)
    requires from <= |lanes|
    ensures from <= i <= |lanes|
    ensures forall j | from <= j < i :: !Passes(lanes[j], t)
    ensures i < |lanes| ==> Passes(lanes[i], t)
    decreases |lanes| - from
  {
    if from == |lanes| || Passes(lanes[from], t) then from else FirstPassing(lanes, t, from + 1)
  }

  /** One pass: the name of the first lane that passes. */
  function Pass(lanes: LaneTexts, t: Test): Option<string> {
    var i := FirstPassing(lanes, t, 0);
    if i < |lanes| then Some(lanes[i].0) else None
  }

  /** `_determine_figure_lane`: the caption pass, then the file-name pass, then the number pass. */
  function DetermineLane(caption: string, id: string, lanes: LaneTexts): (r: Option<string>)
    ensures caption == "" ==> r.None?
    ensures r.Some? ==> exists i | 0 <= i < |lanes| :: lanes[i].0 == r.value && lanes[i].1 != ""
  {
    if caption == "" then None
    else
      var byCaption := Pass(lanes, ByCaption(CleanCaption(caption)));
      if byCaption.Some? then byCaption
      else
        var byId := Pass(lanes, ById(id));
        if byId.Some? then byId
        else
          var n := FirstDigits(id);
          if n.Some? then Pass(lanes, ByNumber(n.value)) else None
  }

  /** Lane `i` is the first lane that passes `t`. */
  predicate FirstWith(lanes: LaneTexts, t: Test, i: int) {
    0 <= i < |lanes| && Passes(lanes[i], t) && forall j | 0 <= j < i :: !Passes(lanes[j], t)
  }

  /** No lane passes `t`. */
  predicate NoneWith(lanes: LaneTexts, t: Test) {
    forall j | 0 <= j < |lanes| :: !Passes(lanes[j], t)
  }

  /** A pass names the first lane that passes, and names none when no lane does. */
  lemma PassSpec(lanes: LaneTexts, t: Test)
    ensures forall i | FirstWith(lanes, t, i) :: Pass(lanes, t) == Some(lanes[i].0)
    ensures NoneWith(lanes, t) <==> Pass(lanes, t).None?
  {
  }

  /** The caption pass wins whenever some lane mentions the cleaned caption: the first such lane is chosen. */
  lemma CaptionPassWins(caption: string, id: string, lanes: LaneTexts, i: nat)
    requires caption != "" && FirstWith(lanes, ByCaption(CleanCaption(caption)), i)
    ensures DetermineLane(caption, id, lanes) == Some(lanes[i].0)
  {
    PassSpec(lanes, ByCaption(CleanCaption(caption)));
  }

  /** Otherwise the first lane that mentions the file name is chosen. */
  lemma IdPassNext(caption: string, id: string, lanes: LaneTexts, i: nat)
    requires caption != "" && NoneWith(lanes, ByCaption(CleanCaption(caption)))
    requires FirstWith(lanes, ById(id), i)
    ensures DetermineLane(caption, id, lanes) == Some(lanes[i].0)
  {
    PassSpec(lanes, ByCaption(CleanCaption(caption)));
    PassSpec(lanes, ById(id));
  }

  /** Otherwise the first lane that names `figure N` or `table N`, for the first number of the file name. */
  lemma NumberPassLast(caption: string, id: string, lanes: LaneTexts, n: string, i: nat)
    requires caption != "" && NoneWith(lanes, ByCaption(CleanCaption(caption))) && NoneWith(lanes, ById(id))
    requires FirstDigits(id) == Some(n) && FirstWith(lanes, ByNumber(n), i)
    ensures DetermineLane(caption, id, lanes) == Some(lanes[i].0)
  {
    PassSpec(lanes, ByCaption(CleanCaption(caption)));
    PassSpec(lanes, ById(id));
    PassSpec(lanes, ByNumber(n));
  }

  /** A figure no pass places gets no lane. */
  lemma NoPassNoLane(caption: string, id: string, lanes: LaneTexts)
    requires NoneWith(lanes, ByCaption(CleanCaption(caption))) && NoneWith(lanes, ById(id))
    requires forall n | FirstDigits(id) == Some(n) :: NoneWith(lanes, ByNumber(n))
    ensures DetermineLane(caption, id, lanes).None?
  {
    PassSpec(lanes, ByCaption(CleanCaption(caption)));
    PassSpec(lanes, ById(id));
    if FirstDigits(id).Some? {
      PassSpec(lanes, ByNumber(FirstDigits(id).value));
    }
  }

  /** An empty file name occurs in every text, so a figure with an empty id falls into the first non-empty lane once its caption is not found. */
  lemma EmptyIdTakesFirstLane(caption: string, lanes: LaneTexts, i: nat)
    requires caption != "" && NoneWith(lanes, ByCaption(CleanCaption(caption)))
    requires i < |lanes| && lanes[i].1 != "" && forall j | 0 <= j < i :: lanes[j].1 == ""
    ensures DetermineLane(caption, "", lanes) == Some(lanes[i].0)
  {
    assert OccursAt(Lower(lanes[i].1), Lower(""), 0);
    IdPassNext(caption, "", lanes, i);
  }

  // ---------------------------------------------------------------- the figure map

  /** One entry of a lane list. */
  datatype LaneEntry = LaneEntry(figureId: string, caption: string, referenceTexts: seq<string>, base64: string)

  /** The reference sentences of a figure's matches, in match order. */
  function ReferenceTexts(ms: seq<Pipeline.Match>): (ts: seq<string>)
    ensures |ts| == |ms| && forall k | 0 <= k < |ms| :: ts[k] == ms[k].referenceText
  {
    seq(|ms|, k requires 0 <= k < |ms| => ms[k].referenceText)
  }

  /** The entry a placed figure gets; the image data is `figure_dict.get(figure_id, '')`. */
  function EntryOf(r: Pipeline.FigureResult, images: map<string, string>): (e: LaneEntry)
    ensures e.figureId == r.figureId && e.caption == r.caption
    ensures e.referenceTexts == ReferenceTexts(r.matches)
    ensures e.base64 == (if r.figureId in images then images[r.figureId] else "")
  {
    LaneEntry(r.figureId, r.caption, ReferenceTexts(r.matches), if r.figureId in images then images[r.figureId] else "")
  }

  /** The lane a figure result goes to; `if assigned_lane:` treats a lane named `""` as no lane. */
  function LaneOf(lanes: LaneTexts): Pipeline.FigureResult -> Option<string> {
    (r: Pipeline.FigureResult) =>
      var l := DetermineLane(r.caption, r.figureId, lanes);
      if l.Some? && l.value != "" then l else None
  }

  /** The entry maker for a given image dictionary. */
  function EntryMaker(images: map<string, string>): Pipeline.FigureResult -> LaneEntry {
    (r: Pipeline.FigureResult) => EntryOf(r, images)
  }

  /** When every lane that can be chosen is one of the four keys, every lane a figure gets is a key of the map. */
  lemma LanesFit(rs: seq<Pipeline.FigureResult>, lanes: LaneTexts)
    requires LanesOk(lanes)
    ensures Fits(rs, LaneNames, LaneOf(lanes))
  {
    forall i | 0 <= i < |rs| && LaneOf(lanes)(rs[i]).Some? ensures LaneOf(lanes)(rs[i]).value in LaneNames {
      var l := DetermineLane(rs[i].caption, rs[i].figureId, lanes);
      var j :| 0 <= j < |lanes| && lanes[j].0 == l.value && lanes[j].1 != "";
    }
  }

  /**
    `_generate_final_figure_map`; `results` is `None` when the matching result has no
    `results` key.  The result is `None` when `figure_map[assigned_lane]` raises
    `KeyError`: some figure is placed in a lane that is not one of the four keys.
   */
  function FinalMap(results: Option<seq<Pipeline.FigureResult>>, lanes: LaneTexts, images: map<string, string>): (m: Option<map<string, seq<LaneEntry>>>)
    ensures m.None? <==> results.Some? && !Fits(results.value, LaneNames, LaneOf(lanes))
    ensures m.Some? ==> forall n :: n in m.value <==> n in LaneNames
    ensures results.None? ==> m.Some? && forall n | n in m.value :: m.value[n] == []
  {
    if results.None? then Some(Empty(LaneNames))
    else if !Fits(results.value, LaneNames, LaneOf(lanes)) then None
    else Some(Group(results.value, LaneNames, LaneOf(lanes), EntryMaker(images)))
  }

  /**
    Each lane lists, in result order, the entries of exactly the figures assigned to
    it; the four lists together hold one entry per figure that got a lane, so a
    figure appears in at most one lane and an unassigned one in none.
   */
  lemma FinalMapSpec(rs: seq<Pipeline.FigureResult>, lanes: LaneTexts, images: map<string, string>)
    ensures var m := FinalMap(Some(rs), lanes, images);
      m.Some? ==>
      && (forall n | n in LaneNames :: m.value[n] == Entries(Members(rs, LaneOf(lanes), n), EntryMaker(images)))
      && Total(m.value, LaneNames) == CountPlaced(rs, LaneOf(lanes))
  {
    if Fits(rs, LaneNames, LaneOf(lanes)) {
      forall n | n in LaneNames
        ensures FinalMap(Some(rs), lanes, images).value[n] == Entries(Members(rs, LaneOf(lanes), n), EntryMaker(images))
      {
        GroupSpec(rs, LaneNames, LaneOf(lanes), EntryMaker(images), n);
      }
      GroupCount(rs, LaneNames, LaneOf(lanes), EntryMaker(images));
    }
  }

  /** Lanes that can never be chosen do not make the map fail, whatever their names. */
  lemma FinalMapDefined(rs: seq<Pipeline.FigureResult>, lanes: LaneTexts, images: map<string, string>)
    requires LanesOk(lanes)
    ensures FinalMap(Some(rs), lanes, images).Some?
  {
    LanesFit(rs, lanes);
  }
}
