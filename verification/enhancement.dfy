/**
  The three static caption helpers of `EnhancementModules` (identical in the
  top-level module and in `paper_vis/`): the page-distance weight table, the
  caption number extractor and the caption kind classifier.
 */
module Enhancement {
  import opened Text
  import opened Wrappers
  import opened Scan

  /** `(?:Fig\.|Figure|FIG\.?)` under IGNORECASE, alternatives in the order the engine tries them. */
  const FigureKeywords: seq<string> := ["fig.", "figure", "fig"]

  /** `(?:Table|Tab\.|TABLE\.?)` under IGNORECASE, alternatives in the order the engine tries them. */
  const TableKeywords: seq<string> := ["table", "tab.", "table."]

  function Abs(x: int): nat {
    if x < 0 then -x else x
  }

  /** `calculate_position_distance`: the weight of a reference `|figurePage - referencePage|` pages away from its figure. */
  function PositionWeight(figurePage: int, referencePage: int): (w: real)
    ensures w == 1.0 <==> figurePage == referencePage
    ensures w == 0.8 <==> Abs(figurePage - referencePage) == 1
    ensures w == 0.6 <==> 2 <= Abs(figurePage - referencePage) <= 3
    ensures w == 0.3 <==> Abs(figurePage - referencePage) > 3
  {
    var d := Abs(figurePage - referencePage);
    if d == 0 then 1.0
    else if d == 1 then 0.8
    else if d <= 3 then 0.6
    else 0.3
  }

  /** Swapping the two pages does not change the weight. */
  lemma PositionWeightSymmetric(a: int, b: int)
    ensures PositionWeight(a, b) == PositionWeight(b, a)
  {
    assert Abs(a - b) == Abs(b - a);
  }

  /** Pages further apart never weigh more. */
  lemma PositionWeightMonotone(a: int, b: int, c: int, d: int)
    requires Abs(a - b) <= Abs(c - d)
    ensures PositionWeight(c, d) <= PositionWeight(a, b)
  {
  }

  /** `extract_figure_number_from_caption`: the digits after the first figure prefix, else after the first table prefix, else none. */
  function CaptionNumber(caption: string): (r: Option<string>)
    ensures r.Some? ==> IsNumber(r.value) && Contains(caption, r.value)
    ensures Search(caption, FigureKeywords).Some? ==> r == FirstNumber(caption, FigureKeywords)
    ensures Search(caption, FigureKeywords).None? ==> r == FirstNumber(caption, TableKeywords)
    ensures r.None? <==> Search(caption, FigureKeywords).None? && Search(caption, TableKeywords).None?
  {
    var f := FirstNumber(caption, FigureKeywords);
    if f.Some? then f else FirstNumber(caption, TableKeywords)
  }

  /** The three answers of `extract_figure_type_from_caption`. */
  datatype Kind = KFigure | KTable | KUnknown {
    function Name(): string {
      match this
      case KFigure => "figure"
      case KTable => "table"
      case KUnknown => "unknown"
    }
  }

  /** `extract_figure_type_from_caption`: a table token at a word start wins over a figure token. */
  function CaptionKind(caption: string): (k: Kind)
    ensures k == KTable <==> HasWordStartKeyword(caption, TableKeywords, 0)
    ensures k == KFigure <==> !HasWordStartKeyword(caption, TableKeywords, 0) && HasWordStartKeyword(caption, FigureKeywords, 0)
  {
    if FindWordStartKeyword(caption, TableKeywords, 0) then KTable
    else if FindWordStartKeyword(caption, FigureKeywords, 0) then KFigure
    else KUnknown
  }

  /** Worked example: the two helpers disagree on precedence; a caption naming a figure first and then a table yields the figure's number but the kind "table". */
  lemma OppositePrecedence()
    ensures CaptionNumber("Fig 1 Table 2") == Some("1")
    ensures CaptionKind("Fig 1 Table 2") == KTable
  {
    var s := "Fig 1 Table 2";
    assert Lower(s[0..4])[3] == ' ';
    assert Lower(s[0..6])[3] == ' ';
    assert Lower(s[0..3]) == "fig";
    assert SkipSpaces(s, 3) == 4 && SkipDigits(s, 4) == 5;
    assert MatchWith(s, 0, "fig.").None?;
    assert MatchWith(s, 0, "figure").None?;
    assert MatchWith(s, 0, "fig") == Some(Hit(0, 4, 5));
    assert KeywordNumberAt(s, 0, FigureKeywords) == Some(Hit(0, 4, 5));
    assert Search(s, FigureKeywords) == Some(Hit(0, 4, 5));
    assert s[4..5] == "1";
    assert FirstNumber(s, FigureKeywords) == Some("1");
    assert Lower(s[6..11]) == "table";
    assert WordStart(s, 6) && KeywordAt(s, 6, TableKeywords[0]);
  }
}
