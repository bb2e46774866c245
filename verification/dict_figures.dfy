/**
  `_extract_figures_from_dict`: figures read off the file names of a
  `{file name: base64 data}` dictionary instead of the merged records.  The
  kind comes from the name, the number from its first digit run, and the
  caption is generated as `Figure N` or `Table N`; the page is 0 and there is
  no box.  The dictionary is given as its `items()` in insertion order.
 */
module DictFigures {
  import opened Wrappers
  import opened Text
  import opened Json
  import opened Scan
  import Enhancement
  import Pipeline

  /** The extensions that make an otherwise unmarked file an image. */
  const ImageExtensions: seq<string> := [".png", ".jpg", ".jpeg", ".gif", ".bmp"]

  /** `name.endswith(('.png', ...))` on the lower-cased name. */
  predicate HasImageExtension(lower: string) {
    exists k | 0 <= k < |ImageExtensions| :: EndsWith(lower, ImageExtensions[k])
  }

  /** The kind the file name gives: `image` or `table`. */
  function DictKind(name: string): (kind: string)
    ensures kind == "image" || kind == "table"
  {
    var l := Lower(name);
    if Contains(l, "figure") || Contains(l, "fig") then "image"
    else if Contains(l, "table") || Contains(l, "tab") then "table"
    else if HasImageExtension(l) then "image"
    else "table"
  }

  /** The figure number: the first digit run of the name, or `1` when it has none. */
  function DictNumber(name: string): (n: string)
    ensures IsNumber(n)
    ensures (forall j | 0 <= j < |name| :: !IsDigit(name[j])) ==> n == "1"
    ensures (exists j | 0 <= j < |name| :: IsDigit(name[j])) ==> exists i, e | FirstRun(name, i, e) :: n == name[i..e]
  {
    var d := FirstDigits(name);
    if d.Some? then d.value else "1"
  }

  /** The generated caption. */
  function DictCaption(kind: string, number: string): string {
    (if kind == "image" then "Figure " else "Table ") + number
  }

  /** A figure of the dictionary together with its image data. */
  datatype DictFigure = DictFigure(figure: Pipeline.Figure, data: string)

  /** The figure one dictionary entry gives. */
  function EntryFigure(name: string, data: string): (f: DictFigure)
    ensures f.figure.id == name && f.data == data
    ensures f.figure.page == 0 && f.figure.bbox == JNull
    ensures f.figure.kind == "image" || f.figure.kind == "table"
  {
    var kind := DictKind(name);
    DictFigure(Pipeline.Figure(name, DictCaption(kind, DictNumber(name)), kind, 0, JNull), data)
  }

  /** `_extract_figures_from_dict`: one figure per entry, in the dictionary's order. */
  function FiguresFromDict(entries: seq<(string, string)>): (fs: seq<DictFigure>)
    ensures |fs| == |entries|
    ensures forall i | 0 <= i < |fs| :: fs[i].figure.id == entries[i].0 && fs[i].data == entries[i].1
  {
    seq(|entries|, i requires 0 <= i < |entries| => EntryFigure(entries[i].0, entries[i].1))
  }

  /**
    The `figure` test is subsumed by the `fig` test: a name is an image exactly when it
    mentions `fig`, or mentions no `tab` and carries an image extension.
   */
  lemma DictKindSpec(name: string)
    ensures var l := Lower(name);
      DictKind(name) == "image" <==> Contains(l, "fig") || (!Contains(l, "tab") && HasImageExtension(l))
  {
    var l := Lower(name);
    if Contains(l, "figure") {
      var i :| 0 <= i <= |l| - 6 && OccursAt(l, "figure", i);
      assert l[i..i + 3] == l[i..i + 6][..3];
      assert OccursAt(l, "fig", i);
    }
    if Contains(l, "table") {
      var i :| 0 <= i <= |l| - 5 && OccursAt(l, "table", i);
      assert l[i..i + 3] == l[i..i + 5][..3];
      assert OccursAt(l, "tab", i);
    }
  }

  /** No character of `Figure ` followed by digits lowers to `t`, and none of `Table ` followed by digits to `f`. */
  lemma CaptionLetters(w: string, n: string, c: char)
    requires IsNumber(n) && forall j | 0 <= j < |w| :: ToLower(w[j]) != c
    requires c != ' ' && !IsDigit(c)
    ensures var s := w + " " + n; forall i | 0 <= i < |s| :: ToLower(s[i]) != c
  {
    var s := w + " " + n;
    forall i | 0 <= i < |s| ensures ToLower(s[i]) != c {
      if i < |w| {
        assert s[i] == w[i];
      } else if i > |w| {
        assert s[i] == n[i - |w| - 1];
      }
    }
  }

  /** An image's caption reads back, through the caption helpers, as its number and the kind `figure`. */
  lemma ImageCaptionReadBack(n: string)
    requires IsNumber(n)
    ensures Enhancement.CaptionNumber(DictCaption("image", n)) == Some(n)
    ensures Enhancement.CaptionKind(DictCaption("image", n)) == Enhancement.KFigure
  {
    var s := DictCaption("image", n);
    assert s == "Figure" + " " + n;
    assert Lower(s[0..4])[3] == 'u';
    LeadingNumber(s, Enhancement.FigureKeywords, 1, "Figure", n);
    CaptionLetters("Figure", n, 't');
    NoInitialNoKeyword(s, Enhancement.TableKeywords, 't');
    assert s[0..6] == "Figure";
    assert WordStart(s, 0) && KeywordAt(s, 0, Enhancement.FigureKeywords[1]);
  }

  /** A table's caption reads back as its number and the kind `table`. */
  lemma TableCaptionReadBack(n: string)
    requires IsNumber(n)
    ensures Enhancement.CaptionNumber(DictCaption("table", n)) == Some(n)
    ensures Enhancement.CaptionKind(DictCaption("table", n)) == Enhancement.KTable
  {
    var s := DictCaption("table", n);
    assert s == "Table" + " " + n;
    CaptionLetters("Table", n, 'f');
    NoInitialNoKeyword(s, Enhancement.FigureKeywords, 'f');
    if Search(s, Enhancement.FigureKeywords).Some? {
      SearchNeedsKeyword(s, Enhancement.FigureKeywords);
      assert false;
    }
    LeadingNumber(s, Enhancement.TableKeywords, 0, "Table", n);
    assert s[0..5] == "Table";
    assert WordStart(s, 0) && KeywordAt(s, 0, Enhancement.TableKeywords[0]);
  }

  /**
    Every figure of the dictionary reads back through the caption helpers as the
    number taken from its file name and a kind that agrees with its type, so the
    matching step pairs it with references of that number and kind.
   */
  lemma EntryReadBack(name: string, data: string)
    ensures var f := EntryFigure(name, data).figure;
      && Enhancement.CaptionNumber(f.caption) == Some(DictNumber(name))
      && Enhancement.CaptionKind(f.caption).Name() == (if f.kind == "image" then "figure" else "table")
  {
    if DictKind(name) == "image" {
      ImageCaptionReadBack(DictNumber(name));
    } else {
      TableCaptionReadBack(DictNumber(name));
    }
  }
}
