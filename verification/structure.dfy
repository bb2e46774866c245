/**
  The JSON structure printer (`JSONStructureAnalyzer.analyze_structure`): renders
  the shape of a JSON value without its contents, while counting the object keys
  it visits and the deepest level it reaches.
 */
module StructureAnalyzer {
  import opened Json
  import opened Text

  /** The analyzer's two counters, `max_depth` and `total_keys`. */
  datatype Stats = Stats(maxDepth: int, totalKeys: int)

  function Max(a: int, b: int): int {
    if a >= b then a else b
  }

  /** Number of object keys the printer visits: every key of every object it descends into, but only the first element of each array. */
  function KeysVisited(data: Json): nat
    decreases data, 1
  {
    match data
    case JObj(fs) => if |fs| == 0 then 0 else FieldKeysVisited(data, 0)
    case JArr(xs) => if |xs| == 0 then 0 else KeysVisited(xs[0])
    case _ => 0
  }

  /** Keys visited in the members of `obj` from member `i` on, the members' own keys included. */
  function FieldKeysVisited(obj: Json, i: nat): nat
    requires obj.JObj? && i <= |obj.fields|
    decreases obj, 0, |obj.fields| - i
  {
    if i == |obj.fields| then 0
    else
      assert obj.fields[i] in obj.fields;
      1 + KeysVisited(obj.fields[i].1) + FieldKeysVisited(obj, i + 1)
  }

  /** How many levels below `data` the printer descends. */
  function DepthVisited(data: Json): nat
    decreases data, 1
  {
    match data
    case JObj(fs) => if |fs| == 0 then 0 else 1 + FieldDepthVisited(data, 0)
    case JArr(xs) => if |xs| == 0 then 0 else 1 + DepthVisited(xs[0])
    case _ => 0
  }

  function FieldDepthVisited(obj: Json, i: nat): nat
    requires obj.JObj? && i <= |obj.fields|
    decreases obj, 0, |obj.fields| - i
  {
    if i == |obj.fields| then 0
    else
      assert obj.fields[i] in obj.fields;
      Max(DepthVisited(obj.fields[i].1), FieldDepthVisited(obj, i + 1))
  }

  /**
    `analyze_structure(data, depth)`: the rendered shape and the counters after the call.
    Booleans render as "number" because Python's `bool` is an `int` and the number test
    comes first.
   */
  function Analyze(data: Json, depth: int, st: Stats): (r: (string, Stats))
    ensures r.1.totalKeys == st.totalKeys + KeysVisited(data)
    ensures r.1.maxDepth == Max(st.maxDepth, depth + DepthVisited(data))
    decreases data, 1
  {
    var st1 := st.(maxDepth := Max(st.maxDepth, depth));
    match data
    case JObj(fs) =>
      if |fs| == 0 then ("{}", st1)
      else
        var body := AnalyzeFields(data, 0, depth + 1, st1);
        ("{\n" + body.0 + "\n}", body.1)
    case JArr(xs) =>
      if |xs| == 0 then ("[]", st1)
      else
        var first := Analyze(xs[0], depth + 1, st1);
        ("[\n  " + first.0 + (if |xs| > 1 then "\n  ..." else "") + "\n]", first.1)
    case JStr(_) => ("string", st1)
    case JInt(_) => ("number", st1)
    case JReal(_) => ("number", st1)
    case JBool(_) => ("number", st1)
    case JNull => ("null", st1)
  }

  /** The `"  key: child"` lines of an object from member `i` on, joined by newlines, and the counters after them. */
  function AnalyzeFields(obj: Json, i: nat, depth: int, st: Stats): (r: (string, Stats))
    requires obj.JObj? && i < |obj.fields|
    ensures r.1.totalKeys == st.totalKeys + FieldKeysVisited(obj, i)
    ensures r.1.maxDepth == Max(st.maxDepth, depth + FieldDepthVisited(obj, i))
    decreases obj, 0, |obj.fields| - i
  {
    var fs := obj.fields;
    assert fs[i] in fs;
    var child := Analyze(fs[i].1, depth, st);
    var line := "  " + fs[i].0 + ": " + child.0;
    var st2 := child.1.(totalKeys := child.1.totalKeys + 1);
    if i + 1 == |fs| then (line, st2)
    else
      var rest := AnalyzeFields(obj, i + 1, depth, st2);
      (line + "\n" + rest.0, rest.1)
  }

  /** The rendering never depends on the starting depth or on the counters. */
  lemma {:induction false} RenderIndependentOfState(data: Json, d1: int, s1: Stats, d2: int, s2: Stats)
    ensures Analyze(data, d1, s1).0 == Analyze(data, d2, s2).0
    decreases data, 1
  {
    match data
    case JObj(fs) =>
      if |fs| > 0 {
        var t1 := s1.(maxDepth := Max(s1.maxDepth, d1));
        var t2 := s2.(maxDepth := Max(s2.maxDepth, d2));
        FieldsRenderIndependentOfState(data, 0, d1 + 1, t1, d2 + 1, t2);
      }
    case JArr(xs) =>
      if |xs| > 0 {
        RenderIndependentOfState(xs[0], d1 + 1, s1.(maxDepth := Max(s1.maxDepth, d1)), d2 + 1, s2.(maxDepth := Max(s2.maxDepth, d2)));
      }
    case _ =>
  }

  lemma {:induction false} FieldsRenderIndependentOfState(obj: Json, i: nat, d1: int, s1: Stats, d2: int, s2: Stats)
    requires obj.JObj? && i < |obj.fields|
    ensures AnalyzeFields(obj, i, d1, s1).0 == AnalyzeFields(obj, i, d2, s2).0
    decreases obj, 0, |obj.fields| - i
  {
    var fs := obj.fields;
    assert fs[i] in fs;
    RenderIndependentOfState(fs[i].1, d1, s1, d2, s2);
    if i + 1 < |fs| {
      var c1 := Analyze(fs[i].1, d1, s1).1;
      var c2 := Analyze(fs[i].1, d2, s2).1;
      FieldsRenderIndependentOfState(obj, i + 1, d1, c1.(totalKeys := c1.totalKeys + 1), d2, c2.(totalKeys := c2.totalKeys + 1));
    }
  }

  /** An array shows only its first element: arrays that agree on it and on whether there is more than one element render alike. */
  lemma OnlyFirstElementShown(x: Json, rest1: seq<Json>, rest2: seq<Json>, depth: int, st: Stats)
    requires (|rest1| == 0) == (|rest2| == 0)
    ensures Analyze(JArr([x] + rest1), depth, st).0 == Analyze(JArr([x] + rest2), depth, st).0
  {
    assert ([x] + rest1)[0] == x == ([x] + rest2)[0];
  }

  /** The ellipsis line appears exactly when the array has more than one element. */
  lemma EllipsisIffLong(xs: seq<Json>, depth: int, st: Stats)
    requires |xs| > 0
    ensures var out := Analyze(JArr(xs), depth, st).0;
      EndsWith(out, "\n  ...\n]") <==> |xs| > 1
  {
    var st1 := st.(maxDepth := Max(st.maxDepth, depth));
    var child := Analyze(xs[0], depth + 1, st1).0;
    var out := Analyze(JArr(xs), depth, st).0;
    if |xs| == 1 {
      assert out == "[\n  " + child + "\n]";
      ClosesWithBracketOrWord(xs[0], depth + 1, st1);
      assert out[|out| - 3] == child[|child| - 1];
    } else {
      var head := "[\n  " + child;
      assert out == head + "\n  ...\n]";
      assert out[|out| - 8..] == "\n  ...\n]";
    }
  }

  /** Every rendering is non-empty and ends in a closing bracket or the last letter of a type name, never in a dot. */
  lemma ClosesWithBracketOrWord(data: Json, depth: int, st: Stats)
    ensures var out := Analyze(data, depth, st).0;
      |out| > 0 && out[|out| - 1] != '.'
  {
  }

  /** The "boolean" branch of the source is unreachable: every value renders as one of the shapes below. */
  lemma NeverBoolean(data: Json, depth: int, st: Stats)
    ensures var out := Analyze(data, depth, st).0;
      out != "boolean"
      && (data.JBool? ==> out == "number")
      && (out == "{}" <==> data == JObj([]))
      && (out == "[]" <==> data == JArr([]))
  {
    var out := Analyze(data, depth, st).0;
    match data
    case JObj(fs) =>
      if |fs| > 0 {
        assert out[0] == '{' && out[1] == '\n';
      }
    case JArr(xs) =>
      if |xs| > 0 {
        assert out[0] == '[' && out[1] == '\n';
      }
    case _ =>
  }
}
