/**
  The key-point checks of the four lane summarisers (`Conclusion.py`,
  `ContextRelatedWork.py`, and the `paper_vis/` modules `ResultsAnalysis.py` and
  `MethodologySetup.py`): the answer of the language model is unwrapped from a
  markdown code fence, parsed, and accepted only as a dictionary of 3 to 5 key
  points whose titles have at most 4 words and whose summaries have at most 60.
 */
module KeyPoints {
  import opened Wrappers
  import opened Text
  import opened Json

  // ---------------------------------------------------------------- the fence stripper

  const OpenFence: string := "```json"
  const CloseFence: string := "```"

  /** The cleaning step before `json.loads`: drop a leading ```` ```json ````, then a trailing ```` ``` ````, then strip. */
  function StripFence(content: string): (r: string)
    ensures Stripped(r)
    ensures |r| <= |content|
  {
    var a := if StartsWith(content, OpenFence) then content[7..] else content;
    var b := if EndsWith(a, CloseFence) then a[..|a| - 3] else a;
    StripShorter(b);
    Strip(b)
  }

  lemma StripShorter(s: string)
    ensures |Strip(s)| <= |s|
  {
    var a := StripSlice(s);
  }

  /** A fenced answer gives back its body, stripped, whatever the body holds. */
  lemma FenceRoundTrip(body: string)
    ensures StripFence(OpenFence + body + CloseFence) == Strip(body)
  {
    var c := OpenFence + body + CloseFence;
    assert c[..7] == OpenFence;
    var a := c[7..];
    assert a == body + CloseFence;
    assert a[|a| - 3..] == CloseFence;
    assert a[..|a| - 3] == body;
  }

  /** An answer without fences is only stripped. */
  lemma UnfencedStripped(content: string)
    requires !StartsWith(content, OpenFence) && !EndsWith(content, CloseFence)
    ensures StripFence(content) == Strip(content)
  {
  }

  /** An answer with only the opening fence loses just that fence. */
  lemma OpenOnly(body: string)
    requires !EndsWith(body, CloseFence)
    ensures StripFence(OpenFence + body) == Strip(body)
  {
    var c := OpenFence + body;
    assert c[..7] == OpenFence;
    assert c[7..] == body;
  }

  // ---------------------------------------------------------------- the validators

  /** The four summarisers. */
  datatype Lane = ConclusionLane | ContextLane | ResultsLane | MethodologyLane

  /** Conclusion and Context & Related Work let a summary of exactly `N/A` through uncounted. */
  predicate ExemptsNA(l: Lane) {
    l == ConclusionLane || l == ContextLane
  }

  const MinPoints: nat := 3
  const MaxPoints: nat := 5
  const MaxTitleWords: nat := 4
  const MaxSummaryWords: nat := 60

  /** One key point passes: a string summary, a title of at most 4 words, a summary of at most 60 (or `N/A` where exempt). */
  predicate PointOk(l: Lane, point: (string, Json)) {
    && point.1.JStr?
    && |Words(point.0)| <= MaxTitleWords
    && ((ExemptsNA(l) && point.1.s == "N/A") || |Words(point.1.s)| <= MaxSummaryWords)
  }

  /** The loop over `result.items()`: the first failing point gives `False`. */
  function CheckPoints(l: Lane, points: seq<(string, Json)>): (ok: bool)
    decreases |points|
  {
    if |points| == 0 then true
    else if !PointOk(l, points[0]) then false
    else CheckPoints(l, points[1..])
  }

  /**
    `validate_conclusion_json` and its three siblings on the value `json.loads` gave.
    `None` stands for the exception Python raises: a truthy number or boolean has no
    `len`, and a string or list of 3 to 5 elements passes the count but has no `items`.
   */
  function Validate(l: Lane, result: Json): (r: Option<bool>)
    ensures !Truthy(result) ==> r == Some(false)
    ensures result.JObj? ==> r.Some?
    ensures r == Some(true) ==> result.JObj? && MinPoints <= |result.fields| <= MaxPoints
  {
    if !Truthy(result) then Some(false)
    else
      match result
      case JObj(fs) => Some(MinPoints <= |fs| <= MaxPoints && CheckPoints(l, fs))
      case JArr(xs) => if |xs| < MinPoints || |xs| > MaxPoints then Some(false) else None
      case JStr(s) => if |s| < MinPoints || |s| > MaxPoints then Some(false) else None
      case _ => None
  }

  /** `validate_json_output`: `False` on a falsy result, the lane's validator otherwise. */
  function ValidateOutput(l: Lane, result: Json): (r: Option<bool>)
    ensures !Truthy(result) ==> r == Some(false)
  {
    if !Truthy(result) then Some(false) else Validate(l, result)
  }

  /** The loop fails exactly when some point fails, wherever it stands. */
  lemma {:induction false} CheckPointsAll(l: Lane, points: seq<(string, Json)>)
    ensures CheckPoints(l, points) <==> forall i | 0 <= i < |points| :: PointOk(l, points[i])
    decreases |points|
  {
    if |points| > 0 {
      CheckPointsAll(l, points[1..]);
      assert forall i | 1 <= i < |points| :: points[i] == points[1..][i - 1];
    }
  }

  /**
    A result is accepted exactly when it is a dictionary of 3 to 5 key points, each
    with a string summary, a title of at most 4 words and a summary of at most 60
    words (or exactly `N/A` for the two exempting lanes).
   */
  lemma ValidateSpec(l: Lane, result: Json)
    ensures Validate(l, result) == Some(true) <==>
      && result.JObj? && MinPoints <= |result.fields| <= MaxPoints
      && forall i | 0 <= i < |result.fields| :: PointOk(l, result.fields[i])
  {
    if result.JObj? {
      CheckPointsAll(l, result.fields);
    }
  }

  /** The wrapper's own falsiness test repeats the validator's: the two always agree. */
  lemma OutputAgrees(l: Lane, result: Json)
    ensures ValidateOutput(l, result) == Validate(l, result)
  {
  }

  /** Any point with a non-string summary, a title over 4 words, or a counted summary over 60 words rejects the result. */
  lemma BadPointRejects(l: Lane, result: Json, i: nat)
    requires result.JObj? && i < |result.fields|
    requires var p := result.fields[i];
      !p.1.JStr? || |Words(p.0)| > MaxTitleWords || (!(ExemptsNA(l) && p.1.s == "N/A") && |Words(p.1.s)| > MaxSummaryWords)
    ensures Validate(l, result) == Some(false)
  {
    ValidateSpec(l, result);
  }

  /** `N/A` is one word, well under the limit. */
  lemma NAIsOneWord()
    ensures |Words("N/A")| == 1
  {
    assert IsToken("N/A");
    WordsOfToken("N/A");
  }

  /** Each point passes on every lane or on none. */
  lemma PointOkSameOnEveryLane(a: Lane, b: Lane, p: (string, Json))
    ensures PointOk(a, p) == PointOk(b, p)
  {
    NAIsOneWord();
  }

  /**
    The `N/A` exemption decides nothing: the validators of the four lanes accept
    and reject exactly the same results.
   */
  lemma ExemptionIsMoot(a: Lane, b: Lane, result: Json)
    ensures Validate(a, result) == Validate(b, result)
  {
    if result.JObj? && Truthy(result) {
      CheckPointsAll(a, result.fields);
      CheckPointsAll(b, result.fields);
      forall i | 0 <= i < |result.fields| ensures PointOk(a, result.fields[i]) == PointOk(b, result.fields[i]) {
        PointOkSameOnEveryLane(a, b, result.fields[i]);
      }
    }
  }
}
