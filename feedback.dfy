/**
 * `Feedback.py`: the numpy-to-native conversion, and everything around the two
 * completion requests — error passthrough, defaults, the top-three ranking,
 * the resume excerpt, the prompt's variable parts and the result records.
 * The completions themselves are inputs.
 */
module Feedback {
  import opened Wrappers

  // ---------------------------------------------------------------------------
  // Python values and convert_numpy_types
  // ---------------------------------------------------------------------------

  /** The Python values that reach `convert_numpy_types`; dictionary keys are strings. */
  datatype Value =
    | PyNone
    | PyBool(b: bool)
    | PyInt(i: int)
    | PyFloat(f: real)
    | PyStr(s: string)
    | PyList(items: seq<Value>)
    | PyTuple(items: seq<Value>)
    | PyDict(entries: seq<(string, Value)>)
    | NpBool(b: bool)
    | NpInt(i: int)
    | NpFloat(f: real)
    | NpStr(s: string)
    | NpArray(items: seq<Value>)  // rows of a numpy array: numpy scalars or sub-arrays

  /** `ndarray.tolist()` on one element: numpy scalars become Python ones, sub-arrays lists. */
  function ArrayItem(v: Value): (r: Value)
    decreases v, 0
  {
    match v
    case NpBool(b) => PyBool(b)
    case NpInt(i) => PyInt(i)
    case NpFloat(f) => PyFloat(f)
    case NpStr(s) => PyStr(s)
    case NpArray(items) => PyList(ArrayItems(items))
    case _ => v
  }

  function ArrayItems(items: seq<Value>): (r: seq<Value>)
    ensures |r| == |items|
    ensures forall i :: 0 <= i < |items| ==> r[i] == ArrayItem(items[i])
    decreases items, 1
  {
    if items == [] then [] else [ArrayItem(items[0])] + ArrayItems(items[1..])
  }

  /**
   * `convert_numpy_types` of `Feedback.py`: dictionaries and lists or tuples are
   * rebuilt element-wise (tuples as lists), numpy floats, integers and other
   * scalars (`.item()`) become Python ones, arrays go through `tolist()`.
   */
  function Convert(v: Value): (r: Value)
    decreases v, 0
  {
    match v
    case PyDict(entries) => PyDict(ConvertEntries(entries))
    case PyList(items) => PyList(ConvertItems(items))
    case PyTuple(items) => PyList(ConvertItems(items))
    case NpFloat(f) => PyFloat(f)
    case NpInt(i) => PyInt(i)
    case NpArray(items) => PyList(ArrayItems(items))
    case NpBool(b) => PyBool(b)
    case NpStr(s) => PyStr(s)
    case _ => v
  }

  function ConvertItems(items: seq<Value>): (r: seq<Value>)
    ensures |r| == |items|
    ensures forall i :: 0 <= i < |items| ==> r[i] == Convert(items[i])
    decreases items, 1
  {
    if items == [] then [] else [Convert(items[0])] + ConvertItems(items[1..])
  }

  function ConvertEntries(entries: seq<(string, Value)>): (r: seq<(string, Value)>)
    ensures |r| == |entries|
    ensures forall i :: 0 <= i < |entries| ==> r[i].0 == entries[i].0
    decreases entries, 1
  {
    if entries == [] then []
    else
      assert entries[0].1 < entries[0];
      [(entries[0].0, Convert(entries[0].1))] + ConvertEntries(entries[1..])
  }

  /** Each dictionary value is converted in place, under its own key. */
  lemma {:induction false} ConvertEntriesValues(entries: seq<(string, Value)>)
    ensures forall i :: 0 <= i < |entries| ==> ConvertEntries(entries)[i] == (entries[i].0, Convert(entries[i].1))
    decreases |entries|
  {
    if entries != [] {
      ConvertEntriesValues(entries[1..]);
      assert forall i :: 1 <= i < |entries| ==> entries[1..][i - 1] == entries[i];
    }
  }

  /** Dictionaries keep their keys, lists and tuples become lists of the same length, other Python values stay. */
  lemma ConvertShape(v: Value)
    ensures v.PyDict? ==> (Convert(v).PyDict? && |Convert(v).entries| == |v.entries|
      && forall i :: 0 <= i < |v.entries| ==> Convert(v).entries[i].0 == v.entries[i].0)
    ensures (v.PyList? || v.PyTuple?) ==> Convert(v) == PyList(ConvertItems(v.items))
    ensures (v.PyNone? || v.PyBool? || v.PyInt? || v.PyFloat? || v.PyStr?) ==> Convert(v) == v
  {
  }

  /** What `tolist()` can meet inside an array: numpy scalars and sub-arrays. */
  ghost predicate ArrayRow(v: Value)
    decreases v
  {
    match v
    case NpBool(_) => true
    case NpInt(_) => true
    case NpFloat(_) => true
    case NpStr(_) => true
    case NpArray(items) => forall i :: 0 <= i < |items| ==> ArrayRow(items[i])
    case _ => false
  }

  /** Every array in `v` holds numpy scalars or sub-arrays only. */
  ghost predicate WellFormed(v: Value)
    decreases v
  {
    match v
    case NpArray(items) => forall i :: 0 <= i < |items| ==> ArrayRow(items[i])
    case PyList(items) => forall i :: 0 <= i < |items| ==> WellFormed(items[i])
    case PyTuple(items) => forall i :: 0 <= i < |items| ==> WellFormed(items[i])
    case PyDict(entries) => forall i :: 0 <= i < |entries| ==> entries[i].1 < entries[i] && WellFormed(entries[i].1)
    case _ => true
  }

  /** A value JSON can take as it is: no numpy value and no tuple anywhere. */
  ghost predicate Native(v: Value)
    decreases v
  {
    match v
    case PyList(items) => forall i :: 0 <= i < |items| ==> Native(items[i])
    case PyDict(entries) => forall i :: 0 <= i < |entries| ==> entries[i].1 < entries[i] && Native(entries[i].1)
    case PyTuple(_) => false
    case NpBool(_) => false
    case NpInt(_) => false
    case NpFloat(_) => false
    case NpStr(_) => false
    case NpArray(_) => false
    case _ => true
  }

  /** `tolist()` leaves nothing numpy behind. */
  lemma {:induction false} ArrayItemNative(v: Value)
    requires ArrayRow(v)
    ensures Native(ArrayItem(v))
    decreases v
  {
    if v.NpArray? {
      var r := ArrayItems(v.items);
      forall i | 0 <= i < |v.items|
        ensures Native(r[i])
      {
        ArrayItemNative(v.items[i]);
      }
    }
  }

  /** Converting a well-formed value yields a value JSON can take as it is. */
  lemma {:induction false} ConvertMakesNative(v: Value)
    requires WellFormed(v)
    ensures Native(Convert(v))
    decreases v
  {
    match v
    case PyDict(entries) =>
      var r := ConvertEntries(entries);
      ConvertEntriesValues(entries);
      forall i | 0 <= i < |r|
        ensures r[i].1 < r[i] && Native(r[i].1)
      {
        assert entries[i].1 < entries[i];
        ConvertMakesNative(entries[i].1);
      }
    case PyList(items) =>
      forall i | 0 <= i < |items|
        ensures Native(ConvertItems(items)[i])
      {
        ConvertMakesNative(items[i]);
      }
    case PyTuple(items) =>
      forall i | 0 <= i < |items|
        ensures Native(ConvertItems(items)[i])
      {
        ConvertMakesNative(items[i]);
      }
    case NpArray(items) =>
      forall i | 0 <= i < |items|
        ensures Native(ArrayItems(items)[i])
      {
        ArrayItemNative(items[i]);
      }
    case _ =>
  }

  /** A value with nothing to convert comes back unchanged. */
  lemma {:induction false} NativeUnchanged(v: Value)
    requires Native(v)
    ensures Convert(v) == v
    decreases v
  {
    match v
    case PyDict(entries) =>
      var r := ConvertEntries(entries);
      ConvertEntriesValues(entries);
      forall i | 0 <= i < |r|
        ensures r[i] == entries[i]
      {
        NativeUnchanged(entries[i].1);
      }
      assert r == entries;
    case PyList(items) =>
      forall i | 0 <= i < |items|
        ensures ConvertItems(items)[i] == items[i]
      {
        NativeUnchanged(items[i]);
      }
      assert ConvertItems(items) == items;
    case _ =>
  }

  /** Converting twice is converting once. */
  lemma ConvertIdempotent(v: Value)
    requires WellFormed(v)
    ensures Convert(Convert(v)) == Convert(v)
  {
    ConvertMakesNative(v);
    NativeUnchanged(Convert(v));
  }

  // ---------------------------------------------------------------------------
  // The top three category matches
  // ---------------------------------------------------------------------------

  /** Scores never increase from left to right. */
  predicate Descending(l: seq<(string, real)>) {
    forall i, j :: 0 <= i < j < |l| ==> l[j].1 <= l[i].1
  }

  /** The entries of `l` whose score is `c`, in their order in `l`. */
  function Ties(l: seq<(string, real)>, c: real): (r: seq<(string, real)>)
    ensures forall e :: e in r ==> e in l && e.1 == c
  {
    if l == [] then []
    else if l[0].1 == c then [l[0]] + Ties(l[1..], c)
    else Ties(l[1..], c)
  }

  /** Puts `x` in front of the first entry whose score is not above its own. */
  function Insert(x: (string, real), l: seq<(string, real)>): (r: seq<(string, real)>)
    ensures |r| == |l| + 1
    ensures multiset(r) == multiset(l) + multiset{x}
  {
    if l == [] || l[0].1 <= x.1 then [x] + l
    else
      assert l == [l[0]] + l[1..];
      [l[0]] + Insert(x, l[1..])
  }

  /**
   * `sorted(all_scores.items(), key=lambda x: x[1], reverse=True)`: Python's sort
   * is stable and `reverse=True` keeps equal scores in their original order.
   */
  function SortByScore(s: seq<(string, real)>): (r: seq<(string, real)>)
    ensures |r| == |s|
    ensures multiset(r) == multiset(s)
  {
    if s == [] then []
    else
      assert s == [s[0]] + s[1..];
      Insert(s[0], SortByScore(s[1..]))
  }

  lemma {:induction false} InsertDescending(x: (string, real), l: seq<(string, real)>)
    requires Descending(l)
    ensures Descending(Insert(x, l))
  {
    if l != [] && x.1 < l[0].1 {
      var t := Insert(x, l[1..]);
      InsertDescending(x, l[1..]);
      forall k | 0 <= k < |t|
        ensures t[k].1 <= l[0].1
      {
        assert t[k] in multiset(t);
        assert t[k] in multiset(l[1..]) || t[k] == x;
        if t[k] != x {
          var j :| 0 <= j < |l[1..]| && l[1..][j] == t[k];
          assert l[j + 1] == t[k];
        }
      }
    }
  }

  /** The ranking is in non-increasing score order. */
  lemma {:induction false} SortDescending(s: seq<(string, real)>)
    ensures Descending(SortByScore(s))
  {
    if s != [] {
      SortDescending(s[1..]);
      InsertDescending(s[0], SortByScore(s[1..]));
    }
  }

  lemma {:induction false} InsertTies(x: (string, real), l: seq<(string, real)>, c: real)
    ensures Ties(Insert(x, l), c) == if x.1 == c then [x] + Ties(l, c) else Ties(l, c)
  {
    if l == [] || l[0].1 <= x.1 {
      assert ([x] + l)[1..] == l;
    } else {
      InsertTies(x, l[1..], c);
      assert ([l[0]] + Insert(x, l[1..]))[1..] == Insert(x, l[1..]);
    }
  }

  /** The ranking is stable: entries with equal scores keep their dictionary order. */
  lemma {:induction false} SortStable(s: seq<(string, real)>, c: real)
    ensures Ties(SortByScore(s), c) == Ties(s, c)
  {
    if s != [] {
      SortStable(s[1..], c);
      InsertTies(s[0], SortByScore(s[1..]), c);
    }
  }

  /** `sorted(...)[:3]`. */
  function TopMatches(scores: seq<(string, real)>): (r: seq<(string, real)>)
    ensures |r| <= 3
    ensures |r| == |scores| || |r| == 3
    ensures multiset(r) <= multiset(scores)
  {
    var sorted := SortByScore(scores);
    var k := if |sorted| < 3 then |sorted| else 3;
    assert sorted == sorted[..k] + sorted[k..];
    sorted[..k]
  }

  lemma {:induction false} TiesOfPrefix(l: seq<(string, real)>, k: nat, c: real)
    requires k <= |l|
    ensures Ties(l[..k], c) <= Ties(l, c)
  {
    if k > 0 {
      TiesOfPrefix(l[1..], k - 1, c);
      assert l[..k][1..] == l[1..][..k - 1];
    }
  }

  /** In a descending list, whatever lies beyond the first `k` entries scores no higher than they do. */
  lemma PrefixIsTop(l: seq<(string, real)>, k: nat)
    requires Descending(l) && k <= |l|
    ensures Descending(l[..k])
    ensures forall e :: e in multiset(l) - multiset(l[..k]) ==> forall i :: 0 <= i < k ==> e.1 <= l[i].1
  {
    assert l == l[..k] + l[k..];
    forall e | e in multiset(l) - multiset(l[..k])
      ensures forall i :: 0 <= i < k ==> e.1 <= l[i].1
    {
      assert multiset(l) == multiset(l[..k]) + multiset(l[k..]);
      assert e in l[k..];
      var j :| 0 <= j < |l[k..]| && l[k..][j] == e;
      assert l[k + j] == e;
    }
  }

  /**
   * The top matches are in non-increasing order, no category left out scores
   * above one that was kept, and equal scores appear in dictionary order.
   */
  lemma TopMatchesAreTop(scores: seq<(string, real)>)
    ensures Descending(TopMatches(scores))
    ensures forall e :: e in multiset(scores) - multiset(TopMatches(scores)) ==>
      forall i :: 0 <= i < |TopMatches(scores)| ==> e.1 <= TopMatches(scores)[i].1
    ensures forall c :: Ties(TopMatches(scores), c) <= Ties(scores, c)
  {
    var sorted := SortByScore(scores);
    var r := TopMatches(scores);
    var k := |r|;
    assert r == sorted[..k];
    SortDescending(scores);
    PrefixIsTop(sorted, k);
    forall c
      ensures Ties(r, c) <= Ties(scores, c)
    {
      TiesOfPrefix(sorted, k, c);
      SortStable(scores, c);
    }
  }

  // ---------------------------------------------------------------------------
  // The resume excerpt
  // ---------------------------------------------------------------------------

  const ExcerptLength := 1000

  /** `resume_text[:1000]` followed by "..." when the text was longer. */
  function Excerpt(text: string): (r: string)
    ensures |text| <= ExcerptLength ==> r == text
    ensures |text| > ExcerptLength ==> |r| == ExcerptLength + 3 && r[..ExcerptLength] == text[..ExcerptLength]
    ensures |text| > ExcerptLength <==> |r| > ExcerptLength
    ensures |r| > ExcerptLength ==> r[ExcerptLength..] == "..."
  {
    if |text| > ExcerptLength then text[..ExcerptLength] + "..." else text
  }

  // ---------------------------------------------------------------------------
  // generate_resume_feedback_with_groq
  // ---------------------------------------------------------------------------

  /**
   * The keys the two functions read from the eligibility record; a `None` is a
   * key that is absent. Values are already native (the caller converted them).
   */
  datatype EligibilityFields = EligibilityFields(
    error: Option<string>,
    eligible: Option<bool>,
    predictedCategory: Option<string>,
    targetCategory: Option<string>,
    confidenceForTarget: Option<real>,
    eligibilityScore: Option<string>,
    recommendation: Option<string>,
    allCategoryScores: Option<seq<(string, real)>>)

  /** `dict.get(key, default)`. */
  function GetOr<T>(o: Option<T>, default: T): (r: T)
    ensures o.None? ==> r == default
    ensures o.Some? ==> r == o.value
  {
    match o
    case None => default
    case Some(v) => v
  }

  /** Which of the two system prompts is sent. */
  datatype Persona = Encouraging | Constructive

  /** The closing instruction block of the user prompt. */
  datatype Closing =
    | Congratulate(target: string)                   // why the resume suits the target
    | Improve(target: string, predicted: string)     // what to strengthen, and the better-scoring category

  const EligibleMark: string := "\U{2705} ELIGIBLE"
  const NeedsImprovementMark: string := "\U{274C} NEEDS IMPROVEMENT"
  const PositiveHeading: string := "POSITIVE FEEDBACK REQUIRED:"
  const ImprovementHeading: string := "IMPROVEMENT FEEDBACK REQUIRED:"

  /** The variable parts of the two messages sent for feedback; the fixed wording is left out. */
  datatype FeedbackPrompt = FeedbackPrompt(
    persona: Persona,
    target: string,
    status: string,
    confidence: real,
    rating: string,
    bestFit: string,
    topMatches: seq<(string, real)>,
    excerpt: string,
    heading: string,
    closing: Closing)

  /** The prompt built from the eligibility record, with the defaults of lines 53-57. */
  function BuildFeedbackPrompt(input: EligibilityFields, resumeText: string, target: string): (p: FeedbackPrompt)
    ensures p.persona == Encouraging <==> GetOr(input.eligible, false)
    ensures p.status == EligibleMark <==> GetOr(input.eligible, false)
    ensures p.heading == PositiveHeading <==> GetOr(input.eligible, false)
    ensures p.closing.Congratulate? <==> GetOr(input.eligible, false)
    ensures p.target == target && p.closing.target == target
    ensures |p.topMatches| <= 3 && multiset(p.topMatches) <= multiset(GetOr(input.allCategoryScores, []))
    ensures p.topMatches == TopMatches(GetOr(input.allCategoryScores, []))
    ensures p.excerpt == Excerpt(resumeText)
    ensures p.bestFit == GetOr(input.predictedCategory, "")
    ensures p.confidence == GetOr(input.confidenceForTarget, 0.0)
    ensures p.rating == GetOr(input.eligibilityScore, "")
    ensures !GetOr(input.eligible, false) ==> p.closing == Improve(target, p.bestFit)
  {
    var eligible := GetOr(input.eligible, false);
    var predicted := GetOr(input.predictedCategory, "");
    FeedbackPrompt(
      if eligible then Encouraging else Constructive,
      target,
      if eligible then EligibleMark else NeedsImprovementMark,
      GetOr(input.confidenceForTarget, 0.0),
      GetOr(input.eligibilityScore, ""),
      predicted,
      TopMatches(GetOr(input.allCategoryScores, [])),
      Excerpt(resumeText),
      if eligible then PositiveHeading else ImprovementHeading,
      if eligible then Congratulate(target) else Improve(target, predicted))
  }

  /** The dictionary `generate_resume_feedback_with_groq` returns. */
  datatype FeedbackResult =
    | FeedbackOk(
        feedback: string,
        eligibilityStatus: string,
        confidenceScore: real,     // shown as `f"{confidence_for_target:.1%}"`
        rating: string,
        bestFitCategory: string,
        targetCategory: string)
    | FeedbackFailed(error: string)

  const FeedbackFailure: string := "Failed to generate feedback: "

  /**
   * `generate_resume_feedback_with_groq`: an `error` key is passed back as it is;
   * otherwise the prompt goes to `complete` (the chat completion), whose failure
   * becomes the "Failed to generate feedback: " message.
   */
  function GenerateFeedback(
    input: EligibilityFields,
    resumeText: string,
    target: string,
    complete: FeedbackPrompt -> Result<string, string>)
    : (r: FeedbackResult)
    ensures input.error.Some? ==> r == FeedbackFailed(input.error.value)
    ensures r.FeedbackOk? ==> (r.targetCategory == target
      && (r.eligibilityStatus == "eligible" <==> GetOr(input.eligible, false))
      && (r.eligibilityStatus == "eligible" || r.eligibilityStatus == "needs_improvement"))
  {
    match input.error
    case Some(e) => FeedbackFailed(e)
    case None =>
      var eligible := GetOr(input.eligible, false);
      match complete(BuildFeedbackPrompt(input, resumeText, target))
      case Failure(e) => FeedbackFailed(FeedbackFailure + e)
      case Success(text) =>
        FeedbackOk(
          text,
          if eligible then "eligible" else "needs_improvement",
          GetOr(input.confidenceForTarget, 0.0),
          GetOr(input.eligibilityScore, ""),
          GetOr(input.predictedCategory, ""),
          target)
  }

  /** An `error` key decides the result before any completion is requested. */
  lemma ErrorPassedThrough(
    input: EligibilityFields, resumeText: string, target: string,
    complete1: FeedbackPrompt -> Result<string, string>, complete2: FeedbackPrompt -> Result<string, string>)
    requires input.error.Some?
    ensures GenerateFeedback(input, resumeText, target, complete1) == GenerateFeedback(input, resumeText, target, complete2)
    ensures GenerateFeedback(input, resumeText, target, complete1) == FeedbackFailed(input.error.value)
  {
  }

  /** Without an error, the outcome is the completion's: its text, or its failure under the fixed prefix. */
  lemma FeedbackOutcome(
    input: EligibilityFields, resumeText: string, target: string,
    complete: FeedbackPrompt -> Result<string, string>)
    requires input.error.None?
    ensures var c := complete(BuildFeedbackPrompt(input, resumeText, target));
      var r := GenerateFeedback(input, resumeText, target, complete);
      (c.Failure? <==> r.FeedbackFailed?)
      && (c.Failure? ==> r.error == FeedbackFailure + c.error)
      && (c.Success? ==> r.feedback == c.value)
  {
  }

  /** The success record copies the rating, the best-fit category and the confidence from the input. */
  lemma EnvelopeFields(
    input: EligibilityFields, resumeText: string, target: string,
    complete: FeedbackPrompt -> Result<string, string>)
    requires GenerateFeedback(input, resumeText, target, complete).FeedbackOk?
    ensures var r := GenerateFeedback(input, resumeText, target, complete);
      r.rating == GetOr(input.eligibilityScore, "")
      && r.bestFitCategory == GetOr(input.predictedCategory, "")
      && r.confidenceScore == GetOr(input.confidenceForTarget, 0.0)
      && r.targetCategory == target
  {
  }

  /** The system prompt, status line, heading and closing kind follow the eligible flag and nothing else. */
  lemma PromptFollowsEligibility(a: EligibilityFields, b: EligibilityFields, textA: string, textB: string, target: string)
    requires GetOr(a.eligible, false) == GetOr(b.eligible, false)
    ensures var pa := BuildFeedbackPrompt(a, textA, target);
      var pb := BuildFeedbackPrompt(b, textB, target);
      pa.persona == pb.persona && pa.status == pb.status && pa.heading == pb.heading
      && pa.closing.Congratulate? == pb.closing.Congratulate?
  {
  }

  /** A record with none of the keys reads as not eligible, no category, zero confidence and no scores. */
  lemma MissingFieldsDefault(resumeText: string, target: string)
    ensures var p := BuildFeedbackPrompt(EligibilityFields(None, None, None, None, None, None, None, None), resumeText, target);
      p.persona == Constructive && p.status == NeedsImprovementMark && p.confidence == 0.0
      && p.rating == "" && p.bestFit == "" && p.topMatches == [] && p.closing == Improve(target, "")
  {
  }

  // ---------------------------------------------------------------------------
  // generate_detailed_resume_analysis_with_groq
  // ---------------------------------------------------------------------------

  /** The variable parts of the analysis request: the target, the suitability word, every score and the whole resume. */
  datatype AnalysisPrompt = AnalysisPrompt(
    target: string,
    suitability: string,
    scores: seq<(string, real)>,
    resume: string)

  datatype AnalysisResult =
    | AnalysisOk(detailedAnalysis: string, eligibilityData: EligibilityFields)
    | AnalysisFailed(error: string)

  const AnalysisFailure: string := "Failed to generate detailed analysis: "

  function BuildAnalysisPrompt(input: EligibilityFields, resumeText: string, target: string): (p: AnalysisPrompt)
    ensures p.suitability == "SUITABLE" <==> GetOr(input.eligible, false)
    ensures p.scores == GetOr(input.allCategoryScores, [])
    ensures p.resume == resumeText
  {
    AnalysisPrompt(
      target,
      if GetOr(input.eligible, false) then "SUITABLE" else "NEEDS IMPROVEMENT",
      GetOr(input.allCategoryScores, []),
      resumeText)
  }

  /**
   * `generate_detailed_resume_analysis_with_groq`: the full resume and every
   * score go to `complete`; its failure becomes the fixed-prefix message.
   * Unlike the feedback function it never looks at an `error` key.
   */
  function DetailedAnalysis(
    input: EligibilityFields,
    resumeText: string,
    target: string,
    complete: AnalysisPrompt -> Result<string, string>)
    : (r: AnalysisResult)
    ensures r.AnalysisOk? ==> r.eligibilityData == input
  {
    match complete(BuildAnalysisPrompt(input, resumeText, target))
    case Failure(e) => AnalysisFailed(AnalysisFailure + e)
    case Success(text) => AnalysisOk(text, input)
  }

  /** An `error` key changes nothing: the analysis is requested all the same. */
  lemma AnalysisIgnoresError(
    input: EligibilityFields, resumeText: string, target: string,
    complete: AnalysisPrompt -> Result<string, string>)
    ensures BuildAnalysisPrompt(input, resumeText, target) == BuildAnalysisPrompt(input.(error := None), resumeText, target)
    ensures complete(BuildAnalysisPrompt(input, resumeText, target)).Success? ==>
      DetailedAnalysis(input, resumeText, target, complete).AnalysisOk?
  {
  }

  /** The analysis fails exactly when the completion does, with the fixed prefix. */
  lemma AnalysisOutcome(
    input: EligibilityFields, resumeText: string, target: string,
    complete: AnalysisPrompt -> Result<string, string>)
    ensures var c := complete(BuildAnalysisPrompt(input, resumeText, target));
      var r := DetailedAnalysis(input, resumeText, target, complete);
      (c.Failure? <==> r.AnalysisFailed?)
      && (c.Failure? ==> r.error == AnalysisFailure + c.error)
      && (c.Success? ==> r.detailedAnalysis == c.value)
  {
  }
}
