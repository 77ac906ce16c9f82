/**
 * `routes.py`: the `/image-capture` handler. It checks the request, runs the
 * four stages in order (extraction, eligibility, feedback, detailed analysis),
 * stops at the first failure and assembles the response dictionary. The
 * stages' outside services (image check, vision model, classifier, chat
 * completions) are inputs.
 */
module Routes {
  import opened Wrappers
  import TextExtraction
  import Predicted
  import Feedback

  type Value = Feedback.Value

  // ---------------------------------------------------------------------------
  // The route's own convert_numpy_types
  // ---------------------------------------------------------------------------

  /**
   * `convert_numpy_types` of `routes.py`: dictionaries and lists are rebuilt,
   * numpy integers, floats and booleans become Python ones. Unlike the one in
   * `Feedback.py`, tuples, arrays and numpy strings are returned as they are.
   */
  function ToNative(v: Value): (r: Value)
    decreases v, 0
  {
    match v
    case PyDict(entries) => Feedback.PyDict(ToNativeEntries(entries))
    case PyList(items) => Feedback.PyList(ToNativeItems(items))
    case NpInt(i) => Feedback.PyInt(i)
    case NpFloat(f) => Feedback.PyFloat(f)
    case NpBool(b) => Feedback.PyBool(b)
    case _ => v
  }

  function ToNativeItems(items: seq<Value>): (r: seq<Value>)
    ensures |r| == |items|
    ensures forall i :: 0 <= i < |items| ==> r[i] == ToNative(items[i])
    decreases items, 1
  {
    if items == [] then [] else [ToNative(items[0])] + ToNativeItems(items[1..])
  }

  function ToNativeEntries(entries: seq<(string, Value)>): (r: seq<(string, Value)>)
    ensures |r| == |entries|
    ensures forall i :: 0 <= i < |entries| ==> r[i].0 == entries[i].0
    decreases entries, 1
  {
    if entries == [] then []
    else
      assert entries[0].1 < entries[0];
      [(entries[0].0, ToNative(entries[0].1))] + ToNativeEntries(entries[1..])
  }

  lemma {:induction false} ToNativeEntriesValues(entries: seq<(string, Value)>)
    ensures forall i :: 0 <= i < |entries| ==> ToNativeEntries(entries)[i] == (entries[i].0, ToNative(entries[i].1))
    decreases |entries|
  {
    if entries != [] {
      ToNativeEntriesValues(entries[1..]);
      assert forall i :: 1 <= i < |entries| ==> entries[1..][i - 1] == entries[i];
    }
  }

  /** Values where the two conversions are meant to agree: no tuple, array or numpy string anywhere. */
  ghost predicate Plain(v: Value)
    decreases v
  {
    match v
    case PyList(items) => forall i :: 0 <= i < |items| ==> Plain(items[i])
    case PyDict(entries) => forall i :: 0 <= i < |entries| ==> entries[i].1 < entries[i] && Plain(entries[i].1)
    case PyTuple(_) => false
    case NpArray(_) => false
    case NpStr(_) => false
    case _ => true
  }

  /** On plain values the route's conversion is the one of `Feedback.py`. */
  lemma {:induction false} ConversionsAgree(v: Value)
    requires Plain(v)
    ensures ToNative(v) == Feedback.Convert(v)
    decreases v
  {
    match v
    case PyDict(entries) =>
      var r := ToNativeEntries(entries);
      var c := Feedback.ConvertEntries(entries);
      ToNativeEntriesValues(entries);
      Feedback.ConvertEntriesValues(entries);
      forall i | 0 <= i < |entries|
        ensures r[i] == c[i]
      {
        ConversionsAgree(entries[i].1);
      }
      assert r == c;
    case PyList(items) =>
      forall i | 0 <= i < |items|
        ensures ToNativeItems(items)[i] == Feedback.ConvertItems(items)[i]
      {
        ConversionsAgree(items[i]);
      }
      assert ToNativeItems(items) == Feedback.ConvertItems(items);
    case _ =>
  }

  /** A tuple is where they part: the route keeps it, `Feedback.py` makes it a list. */
  lemma TupleKept()
    ensures ToNative(Feedback.PyTuple([Feedback.NpInt(1)])) == Feedback.PyTuple([Feedback.NpInt(1)])
    ensures Feedback.Convert(Feedback.PyTuple([Feedback.NpInt(1)])) == Feedback.PyList([Feedback.PyInt(1)])
  {
    assert Feedback.ConvertItems([Feedback.NpInt(1)])[0] == Feedback.PyInt(1);
  }

  /** Converting twice is converting once. */
  lemma {:induction false} ToNativeIdempotent(v: Value)
    ensures ToNative(ToNative(v)) == ToNative(v)
    decreases v
  {
    match v
    case PyDict(entries) =>
      var r := ToNativeEntries(entries);
      ToNativeEntriesValues(entries);
      ToNativeEntriesValues(r);
      forall i | 0 <= i < |entries|
        ensures ToNativeEntries(r)[i] == r[i]
      {
        assert entries[i].1 < entries[i];
        ToNativeIdempotent(entries[i].1);
      }
      assert ToNativeEntries(r) == r;
    case PyList(items) =>
      var r := ToNativeItems(items);
      forall i | 0 <= i < |items|
        ensures ToNativeItems(r)[i] == r[i]
      {
        ToNativeIdempotent(items[i]);
      }
      assert ToNativeItems(r) == r;
    case _ =>
  }

  // ---------------------------------------------------------------------------
  // Dictionaries
  // ---------------------------------------------------------------------------

  /** The keys of a dictionary, in order; nothing for any other value. */
  function Keys(v: Value): (r: seq<string>)
    ensures v.PyDict? ==> |r| == |v.entries| && forall i :: 0 <= i < |r| ==> r[i] == v.entries[i].0
  {
    if v.PyDict? then seq(|v.entries|, i requires 0 <= i < |v.entries| => v.entries[i].0) else []
  }

  /** `d.get(key)` on a dictionary: the value under the first entry with that key. */
  function Lookup(v: Value, key: string): Option<Value> {
    if !v.PyDict? then None else LookupEntries(v.entries, key)
  }

  function LookupEntries(entries: seq<(string, Value)>, key: string): Option<Value> {
    if entries == [] then None
    else if entries[0].0 == key then Some(entries[0].1)
    else LookupEntries(entries[1..], key)
  }

  /** A key is found exactly when some entry carries it, and then with that entry's value. */
  lemma {:induction false} LookupFinds(entries: seq<(string, Value)>, key: string)
    ensures LookupEntries(entries, key).Some? <==> exists i :: 0 <= i < |entries| && entries[i].0 == key
    ensures LookupEntries(entries, key).Some? ==>
      exists i :: 0 <= i < |entries| && entries[i] == (key, LookupEntries(entries, key).value)
  {
    if entries != [] && entries[0].0 != key {
      LookupFinds(entries[1..], key);
      assert forall i :: 1 <= i < |entries| ==> entries[1..][i - 1] == entries[i];
    }
  }

  /** `d[key]` where the key is known to be there (a missing key never happens on these paths). */
  function Get(v: Value, key: string): Value {
    match Lookup(v, key)
    case Some(x) => x
    case None => Feedback.PyNone
  }

  /** Converting keeps every key and converts the value under it. */
  lemma {:induction false} LookupToNative(entries: seq<(string, Value)>, key: string)
    ensures LookupEntries(ToNativeEntries(entries), key) ==
      match LookupEntries(entries, key)
      case None => None
      case Some(x) => Some(ToNative(x))
  {
    if entries != [] {
      LookupToNative(entries[1..], key);
      assert ToNativeEntries(entries)[1..] == ToNativeEntries(entries[1..]);
    }
  }

  // ---------------------------------------------------------------------------
  // The eligibility record as check_eligibility returns it
  // ---------------------------------------------------------------------------

  /** Category scores as a dictionary of numpy floats (`round` of a numpy float stays one). */
  function ScoresValue(scores: seq<(string, real)>): (r: Value)
    ensures r.PyDict? && |r.entries| == |scores|
    ensures forall i :: 0 <= i < |scores| ==> r.entries[i] == (scores[i].0, Feedback.NpFloat(scores[i].1))
  {
    Feedback.PyDict(seq(|scores|, i requires 0 <= i < |scores| => (scores[i].0, Feedback.NpFloat(scores[i].1))))
  }

  /**
   * The dictionary `check_eligibility` returns, with the Python types of its
   * values: the predicted category is a plain string (an entry of the label
   * encoder's object-typed `classes_`), the two confidences and the scores
   * numpy floats.
   */
  function EligibilityRecord(e: Predicted.Eligibility): Value {
    RecordOf(e.eligible, e.predictedCategory, e.targetCategory, e.confidenceForTarget,
             e.overallPredictionConfidence, e.eligibilityScore.Label(), e.recommendation.Text(),
             e.allCategoryScores)
  }

  function RecordOf(eligible: bool, predicted: string, target: string, confidence: real,
                    overall: real, tier: string, recommendation: string, scores: seq<(string, real)>): Value
  {
    Feedback.PyDict([
      ("eligible", Feedback.PyBool(eligible)),
      ("predicted_category", Feedback.PyStr(predicted)),
      ("target_category", Feedback.PyStr(target)),
      ("confidence_for_target", Feedback.NpFloat(confidence)),
      ("overall_prediction_confidence", Feedback.NpFloat(overall)),
      ("eligibility_score", Feedback.PyStr(tier)),
      ("recommendation", Feedback.PyStr(recommendation)),
      ("all_category_scores", ScoresValue(scores))])
  }

  /** The record after the route's conversion (line 72). */
  function ConvertedRecord(e: Predicted.Eligibility): (r: Value)
    ensures r.PyDict?
    ensures Keys(r) == Keys(EligibilityRecord(e))
  {
    ToNative(EligibilityRecord(e))
  }

  function StrOf(v: Value): Option<string> {
    match v
    case PyStr(s) => Some(s)
    case NpStr(s) => Some(s)
    case _ => None
  }

  function RealOf(v: Value): Option<real> {
    match v
    case PyFloat(f) => Some(f)
    case NpFloat(f) => Some(f)
    case PyInt(i) => Some(i as real)
    case NpInt(i) => Some(i as real)
    case _ => None
  }

  function BoolOf(v: Value): Option<bool> {
    match v
    case PyBool(b) => Some(b)
    case NpBool(b) => Some(b)
    case _ => None
  }

  /** A dictionary of numbers as (category, score) pairs. */
  function ScoresOf(v: Value): Option<seq<(string, real)>> {
    if !v.PyDict? then None else ScoreEntries(v.entries)
  }

  function ScoreEntries(entries: seq<(string, Value)>): (r: Option<seq<(string, real)>>)
    ensures r.Some? ==> |r.value| == |entries|
  {
    if entries == [] then Some([])
    else
      match (RealOf(entries[0].1), ScoreEntries(entries[1..]))
      case (Some(x), Some(rest)) => Some([(entries[0].0, x)] + rest)
      case _ => None
  }

  function ReadStr(record: Value, key: string): Option<string> {
    match Lookup(record, key)
    case None => None
    case Some(v) => StrOf(v)
  }

  function ReadReal(record: Value, key: string): Option<real> {
    match Lookup(record, key)
    case None => None
    case Some(v) => RealOf(v)
  }

  function ReadBool(record: Value, key: string): Option<bool> {
    match Lookup(record, key)
    case None => None
    case Some(v) => BoolOf(v)
  }

  function ReadScores(record: Value, key: string): Option<seq<(string, real)>> {
    match Lookup(record, key)
    case None => None
    case Some(v) => ScoresOf(v)
  }

  /**
   * What the two `Feedback.py` functions read from the record: each key, read
   * with the type it is used at (a missing key is `None`).
   */
  function FieldsOf(record: Value): Feedback.EligibilityFields {
    Feedback.EligibilityFields(
      ReadStr(record, "error"),
      ReadBool(record, "eligible"),
      ReadStr(record, "predicted_category"),
      ReadStr(record, "target_category"),
      ReadReal(record, "confidence_for_target"),
      ReadStr(record, "eligibility_score"),
      ReadStr(record, "recommendation"),
      ReadScores(record, "all_category_scores"))
  }

  lemma {:induction false} ScoreEntriesOfFloats(c: seq<(string, Value)>, scores: seq<(string, real)>)
    requires |c| == |scores|
    requires forall i :: 0 <= i < |c| ==> c[i] == (scores[i].0, Feedback.PyFloat(scores[i].1))
    ensures ScoreEntries(c) == Some(scores)
  {
    if c != [] {
      ScoreEntriesOfFloats(c[1..], scores[1..]);
      assert scores == [scores[0]] + scores[1..];
    }
  }

  /** In a dictionary without repeated keys, each key finds its own entry. */
  lemma {:induction false} LookupDistinct(entries: seq<(string, Value)>, i: nat)
    requires i < |entries|
    requires forall j, k :: 0 <= j < k < |entries| ==> entries[j].0 != entries[k].0
    ensures LookupEntries(entries, entries[i].0) == Some(entries[i].1)
  {
    if i > 0 {
      LookupDistinct(entries[1..], i - 1);
    }
  }

  /** Category scores as plain Python floats. */
  function NativeScores(scores: seq<(string, real)>): (r: Value)
    ensures r.PyDict? && |r.entries| == |scores|
    ensures forall i :: 0 <= i < |scores| ==> r.entries[i] == (scores[i].0, Feedback.PyFloat(scores[i].1))
  {
    Feedback.PyDict(seq(|scores|, i requires 0 <= i < |scores| => (scores[i].0, Feedback.PyFloat(scores[i].1))))
  }

  /** Converting the scores turns each numpy float into a Python float, and they read back unchanged. */
  lemma ScoresConverted(scores: seq<(string, real)>)
    ensures ToNative(ScoresValue(scores)) == NativeScores(scores)
    ensures ScoresOf(NativeScores(scores)) == Some(scores)
  {
    var v := ScoresValue(scores);
    ToNativeEntriesValues(v.entries);
    assert ToNativeEntries(v.entries) == NativeScores(scores).entries;
    ScoreEntriesOfFloats(NativeScores(scores).entries, scores);
  }

  /** The converted record: plain Python values under the same eight keys. */
  lemma ConvertedEntries(eligible: bool, predicted: string, target: string, confidence: real,
                         overall: real, tier: string, recommendation: string, scores: seq<(string, real)>)
    ensures var c := ToNative(RecordOf(eligible, predicted, target, confidence, overall, tier, recommendation, scores)).entries;
      && |c| == 8
      && c[0] == ("eligible", Feedback.PyBool(eligible))
      && c[1] == ("predicted_category", Feedback.PyStr(predicted))
      && c[2] == ("target_category", Feedback.PyStr(target))
      && c[3] == ("confidence_for_target", Feedback.PyFloat(confidence))
      && c[4] == ("overall_prediction_confidence", Feedback.PyFloat(overall))
      && c[5] == ("eligibility_score", Feedback.PyStr(tier))
      && c[6] == ("recommendation", Feedback.PyStr(recommendation))
      && c[7] == ("all_category_scores", NativeScores(scores))
      && forall i, j :: 0 <= i < j < |c| ==> c[i].0 != c[j].0
  {
    ToNativeEntriesValues(RecordOf(eligible, predicted, target, confidence, overall, tier, recommendation, scores).entries);
    ScoresConverted(scores);
  }

  /** Lookups in a dictionary laid out as the converted record. */
  lemma LayoutLookups(r: Value, eligible: bool, predicted: string, target: string, confidence: real,
                      overall: real, tier: string, recommendation: string, scores: seq<(string, real)>)
    requires r.PyDict? && |r.entries| == 8
    requires forall i, j :: 0 <= i < j < |r.entries| ==> r.entries[i].0 != r.entries[j].0
    requires r.entries[0] == ("eligible", Feedback.PyBool(eligible))
    requires r.entries[1] == ("predicted_category", Feedback.PyStr(predicted))
    requires r.entries[2] == ("target_category", Feedback.PyStr(target))
    requires r.entries[3] == ("confidence_for_target", Feedback.PyFloat(confidence))
    requires r.entries[4] == ("overall_prediction_confidence", Feedback.PyFloat(overall))
    requires r.entries[5] == ("eligibility_score", Feedback.PyStr(tier))
    requires r.entries[6] == ("recommendation", Feedback.PyStr(recommendation))
    requires r.entries[7] == ("all_category_scores", NativeScores(scores))
    ensures Lookup(r, "error") == None
    ensures Lookup(r, "eligible") == Some(Feedback.PyBool(eligible))
    ensures Lookup(r, "predicted_category") == Some(Feedback.PyStr(predicted))
    ensures Lookup(r, "target_category") == Some(Feedback.PyStr(target))
    ensures Lookup(r, "confidence_for_target") == Some(Feedback.PyFloat(confidence))
    ensures Lookup(r, "eligibility_score") == Some(Feedback.PyStr(tier))
    ensures Lookup(r, "recommendation") == Some(Feedback.PyStr(recommendation))
    ensures Lookup(r, "all_category_scores") == Some(NativeScores(scores))
  {
    var c := r.entries;
    LookupFinds(c, "error");
    LookupDistinct(c, 0);
    LookupDistinct(c, 1);
    LookupDistinct(c, 2);
    LookupDistinct(c, 3);
    LookupDistinct(c, 5);
    LookupDistinct(c, 6);
    LookupDistinct(c, 7);
  }

  /** The keys the route and `Feedback.py` read from the converted eligibility record. */
  lemma RecordLookups(e: Predicted.Eligibility)
    ensures var r := ConvertedRecord(e);
      && Lookup(r, "error") == None
      && Lookup(r, "eligible") == Some(Feedback.PyBool(e.eligible))
      && Lookup(r, "predicted_category") == Some(Feedback.PyStr(e.predictedCategory))
      && Lookup(r, "target_category") == Some(Feedback.PyStr(e.targetCategory))
      && Lookup(r, "confidence_for_target") == Some(Feedback.PyFloat(e.confidenceForTarget))
      && Lookup(r, "eligibility_score") == Some(Feedback.PyStr(e.eligibilityScore.Label()))
      && Lookup(r, "recommendation") == Some(Feedback.PyStr(e.recommendation.Text()))
      && Lookup(r, "all_category_scores") == Some(NativeScores(e.allCategoryScores))
  {
    var eligible, predicted, target, confidence, overall, tier, recommendation, scores :=
      e.eligible, e.predictedCategory, e.targetCategory, e.confidenceForTarget,
      e.overallPredictionConfidence, e.eligibilityScore.Label(), e.recommendation.Text(), e.allCategoryScores;
    var r := ToNative(RecordOf(eligible, predicted, target, confidence, overall, tier, recommendation, scores));
    assert r == ConvertedRecord(e);
    ConvertedEntries(eligible, predicted, target, confidence, overall, tier, recommendation, scores);
    LayoutLookups(r, eligible, predicted, target, confidence, overall, tier, recommendation, scores);
  }

  /** Reading the typed fields once the lookups are known. */
  lemma FieldsFromLookups(r: Value, eligible: bool, predicted: string, target: string, confidence: real,
                          tier: string, recommendation: string, scores: seq<(string, real)>)
    requires Lookup(r, "error") == None
    requires Lookup(r, "eligible") == Some(Feedback.PyBool(eligible))
    requires Lookup(r, "predicted_category") == Some(Feedback.PyStr(predicted))
    requires Lookup(r, "target_category") == Some(Feedback.PyStr(target))
    requires Lookup(r, "confidence_for_target") == Some(Feedback.PyFloat(confidence))
    requires Lookup(r, "eligibility_score") == Some(Feedback.PyStr(tier))
    requires Lookup(r, "recommendation") == Some(Feedback.PyStr(recommendation))
    requires Lookup(r, "all_category_scores") == Some(NativeScores(scores))
    ensures FieldsOf(r) == Feedback.EligibilityFields(None, Some(eligible), Some(predicted), Some(target),
      Some(confidence), Some(tier), Some(recommendation), Some(scores))
  {
    ScoresConverted(scores);
  }

  /** After conversion the record reads back as exactly the eligibility result, with no `error` key. */
  lemma RecordReadsBack(e: Predicted.Eligibility)
    ensures FieldsOf(ConvertedRecord(e)) == Feedback.EligibilityFields(
      None, Some(e.eligible), Some(e.predictedCategory), Some(e.targetCategory),
      Some(e.confidenceForTarget), Some(e.eligibilityScore.Label()), Some(e.recommendation.Text()),
      Some(e.allCategoryScores))
  {
    RecordLookups(e);
    FieldsFromLookups(ConvertedRecord(e), e.eligible, e.predictedCategory, e.targetCategory, e.confidenceForTarget,
      e.eligibilityScore.Label(), e.recommendation.Text(), e.allCategoryScores);
  }

  // ---------------------------------------------------------------------------
  // main_pipeline
  // ---------------------------------------------------------------------------

  /** The JSON body's `image` and `category` entries; a missing body has neither. */
  datatype Request = Request(image: Option<string>, category: Option<string>)

  /** Everything outside this code that the stages call. */
  datatype Services = Services(
    decode: string -> Option<string>,               // base64 decode and image check: the error, if any
    vision: string -> Result<string, string>,       // the vision-model request: its text, or the exception
    matchers: TextExtraction.Matchers,              // the regexes `clean_for_ml_model` leaves abstract
    classifier: Predicted.Classifier,               // tokenizer, model and label encoder
    feedbackCompletion: Feedback.FeedbackPrompt -> Result<string, string>,
    analysisCompletion: Feedback.AnalysisPrompt -> Result<string, string>)

  /** A status code and the JSON body. */
  datatype Response = Response(status: int, body: Value)

  const MissingFieldsMessage: string := "No image data provided, or category data provided"
  const ServerErrorPrefix: string := "Server error: "
  const DefaultThreshold: real := 0.3

  /** `{'success': False, 'error': message}` with the given status. */
  function Fail(status: int, message: string): Response {
    Response(status, Feedback.PyDict([("success", Feedback.PyBool(false)), ("error", Feedback.PyStr(message))]))
  }

  /** The `eligibility` sub-dictionary: three fields renamed, the rest copied. */
  function EligibilityView(record: Value): Value {
    Feedback.PyDict([
      ("eligible", Get(record, "eligible")),
      ("confidence", Get(record, "confidence_for_target")),
      ("predicted_category", Get(record, "predicted_category")),
      ("target_category", Get(record, "target_category")),
      ("score", Get(record, "eligibility_score")),
      ("all_scores", Get(record, "all_category_scores"))])
  }

  /** The `feedback` sub-dictionary. */
  function FeedbackView(fb: Feedback.FeedbackResult): Value
    requires fb.FeedbackOk?
  {
    Feedback.PyDict([
      ("message", Feedback.PyStr(fb.feedback)),
      ("status", Feedback.PyStr(fb.eligibilityStatus)),
      ("confidence_display", Feedback.PyFloat(fb.confidenceScore)),
      ("rating", Feedback.PyStr(fb.rating))])
  }

  /** `response_data`, lines 104-123, before the final conversion. */
  function SuccessBody(text: string, record: Value, fb: Feedback.FeedbackResult, analysis: string): Value
    requires fb.FeedbackOk?
  {
    Feedback.PyDict([
      ("success", Feedback.PyBool(true)),
      ("extracted_text", Feedback.PyStr(text)),
      ("eligibility", EligibilityView(record)),
      ("feedback", FeedbackView(fb)),
      ("detailed_analysis", Feedback.PyStr(analysis)),
      ("recommendation", match Lookup(record, "recommendation") case Some(r) => r case None => Feedback.PyStr(""))])
  }

  /** The stages after the eligibility check, on a converted record. */
  function LlmStages(text: string, category: string, record: Value, s: Services): Response {
    var fields := FieldsOf(record);
    var fb := Feedback.GenerateFeedback(fields, text, category, s.feedbackCompletion);
    if fb.FeedbackFailed? then Fail(400, fb.error)
    else
      match Feedback.DetailedAnalysis(fields, text, category, s.analysisCompletion)
      case AnalysisFailed(err) => Fail(400, err)
      case AnalysisOk(analysis, _) => Response(200, ToNative(SuccessBody(text, record, fb, analysis)))
  }

  /** From the eligibility check's outcome on. */
  function AfterAssessment(a: Result<Predicted.Assessment, string>, text: string, category: string, s: Services): Response {
    match a
    case Failure(err) => Fail(500, ServerErrorPrefix + err)
    case Success(NotFound(err)) => Fail(400, err)
    case Success(Assessed(e)) => LlmStages(text, category, ConvertedRecord(e), s)
  }

  /**
   * `main_pipeline`: the request check, then the stages in order; an exception
   * the classifier raises is the 500 path.
   */
  function MainPipeline(req: Request, s: Services): Response {
    if req.image.None? || req.category.None? then
      Response(400, Feedback.PyDict([("error", Feedback.PyStr(MissingFieldsMessage))]))
    else
      match ExtractionOf(req, s)
      case ExtractionFailed(err) => Fail(400, err)
      case Extracted(_, text, _) =>
        AfterAssessment(AssessmentOf(text, req.category.value, s), text, req.category.value, s)
  }

  // ---------------------------------------------------------------------------
  // The response
  // ---------------------------------------------------------------------------

  /** Looking a key up after converting is converting what the lookup finds. */
  lemma GetToNative(v: Value, key: string)
    ensures Get(ToNative(v), key) == ToNative(Get(v, key))
  {
    if v.PyDict? {
      LookupToNative(v.entries, key);
    }
  }

  /** A dictionary whose values are all converted already is left as it is. */
  lemma DictFixed(entries: seq<(string, Value)>)
    requires forall i :: 0 <= i < |entries| ==> ToNative(entries[i].1) == entries[i].1
    ensures ToNative(Feedback.PyDict(entries)) == Feedback.PyDict(entries)
  {
    ToNativeEntriesValues(entries);
    assert ToNativeEntries(entries) == entries;
  }

  /** A value read from a converted dictionary needs no further conversion. */
  lemma GetFixed(record: Value, key: string)
    requires ToNative(record) == record
    ensures ToNative(Get(record, key)) == Get(record, key)
  {
    GetToNative(record, key);
    ToNativeIdempotent(Get(record, key));
  }

  /**
   * The final safety conversion (line 126) changes nothing: everything in the
   * response is a Python value already once the record was converted (line 72).
   */
  lemma FinalConversionIsIdentity(text: string, record: Value, fb: Feedback.FeedbackResult, analysis: string)
    requires fb.FeedbackOk?
    requires ToNative(record) == record
    ensures ToNative(SuccessBody(text, record, fb, analysis)) == SuccessBody(text, record, fb, analysis)
  {
    EligibilityViewFixed(record);
    FeedbackViewFixed(fb);
    GetFixed(record, "recommendation");
    DictFixed(SuccessBody(text, record, fb, analysis).entries);
  }

  /** The `feedback` sub-dictionary holds plain Python values only. */
  lemma FeedbackViewFixed(fb: Feedback.FeedbackResult)
    requires fb.FeedbackOk?
    ensures ToNative(FeedbackView(fb)) == FeedbackView(fb)
  {
    DictFixed(FeedbackView(fb).entries);
  }

  /** The `eligibility` sub-dictionary of a converted record needs no further conversion. */
  lemma EligibilityViewFixed(record: Value)
    requires ToNative(record) == record
    ensures ToNative(EligibilityView(record)) == EligibilityView(record)
  {
    GetFixed(record, "eligible");
    GetFixed(record, "confidence_for_target");
    GetFixed(record, "predicted_category");
    GetFixed(record, "target_category");
    GetFixed(record, "eligibility_score");
    GetFixed(record, "all_category_scores");
    DictFixed(EligibilityView(record).entries);
  }

  const SuccessKeys: seq<string> :=
    ["success", "extracted_text", "eligibility", "feedback", "detailed_analysis", "recommendation"]
  const EligibilityKeys: seq<string> :=
    ["eligible", "confidence", "predicted_category", "target_category", "score", "all_scores"]

  /** Where the success body keeps each of its six entries. */
  lemma SuccessBodyLayout(text: string, record: Value, fb: Feedback.FeedbackResult, analysis: string)
    requires fb.FeedbackOk?
    ensures var b := SuccessBody(text, record, fb, analysis);
      && Keys(b) == SuccessKeys
      && Lookup(b, "success") == Some(Feedback.PyBool(true))
      && Lookup(b, "extracted_text") == Some(Feedback.PyStr(text))
      && Lookup(b, "eligibility") == Some(EligibilityView(record))
      && Lookup(b, "feedback") == Some(FeedbackView(fb))
      && Lookup(b, "detailed_analysis") == Some(Feedback.PyStr(analysis))
      && Lookup(b, "recommendation") == Some(b.entries[5].1)
  {
    var c := SuccessBody(text, record, fb, analysis).entries;
    assert forall i, j :: 0 <= i < j < |c| ==> c[i].0 != c[j].0;
    LookupDistinct(c, 0);
    LookupDistinct(c, 1);
    LookupDistinct(c, 2);
    LookupDistinct(c, 3);
    LookupDistinct(c, 4);
    LookupDistinct(c, 5);
  }

  /** The `eligibility` sub-dictionary built from a record whose lookups are known. */
  lemma ViewFromLookups(r: Value, eligible: bool, predicted: string, target: string, confidence: real,
                        tier: string, scores: seq<(string, real)>)
    requires Lookup(r, "eligible") == Some(Feedback.PyBool(eligible))
    requires Lookup(r, "predicted_category") == Some(Feedback.PyStr(predicted))
    requires Lookup(r, "target_category") == Some(Feedback.PyStr(target))
    requires Lookup(r, "confidence_for_target") == Some(Feedback.PyFloat(confidence))
    requires Lookup(r, "eligibility_score") == Some(Feedback.PyStr(tier))
    requires Lookup(r, "all_category_scores") == Some(NativeScores(scores))
    ensures var v := EligibilityView(r);
      && Keys(v) == EligibilityKeys
      && Lookup(v, "eligible") == Some(Feedback.PyBool(eligible))
      && Lookup(v, "confidence") == Some(Feedback.PyFloat(confidence))
      && Lookup(v, "predicted_category") == Some(Feedback.PyStr(predicted))
      && Lookup(v, "target_category") == Some(Feedback.PyStr(target))
      && Lookup(v, "score") == Some(Feedback.PyStr(tier))
      && Lookup(v, "all_scores") == Some(NativeScores(scores))
  {
    var c := EligibilityView(r).entries;
    assert forall i, j :: 0 <= i < j < |c| ==> c[i].0 != c[j].0;
    LookupDistinct(c, 0);
    LookupDistinct(c, 1);
    LookupDistinct(c, 2);
    LookupDistinct(c, 3);
    LookupDistinct(c, 4);
    LookupDistinct(c, 5);
  }

  /**
   * The renaming of lines 107-114: `confidence` is `confidence_for_target`,
   * `score` is `eligibility_score` and `all_scores` is `all_category_scores`;
   * the other three keep their names and values.
   */
  lemma EligibilityRenamed(e: Predicted.Eligibility)
    ensures var v := EligibilityView(ConvertedRecord(e));
      && Keys(v) == EligibilityKeys
      && Lookup(v, "eligible") == Some(Feedback.PyBool(e.eligible))
      && Lookup(v, "confidence") == Some(Feedback.PyFloat(e.confidenceForTarget))
      && Lookup(v, "predicted_category") == Some(Feedback.PyStr(e.predictedCategory))
      && Lookup(v, "target_category") == Some(Feedback.PyStr(e.targetCategory))
      && Lookup(v, "score") == Some(Feedback.PyStr(e.eligibilityScore.Label()))
      && Lookup(v, "all_scores") == Some(NativeScores(e.allCategoryScores))
  {
    RecordLookups(e);
    ViewFromLookups(ConvertedRecord(e), e.eligible, e.predictedCategory, e.targetCategory,
      e.confidenceForTarget, e.eligibilityScore.Label(), e.allCategoryScores);
  }

  /** The record always has a recommendation, so the '' default of line 122 is never taken. */
  lemma RecommendationPresent(e: Predicted.Eligibility, text: string, fb: Feedback.FeedbackResult, analysis: string)
    requires fb.FeedbackOk?
    ensures Lookup(SuccessBody(text, ConvertedRecord(e), fb, analysis), "recommendation")
      == Some(Feedback.PyStr(e.recommendation.Text()))
  {
    RecordLookups(e);
    SuccessBodyLayout(text, ConvertedRecord(e), fb, analysis);
  }

  // ---------------------------------------------------------------------------
  // The decision chain
  // ---------------------------------------------------------------------------

  /** The extraction stage of a request that has both fields. */
  function ExtractionOf(req: Request, s: Services): TextExtraction.Extraction
    requires req.image.Some?
  {
    TextExtraction.ExtractResumeText(req.image.value, s.decode, s.vision, s.matchers)
  }

  /** The eligibility stage: the classifier sees the extracted text cleaned a second time. */
  function AssessmentOf(text: string, category: string, s: Services): Result<Predicted.Assessment, string> {
    Predicted.CheckEligibility(TextExtraction.CleanForMl(text, s.matchers), category, DefaultThreshold, s.classifier)
  }

  /** What the two `Feedback.py` functions are given for an assessed resume. */
  function FieldsFor(e: Predicted.Eligibility): Feedback.EligibilityFields {
    Feedback.EligibilityFields(
      None, Some(e.eligible), Some(e.predictedCategory), Some(e.targetCategory),
      Some(e.confidenceForTarget), Some(e.eligibilityScore.Label()), Some(e.recommendation.Text()),
      Some(e.allCategoryScores))
  }

  /** A missing image or category is answered with 400 before any stage runs. */
  lemma MissingFieldsRejected(req: Request, s: Services, s2: Services)
    requires req.image.None? || req.category.None?
    ensures MainPipeline(req, s) == Response(400, Feedback.PyDict([("error", Feedback.PyStr(MissingFieldsMessage))]))
    ensures MainPipeline(req, s) == MainPipeline(req, s2)
  {
  }

  /** A failed extraction is answered with 400 and its error; no later stage runs. */
  lemma ExtractionFailureStops(req: Request, s: Services, s2: Services)
    requires req.image.Some? && req.category.Some?
    requires ExtractionOf(req, s).ExtractionFailed?
    requires s2.decode == s.decode && s2.vision == s.vision && s2.matchers == s.matchers
    ensures MainPipeline(req, s) == Fail(400, ExtractionOf(req, s).error)
    ensures MainPipeline(req, s) == MainPipeline(req, s2)
  {
  }

  /** An exception from the classifier is the 500 answer, with the "Server error: " prefix. */
  lemma ClassifierFailureIsServerError(req: Request, s: Services, s2: Services)
    requires req.image.Some? && req.category.Some?
    requires ExtractionOf(req, s).Extracted?
    requires AssessmentOf(ExtractionOf(req, s).mlReadyText, req.category.value, s).Failure?
    requires s2 == s.(feedbackCompletion := s2.feedbackCompletion, analysisCompletion := s2.analysisCompletion)
    ensures MainPipeline(req, s) ==
      Fail(500, ServerErrorPrefix + AssessmentOf(ExtractionOf(req, s).mlReadyText, req.category.value, s).error)
    ensures MainPipeline(req, s) == MainPipeline(req, s2)
  {
  }

  /** An unknown category is answered with 400 and the classifier's message; no completion is requested. */
  lemma UnknownCategoryStops(req: Request, s: Services, s2: Services)
    requires req.image.Some? && req.category.Some?
    requires ExtractionOf(req, s).Extracted?
    requires var a := AssessmentOf(ExtractionOf(req, s).mlReadyText, req.category.value, s);
      a.Success? && a.value.NotFound?
    requires s2 == s.(feedbackCompletion := s2.feedbackCompletion, analysisCompletion := s2.analysisCompletion)
    ensures MainPipeline(req, s) ==
      Fail(400, AssessmentOf(ExtractionOf(req, s).mlReadyText, req.category.value, s).value.error)
    ensures MainPipeline(req, s) == MainPipeline(req, s2)
  {
  }

  /** The feedback and analysis stages, and the answer, for an assessed resume. */
  lemma LlmStagesOutcome(text: string, category: string, e: Predicted.Eligibility, s: Services, s2: Services)
    requires s2 == s.(analysisCompletion := s2.analysisCompletion)
    ensures var fb := Feedback.GenerateFeedback(FieldsFor(e), text, category, s.feedbackCompletion);
      var c := s.feedbackCompletion(Feedback.BuildFeedbackPrompt(FieldsFor(e), text, category));
      var a := s.analysisCompletion(Feedback.BuildAnalysisPrompt(FieldsFor(e), text, category));
      var r := LlmStages(text, category, ConvertedRecord(e), s);
      && (c.Failure? ==>
            r == Fail(400, Feedback.FeedbackFailure + c.error) && r == LlmStages(text, category, ConvertedRecord(e), s2))
      && (c.Success? && a.Failure? ==> r == Fail(400, Feedback.AnalysisFailure + a.error))
      && (c.Success? && a.Success? ==>
            fb.FeedbackOk? && r == Response(200, SuccessBody(text, ConvertedRecord(e), fb, a.value)))
  {
    RecordReadsBack(e);
    assert FieldsOf(ConvertedRecord(e)) == FieldsFor(e);
    Feedback.FeedbackOutcome(FieldsFor(e), text, category, s.feedbackCompletion);
    Feedback.AnalysisOutcome(FieldsFor(e), text, category, s.analysisCompletion);
    var fb := Feedback.GenerateFeedback(FieldsFor(e), text, category, s.feedbackCompletion);
    var a := s.analysisCompletion(Feedback.BuildAnalysisPrompt(FieldsFor(e), text, category));
    if fb.FeedbackOk? && a.Success? {
      ToNativeIdempotent(EligibilityRecord(e));
      FinalConversionIsIdentity(text, ConvertedRecord(e), fb, a.value);
    }
  }

  /** Every stage succeeds: extraction, a known category, both completions. */
  ghost predicate AllStagesSucceed(req: Request, s: Services) {
    && req.image.Some? && req.category.Some?
    && ExtractionOf(req, s).Extracted?
    && var text := ExtractionOf(req, s).mlReadyText;
       var category := req.category.value;
       var a := AssessmentOf(text, category, s);
       && a.Success? && a.value.Assessed?
       && s.feedbackCompletion(Feedback.BuildFeedbackPrompt(FieldsFor(a.value.result), text, category)).Success?
       && s.analysisCompletion(Feedback.BuildAnalysisPrompt(FieldsFor(a.value.result), text, category)).Success?
  }

  /** The two completion stages answer 200 when both succeed and 400 otherwise. */
  lemma LlmStagesStatus(text: string, category: string, e: Predicted.Eligibility, s: Services)
    ensures var r := LlmStages(text, category, ConvertedRecord(e), s);
      && (r.status == 200 <==>
            && s.feedbackCompletion(Feedback.BuildFeedbackPrompt(FieldsFor(e), text, category)).Success?
            && s.analysisCompletion(Feedback.BuildAnalysisPrompt(FieldsFor(e), text, category)).Success?)
      && (r.status == 200 || r.status == 400)
  {
    LlmStagesOutcome(text, category, e, s, s);
  }

  /** From the eligibility check on, 200 means an assessed resume and two successful completions. */
  lemma AfterAssessmentStatus(a: Result<Predicted.Assessment, string>, text: string, category: string, s: Services)
    ensures var r := AfterAssessment(a, text, category, s);
      && (r.status == 200 <==>
            && a.Success? && a.value.Assessed?
            && s.feedbackCompletion(Feedback.BuildFeedbackPrompt(FieldsFor(a.value.result), text, category)).Success?
            && s.analysisCompletion(Feedback.BuildAnalysisPrompt(FieldsFor(a.value.result), text, category)).Success?)
      && r.status in {200, 400, 500}
  {
    if a.Success? && a.value.Assessed? {
      LlmStagesStatus(text, category, a.value.result, s);
    }
  }

  /** The answer is 200 exactly when every stage succeeds; otherwise it is 400 or 500. */
  lemma StatusCodes(req: Request, s: Services)
    ensures MainPipeline(req, s).status == 200 <==> AllStagesSucceed(req, s)
    ensures MainPipeline(req, s).status in {200, 400, 500}
  {
    if req.image.Some? && req.category.Some? && ExtractionOf(req, s).Extracted? {
      var text := ExtractionOf(req, s).mlReadyText;
      var a := AssessmentOf(text, req.category.value, s);
      assert MainPipeline(req, s) == AfterAssessment(a, text, req.category.value, s);
      AfterAssessmentStatus(a, text, req.category.value, s);
    }
  }

  /**
   * A successful answer carries exactly the six keys of lines 104-123. The
   * extracted text and both completions work on the once-cleaned text; the
   * classifier alone gets it cleaned a second time.
   */
  lemma SuccessResponse(req: Request, s: Services)
    requires AllStagesSucceed(req, s)
    ensures var text := ExtractionOf(req, s).mlReadyText;
      var category := req.category.value;
      var e := AssessmentOf(text, category, s).value.result;
      var fields := FieldsFor(e);
      var body := MainPipeline(req, s).body;
      && MainPipeline(req, s).status == 200
      && Keys(body) == SuccessKeys
      && Lookup(body, "success") == Some(Feedback.PyBool(true))
      && Lookup(body, "extracted_text") == Some(Feedback.PyStr(text))
      && Lookup(body, "eligibility") == Some(EligibilityView(ConvertedRecord(e)))
      && Lookup(body, "feedback") ==
           Some(FeedbackView(Feedback.GenerateFeedback(fields, text, category, s.feedbackCompletion)))
      && Lookup(body, "detailed_analysis") ==
           Some(Feedback.PyStr(s.analysisCompletion(Feedback.BuildAnalysisPrompt(fields, text, category)).value))
      && Lookup(body, "recommendation") == Some(Feedback.PyStr(e.recommendation.Text()))
      && Feedback.BuildFeedbackPrompt(fields, text, category).excerpt == Feedback.Excerpt(text)
      && Feedback.BuildAnalysisPrompt(fields, text, category).resume == text
  {
    var text := ExtractionOf(req, s).mlReadyText;
    var category := req.category.value;
    var e := AssessmentOf(text, category, s).value.result;
    PipelineReachesStages(req, s);
    AssessedSuccess(text, category, e, s);
  }

  /** When every stage succeeds, the answer is the one the two completion stages give. */
  lemma PipelineReachesStages(req: Request, s: Services)
    requires AllStagesSucceed(req, s)
    ensures var text := ExtractionOf(req, s).mlReadyText;
      MainPipeline(req, s) ==
        LlmStages(text, req.category.value, ConvertedRecord(AssessmentOf(text, req.category.value, s).value.result), s)
  {
  }

  /** The six entries of the answer once both completions succeed for an assessed resume. */
  lemma AssessedSuccess(text: string, category: string, e: Predicted.Eligibility, s: Services)
    requires s.feedbackCompletion(Feedback.BuildFeedbackPrompt(FieldsFor(e), text, category)).Success?
    requires s.analysisCompletion(Feedback.BuildAnalysisPrompt(FieldsFor(e), text, category)).Success?
    ensures var fields := FieldsFor(e);
      var r := LlmStages(text, category, ConvertedRecord(e), s);
      && r.status == 200
      && Keys(r.body) == SuccessKeys
      && Lookup(r.body, "success") == Some(Feedback.PyBool(true))
      && Lookup(r.body, "extracted_text") == Some(Feedback.PyStr(text))
      && Lookup(r.body, "eligibility") == Some(EligibilityView(ConvertedRecord(e)))
      && Lookup(r.body, "feedback") ==
           Some(FeedbackView(Feedback.GenerateFeedback(fields, text, category, s.feedbackCompletion)))
      && Lookup(r.body, "detailed_analysis") ==
           Some(Feedback.PyStr(s.analysisCompletion(Feedback.BuildAnalysisPrompt(fields, text, category)).value))
      && Lookup(r.body, "recommendation") == Some(Feedback.PyStr(e.recommendation.Text()))
      && Feedback.BuildFeedbackPrompt(fields, text, category).excerpt == Feedback.Excerpt(text)
      && Feedback.BuildAnalysisPrompt(fields, text, category).resume == text
  {
    var fields := FieldsFor(e);
    var fb := Feedback.GenerateFeedback(fields, text, category, s.feedbackCompletion);
    var a := s.analysisCompletion(Feedback.BuildAnalysisPrompt(fields, text, category));
    LlmStagesOutcome(text, category, e, s, s);
    SuccessBodyLayout(text, ConvertedRecord(e), fb, a.value);
    RecommendationPresent(e, text, fb, a.value);
  }

  /** The classifier's scores come from the extracted text cleaned a second time, then by its own cleaner. */
  lemma ClassifierSeesTwiceCleaned(req: Request, s: Services)
    requires AllStagesSucceed(req, s)
    ensures var text := ExtractionOf(req, s).mlReadyText;
      var p := s.classifier.predict(Predicted.CleanText(TextExtraction.CleanForMl(text, s.matchers)));
      && p.Success? && |p.value| == |s.classifier.labels| > 0
      && AssessmentOf(text, req.category.value, s).value
         == Predicted.Evaluate(p.value, s.classifier.labels, req.category.value, s.classifier.round)
  {
  }
}
