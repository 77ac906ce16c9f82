/**
 * `check_eligibility`: the inference-time cleaner, and the decision taken on
 * the classifier's per-class score vector for one target category.
 */
module Predicted {
  import opened Wrappers
  import opened Text
  import opened CleanSteps

  /** The nested `clean_text`: tags, URLs and e-mail runs deleted, then letters only, collapsed, lower-cased. */
  function CleanText(text: string): (r: string)
    ensures Normalized(r)
  {
    Finish(Delete(Email, Delete(Url, Delete(Tag, text))))
  }

  /** `np.argmax`: the first index of the greatest score. */
  function ArgMax(scores: seq<real>): (k: nat)
    requires |scores| > 0
    ensures k < |scores|
    ensures forall i :: 0 <= i < |scores| ==> scores[i] <= scores[k]
    ensures forall i :: 0 <= i < k ==> scores[i] < scores[k]
  {
    if |scores| == 1 then 0
    else
      var k := ArgMax(scores[..|scores| - 1]);
      if scores[|scores| - 1] > scores[k] then |scores| - 1 else k
  }

  /** Index of the first occurrence of `x` (what `LabelEncoder.transform` gives for a known label). */
  function IndexOf(labels: seq<string>, x: string): (i: nat)
    requires x in labels
    ensures i < |labels| && labels[i] == x
    ensures forall j :: 0 <= j < i ==> labels[j] != x
  {
    if labels[0] == x then 0 else 1 + IndexOf(labels[1..], x)
  }

  /** The five suitability tiers, best first. */
  datatype Tier = HighlySuitable | Suitable | ModeratelySuitable | LessSuitable | NotSuitable
  {
    function Label(): string {
      match this
      case HighlySuitable => "HIGHLY SUITABLE"
      case Suitable => "SUITABLE"
      case ModeratelySuitable => "MODERATELY SUITABLE"
      case LessSuitable => "LESS SUITABLE"
      case NotSuitable => "NOT SUITABLE"
    }

    /** Position on the ladder: 4 is best. */
    function Rank(): nat {
      match this
      case HighlySuitable => 4
      case Suitable => 3
      case ModeratelySuitable => 2
      case LessSuitable => 1
      case NotSuitable => 0
    }
  }

  /** The threshold ladder applied to the target's own score when the prediction misses the target. */
  function Ladder(confidence: real): (t: Tier)
    ensures t == HighlySuitable <==> confidence >= 0.7
    ensures t == Suitable <==> 0.5 <= confidence < 0.7
    ensures t == ModeratelySuitable <==> 0.3 <= confidence < 0.5
    ensures t == LessSuitable <==> 0.15 <= confidence < 0.3
    ensures t == NotSuitable <==> confidence < 0.15
  {
    if confidence >= 0.7 then HighlySuitable
    else if confidence >= 0.5 then Suitable
    else if confidence >= 0.3 then ModeratelySuitable
    else if confidence >= 0.15 then LessSuitable
    else NotSuitable
  }

  /** The two recommendation templates, the positive one in two wordings. */
  datatype Recommendation =
    | PerfectMatch(target: string)
    | GoodFit(target: string, predicted: string)
    | NotRecommended(predicted: string, target: string)
  {
    function Text(): string {
      match this
      case PerfectMatch(target) =>
        RecommendPrefix + ": Perfect match! Candidate's profile aligns well with " + target + " role."
      case GoodFit(target, predicted) =>
        RecommendPrefix + ": Good fit for " + target
        + ", though candidate shows stronger alignment with " + predicted + "."
      case NotRecommended(predicted, target) =>
        NotRecommendedPrefix + ": Candidate appears better suited for " + predicted
        + " rather than " + target + "."
    }
  }

  const RecommendPrefix: string := "\U{2705} RECOMMEND"
  const NotRecommendedPrefix: string := "\U{274C} NOT RECOMMENDED"

  /** The record `check_eligibility` returns when the target is a known category. */
  datatype Eligibility = Eligibility(
    eligible: bool,
    predictedCategory: string,
    targetCategory: string,
    confidenceForTarget: real,
    overallPredictionConfidence: real,
    eligibilityScore: Tier,
    recommendation: Recommendation,
    allCategoryScores: seq<(string, real)>)

  /** Either the `{'error': ...}` record or the full eligibility record. */
  datatype Assessment = NotFound(error: string) | Assessed(result: Eligibility)

  /** The quote `repr` puts around a string: `"` when it holds `'` and no `"`, otherwise `'`. */
  function ReprQuote(s: string): char {
    if '\'' in s && '"' !in s then '"' else '\''
  }

  /** A lower-case hexadecimal digit, as `repr` writes it. */
  function HexDigit(k: nat): char
    requires k < 16
  {
    if k < 10 then ('0' as int + k) as char else ('a' as int + k - 10) as char
  }

  /** The value of a hexadecimal digit. */
  function HexValue(d: char): (v: nat)
    ensures v < 16
  {
    if '0' <= d <= '9' then d as int - '0' as int
    else if 'a' <= d <= 'f' then d as int - 'a' as int + 10
    else 0
  }

  /** A character `repr` writes as it is, inside either quote. */
  predicate Verbatim(c: char) {
    c != '\\' && c != '\'' && c != '"' && ' ' <= c && c != '\U{7F}'
  }

  /**
   * How `repr` writes one character inside quotes `q`: the quote and the
   * backslash behind a backslash, tab, newline and carriage return by name,
   * other ASCII control characters as `\xhh`, anything else as it is.
   */
  function ReprChar(c: char, q: char): (r: string)
    ensures 1 <= |r| <= 4
    ensures r == [c] <==> c != q && c != '\\' && ' ' <= c && c != '\U{7F}'
  {
    if c == q || c == '\\' then ['\\', c]
    else if c == '\t' then "\\t"
    else if c == '\n' then "\\n"
    else if c == '\r' then "\\r"
    else if c < ' ' || c == '\U{7F}' then ['\\', 'x', HexDigit(c as int / 16), HexDigit(c as int % 16)]
    else [c]
  }

  /** The characters of a string between the quotes of its `repr`. */
  function ReprBody(s: string, q: char): (r: string)
    ensures |r| >= |s|
  {
    if s == [] then [] else ReprChar(s[0], q) + ReprBody(s[1..], q)
  }

  /** Python's `repr` of a `str`. */
  function StrRepr(s: string): (r: string)
    ensures |r| >= |s| + 2
    ensures r[0] == r[|r| - 1] == ReprQuote(s)
  {
    var q := ReprQuote(s);
    [q] + ReprBody(s, q) + [q]
  }

  /** Reads the body of a `repr` literal back: every backslash escape becomes the character it stands for. */
  function Unescape(b: string): string
    decreases |b|
  {
    if b == [] then []
    else if b[0] != '\\' || |b| == 1 then [b[0]] + Unescape(b[1..])
    else if b[1] == 't' then "\t" + Unescape(b[2..])
    else if b[1] == 'n' then "\n" + Unescape(b[2..])
    else if b[1] == 'r' then "\r" + Unescape(b[2..])
    else if b[1] == 'x' && |b| >= 4 then [(16 * HexValue(b[2]) + HexValue(b[3])) as char] + Unescape(b[4..])
    else [b[1]] + Unescape(b[2..])
  }

  /** `str.__repr__` loses nothing: the text between the quotes reads back to the string. */
  lemma StrReprRoundTrip(s: string)
    ensures var r := StrRepr(s); Unescape(r[1..|r| - 1]) == s
  {
    var q := ReprQuote(s);
    var r := StrRepr(s);
    assert r[1..|r| - 1] == ReprBody(s, q);
    BodyRoundTrip(s, q);
  }

  lemma {:induction false} BodyRoundTrip(s: string, q: char)
    requires q == '\'' || q == '"'
    ensures Unescape(ReprBody(s, q)) == s
    decreases |s|
  {
    if s != [] {
      BodyRoundTrip(s[1..], q);
      CharRoundTrip(s[0], q, ReprBody(s[1..], q));
      assert s == [s[0]] + s[1..];
    }
  }

  lemma CharRoundTrip(c: char, q: char, rest: string)
    requires q == '\'' || q == '"'
    ensures Unescape(ReprChar(c, q) + rest) == [c] + Unescape(rest)
  {
    var b := ReprChar(c, q) + rest;
    if c == q || c == '\\' {
      assert b[2..] == rest;
    } else if c == '\t' || c == '\n' || c == '\r' {
      assert b[2..] == rest;
    } else if c < ' ' || c == '\U{7F}' {
      var k := c as int;
      assert HexValue(HexDigit(k / 16)) == k / 16;
      assert HexValue(HexDigit(k % 16)) == k % 16;
      assert b[4..] == rest;
    } else {
      assert b[1..] == rest;
    }
  }

  /** A string of verbatim characters is `repr`-ed between single quotes, as it is. */
  lemma {:induction false} BodyVerbatim(s: string, q: char)
    requires q == '\'' || q == '"'
    requires forall i :: 0 <= i < |s| ==> s[i] == '\'' || s[i] == '"' || Verbatim(s[i])
    requires q !in s
    ensures ReprBody(s, q) == s
    decreases |s|
  {
    if s != [] {
      BodyVerbatim(s[1..], q);
      assert s == [s[0]] + s[1..];
    }
  }

  /**
   * No backslash, no control character and not both quotes: `repr` writes the
   * string as it is between its quote; `'` unless the string holds `'`.
   */
  lemma ReprVerbatim(s: string)
    requires forall i :: 0 <= i < |s| ==> s[i] == '\'' || s[i] == '"' || Verbatim(s[i])
    requires '\'' !in s || '"' !in s
    ensures StrRepr(s) == [ReprQuote(s)] + s + [ReprQuote(s)]
    ensures ReprQuote(s) == '\'' <==> '\'' !in s
  {
    BodyVerbatim(s, ReprQuote(s));
  }

  /** `str(list)`: the `repr` of every element, separated by ", ". */
  function QuotedList(items: seq<string>): string {
    if items == [] then ""
    else if |items| == 1 then StrRepr(items[0])
    else StrRepr(items[0]) + ", " + QuotedList(items[1..])
  }

  function NotFoundMessage(target: string, labels: seq<string>): string {
    "Target category '" + target + "' not found. Available categories: [" + QuotedList(labels) + "]"
  }

  /** The dict comprehension over the classes: one (category, rounded score) entry per class, in class order. */
  function ScoreMap(labels: seq<string>, scores: seq<real>, round: real -> real): (m: seq<(string, real)>)
    requires |scores| == |labels|
    ensures |m| == |labels|
    ensures forall i :: 0 <= i < |m| ==> m[i] == (labels[i], round(scores[i]))
  {
    seq(|labels|, i requires 0 <= i < |labels| => (labels[i], round(scores[i])))
  }

  /**
   * Lines 36-88 of `check_eligibility` on the classifier's scores: arg-max,
   * target validation, eligibility, tier, recommendation and score map.
   * `round` stands for `round(_, 3)`.
   */
  function Evaluate(scores: seq<real>, labels: seq<string>, target: string, round: real -> real): Assessment
    requires |scores| == |labels| > 0
  {
    var p := ArgMax(scores);
    var predicted := labels[p];
    if target !in labels then NotFound(NotFoundMessage(target, labels))
    else
      var confidence := scores[IndexOf(labels, target)];
      var eligible := predicted == target;
      var tier := if eligible then HighlySuitable else Ladder(confidence);
      var recommendation :=
        if eligible then PerfectMatch(target)
        else if confidence >= 0.5 then GoodFit(target, predicted)
        else NotRecommended(predicted, target);
      Assessed(Eligibility(eligible, predicted, target, round(confidence), round(scores[p]),
                           tier, recommendation, ScoreMap(labels, scores, round)))
  }

  /** The trained artifacts seen from outside: label set, classifier and `round`. */
  datatype Classifier = Classifier(
    labels: seq<string>,
    predict: string -> Result<seq<real>, string>,  // tokenizer + padding + model.predict, or the exception it raised
    round: real -> real,
    shapeError: string)                            // the error reported for a score vector of the wrong length

  /**
   * `check_eligibility(resume_text, target_category, threshold=...)`: a failure is
   * an exception the caller sees; `threshold` is accepted and never read.
   */
  function CheckEligibility(resumeText: string, target: string, threshold: real, model: Classifier)
    : Result<Assessment, string>
  {
    match model.predict(CleanText(resumeText))
    case Failure(e) => Failure(e)
    case Success(scores) =>
      if |scores| != |model.labels| || |scores| == 0 then Failure(model.shapeError)
      else Success(Evaluate(scores, model.labels, target, model.round))
  }

  // ---------------------------------------------------------------------------
  // Properties of the decision
  // ---------------------------------------------------------------------------

  /** `sub` sits in `s` at position `k`. */
  predicate OccursAt(s: string, sub: string, k: nat) {
    k + |sub| <= |s| && s[k..k + |sub|] == sub
  }

  /** `sub` occurs somewhere inside `s`. */
  ghost predicate Occurs(s: string, sub: string) {
    exists k: nat :: OccursAt(s, sub, k)
  }

  lemma OccursAfter(p: string, s: string, sub: string)
    requires Occurs(s, sub)
    ensures Occurs(p + s, sub)
  {
    var k: nat :| OccursAt(s, sub, k);
    assert (p + s)[|p| + k..|p| + k + |sub|] == s[k..k + |sub|];
    assert OccursAt(p + s, sub, |p| + k);
  }

  lemma OccursBefore(s: string, sub: string, q: string)
    requires Occurs(s, sub)
    ensures Occurs(s + q, sub)
  {
    var k: nat :| OccursAt(s, sub, k);
    assert (s + q)[k..k + |sub|] == s[k..k + |sub|];
    assert OccursAt(s + q, sub, k);
  }

  lemma StartsWithConcat(p: string, q: string)
    ensures StartsWith(p + q, p)
  {
  }

  /** Every class appears, quoted, in the listing of the available categories. */
  lemma {:induction false} QuotedListNamesAll(items: seq<string>, i: nat)
    requires i < |items|
    ensures Occurs(QuotedList(items), StrRepr(items[i]))
    decreases |items|
  {
    var q := StrRepr(items[i]);
    if |items| == 1 {
      assert OccursAt(QuotedList(items), q, 0);
    } else if i == 0 {
      var rest := ", " + QuotedList(items[1..]);
      assert QuotedList(items) == q + rest;
      assert (q + rest)[0..|q|] == q;
      assert OccursAt(QuotedList(items), q, 0);
    } else {
      QuotedListNamesAll(items[1..], i - 1);
      assert items[1..][i - 1] == items[i];
      OccursAfter(StrRepr(items[0]) + ", ", QuotedList(items[1..]), q);
    }
  }

  /** The error record appears exactly for an unknown target, and it lists every class. */
  lemma UnknownTargetReported(scores: seq<real>, labels: seq<string>, target: string, round: real -> real)
    requires |scores| == |labels| > 0
    ensures Evaluate(scores, labels, target, round).NotFound? <==> target !in labels
    ensures target !in labels ==>
      forall i :: 0 <= i < |labels| ==> Occurs(Evaluate(scores, labels, target, round).error, StrRepr(labels[i]))
  {
    if target !in labels {
      var head := "Target category '" + target + "' not found. Available categories: [";
      forall i | 0 <= i < |labels|
        ensures Occurs(Evaluate(scores, labels, target, round).error, StrRepr(labels[i]))
      {
        QuotedListNamesAll(labels, i);
        OccursAfter(head, QuotedList(labels), StrRepr(labels[i]));
        OccursBefore(head + QuotedList(labels), StrRepr(labels[i]), "]");
        assert NotFoundMessage(target, labels) == head + QuotedList(labels) + "]";
      }
    }
  }

  /** No class name occurs twice (the classes of a fitted label encoder). */
  predicate Distinct(labels: seq<string>) {
    forall i, j :: 0 <= i < j < |labels| ==> labels[i] != labels[j]
  }

  /**
   * Eligible exactly when the arg-max class is the target; for distinct classes,
   * exactly when the target's score beats every earlier score and is reached by no later one.
   */
  lemma EligibleIffTargetIsArgMax(scores: seq<real>, labels: seq<string>, target: string, round: real -> real)
    requires |scores| == |labels| > 0 && target in labels
    ensures Evaluate(scores, labels, target, round).Assessed?
    ensures Evaluate(scores, labels, target, round).result.eligible <==> labels[ArgMax(scores)] == target
    ensures Distinct(labels) ==>
      var t := IndexOf(labels, target);
      (Evaluate(scores, labels, target, round).result.eligible <==>
        (forall i :: 0 <= i < t ==> scores[i] < scores[t]) && (forall i :: t < i < |scores| ==> scores[i] <= scores[t]))
  {
    var t := IndexOf(labels, target);
    var p := ArgMax(scores);
    if Distinct(labels) {
      if (forall i :: 0 <= i < t ==> scores[i] < scores[t]) && (forall i :: t < i < |scores| ==> scores[i] <= scores[t]) {
        assert scores[t] <= scores[p];
      }
    }
  }

  /** An eligible result is always "HIGHLY SUITABLE"; otherwise the tier is the ladder on the target's score. */
  lemma TierRule(scores: seq<real>, labels: seq<string>, target: string, round: real -> real)
    requires |scores| == |labels| > 0 && target in labels
    ensures var e := Evaluate(scores, labels, target, round).result;
      e.eligibilityScore == (if e.eligible then HighlySuitable else Ladder(scores[IndexOf(labels, target)]))
  {
  }

  /** A higher target score never lands on a lower rung of the ladder. */
  lemma LadderMonotone(c1: real, c2: real)
    requires c1 <= c2
    ensures Ladder(c1).Rank() <= Ladder(c2).Rank()
  {
  }

  /** Both positive templates open with the "RECOMMEND" marker. */
  lemma PositiveText(r: Recommendation)
    requires !r.NotRecommended?
    ensures StartsWith(r.Text(), RecommendPrefix)
  {
    match r
    case PerfectMatch(target) =>
      StartsWithConcat(RecommendPrefix, ": Perfect match! Candidate's profile aligns well with " + target + " role.");
    case GoodFit(target, predicted) =>
      StartsWithConcat(RecommendPrefix,
        ": Good fit for " + target + ", though candidate shows stronger alignment with " + predicted + ".");
  }

  /** The negative template opens with the "NOT RECOMMENDED" marker and names both categories. */
  lemma NegativeText(predicted: string, target: string)
    ensures var text := NotRecommended(predicted, target).Text();
      && StartsWith(text, NotRecommendedPrefix)
      && !StartsWith(text, RecommendPrefix)
      && Occurs(text, predicted)
      && Occurs(text, target)
  {
    var text := NotRecommended(predicted, target).Text();
    var head := NotRecommendedPrefix + ": Candidate appears better suited for ";
    var mid := " rather than ";
    StartsWithConcat(NotRecommendedPrefix,
      ": Candidate appears better suited for " + predicted + mid + target + ".");
    assert text[0] != RecommendPrefix[0];
    assert text == head + predicted + mid + target + ".";
    assert text[|head|..|head| + |predicted|] == predicted;
    assert OccursAt(text, predicted, |head|);
    assert text[|head| + |predicted| + |mid|..|head| + |predicted| + |mid| + |target|] == target;
    assert OccursAt(text, target, |head| + |predicted| + |mid|);
  }

  /**
   * The recommendation is positive exactly when the result is eligible or the
   * target's score is at least 0.5; a negative one names both categories.
   */
  lemma RecommendationRule(scores: seq<real>, labels: seq<string>, target: string, round: real -> real)
    requires |scores| == |labels| > 0 && target in labels
    ensures var e := Evaluate(scores, labels, target, round).result;
      var confidence := scores[IndexOf(labels, target)];
      && (StartsWith(e.recommendation.Text(), RecommendPrefix) <==> e.eligible || confidence >= 0.5)
      && (!(e.eligible || confidence >= 0.5) ==>
            && StartsWith(e.recommendation.Text(), NotRecommendedPrefix)
            && Occurs(e.recommendation.Text(), e.predictedCategory)
            && Occurs(e.recommendation.Text(), target))
  {
    var e := Evaluate(scores, labels, target, round).result;
    if e.recommendation.NotRecommended? {
      NegativeText(e.predictedCategory, target);
    } else {
      PositiveText(e.recommendation);
    }
  }

  /**
   * One score entry per class, in class order; the target's and the predicted
   * class's confidences are their entries, and with a monotone rounding the
   * overall confidence is the greatest entry.
   */
  lemma ScoreMapFacts(scores: seq<real>, labels: seq<string>, target: string, round: real -> real)
    requires |scores| == |labels| > 0 && target in labels
    ensures var e := Evaluate(scores, labels, target, round).result;
      && |e.allCategoryScores| == |labels|
      && (forall i :: 0 <= i < |labels| ==> e.allCategoryScores[i].0 == labels[i])
      && e.confidenceForTarget == e.allCategoryScores[IndexOf(labels, target)].1
      && e.allCategoryScores[ArgMax(scores)].0 == e.predictedCategory
      && e.overallPredictionConfidence == e.allCategoryScores[ArgMax(scores)].1
    ensures (forall x, y :: x <= y ==> round(x) <= round(y)) ==>
      var e := Evaluate(scores, labels, target, round).result;
      forall i :: 0 <= i < |labels| ==> e.allCategoryScores[i].1 <= e.overallPredictionConfidence
  {
    var e := Evaluate(scores, labels, target, round).result;
    var p := ArgMax(scores);
    if forall x, y :: x <= y ==> round(x) <= round(y) {
      forall i | 0 <= i < |labels|
        ensures e.allCategoryScores[i].1 <= e.overallPredictionConfidence
      {
        assert scores[i] <= scores[p];
      }
    }
  }

  /** `threshold` is never read. */
  lemma ThresholdIgnored(resumeText: string, target: string, t1: real, t2: real, model: Classifier)
    ensures CheckEligibility(resumeText, target, t1, model) == CheckEligibility(resumeText, target, t2, model)
  {
  }

  // ---------------------------------------------------------------------------
  // Softmax scores
  // ---------------------------------------------------------------------------

  function Sum(s: seq<real>): real {
    if s == [] then 0.0 else s[0] + Sum(s[1..])
  }

  predicate NonNegative(s: seq<real>) {
    forall i :: 0 <= i < |s| ==> s[i] >= 0.0
  }

  lemma {:induction false} SumBoundsOne(s: seq<real>, i: nat)
    requires NonNegative(s) && i < |s|
    ensures s[i] <= Sum(s)
    ensures Sum(s) >= 0.0
    decreases |s|
  {
    if |s| > 1 {
      SumBoundsOne(s[1..], if i == 0 then 0 else i - 1);
    }
  }

  lemma {:induction false} SumBoundsTwo(s: seq<real>, i: nat, j: nat)
    requires NonNegative(s) && i < |s| && j < |s| && i != j
    ensures s[i] + s[j] <= Sum(s)
    decreases |s|
  {
    if i == 0 {
      SumBoundsOne(s[1..], j - 1);
    } else if j == 0 {
      SumBoundsOne(s[1..], i - 1);
    } else {
      SumBoundsTwo(s[1..], i - 1, j - 1);
      SumBoundsOne(s, 0);
    }
  }

  /**
   * For a probability vector, a missed target has score at most 0.5: the
   * "HIGHLY SUITABLE" rung of the ladder is never reached, and a positive
   * recommendation needs an exact tie at 0.5.
   */
  lemma SoftmaxMissCapsTarget(scores: seq<real>, labels: seq<string>, target: string, round: real -> real)
    requires |scores| == |labels| > 0 && target in labels
    requires NonNegative(scores) && Sum(scores) == 1.0
    requires !Evaluate(scores, labels, target, round).result.eligible
    ensures scores[IndexOf(labels, target)] <= 0.5
    ensures Evaluate(scores, labels, target, round).result.eligibilityScore != HighlySuitable
    ensures StartsWith(Evaluate(scores, labels, target, round).result.recommendation.Text(), RecommendPrefix) ==>
      scores[IndexOf(labels, target)] == 0.5
  {
    var t := IndexOf(labels, target);
    var p := ArgMax(scores);
    assert p != t;
    SumBoundsTwo(scores, t, p);
    RecommendationRule(scores, labels, target, round);
  }

  /**
   * A string already in the cleaner's normal form in which no URL trigger
   * ("http" or "www" followed by a non-space) occurs is its own cleaned text.
   */
  lemma CleanTextFixpoint(t: string)
    requires Normalized(t)
    requires forall k :: 0 <= k < |t| ==> UrlAt(t[k..]) == None
    ensures CleanText(t) == t
  {
    TagFree(t);
    NothingMatched(Url, t);
    EmailFree(t);
    FinishIdentity(t);
  }

  /** Cleaning twice gives the same text as cleaning once unless the first pass leaves a URL trigger behind. */
  lemma CleanTextIdempotentWithoutUrls(s: string)
    requires forall k :: 0 <= k < |CleanText(s)| ==> UrlAt(CleanText(s)[k..]) == None
    ensures CleanText(CleanText(s)) == CleanText(s)
  {
    CleanTextFixpoint(CleanText(s));
  }

  lemma UrlNeedsTrigger(u: string)
    requires u != [] && u[0] != 'h' && u[0] != 'w'
    ensures MatchAt(Url, u) == None
  {
    assert u[0] != "http"[0] && u[0] != "www"[0];
  }

  lemma HyphenNotUrl()
    ensures Delete(Url, "h-ttpx") == "h-ttpx"
  {
    var s := "h-ttpx";
    forall k | 0 <= k < |s| ensures MatchAt(Url, s[k..]) == None {
      if k == 0 {
        assert s[0..] == s && s[1] != "http"[1] && s[0] != "www"[0];
      } else {
        UrlNeedsTrigger(s[k..]);
      }
    }
    NothingMatched(Url, s);
  }

  lemma KeepHyphen()
    ensures KeepLettersAndSpaces("h-ttpx") == "httpx"
  {
  }

  lemma HttpxNormalized()
    ensures Normalized("httpx")
  {
  }

  lemma FinishHyphen()
    ensures Finish("h-ttpx") == "httpx"
  {
    KeepHyphen();
    FinishAfterKeep("h-ttpx");
    HttpxNormalized();
    FinishIdentity("httpx");
  }

  /** The first pass over "h-ttpx" only drops the '-'. */
  lemma CleanHyphenatedTrigger()
    ensures CleanText("h-ttpx") == "httpx"
  {
    HyphenNoTag();
    HyphenNotUrl();
    HyphenNoEmail();
    FinishHyphen();
    CleanTextSteps("h-ttpx", "h-ttpx", "h-ttpx", "h-ttpx", "httpx");
  }

  lemma HyphenNoTag()
    ensures Delete(Tag, "h-ttpx") == "h-ttpx"
  {
    var s := "h-ttpx";
    forall i | 0 <= i < |s|
      ensures s[i] != '<'
    {
    }
    TagFree(s);
  }

  lemma HyphenNoEmail()
    ensures Delete(Email, "h-ttpx") == "h-ttpx"
  {
    EmailFree("h-ttpx");
  }

  /** `clean_text` stage by stage: tags, then URLs, then e-mail runs, then the last three stages. */
  lemma CleanTextSteps(s: string, a: string, b: string, c: string, t: string)
    requires Delete(Tag, s) == a && Delete(Url, a) == b && Delete(Email, b) == c
    requires Finish(c) == t
    ensures CleanText(s) == t
  {
  }

  /** The second pass sees "httpx" as a URL and deletes all of it. */
  lemma CleanUrlTrigger()
    ensures CleanText("httpx") == ""
  {
    HttpxNoTag();
    HttpxIsUrl();
    CleanTextSteps("httpx", "httpx", "", "", "");
  }

  lemma HttpxNoTag()
    ensures Delete(Tag, "httpx") == "httpx"
  {
    TagFree("httpx");
  }

  lemma HttpxIsUrl()
    ensures Delete(Url, "httpx") == ""
  {
    var t := "httpx";
    UrlDeleted([], t, []);
    assert [] + t + [] == t;
  }

  /** Cleaning is not idempotent in general. */
  lemma CleanTextNotIdempotent()
    ensures CleanText(CleanText("h-ttpx")) != CleanText("h-ttpx")
  {
    CleanHyphenatedTrigger();
    CleanUrlTrigger();
  }
}
