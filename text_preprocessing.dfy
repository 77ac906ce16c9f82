/**
 * The training-time side of `text_preprocessing`: the nested resume cleaner,
 * the removal of rows that clean to nothing, and the cap on the padded length.
 */
module TextPreprocessing {
  import opened Wrappers
  import opened Text
  import opened CleanSteps
  import Predicted

  /**
   * The nested `clean_text`: a missing value (`pd.isna`) is "", anything else
   * goes through tags, URLs, e-mail runs and phone numbers, then letters only.
   */
  function CleanText(text: Option<string>): (r: string)
    ensures Normalized(r)
    ensures text.None? ==> r == ""
  {
    match text
    case None => EmptyNormalized(); ""
    case Some(s) => Finish(DeletePhones(Delete(Email, Delete(Url, Delete(Tag, s)))))
  }

  /**
   * The training and inference cleaners agree on every string: the phone step
   * only deletes digits, '-' and '.', which the letter filter drops anyway.
   */
  lemma AgreesWithInference(s: string)
    ensures CleanText(Some(s)) == Predicted.CleanText(s)
  {
    var x := Delete(Email, Delete(Url, Delete(Tag, s)));
    PhonesInvisibleAfterFilter(x, 0);
    assert x[0..] == x;
    FinishAfterKeep(DeletePhones(x));
    FinishAfterKeep(x);
  }

  /** Whatever sits inside a one-line `<...>` span has no influence on the cleaned text. */
  lemma TagContentIgnored(a: string, m: string, b: string)
    requires '<' !in a && '>' !in m && '\n' !in m
    ensures CleanText(Some(a + ['<'] + m + ['>'] + b)) == CleanText(Some(a + b))
  {
    TagSpanDeleted(a, m, b);
    TagFreePrefix(a, b);
  }

  /** One training example: its category and its cleaned resume text. */
  datatype Row = Row(category: string, cleaned: string)

  /** `df['cleaned_resume'] = df['Resume'].apply(clean_text)`. */
  function CleanColumn(raw: seq<(string, Option<string>)>): (rows: seq<Row>)
    ensures |rows| == |raw|
    ensures forall i :: 0 <= i < |raw| ==> rows[i] == Row(raw[i].0, CleanText(raw[i].1))
  {
    seq(|raw|, i requires 0 <= i < |raw| => Row(raw[i].0, CleanText(raw[i].1)))
  }

  /** `df[df['cleaned_resume'].str.len() > 0]`. */
  function DropEmptyRows(rows: seq<Row>): (r: seq<Row>)
    ensures |r| <= |rows|
    ensures forall i :: 0 <= i < |r| ==> |r[i].cleaned| > 0
    ensures forall x :: x in r <==> x in rows && |x.cleaned| > 0
  {
    if rows == [] then []
    else (if |rows[0].cleaned| > 0 then [rows[0]] else []) + DropEmptyRows(rows[1..])
  }

  /** The filter keeps the dataframe's row order: it works on each part of a split independently. */
  lemma {:induction false} DropEmptyRowsConcat(x: seq<Row>, y: seq<Row>)
    ensures DropEmptyRows(x + y) == DropEmptyRows(x) + DropEmptyRows(y)
    decreases |x|
  {
    if x == [] {
      assert x + y == y;
    } else {
      var s := x + y;
      var head := if |x[0].cleaned| > 0 then [x[0]] else [];
      assert s[0] == x[0] && s[1..] == x[1..] + y;
      assert DropEmptyRows(s) == head + DropEmptyRows(x[1..] + y);
      DropEmptyRowsConcat(x[1..], y);
      ConcatAssoc(head, DropEmptyRows(x[1..]), DropEmptyRows(y));
    }
  }

  /** A missing resume never survives the filter. */
  lemma MissingResumeDropped(raw: seq<(string, Option<string>)>)
    ensures forall row :: row in DropEmptyRows(CleanColumn(raw)) ==>
      exists i :: 0 <= i < |raw| && raw[i].1.Some? && row == Row(raw[i].0, CleanText(raw[i].1))
  {
  }

  /** Python's `int(x)`: truncation toward zero. */
  function Truncate(x: real): (n: int)
    ensures x >= 0.0 ==> n as real <= x < n as real + 1.0
    ensures x < 0.0 ==> n as real - 1.0 < x <= n as real
  {
    if x >= 0.0 then x.Floor else -((-x).Floor)
  }

  const LengthCap: int := 500

  /** `min(int(np.percentile(lengths, 95)), 500)`: the percentile itself is an input. */
  function MaxLength(percentile: real): (m: int)
    ensures m <= LengthCap
    ensures m == LengthCap || m == Truncate(percentile)
    ensures m <= Truncate(percentile)
  {
    if Truncate(percentile) < LengthCap then Truncate(percentile) else LengthCap
  }
}
