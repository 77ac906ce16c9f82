# Resume screening backend: a Dafny model

This project models the deterministic core of a resume-screening web backend. A client posts a resume image and a target job category. The backend then:

1. asks a vision model for the resume's professional text;
2. cleans that text for the classifier;
3. runs a text classifier that gives one score per job category;
4. decides whether the candidate is eligible for the target category, with a suitability tier and a recommendation;
5. asks a language model twice, once for personal feedback and once for a detailed analysis;
6. returns one JSON response.

The model covers these parts:

- **`Predicted`** (`backend/Model/predicted.py`) models `check_eligibility`:
  - the inference-time `clean_text`;
  - the arg-max with numpy's first-index rule;
  - the target validation and its error message;
  - eligibility, the five-tier threshold ladder and the two recommendation templates;
  - the per-category score map.
- **`TextPreprocessing`** (`backend/Model/text_preprocessing.py`) models:
  - the training-time `clean_text`, including the NaN case and the phone-number step;
  - the empty-row filter;
  - the `max_length` cap.
- **`TextExtraction`** (`backend/LLM/text_extraction.py`) models:
  - `clean_for_ml_model`: the formatting steps, the experience-years search and the `professional_terms` list built step by step in a method, plus the alphanumeric body and the final join;
  - the input handling of `extract_resume_text_with_groq_for_ml`: the empty image, the data-URL prefix and the three error messages.
- **`Feedback`** (`backend/LLM/Feedback.py`) models:
  - `convert_numpy_types`;
  - the inputs, prompt choices and result records of the feedback and detailed-analysis requests.
- **`Routes`** (`backend/routes.py`) models:
  - the second `convert_numpy_types`;
  - `main_pipeline`: request validation, the stage-by-stage short-circuit with its 400/500/200 status codes, and the response layout.
- **Shared modules:** `Text` holds the character classes and the whitespace collapse, strip and lower-casing shared by all cleaners. `CleanSteps` holds exact left-to-right models of the `re.sub` calls for tags, URLs, e-mail runs and phone numbers. `Wrappers` holds `Option` and `Result`.

The classifier, the language model, the image decoder and the keyword regexes are parameters of the model (`Predicted.Classifier`, `Routes.Services`, `TextExtraction.Matchers`).

Python `re` behaviour is modelled where it matters:

- `\s` is `str.isspace`.
- Matches are tried leftmost first. `<.*?>` stops at the first `>` on the same line.
- `http\S+|www\S+` needs at least one non-space character after the keyword, and the `https\S+` alternative is never reached.
- `\S+@\S+` deletes the whole whitespace-free run, provided it has an `@` that is neither its first nor its last character.
- `max` over the captured experience numerals is string order (`"9"` beats `"10"`).
- The numpy and Python values that cross module boundaries are a `Value` datatype with both numpy and native variants.

Two behaviours of the code that a reader might not expect:

- **The cleaners are not idempotent.** One might expect cleaning a cleaned text to change nothing. It can: `"h-ttpx"` cleans to `"httpx"`, which is then deleted as a URL (`Predicted.CleanTextNotIdempotent`). Idempotence holds when the cleaned text contains no URL start (`Predicted.CleanTextIdempotentWithoutUrls`). `clean_for_ml_model`, which the route applies twice, puts the experience phrase it found in front of its output again on the second pass, so that output grows (`TextExtraction.SecondPassRepeatsExperience`).
- **The detailed analysis ignores `error`.** The feedback request stops on an `error` key in the eligibility record, but `generate_detailed_resume_analysis_with_groq` never checks for one. In the pipeline that record has no such key, so this is not observable there.

## Model

| member | source | states |
|---|---|---|
| Predicted.CleanText | backend/Model/predicted.py:20-26 | the inference cleaner's output holds only lower-case ASCII letters and single spaces, with no space at either end |
| Predicted.ArgMax | backend/Model/predicted.py:36 | the index of a greatest score, and the first such index, as `np.argmax` picks |
| Predicted.IndexOf | backend/Model/predicted.py:48 | the label encoder's index of a known category: the first position holding it |
| Predicted.Ladder | backend/Model/predicted.py:59-68 | each of the five tiers is chosen exactly on its half-open confidence band (>=0.7, >=0.5, >=0.3, >=0.15, below) |
| Predicted.ScoreMap | backend/Model/predicted.py:84-87 | one (category, rounded score) entry per class, in class order |
| Predicted.Evaluate | backend/Model/predicted.py:36-87 | no contract of its own: see `EligibleIffTargetIsArgMax`, `TierRule`, `RecommendationRule`, `ScoreMapFacts`, `UnknownTargetReported` and `SoftmaxMissCapsTarget` |
| Predicted.CheckEligibility | backend/Model/predicted.py:7-88 | no contract of its own: see `ThresholdIgnored`, and `Routes.ClassifierSeesTwiceCleaned` for how the pipeline calls it |
| Predicted.StrRepr | backend/Model/predicted.py:44 | Python's `repr` of one category name: its own quote at both ends, and at least the name's length in between. `StrReprRoundTrip` and `ReprVerbatim` characterise it |
| Predicted.StrReprRoundTrip | backend/Model/predicted.py:44 | reading the escapes between the quotes back gives the category name again, so `repr` loses nothing |
| Predicted.ReprVerbatim | backend/Model/predicted.py:44 | a name without backslash, control character or both quote kinds is written as it is, between `'` unless it holds a `'`, then between `"` |
| Predicted.QuotedList | backend/Model/predicted.py:44 | no contract of its own: `str(list)`, the `repr` of each category joined by ", "; see `QuotedListNamesAll` |
| Predicted.NotFoundMessage | backend/Model/predicted.py:44 | no contract of its own: the f-string with the target in single quotes and the bracketed list; see `UnknownTargetReported` |
| Predicted.QuotedListNamesAll | backend/Model/predicted.py:44 | the printed category list holds the `repr` of every available category |
| Predicted.UnknownTargetReported | backend/Model/predicted.py:41-45 | the result is the error record exactly when the target is not a known category, and its message holds the `repr` of every available category |
| Predicted.EligibleIffTargetIsArgMax | backend/Model/predicted.py:36-37 | eligible holds exactly when the arg-max class is the target; with distinct labels, exactly when the target's score beats every earlier score and is at least every later one |
| Predicted.TierRule | backend/Model/predicted.py:52-68 | an eligible result is always HIGHLY SUITABLE; otherwise the tier is the ladder applied to the target's unrounded score |
| Predicted.LadderMonotone | backend/Model/predicted.py:59-68 | a higher target score never gives a lower tier |
| Predicted.PositiveText | backend/Model/predicted.py:55 | both positive recommendations start with the RECOMMEND mark |
| Predicted.NegativeText | backend/Model/predicted.py:73 | the negative recommendation starts with NOT RECOMMENDED, not with RECOMMEND, and names both categories |
| Predicted.RecommendationRule | backend/Model/predicted.py:70-74 | the recommendation is positive exactly when the result is eligible or the target score is at least 0.5; otherwise it is negative and names the predicted and target categories |
| Predicted.ScoreMapFacts | backend/Model/predicted.py:80-87 | the score map has one entry per class, in class order. The target confidence is the target's entry. The overall confidence is the predicted category's entry. With a monotone rounding, the overall confidence is at least every entry. |
| Predicted.ThresholdIgnored | backend/Model/predicted.py:7 | the threshold argument never changes the result |
| Predicted.SoftmaxMissCapsTarget | backend/Model/predicted.py:59-60 | for a probability vector, a non-eligible target has score at most 0.5, so its tier is never HIGHLY SUITABLE, and a positive recommendation needs a score of exactly 0.5 |
| Predicted.CleanTextFixpoint | backend/Model/predicted.py:20-26 | normalized text with no URL start anywhere is left unchanged by the cleaner |
| Predicted.CleanTextIdempotentWithoutUrls | backend/Model/predicted.py:20-26 | cleaning twice equals cleaning once when the first result holds no URL start |
| Predicted.CleanTextNotIdempotent | backend/Model/predicted.py:22-24 | a hyphen removed by the letter filter can form a URL that a second pass deletes, so the cleaner is not idempotent |
| Predicted.CleanHyphenatedTrigger | backend/Model/predicted.py:20-26 | "h-ttpx" cleans to "httpx" |
| Predicted.CleanUrlTrigger | backend/Model/predicted.py:22 | "httpx" cleans to the empty string |
| Predicted.UrlNeedsTrigger | backend/Model/predicted.py:22 | a URL match can only start at an 'h' or a 'w' |
| TextPreprocessing.CleanText | backend/Model/text_preprocessing.py:20-46 | a missing value cleans to ""; every output holds only lower-case ASCII letters and single spaces and is trimmed |
| TextPreprocessing.AgreesWithInference | backend/Model/text_preprocessing.py:20-46 | the training cleaner and the inference cleaner give the same output on every string; the extra phone step deletes only characters the letter filter deletes anyway |
| TextPreprocessing.TagContentIgnored | backend/Model/text_preprocessing.py:26 | a one-line `<...>` span with no '<' before it contributes nothing to the output |
| TextPreprocessing.CleanColumn | backend/Model/text_preprocessing.py:49 | the cleaned column has one row per input row, each with its own cleaned text |
| TextPreprocessing.DropEmptyRows | backend/Model/text_preprocessing.py:52 | exactly the rows with non-empty cleaned text are kept |
| TextPreprocessing.DropEmptyRowsConcat | backend/Model/text_preprocessing.py:52 | filtering distributes over concatenation, so row order is kept |
| TextPreprocessing.MissingResumeDropped | backend/Model/text_preprocessing.py:22-52 | every kept row comes from an input row with a resume; rows with a missing resume never survive |
| TextPreprocessing.Truncate | backend/Model/text_preprocessing.py:72 | `int()` truncates toward zero |
| TextPreprocessing.MaxLength | backend/Model/text_preprocessing.py:72-73 | the length is the truncated percentile capped at 500, never above either |
| CleanSteps.CloseAtFinds | backend/Model/text_preprocessing.py:26 | the lazy tag match ends at the first '>' when no newline comes before it |
| CleanSteps.TagSpanDeleted | backend/Model/text_preprocessing.py:26 | a one-line `<...>` span is deleted together with its brackets |
| CleanSteps.Delete | backend/Model/predicted.py:21-23 | `re.sub(pattern, '', s)` scanning left to right (also text_preprocessing.py lines 26-32): never longer than its input; see `UnmatchedPrefixKept`, `TagSpanDeleted`, `UrlDeleted`, `UrlDeletedInRun`, `EmailRunDeleted` and `EmailRunKept` |
| CleanSteps.DeletePhones | backend/Model/text_preprocessing.py:35 | no contract of its own: the `\b\d{3}[-.]?\d{3}[-.]?\d{4}\b` scan; see `PhonesInvisibleAfterFilter` |
| CleanSteps.UrlDeleted | backend/Model/text_preprocessing.py:29 | an "http" or "www" run with at least one further non-space character is deleted up to the next whitespace |
| CleanSteps.UrlDeletedInRun | backend/Model/text_preprocessing.py:29 | the URL pattern has no word boundary: a URL that starts inside a whitespace-free run is deleted from its keyword to the next whitespace, and the text before it is kept |
| CleanSteps.UrlDeletedAfterLabel | backend/Model/text_preprocessing.py:29 | after a label with no 'h' or 'w', such as "Portfolio:", only the URL that follows it is deleted |
| CleanSteps.UnmatchedPrefixKept | backend/Model/text_preprocessing.py:26-29 | a substitution copies text where no match starts and goes on after it |
| CleanSteps.EmailRunDeleted | backend/Model/text_preprocessing.py:32 | a whitespace-free run with an '@' at neither end is deleted entirely |
| CleanSteps.EmailRunKept | backend/Model/text_preprocessing.py:32 | a whitespace-free run without such an '@' is kept |
| CleanSteps.PhonesInvisibleAfterFilter | backend/Model/text_preprocessing.py:35-38 | deleting phone numbers never changes what the letter filter keeps |
| CleanSteps.KeepLettersAndSpaces | backend/Model/text_preprocessing.py:38 | only ASCII letters and whitespace survive, all taken from the input |
| CleanSteps.Finish | backend/Model/text_preprocessing.py:38-44 | the letter filter, whitespace collapse, strip and lower-casing give normalized text |
| CleanSteps.FinishIdentity | backend/Model/text_preprocessing.py:38-44 | normalized text passes the final stages unchanged |
| CleanSteps.LettersAndSpacesSurvive | backend/Model/text_preprocessing.py:41 | collapsing and stripping letter-and-space text leaves letters and single spaces only |
| Text.Collapse | backend/Model/text_preprocessing.py:41 | every whitespace run becomes one space; nothing else changes and nothing is invented |
| Text.CollapseKeepsNonSpace | backend/Model/text_preprocessing.py:41 | the non-whitespace characters come out of the collapse all of them, in order, and nothing else |
| Text.CollapseRun | backend/Model/text_preprocessing.py:41 | a whole whitespace run of any length and kind becomes exactly one space |
| Text.Strip | backend/Model/text_preprocessing.py:41 | the result is trimmed, uses only input characters, stays collapsed, and is empty exactly when the input is all whitespace |
| Text.StripBounds | backend/Model/text_preprocessing.py:41 | the result is a slice of the input, and everything before and after that slice is whitespace |
| Text.Lower | backend/Model/text_preprocessing.py:44 | the same length, every character lower-cased, no upper-case letter left |
| Text.CollapseIdentity | backend/Model/text_preprocessing.py:41 | already-collapsed text is unchanged by the collapse |
| TextExtraction.DeleteStars | backend/LLM/text_extraction.py:105 | no '*' remains, and nothing new appears |
| TextExtraction.DeleteStarsConcat | backend/LLM/text_extraction.py:105 | the deletion distributes over concatenation, so each character is kept or dropped on its own |
| TextExtraction.DeleteHashRuns | backend/LLM/text_extraction.py:106 | no '#' remains, and nothing new appears |
| TextExtraction.DeleteHashRunsKeeps | backend/LLM/text_extraction.py:106 | text without '#' is copied unchanged, whatever follows it |
| TextExtraction.HashRunDeleted | backend/LLM/text_extraction.py:106 | a whole run of '#' and the whole whitespace run after it are deleted, and nothing more |
| TextExtraction.DeleteBullets | backend/LLM/text_extraction.py:107 | no bullet, '-' or '*' remains, and nothing new appears |
| TextExtraction.DeleteBulletsKeeps | backend/LLM/text_extraction.py:107 | text without a bullet character is copied unchanged, whatever follows it |
| TextExtraction.BulletDeleted | backend/LLM/text_extraction.py:107 | one bullet character and the whole whitespace run after it are deleted, and nothing more |
| TextExtraction.NewlinesToSpace | backend/LLM/text_extraction.py:108 | no newline remains; every other character comes from the input |
| TextExtraction.NewlinesKeep | backend/LLM/text_extraction.py:108 | text without a newline is copied unchanged, whatever follows it |
| TextExtraction.NewlineRunReplaced | backend/LLM/text_extraction.py:108 | a whole run of newlines becomes one space |
| TextExtraction.Format | backend/LLM/text_extraction.py:104-109 | the formatted text is collapsed and holds no '#' or bullet |
| TextExtraction.FormatKeeps | backend/LLM/text_extraction.py:104-109 | formatting works left to right: a collapsed stretch with no marker that ends in a non-space is copied, and only what follows is formatted |
| TextExtraction.FormatFixpoint | backend/LLM/text_extraction.py:104-109 | text already in body form is not changed by formatting |
| TextExtraction.ExperienceAt | backend/LLM/text_extraction.py:116 | a match of the experience phrase starts with a non-empty digit run and is at least the digits plus 12 characters long |
| TextExtraction.ExperienceEndsWithWord | backend/LLM/text_extraction.py:116 | a match of the experience phrase ends with the word "experience" in any case |
| TextExtraction.UnitStart | backend/LLM/text_extraction.py:116 | the unit word is looked for after the digits, one optional '+' and only whitespace |
| TextExtraction.ExperienceAtShape | backend/LLM/text_extraction.py:116 | between the digits and the unit word ("year" or "yr", any case) of a match there is at most one '+' and then only whitespace |
| TextExtraction.ExperienceFound | backend/LLM/text_extraction.py:116 | conversely, a numeral followed by " years experience" is a match that ends right after the phrase |
| TextExtraction.ExperienceYears | backend/LLM/text_extraction.py:116 | every captured group is a numeral |
| TextExtraction.ExperienceYearsFound | backend/LLM/text_extraction.py:116 | `re.findall` captures the numeral of a leading "N years experience" phrase and continues after the phrase |
| TextExtraction.StrLessTransitive | backend/LLM/text_extraction.py:118 | Python string order is transitive |
| TextExtraction.StrLessTotal | backend/LLM/text_extraction.py:118 | Python string order is total |
| TextExtraction.MaxStr | backend/LLM/text_extraction.py:118 | `max` returns a captured numeral that no other captured numeral exceeds in string order |
| TextExtraction.NineBeatsTen | backend/LLM/text_extraction.py:118 | "9" beats "10" under `max`, because the order is on strings |
| TextExtraction.Dedupe | backend/LLM/text_extraction.py:124 | the same members as the input, without repeats |
| TextExtraction.Group | backend/LLM/text_extraction.py:121-130 | a keyword group holds the lower-cased matches, each once, with no upper-case letter |
| TextExtraction.ExperienceTerm | backend/LLM/text_extraction.py:116-118 | at most one experience term, present exactly when some experience phrase matched |
| TextExtraction.CollectTerms | backend/LLM/text_extraction.py:113-130 | the list built by the append and the two extends is the experience term, then the technology group, then the role group |
| TextExtraction.Body | backend/LLM/text_extraction.py:133-134 | the body holds only lower-case letters, digits and single spaces, and is trimmed |
| TextExtraction.BodyFixpoint | backend/LLM/text_extraction.py:133-134 | a body passes the body cleaning unchanged |
| TextExtraction.Assemble | backend/LLM/text_extraction.py:137-138 | the final text is collapsed and trimmed |
| TextExtraction.AssembleExact | backend/LLM/text_extraction.py:137-138 | with well-shaped terms, the final text is the terms joined by single spaces, then the body |
| TextExtraction.CleanForMl | backend/LLM/text_extraction.py:78-140 | empty input gives ""; every result is collapsed and trimmed |
| TextExtraction.CleanForMlModel | backend/LLM/text_extraction.py:78-140 | the step-by-step cleaning computes the composed specification |
| TextExtraction.ExperienceLeads | backend/LLM/text_extraction.py:116-137 | when an experience phrase matches, the output begins "N years experience", with N the string-greatest captured numeral |
| TextExtraction.PunctuationSurvivesInTerms | backend/LLM/text_extraction.py:121-137 | every technology match appears lower-cased, punctuation included (such as "node.js"), inside the joined terms that open the output, whatever the set order; only the body is restricted to [a-z0-9 ] |
| TextExtraction.TechTermsHeld | backend/LLM/text_extraction.py:121-137 | the same statement, for the terms and body assembled from a formatted text |
| TextExtraction.SecondPassGrows | backend/LLM/text_extraction.py:113-137 | for a text already in body form that the noise step leaves unchanged and in which terms are found, cleaning re-prepends those terms, so the result is strictly longer |
| TextExtraction.FirstPassBodyForm | backend/LLM/text_extraction.py:113-138 | when the first pass finds terms made of lower-case letters, digits and single spaces, its whole output is in body form and non-empty |
| TextExtraction.SecondPassGrowsOnOutput | backend/routes.py:55-57 | applied to `clean_for_ml_model`'s own output, as the route does, the second pass is strictly longer whenever the first pass found body-form terms, the noise step leaves the output alone, and the second pass finds terms |
| TextExtraction.SecondPassRepeatsExperience | backend/routes.py:55-57 | an experience phrase found by the first pass leads its output and is found again by the second pass, which makes the twice-cleaned text strictly longer than the once-cleaned one |
| TextExtraction.SecondPassWitness | backend/routes.py:55-57 | the hypotheses of the second-pass lemmas can be met: with no noise and no keywords, every "N years experience" grows when its cleaned form is cleaned again |
| TextExtraction.LeadFoundAgain | backend/LLM/text_extraction.py:116-118 | a text that opens with "N years experience" yields at least one experience capture |
| TextExtraction.FirstComma | backend/LLM/text_extraction.py:17-18 | the index of the first comma |
| TextExtraction.UpToComma | backend/LLM/text_extraction.py:18 | the longest comma-free prefix |
| TextExtraction.Payload | backend/LLM/text_extraction.py:17-18 | without a comma the data is kept whole; otherwise only the segment between the first and the next comma is kept |
| TextExtraction.ExtractResumeText | backend/LLM/text_extraction.py:8-76 | no contract of its own: see `ExtractionOutcome`, `Payload` and `CleanForMlModel` |
| TextExtraction.ExtractionOutcome | backend/LLM/text_extraction.py:14-76 | empty data fails with "No image data provided"; success happens exactly when the payload decodes and the vision request succeeds, and then carries the reply and its cleaned form |
| Feedback.Convert | backend/LLM/Feedback.py:6-27 | no contract of its own: see `ConvertShape`, `ConvertItems`, `ConvertMakesNative`, `NativeUnchanged` and `ConvertIdempotent` |
| Feedback.ConvertShape | backend/LLM/Feedback.py:11-24 | dicts keep their keys in order, lists and tuples become lists converted element-wise, and native scalars are returned unchanged |
| Feedback.ConvertItems | backend/LLM/Feedback.py:14 | list conversion keeps the length and converts each element |
| Feedback.ConvertMakesNative | backend/LLM/Feedback.py:6-27 | conversion leaves no numpy value behind |
| Feedback.NativeUnchanged | backend/LLM/Feedback.py:6-27 | a value with no numpy part and no tuple is returned unchanged |
| Feedback.ConvertIdempotent | backend/LLM/Feedback.py:6-27 | converting twice equals converting once |
| Feedback.SortByScore | backend/LLM/Feedback.py:59 | sorting is a permutation of the score entries |
| Feedback.SortDescending | backend/LLM/Feedback.py:59 | the sorted scores are in non-increasing order |
| Feedback.SortStable | backend/LLM/Feedback.py:59 | entries with equal scores keep their dictionary order |
| Feedback.TopMatches | backend/LLM/Feedback.py:59 | at most three entries, all from the scores, and all three unless fewer exist |
| Feedback.TopMatchesAreTop | backend/LLM/Feedback.py:59 | the top matches are in non-increasing order, no left-out entry scores higher than any kept one, and ties keep dictionary order |
| Feedback.Excerpt | backend/LLM/Feedback.py:105 | the first 1000 characters, followed by "..." exactly when the text is longer |
| Feedback.GetOr | backend/LLM/Feedback.py:53-57 | a missing field reads as its default |
| Feedback.BuildFeedbackPrompt | backend/LLM/Feedback.py:53-120 | the persona, status line, heading and closing block are the positive ones exactly when eligible; the top matches are the three best of the scores, the excerpt is the resume's excerpt, and the best fit, confidence and rating are the record's values or their defaults |
| Feedback.PromptFollowsEligibility | backend/LLM/Feedback.py:61-120 | the system prompt and closing block depend only on the eligible flag |
| Feedback.MissingFieldsDefault | backend/LLM/Feedback.py:53-57 | with no fields the prompt is the constructive one, with confidence 0, empty rating and best fit, and no matches |
| Feedback.GenerateFeedback | backend/LLM/Feedback.py:44-163 | an error record is passed through; a success sets the status to "eligible" exactly when eligible, and to "needs_improvement" otherwise |
| Feedback.ErrorPassedThrough | backend/LLM/Feedback.py:46-50 | an error record yields the same error and makes no completion request |
| Feedback.FeedbackOutcome | backend/LLM/Feedback.py:140-163 | the request fails exactly when the completion fails, with the "Failed to generate feedback: " prefix; otherwise the feedback is the completion |
| Feedback.EnvelopeFields | backend/LLM/Feedback.py:149-157 | the success record carries the rating, best fit, confidence and target as given |
| Feedback.BuildAnalysisPrompt | backend/LLM/Feedback.py:173-216 | the eligibility line reads SUITABLE exactly when eligible, and the scores and resume are passed whole |
| Feedback.DetailedAnalysis | backend/LLM/Feedback.py:230-234 | a success returns the converted input record |
| Feedback.AnalysisIgnoresError | backend/LLM/Feedback.py:171-234 | an `error` field changes nothing in the analysis request, which succeeds whenever the completion does |
| Feedback.AnalysisOutcome | backend/LLM/Feedback.py:223-242 | the analysis fails exactly when the completion fails, with the "Failed to generate detailed analysis: " prefix; otherwise it carries the completion |
| Routes.ToNative | backend/routes.py:16-28 | no contract of its own: see `ConversionsAgree`, `ToNativeIdempotent`, `LookupToNative` and `ScoresConverted` |
| Routes.ConversionsAgree | backend/routes.py:16-28 | on values without numpy arrays, tuples or other scalars, the two numpy converters agree |
| Routes.TupleKept | backend/routes.py:19-20 | the route's converter keeps a tuple, while the other one turns it into a list |
| Routes.ToNativeIdempotent | backend/routes.py:16-28 | converting twice equals converting once |
| Routes.LookupFinds | backend/routes.py:108-113 | a key is found exactly when some entry carries it, and then with that entry's value |
| Routes.LookupToNative | backend/routes.py:72 | conversion keeps every key and converts the value under it |
| Routes.ScoresConverted | backend/routes.py:72 | converting the score map gives native floats, which read back as the same scores |
| Routes.ConvertedEntries | backend/routes.py:72 | the converted eligibility record has its eight keys in order, all distinct, with native values |
| Routes.RecordReadsBack | backend/routes.py:72-94 | the feedback functions read back exactly the fields of the assessment |
| Routes.FinalConversionIsIdentity | backend/routes.py:126 | the final conversion leaves the already-converted response unchanged |
| Routes.SuccessBody | backend/routes.py:104-123 | no contract of its own: see `SuccessBodyLayout`, `EligibilityRenamed`, `RecommendationPresent` and `FinalConversionIsIdentity` |
| Routes.LlmStages | backend/routes.py:75-128 | no contract of its own: see `LlmStagesOutcome`, `LlmStagesStatus` and `AssessedSuccess` |
| Routes.AfterAssessment | backend/routes.py:61-128 | no contract of its own: see `AfterAssessmentStatus`, `ClassifierFailureIsServerError` and `UnknownCategoryStops` |
| Routes.MainPipeline | backend/routes.py:31-138 | no contract of its own: see `StatusCodes`, `SuccessResponse`, `MissingFieldsRejected`, `ExtractionFailureStops`, `ClassifierFailureIsServerError` and `UnknownCategoryStops` |
| Routes.SuccessBodyLayout | backend/routes.py:104-123 | the success body has exactly the keys success, extracted_text, eligibility, feedback, detailed_analysis and recommendation, holding the stage outputs |
| Routes.EligibilityRenamed | backend/routes.py:107-114 | the eligibility view renames confidence, score and all_scores, and copies the other fields |
| Routes.RecommendationPresent | backend/routes.py:122 | for an assessed resume the recommendation is the assessment's own text; the '' default is never used |
| Routes.MissingFieldsRejected | backend/routes.py:35-36 | a missing image or category gives 400 with the fixed message, whatever the services do |
| Routes.ExtractionFailureStops | backend/routes.py:48-52 | an extraction failure gives 400 with its error, and no later stage affects the response |
| Routes.ClassifierFailureIsServerError | backend/routes.py:130-138 | an exception in the classifier gives 500 with the "Server error: " prefix, and the language-model stages do not run |
| Routes.UnknownCategoryStops | backend/routes.py:64-68 | an unknown category gives 400 with the classifier's error message, and the language-model stages do not run |
| Routes.LlmStagesOutcome | backend/routes.py:76-128 | a feedback failure gives 400 before the analysis runs; an analysis failure gives 400 with its error; otherwise 200 with the success body |
| Routes.LlmStagesStatus | backend/routes.py:76-128 | the language-model stages answer 200 exactly when both completions succeed, and 400 otherwise |
| Routes.AfterAssessmentStatus | backend/routes.py:61-138 | from the eligibility check on, the status is 200 exactly when the assessment succeeds and both completions succeed; otherwise it is 400 or 500 |
| Routes.StatusCodes | backend/routes.py:30-138 | the pipeline answers 200 exactly when every stage succeeds, and otherwise 400 or 500 |
| Routes.SuccessResponse | backend/routes.py:104-128 | on success, the body carries the once-cleaned text, the renamed eligibility view, the feedback view, the analysis and the recommendation |
| Routes.PipelineReachesStages | backend/routes.py:55-72 | when extraction, the eligibility check and both completions succeed, the answer is the one the completion stages give for the converted record |
| Routes.AssessedSuccess | backend/routes.py:75-128 | for an assessed resume whose two completions succeed, the answer is 200 with the six entries of the success body |
| Routes.ClassifierSeesTwiceCleaned | backend/routes.py:55-61 | the classifier gets the extraction's cleaned text cleaned again by `clean_for_ml_model` and by the inference cleaner, while the response and both language-model requests get the once-cleaned text |

## Left out

- **Loading and training.** Model, tokenizer and pickle loading, `texts_to_sequences`, `pad_sequences` and `model.predict` are foreign Keras calls. They are the `predict` function of `Predicted.Classifier`, which gives a score vector or an exception message. A score vector whose length does not match the label set becomes that classifier's `shapeError`. Model creation, the training scripts, pandas loading, `LabelEncoder` fitting, `train_test_split` and `np.percentile` are not part of this model.
- **Network and images.** Groq requests, base64 decoding and PIL image validation are function parameters that return the reply or the exception message. Groq client creation sits outside the `try` blocks, and its failure is not modelled.
- **Flask.** Routing, CORS, `jsonify`, logging, the traceback and `/health` are not modelled. The request body is reduced to its `image` and `category` entries, and non-string JSON values there are not modelled.
- **Exceptions.** Only the exceptions named above (classifier, decode, vision, completion) are modelled. The unreachable `KeyError`s on the records, and exceptions from the string steps, are not.
- **Numbers.** Scores are reals. `round(x, 3)` is an uninterpreted function, and `Predicted.ScoreMapFacts` assumes it is monotone for its last clause. `:.1%` formatting is not modelled, so `Feedback.FeedbackPrompt` and the feedback view carry the confidence and the scores as numbers. IEEE behaviour and NaN scores are not modelled.
- **Abstract regexes in `clean_for_ml_model`.** The contact, LinkedIn, phone, address, header, date and location deletions (backend/LLM/text_extraction.py:86-101) form one abstract function, `Matchers.stripNoise`. The technology and role keyword searches (lines 121-122 and 127-128) are abstract functions returning the matched text. The experience search ignores ASCII case only: the few non-ASCII letters that Python's `re.IGNORECASE` also folds onto its letters (such as 'ſ' for 's') are not matched.
- **Character classes.** `\d` and `\w` are taken as ASCII digits and letters; Python's Unicode digits are not modelled. Lower-casing is ASCII only.
- **Set order.** The order of `set(...)` in the keyword groups depends on hashing. `TextExtraction.Group`'s contract fixes its members, lower case and no repeats, not the order; the body orders them by first occurrence.
- **Typed feedback inputs.** The feedback functions get the eligibility record as typed optional fields (`Feedback.EligibilityFields`). A field of the wrong type reads as absent. The `TypeError`/`ValueError` fallback to `str(all_scores)` at backend/LLM/Feedback.py:191-195 is not modelled.
- **Dictionaries.** Dict keys are strings, and a dict is a sequence of entries in insertion order. `np.ndarray.tolist()` and `.item()` are modelled for the array and scalar variants of `Feedback.Value` only.
- Feedback.GenerateFeedback: states the status mapping and error passthrough, not the text of the prompt. The prompt's content is stated on `Feedback.BuildFeedbackPrompt`, and the completion is abstract.
- TextExtraction.ExperienceYears: states that every capture is a numeral, and (`TextExtraction.ExperienceYearsFound`) that the "N years experience" form is found. It does not state that every other spelling of the phrase is found ("yrs", "of", "+"). The scanner itself is the definition.
- Predicted.StrRepr: exact for ASCII and for printable non-ASCII characters. Python also escapes non-ASCII characters that `str.isprintable` rejects (for example U+00A0 or U+200B, as `\xa0` or `\u200b`); the model writes those as they are, because the Unicode printability table is not modelled.
- TextExtraction.SecondPassGrowsOnOutput: the growth of the second pass is proved under hypotheses on the abstract regex steps, and so is that of `TextExtraction.SecondPassRepeatsExperience`. The noise deletion must leave the first output unchanged. The first pass's keyword matches must be in body form, with no punctuation such as the '.' of "node.js". The second pass's matches must survive the final collapse and strip. An output whose terms keep punctuation is not in body form, and the model does not say what the second pass does to it.
