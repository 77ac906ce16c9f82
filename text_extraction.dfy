/**
 * `clean_for_ml_model` and the input handling of
 * `extract_resume_text_with_groq_for_ml`: the extracted resume text is
 * stripped of noise, reformatted, mined for experience, technology and role
 * terms, and reduced to a lower-case alphanumeric body behind those terms.
 */
module TextExtraction {
  import opened Wrappers
  import opened Text

  /**
   * The regex steps kept abstract: the contact, address, header, date and
   * location deletions, and the two keyword searches (`re.findall` with
   * `re.IGNORECASE`, matched text as written in the input).
   */
  datatype Matchers = Matchers(
    stripNoise: string -> string,
    techTerms: string -> seq<string>,
    roleTerms: string -> seq<string>)

  // ---------------------------------------------------------------------------
  // Formatting
  // ---------------------------------------------------------------------------

  /** Drops the leading run of `c`. */
  function SkipRun(s: string, c: char): (r: string)
    ensures |r| <= |s| && r == s[|s| - |r|..]
    ensures r == [] || r[0] != c
  {
    if s != [] && s[0] == c then
      var r := SkipRun(s[1..], c);
      assert s[1..][|s| - 1 - |r|..] == s[|s| - |r|..];
      r
    else s
  }

  /** `re.sub(r'\*+', '', s)`. */
  function DeleteStars(s: string): (r: string)
    ensures '*' !in r
    ensures forall c :: c in r ==> c in s
  {
    if s == [] then []
    else (if s[0] == '*' then [] else [s[0]]) + DeleteStars(s[1..])
  }

  /** `re.sub(r'#+\s*', '', s)`: a run of '#' and the whitespace after it go. */
  function DeleteHashRuns(s: string): (r: string)
    ensures '#' !in r
    ensures forall c :: c in r ==> c in s
  {
    if s == [] then []
    else if s[0] == '#' then DeleteHashRuns(SkipSpaces(SkipRun(s, '#')))
    else [s[0]] + DeleteHashRuns(s[1..])
  }

  predicate IsBullet(c: char) { c == '\U{2022}' || c == '-' || c == '*' }

  /** `re.sub(r'[•\-\*]\s*', '', s)`: a bullet character and the whitespace after it go. */
  function DeleteBullets(s: string): (r: string)
    ensures forall c :: c in r ==> !IsBullet(c) && c in s
  {
    if s == [] then []
    else if IsBullet(s[0]) then DeleteBullets(SkipSpaces(s[1..]))
    else [s[0]] + DeleteBullets(s[1..])
  }

  /** `re.sub(r'\n+', ' ', s)`. */
  function NewlinesToSpace(s: string): (r: string)
    ensures '\n' !in r
    ensures forall c :: c in r && c != ' ' ==> c in s
  {
    if s == [] then []
    else if s[0] == '\n' then " " + NewlinesToSpace(SkipRun(s, '\n'))
    else [s[0]] + NewlinesToSpace(s[1..])
  }

  /** Lines 105-109: asterisks, hash marks and bullets removed, newlines and whitespace runs made single spaces. */
  function Format(s: string): (r: string)
    ensures Collapsed(r)
    ensures forall c :: c in r ==> c != '#' && !IsBullet(c)
  {
    var marked := DeleteBullets(DeleteHashRuns(DeleteStars(s)));
    var r := Collapse(NewlinesToSpace(marked));
    assert forall c :: c in r ==> c == ' ' || c in marked;
    r
  }

  // ---------------------------------------------------------------------------
  // Years of experience
  // ---------------------------------------------------------------------------

  /** Under `re.IGNORECASE`, `s` starts with the lower-case literal `lit` (ASCII case folding). */
  predicate StartsWithNoCase(s: string, lit: string) {
    |lit| <= |s| && forall i :: 0 <= i < |lit| ==> ToLower(s[i]) == lit[i]
  }

  /** Length of the leading run of digits: what a greedy `\d+` takes. */
  function DigitRun(s: string): (n: nat)
    ensures n <= |s|
    ensures forall i :: 0 <= i < n ==> IsDigit(s[i])
    ensures n == |s| || !IsDigit(s[n])
  {
    if s != [] && IsDigit(s[0]) then 1 + DigitRun(s[1..]) else 0
  }

  /** Length of the leading run of whitespace: what a greedy `\s*` takes. */
  function SpaceRun(s: string): (n: nat)
    ensures n <= |s|
    ensures n == |s| || !IsSpace(s[n])
  {
    |s| - |SkipSpaces(s)|
  }

  /** Where a greedy `\s*` that starts at index `i` stops. */
  function SpacesFrom(s: string, i: nat): (j: nat)
    requires i <= |s|
    ensures i <= j <= |s|
    ensures j == |s| || !IsSpace(s[j])
  {
    i + SpaceRun(s[i..])
  }

  /** Where the literal `lit` (ignoring case) that starts at index `i` ends, if it is there. */
  function LiteralAt(s: string, i: nat, lit: string): (r: Option<nat>)
    requires i <= |s|
    ensures r.Some? ==> r.value == i + |lit| <= |s|
    ensures r.Some? <==> StartsWithNoCase(s[i..], lit)
  {
    if StartsWithNoCase(s[i..], lit) then Some(i + |lit|) else None
  }

  /**
   * Where a match of `(\d+)\+?\s*(?:years?|yrs?)\s*(?:of\s*)?experience`
   * (ignoring case) that starts at the beginning of `s` ends. No step of this
   * pattern ever needs to give back what it took, so the match is found by
   * one greedy pass.
   */
  function ExperienceAt(s: string): (r: Option<nat>)
    ensures r.Some? ==> 0 < DigitRun(s) < r.value <= |s|
    ensures r.Some? ==> DigitRun(s) + 12 <= r.value
  {
    if DigitRun(s) == 0 then None else UnitPhraseEnd(s, UnitStart(s))
  }

  /** Where `(?:years?|yrs?)\s*(?:of\s*)?experience` (ignoring case) that starts at index `i` ends. */
  function UnitPhraseEnd(s: string, i: nat): (r: Option<nat>)
    requires i <= |s|
    ensures r.Some? ==> i + 12 <= r.value <= |s|
  {
    match UnitEnd(s, i)
    case None => None
    case Some(u) => ExperienceWordEnd(s, u)
  }

  /** Where the unit word is looked for: after the digits, an optional '+' and `\s*`. */
  function UnitStart(s: string): (j: nat)
    ensures DigitRun(s) <= j <= |s|
    ensures forall k :: DigitRun(s) <= k < j ==> IsSpace(s[k]) || (k == DigitRun(s) && s[k] == '+')
  {
    var digits := DigitRun(s);
    var afterPlus := if digits < |s| && s[digits] == '+' then digits + 1 else digits;
    SpacesAll(s, afterPlus);
    SpacesFrom(s, afterPlus)
  }

  /** Everything a greedy `\s*` at `i` takes is whitespace. */
  lemma SpacesAll(s: string, i: nat)
    requires i <= |s|
    ensures forall k :: i <= k < SpacesFrom(s, i) ==> IsSpace(s[k])
  {
    var t := s[i..];
    forall k | i <= k < SpacesFrom(s, i)
      ensures IsSpace(s[k])
    {
      assert s[k] == t[k - i];
    }
  }

  /** Where `(?:years?|yrs?)` (ignoring case) that starts at index `i` ends. */
  function UnitEnd(s: string, i: nat): (r: Option<nat>)
    requires i <= |s|
    ensures r.Some? ==> i + 2 <= r.value <= |s|
    ensures r.Some? <==> StartsWithNoCase(s[i..], "year") || StartsWithNoCase(s[i..], "yr")
  {
    var year := LiteralAt(s, i, "year");
    var unit := if year.Some? then year else LiteralAt(s, i, "yr");
    if unit.None? then None
    else
      var p := unit.value;
      Some(if p < |s| && ToLower(s[p]) == 's' then p + 1 else p)
  }

  /** Where `\s*(?:of\s*)?experience` (ignoring case) that starts at index `i` ends. */
  function ExperienceWordEnd(s: string, i: nat): (r: Option<nat>)
    requires i <= |s|
    ensures r.Some? ==> i + 10 <= r.value <= |s|
  {
    var ofAt := SpacesFrom(s, i);
    var of := LiteralAt(s, ofAt, "of");
    var expAt := if of.Some? then SpacesFrom(s, of.value) else ofAt;
    LiteralAt(s, expAt, "experience")
  }

  /** A non-empty string of digits. */
  predicate IsNumeral(x: string) {
    x != [] && forall j :: 0 <= j < |x| ==> IsDigit(x[j])
  }

  /** `re.findall` of the experience pattern: the digit group of every match, left to right. */
  function ExperienceYears(s: string): (r: seq<string>)
    ensures forall x :: x in r ==> IsNumeral(x)
    decreases |s|
  {
    if s == [] then []
    else match ExperienceAt(s)
      case Some(n) =>
        var d := DigitRun(s);
        LeadingNumeral(s, d);
        [s[..d]] + ExperienceYears(s[n..])
      case None => ExperienceYears(s[1..])
  }

  lemma LeadingNumeral(s: string, d: nat)
    requires 0 < d <= |s| && forall i :: 0 <= i < d ==> IsDigit(s[i])
    ensures IsNumeral(s[..d])
  {
  }

  /**
   * A match has the phrase's shape: digits, at most one '+', whitespace and
   * a unit word at `u` ("year" or "yr", any case); the word "experience"
   * comes last (`ExperienceAt`'s own contract).
   */
  lemma ExperienceAtShape(s: string) returns (u: nat)
    requires ExperienceAt(s).Some?
    ensures var d := DigitRun(s);
      && d <= u && u + 2 + 10 <= ExperienceAt(s).value
      && (StartsWithNoCase(s[u..], "year") || StartsWithNoCase(s[u..], "yr"))
      && (forall k :: d <= k < u ==> IsSpace(s[k]) || (k == d && s[k] == '+'))
  {
    u := UnitStart(s);
  }

  /** The text just before index `e` is `lit`, ignoring case. */
  predicate EndsWithLiteral(s: string, e: nat, lit: string) {
    |lit| <= e <= |s| && StartsWithNoCase(s[e - |lit|..], lit)
  }

  /** A match ends with the word "experience", in any case. */
  lemma ExperienceEndsWithWord(s: string)
    requires ExperienceAt(s).Some?
    ensures EndsWithLiteral(s, ExperienceAt(s).value, "experience")
  {
    UnitPhraseShape(s, UnitStart(s));
    assert ExperienceAt(s) == UnitPhraseEnd(s, UnitStart(s));
  }

  /** The unit word and the tail after it end with the word "experience". */
  lemma UnitPhraseShape(s: string, i: nat)
    requires i <= |s|
    ensures var r := UnitPhraseEnd(s, i);
      r.Some? ==> EndsWithLiteral(s, r.value, "experience")
  {
    var unit := UnitEnd(s, i);
    if unit.Some? {
      var e := ExperienceWordEnd(s, unit.value);
      assert UnitPhraseEnd(s, i) == e;
      WordEndShape(s, unit.value);
    }
  }

  /** The tail after the unit word ends with the word "experience". */
  lemma WordEndShape(s: string, i: nat)
    requires i <= |s|
    ensures var r := ExperienceWordEnd(s, i);
      r.Some? ==> EndsWithLiteral(s, r.value, "experience")
  {
  }

  /** Conversely, a numeral followed by " years experience" is a match, and ends there. */
  lemma ExperienceFound(d: string, rest: string)
    requires IsNumeral(d)
    ensures ExperienceAt(d + " years experience" + rest) == Some(|d| + 17)
  {
    var q := " years experience" + rest;
    assert d + " years experience" + rest == d + q;
    PhraseFacts(q, rest);
    NumeralThenPhrase(d, q);
  }

  /** A numeral followed by a text that opens with the phrase's shape. */
  lemma NumeralThenPhrase(d: string, q: string)
    requires IsNumeral(d)
    requires |q| >= 17 && q[0] == ' ' && q[5] == 's' && q[6] == ' '
    requires StartsWithNoCase(q[1..], "year") && StartsWithNoCase(q[7..], "experience")
    ensures ExperienceAt(d + q) == Some(|d| + 17)
  {
    var s := d + q;
    var n := |d|;
    assert s[n..] == q;
    assert s[n + 1..] == q[1..] && s[n + 7..] == q[7..];
    DigitRunOfNumeral(s, n);
    ExperienceAtParts(s, n);
  }

  /** The characters of " years experience" that the scan looks at. */
  lemma PhraseFacts(q: string, rest: string)
    requires q == " years experience" + rest
    ensures |q| >= 17 && q[0] == ' ' && q[5] == 's' && q[6] == ' '
    ensures StartsWithNoCase(q[1..], "year") && StartsWithNoCase(q[7..], "experience")
  {
    var year := q[1..];
    forall k | 0 <= k < 4
      ensures ToLower(year[k]) == "year"[k]
    {
    }
    var exp := q[7..];
    forall k | 0 <= k < 10
      ensures ToLower(exp[k]) == "experience"[k]
    {
    }
  }

  /** The scan, step by step, over digits, one space, "years", one space and "experience". */
  lemma ExperienceAtParts(s: string, n: nat)
    requires 0 < n && n + 17 <= |s| && DigitRun(s) == n
    requires s[n] == ' ' && s[n + 5] == 's' && s[n + 6] == ' '
    requires StartsWithNoCase(s[n + 1..], "year") && StartsWithNoCase(s[n + 7..], "experience")
    ensures ExperienceAt(s) == Some(n + 17)
  {
    NoCaseHead(s, n + 1, "year");
    SpaceThenWord(s, n);
    UnitStartAfterSpace(s, n);
    UnitYears(s, n + 1);
    NoCaseHead(s, n + 7, "experience");
    SpaceThenWord(s, n + 6);
    ExperienceWordAt(s, n + 7);
    assert UnitPhraseEnd(s, n + 1) == Some(n + 17);
  }

  /** With a space and no '+' after the digits, the unit word is looked for right after that space. */
  lemma UnitStartAfterSpace(s: string, n: nat)
    requires n + 1 < |s| && DigitRun(s) == n && s[n] == ' '
    requires SpacesFrom(s, n) == n + 1
    ensures UnitStart(s) == n + 1
  {
  }

  /** A literal that starts with a lower-case letter starts at a character that is no whitespace. */
  lemma NoCaseHead(s: string, i: nat, lit: string)
    requires i < |s| && lit != [] && IsLower(lit[0])
    requires StartsWithNoCase(s[i..], lit)
    ensures !IsSpace(s[i]) && ToLower(s[i]) == lit[0]
  {
    assert s[i..][0] == s[i];
  }

  lemma UnitYears(s: string, i: nat)
    requires i + 5 <= |s| && StartsWithNoCase(s[i..], "year") && s[i + 4] == 's'
    ensures UnitEnd(s, i) == Some(i + 5)
  {
  }

  lemma ExperienceWordAt(s: string, i: nat)
    requires 0 < i && i + 10 <= |s| && SpacesFrom(s, i - 1) == i
    requires StartsWithNoCase(s[i..], "experience")
    ensures ExperienceWordEnd(s, i - 1) == Some(i + 10)
  {
    assert ToLower(s[i..][0]) == 'e';
    assert !StartsWithNoCase(s[i..], "of");
  }

  /** A greedy `\d+` over a numeral followed by a non-digit takes exactly the numeral. */
  lemma DigitRunOfNumeral(s: string, n: nat)
    requires 0 < n < |s| && !IsDigit(s[n])
    requires forall i :: 0 <= i < n ==> IsDigit(s[i])
    ensures DigitRun(s) == n
  {
  }

  /** One space at `i`, then no whitespace: a greedy `\s*` at `i` takes the one space. */
  lemma SpaceThenWord(s: string, i: nat)
    requires i + 1 < |s| && s[i] == ' ' && !IsSpace(s[i + 1])
    ensures SpacesFrom(s, i) == i + 1
  {
    var t := s[i..];
    assert t[1..] == s[i + 1..];
    assert SkipSpaces(t) == SkipSpaces(t[1..]);
  }

  /** `re.findall` takes the numeral of a "N years experience" phrase and goes on after it. */
  lemma ExperienceYearsFound(d: string, rest: string)
    requires IsNumeral(d)
    ensures ExperienceYears(d + " years experience" + rest) == [d] + ExperienceYears(rest)
  {
    var s := d + " years experience" + rest;
    ExperienceFound(d, rest);
    PhraseSplit(d, rest, s);
    DigitRunOfNumeral(s, |d|);
    ExperienceYearsAt(s, |d|, |d| + 17);
  }

  /** Where the numeral, the phrase and the rest sit in the text they make up. */
  lemma PhraseSplit(d: string, rest: string, s: string)
    requires IsNumeral(d) && s == d + " years experience" + rest
    ensures |d| + 17 <= |s| && s[|d|] == ' '
    ensures forall i :: 0 <= i < |d| ==> IsDigit(s[i])
    ensures s[..|d|] == d && s[|d| + 17..] == rest
  {
  }

  /** A match at the start of `s` contributes its numeral, and `findall` goes on after it. */
  lemma ExperienceYearsAt(s: string, n: nat, e: nat)
    requires s != [] && DigitRun(s) == n && ExperienceAt(s) == Some(e)
    ensures ExperienceYears(s) == [s[..n]] + ExperienceYears(s[e..])
  {
  }

  // ---------------------------------------------------------------------------
  // Python's ordering of strings, and `max`
  // ---------------------------------------------------------------------------

  /** `a < b` on Python strings: lexicographic by code point, a proper prefix first. */
  predicate StrLess(a: string, b: string)
    decreases |a|
  {
    if a == [] then b != []
    else b != [] && (a[0] < b[0] || (a[0] == b[0] && StrLess(a[1..], b[1..])))
  }

  lemma {:induction false} StrLessIrreflexive(a: string)
    ensures !StrLess(a, a)
    decreases |a|
  {
    if a != [] {
      StrLessIrreflexive(a[1..]);
    }
  }

  lemma {:induction false} StrLessTransitive(a: string, b: string, c: string)
    requires StrLess(a, b) && StrLess(b, c)
    ensures StrLess(a, c)
    decreases |a|
  {
    if a != [] && a[0] == b[0] && b[0] == c[0] {
      StrLessTransitive(a[1..], b[1..], c[1..]);
    }
  }

  lemma {:induction false} StrLessTotal(a: string, b: string)
    ensures a == b || StrLess(a, b) || StrLess(b, a)
    decreases |a|
  {
    if a != [] && b != [] && a[0] == b[0] {
      StrLessTotal(a[1..], b[1..]);
      if a[1..] == b[1..] {
        assert a == [a[0]] + a[1..] && b == [b[0]] + b[1..];
      }
    }
  }

  /** The loop inside `max`: the running maximum is replaced only by a strictly greater item. */
  function MaxFrom(best: string, rest: seq<string>): (r: string)
    ensures r == best || r in rest
    decreases |rest|
  {
    if rest == [] then best
    else MaxFrom(if StrLess(best, rest[0]) then rest[0] else best, rest[1..])
  }

  lemma {:induction false} MaxFromIsMaximal(best: string, rest: seq<string>)
    ensures !StrLess(MaxFrom(best, rest), best)
    ensures forall x :: x in rest ==> !StrLess(MaxFrom(best, rest), x)
    decreases |rest|
  {
    var r := MaxFrom(best, rest);
    if rest == [] {
      StrLessIrreflexive(best);
    } else {
      var next := if StrLess(best, rest[0]) then rest[0] else best;
      MaxFromIsMaximal(next, rest[1..]);
      assert r == MaxFrom(next, rest[1..]);
      if StrLess(r, best) {
        if StrLess(best, rest[0]) {
          StrLessTransitive(r, best, rest[0]);
        }
      }
      if StrLess(r, rest[0]) {
        if !StrLess(best, rest[0]) {
          StrLessTotal(best, rest[0]);
          if rest[0] != best {
            StrLessTransitive(r, rest[0], best);
          }
        }
      }
      forall x | x in rest ensures !StrLess(r, x) {
        if x != rest[0] {
          assert x in rest[1..];
        }
      }
    }
  }

  /** `max(items)` on strings: one of the items, and no item is greater. */
  function MaxStr(items: seq<string>): (m: string)
    requires items != []
    ensures m in items
    ensures forall x :: x in items ==> !StrLess(m, x)
  {
    MaxFromIsMaximal(items[0], items[1..]);
    assert forall x :: x in items ==> x == items[0] || x in items[1..];
    MaxFrom(items[0], items[1..])
  }

  /** String order, not numeric order: 9 years beat 10 years. */
  lemma NineBeatsTen()
    ensures MaxStr(["10", "9"]) == "9"
  {
    assert StrLess("10", "9");
  }

  // ---------------------------------------------------------------------------
  // Keyword groups
  // ---------------------------------------------------------------------------

  /**
   * `set(items)` listed once per distinct item. Python iterates a set in an
   * order that depends on string hashing; first-occurrence order stands in for it.
   */
  function Dedupe(items: seq<string>): (r: seq<string>)
    ensures forall x :: x in r <==> x in items
    ensures forall i, j :: 0 <= i < j < |r| ==> r[i] != r[j]
  {
    if items == [] then []
    else
      var r := Dedupe(items[..|items| - 1]);
      assert forall x :: x in items <==> x in items[..|items| - 1] || x == items[|items| - 1];
      if items[|items| - 1] in r then r else r + [items[|items| - 1]]
  }

  /** `[t.lower() for t in matches]`. */
  function LowerAll(matches: seq<string>): (r: seq<string>)
    ensures |r| == |matches|
    ensures forall i :: 0 <= i < |matches| ==> r[i] == Lower(matches[i])
  {
    seq(|matches|, i requires 0 <= i < |matches| => Lower(matches[i]))
  }

  /** `set([t.lower() for t in matches])`: exactly the lower-cased matches, each once. */
  function Group(matches: seq<string>): (r: seq<string>)
    ensures forall t :: t in r <==> t in LowerAll(matches)
    ensures forall i, j :: 0 <= i < j < |r| ==> r[i] != r[j]
    ensures forall t :: t in r ==> forall k :: 0 <= k < |t| ==> !IsUpper(t[k])
  {
    Dedupe(LowerAll(matches))
  }

  // ---------------------------------------------------------------------------
  // Body and final assembly
  // ---------------------------------------------------------------------------

  predicate BodyChar(c: char) { IsLower(c) || IsDigit(c) || c == ' ' }

  /** Lower-case letters, digits and single inner spaces only. */
  ghost predicate BodyForm(s: string) {
    (forall i :: 0 <= i < |s| ==> BodyChar(s[i])) && Collapsed(s) && Trimmed(s)
  }

  /** `re.sub(r'[^a-zA-Z0-9\s]', ' ', s)`. */
  function AlnumOrSpace(s: string): (r: string)
    ensures |r| == |s|
    ensures forall i :: 0 <= i < |s| ==> r[i] == (if IsLetter(s[i]) || IsDigit(s[i]) || IsSpace(s[i]) then s[i] else ' ')
  {
    seq(|s|, i requires 0 <= i < |s| => if IsLetter(s[i]) || IsDigit(s[i]) || IsSpace(s[i]) then s[i] else ' ')
  }

  /** Lines 133-134: punctuation to spaces, whitespace collapsed, stripped, lower-cased. */
  function Body(text: string): (r: string)
    ensures BodyForm(r)
  {
    var kept := AlnumOrSpace(text);
    var stripped := Strip(Collapse(kept));
    AlnumSurvives(kept, stripped);
    LowerKeepsBody(stripped);
    Lower(stripped)
  }

  lemma AlnumSurvives(kept: string, stripped: string)
    requires forall i :: 0 <= i < |kept| ==> IsLetter(kept[i]) || IsDigit(kept[i]) || IsSpace(kept[i])
    requires stripped == Strip(Collapse(kept))
    ensures forall i :: 0 <= i < |stripped| ==> IsLetter(stripped[i]) || IsDigit(stripped[i]) || stripped[i] == ' '
    ensures Collapsed(stripped) && Trimmed(stripped)
  {
    var c := Collapse(kept);
    forall i | 0 <= i < |stripped|
      ensures IsLetter(stripped[i]) || IsDigit(stripped[i]) || stripped[i] == ' '
    {
      assert stripped[i] in c;
      if stripped[i] != ' ' {
        assert stripped[i] in kept;
      }
    }
  }

  lemma LowerKeepsBody(s: string)
    requires forall i :: 0 <= i < |s| ==> IsLetter(s[i]) || IsDigit(s[i]) || s[i] == ' '
    requires Collapsed(s) && Trimmed(s)
    ensures BodyForm(Lower(s))
  {
    var r := Lower(s);
    assert forall i :: 0 <= i < |s| ==> (IsSpace(r[i]) <==> IsSpace(s[i])) && (s[i] == ' ' ==> r[i] == ' ');
  }

  /** Lines 137-138: the terms joined by spaces, a space, the body; whitespace collapsed, stripped. */
  function Assemble(terms: seq<string>, body: string): (r: string)
    ensures Collapsed(r) && Trimmed(r)
  {
    Strip(Collapse(Join(terms) + " " + body))
  }

  // ---------------------------------------------------------------------------
  // clean_for_ml_model
  // ---------------------------------------------------------------------------

  /** Lines 116-118: "N years experience" for the greatest captured numeral N, when there is one. */
  function ExperienceTerm(text: string): (r: seq<string>)
    ensures |r| <= 1
    ensures r != [] <==> ExperienceYears(text) != []
  {
    var years := ExperienceYears(text);
    if years == [] then [] else [MaxStr(years) + " years experience"]
  }

  lemma NoMatchesNoGroup(matches: seq<string>)
    requires matches == []
    ensures Group(matches) == []
  {
  }

  /** The professional terms in the order they are collected: experience, technologies, roles. */
  function Terms(text: string, m: Matchers): seq<string> {
    ExperienceTerm(text) + Group(m.techTerms(text)) + Group(m.roleTerms(text))
  }

  /** What `clean_for_ml_model` returns. */
  function CleanForMl(text: string, m: Matchers): (r: string)
    ensures Collapsed(r) && Trimmed(r)
    ensures text == [] ==> r == []
  {
    if text == [] then []
    else
      var formatted := Format(m.stripNoise(text));
      Assemble(Terms(formatted, m), Body(formatted))
  }

  /** `clean_for_ml_model`, collecting the professional terms in a list that grows step by step. */
  method CleanForMlModel(text: string, m: Matchers) returns (r: string)
    ensures r == CleanForMl(text, m)
  {
    if text == [] {
      return [];
    }
    var formatted := m.stripNoise(text);
    formatted := Format(formatted);
    var terms := CollectTerms(formatted, m);
    r := Assemble(terms, Body(formatted));
  }

  /** Lines 113-128: the list of professional terms, appended to in three steps. */
  method CollectTerms(formatted: string, m: Matchers) returns (terms: seq<string>)
    ensures terms == Terms(formatted, m)
  {
    terms := [];
    var years := ExperienceYears(formatted);
    if years != [] {
      terms := terms + [MaxStr(years) + " years experience"];
    }
    assert terms == ExperienceTerm(formatted);
    var tech := m.techTerms(formatted);
    if tech != [] {
      terms := terms + Group(tech);
    } else {
      NoMatchesNoGroup(tech);
    }
    assert terms == ExperienceTerm(formatted) + Group(tech);
    var roles := m.roleTerms(formatted);
    if roles != [] {
      terms := terms + Group(roles);
    } else {
      NoMatchesNoGroup(roles);
    }
  }

  // ---------------------------------------------------------------------------
  // Properties of clean_for_ml_model
  // ---------------------------------------------------------------------------

  /** A term that survives the final collapse and strip as it is. */
  ghost predicate Shaped(t: string) {
    t != [] && Collapsed(t) && Trimmed(t)
  }

  lemma ExperienceTermShaped(n: string)
    requires IsNumeral(n)
    ensures Shaped(n + " years experience")
  {
    var t := n + " years experience";
    assert forall i :: 0 <= i < |n| ==> t[i] == n[i];
  }

  /**
   * The first term opens the final text whatever follows it, and is followed
   * by a space or nothing.
   */
  lemma FirstTermLeads(terms: seq<string>, body: string)
    requires terms != [] && Shaped(terms[0])
    ensures var r := Assemble(terms, body);
      |terms[0]| <= |r| && r[..|terms[0]|] == terms[0] && (|r| > |terms[0]| ==> r[|terms[0]|] == ' ')
  {
    var p := terms[0];
    var x := if |terms| == 1 then " " + body else " " + Join(terms[1..]) + " " + body;
    assert Join(terms) + " " + body == p + x;
    CollapsePrefix(p, x);
    assert Collapse(x)[0] == ' ';
    StripPrefix(p, Collapse(x));
  }

  /**
   * When an experience phrase is found, the output begins "N years experience"
   * with N the greatest captured numeral under string order.
   */
  lemma ExperienceLeads(text: string, m: Matchers)
    requires text != []
    requires ExperienceYears(Format(m.stripNoise(text))) != []
    ensures var years := ExperienceYears(Format(m.stripNoise(text)));
      var n := MaxStr(years);
      var lead := n + " years experience";
      var r := CleanForMl(text, m);
      && n in years && (forall y :: y in years ==> !StrLess(n, y))
      && |lead| <= |r| && r[..|lead|] == lead && (|r| > |lead| ==> r[|lead|] == ' ')
  {
    var formatted := Format(m.stripNoise(text));
    var n := MaxStr(ExperienceYears(formatted));
    ExperienceTermShaped(n);
    FirstTermLeads(Terms(formatted, m), Body(formatted));
  }

  /** `t` sits in `s` somewhere within its first `n` characters. */
  ghost predicate HeldWithin(s: string, t: string, n: nat) {
    exists k: nat :: k + |t| <= n && SitsAt(s, t, k)
  }

  /**
   * Only the body is reduced to letters, digits and spaces: the output opens
   * with the joined professional terms, and every technology match appears
   * inside that opening lower-cased but otherwise as matched, punctuation
   * included (the '.' of "Node.js"). Where in the opening it appears depends
   * on the set's order and is left open.
   */
  lemma PunctuationSurvivesInTerms(text: string, m: Matchers)
    requires text != []
    requires forall t :: t in m.techTerms(Format(m.stripNoise(text))) ==> Shaped(Lower(t))
    requires forall t :: t in m.roleTerms(Format(m.stripNoise(text))) ==> Shaped(Lower(t))
    ensures var formatted := Format(m.stripNoise(text));
      var n := |Join(Terms(formatted, m))|;
      && n <= |CleanForMl(text, m)|
      && forall t :: t in m.techTerms(formatted) ==> HeldWithin(CleanForMl(text, m), Lower(t), n)
  {
    var formatted := Format(m.stripNoise(text));
    assert CleanForMl(text, m) == Assemble(Terms(formatted, m), Body(formatted));
    TechTermsHeld(formatted, m);
  }

  /** The same, for the assembled terms and body of a formatted text. */
  lemma TechTermsHeld(formatted: string, m: Matchers)
    requires forall t :: t in m.techTerms(formatted) ==> Shaped(Lower(t))
    requires forall t :: t in m.roleTerms(formatted) ==> Shaped(Lower(t))
    ensures var terms := Terms(formatted, m);
      var r := Assemble(terms, Body(formatted));
      && |Join(terms)| <= |r|
      && forall t :: t in m.techTerms(formatted) ==> HeldWithin(r, Lower(t), |Join(terms)|)
  {
    var terms := Terms(formatted, m);
    var body := Body(formatted);
    TermsShaped(formatted, m);
    AssembledOpensWithTerms(terms, body);
    forall t | t in m.techTerms(formatted)
      ensures HeldWithin(Assemble(terms, body), Lower(t), |Join(terms)|)
    {
      var j := TechTermListed(formatted, m, t);
      var k := AssembledTermHolds(terms, body, j);
    }
  }

  /** A technology match, lower-cased, is among the collected terms. */
  lemma TechTermListed(formatted: string, m: Matchers, t: string) returns (j: nat)
    requires t in m.techTerms(formatted)
    ensures j < |Terms(formatted, m)| && Terms(formatted, m)[j] == Lower(t)
  {
    var j' := GroupHolds(m.techTerms(formatted), t);
    j := |ExperienceTerm(formatted)| + j';
    MiddleIndex(ExperienceTerm(formatted), Group(m.techTerms(formatted)), Group(m.roleTerms(formatted)), j');
  }

  lemma MiddleIndex(e: seq<string>, g: seq<string>, rest: seq<string>, j: nat)
    requires j < |g|
    ensures |e| + j < |e + g + rest| && (e + g + rest)[|e| + j] == g[j]
  {
  }

  /** Where a match, lower-cased, sits in its group. */
  lemma GroupHolds(matches: seq<string>, t: string) returns (j: nat)
    requires t in matches
    ensures j < |Group(matches)| && Group(matches)[j] == Lower(t)
  {
    var i :| 0 <= i < |matches| && matches[i] == t;
    var low := LowerAll(matches);
    assert low[i] == Lower(t);
    var g := Group(matches);
    assert Lower(t) in g;
    j :| 0 <= j < |g| && g[j] == Lower(t);
  }

  /** The assembled text opens with the joined terms. */
  lemma AssembledOpensWithTerms(terms: seq<string>, body: string)
    requires forall i :: 0 <= i < |terms| ==> Shaped(terms[i])
    requires Collapsed(body) && Trimmed(body)
    ensures var n := |Join(terms)|; n <= |Assemble(terms, body)| && Assemble(terms, body)[..n] == Join(terms)
  {
    AssembleExact(terms, body);
  }

  /** Where term `j` sits in the assembled text: inside the joined terms. */
  lemma AssembledTermHolds(terms: seq<string>, body: string, j: nat) returns (k: nat)
    requires forall i :: 0 <= i < |terms| ==> Shaped(terms[i])
    requires Collapsed(body) && Trimmed(body)
    requires j < |terms|
    ensures k + |terms[j]| <= |Join(terms)| && SitsAt(Assemble(terms, body), terms[j], k)
  {
    AssembledOpensWithTerms(terms, body);
    k := JoinHolds(terms, j);
    SitsInPrefix(Assemble(terms, body), Join(terms), terms[j], k);
  }

  /** What sits in a prefix sits at the same place in the whole text. */
  lemma SitsInPrefix(r: string, p: string, t: string, k: nat)
    requires |p| <= |r| && r[..|p|] == p
    requires SitsAt(p, t, k)
    ensures SitsAt(r, t, k)
  {
    assert r[k..k + |t|] == p[k..k + |t|];
  }

  /** Every collected term survives the final collapse and strip as it is. */
  lemma TermsShaped(formatted: string, m: Matchers)
    requires forall t :: t in m.techTerms(formatted) ==> Shaped(Lower(t))
    requires forall t :: t in m.roleTerms(formatted) ==> Shaped(Lower(t))
    ensures forall i :: 0 <= i < |Terms(formatted, m)| ==> Shaped(Terms(formatted, m)[i])
  {
    var years := ExperienceYears(formatted);
    var e := ExperienceTerm(formatted);
    if years != [] {
      ExperienceTermShaped(MaxStr(years));
      assert e == [MaxStr(years) + " years experience"];
    }
    GroupShaped(m.techTerms(formatted));
    GroupShaped(m.roleTerms(formatted));
    PartsShaped(e, Group(m.techTerms(formatted)), Group(m.roleTerms(formatted)));
  }

  lemma PartsShaped(a: seq<string>, b: seq<string>, c: seq<string>)
    requires forall t :: t in a ==> Shaped(t)
    requires forall t :: t in b ==> Shaped(t)
    requires forall t :: t in c ==> Shaped(t)
    ensures forall i :: 0 <= i < |a + b + c| ==> Shaped((a + b + c)[i])
  {
    forall i | 0 <= i < |a + b + c|
      ensures Shaped((a + b + c)[i])
    {
      assert (a + b + c)[i] in a || (a + b + c)[i] in b || (a + b + c)[i] in c;
    }
  }

  lemma GroupShaped(matches: seq<string>)
    requires forall t :: t in matches ==> Shaped(Lower(t))
    ensures forall t :: t in Group(matches) ==> Shaped(t)
  {
    forall t | t in Group(matches)
      ensures Shaped(t)
    {
      var i :| 0 <= i < |matches| && LowerAll(matches)[i] == t;
      assert matches[i] in matches;
    }
  }

  /** Where part `j` sits in the joined parts. */
  lemma {:induction false} JoinHolds(parts: seq<string>, j: nat) returns (k: nat)
    requires j < |parts|
    ensures SitsAt(Join(parts), parts[j], k)
    decreases |parts|
  {
    if j == 0 {
      k := 0;
      if |parts| > 1 {
        assert Join(parts) == parts[0] + (" " + Join(parts[1..]));
      }
    } else {
      var k' := JoinHolds(parts[1..], j - 1);
      var rest := Join(parts[1..]);
      assert Join(parts) == (parts[0] + " ") + rest;
      k := |parts[0]| + 1 + k';
      assert Join(parts)[k..k + |parts[j]|] == rest[k'..k' + |parts[j]|];
    }
  }

  lemma SpaceThenBody(body: string)
    requires Collapsed(body) && Trimmed(body)
    ensures Collapse(" " + body) == " " + body
  {
    CollapseIdentity(body);
    assert SkipSpaces(body) == body;
    assert (" " + body)[1..] == body;
  }

  lemma AssembleNoTerms(body: string)
    requires Collapsed(body) && Trimmed(body)
    ensures Assemble([], body) == body
  {
    assert Join([]) + " " + body == " " + body;
    SpaceThenBody(body);
    StripSpaceThen(body);
  }

  lemma JoinedTermsShaped(terms: seq<string>)
    requires terms != [] && forall i :: 0 <= i < |terms| ==> Shaped(terms[i])
    ensures Shaped(Join(terms))
  {
    JoinShape(terms);
  }

  lemma CleanTrailingSpace(p: string)
    requires Shaped(p)
    ensures Strip(Collapse(p + " ")) == p
  {
    CollapsePrefix(p, " ");
    assert Collapse(" ") == " " by { SpaceThenBody([]); }
    StripThenSpace(p);
  }

  lemma CleanGlued(p: string, body: string)
    requires Shaped(p) && Shaped(body)
    ensures Strip(Collapse(p + " " + body)) == p + " " + body
  {
    var tail := " " + body;
    assert p + " " + body == p + tail;
    CollapsePrefix(p, tail);
    SpaceThenBody(body);
    Glue(p, body);
    StripIdentity(p + " " + body);
  }

  lemma AssembleNoBody(terms: seq<string>)
    requires terms != [] && forall i :: 0 <= i < |terms| ==> Shaped(terms[i])
    ensures Assemble(terms, []) == Join(terms)
  {
    var p := Join(terms);
    var glued := p + " " + [];
    assert glued == p + " ";
    assert Assemble(terms, []) == Strip(Collapse(glued));
    JoinedTermsShaped(terms);
    CleanTrailingSpace(p);
  }

  lemma AssembleBoth(terms: seq<string>, body: string)
    requires terms != [] && forall i :: 0 <= i < |terms| ==> Shaped(terms[i])
    requires body != [] && Collapsed(body) && Trimmed(body)
    ensures Assemble(terms, body) == Join(terms) + " " + body
  {
    JoinedTermsShaped(terms);
    CleanGlued(Join(terms), body);
  }

  /** Terms and body glued as the last two lines promise: one space between, none around. */
  lemma AssembleExact(terms: seq<string>, body: string)
    requires forall i :: 0 <= i < |terms| ==> Shaped(terms[i])
    requires Collapsed(body) && Trimmed(body)
    ensures Assemble(terms, body) ==
      if terms == [] then body else if body == [] then Join(terms) else Join(terms) + " " + body
  {
    if terms == [] {
      AssembleNoTerms(body);
    } else if body == [] {
      AssembleNoBody(terms);
    } else {
      AssembleBoth(terms, body);
    }
  }

  lemma {:induction false} DeleteStarsIdentity(s: string)
    requires '*' !in s
    ensures DeleteStars(s) == s
    decreases |s|
  {
    if s != [] {
      DeleteStarsIdentity(s[1..]);
      assert [s[0]] + s[1..] == s;
    }
  }

  lemma {:induction false} DeleteHashRunsIdentity(s: string)
    requires '#' !in s
    ensures DeleteHashRuns(s) == s
    decreases |s|
  {
    if s != [] {
      DeleteHashRunsIdentity(s[1..]);
      assert [s[0]] + s[1..] == s;
    }
  }

  lemma {:induction false} DeleteBulletsIdentity(s: string)
    requires forall i :: 0 <= i < |s| ==> !IsBullet(s[i])
    ensures DeleteBullets(s) == s
    decreases |s|
  {
    if s != [] {
      DeleteBulletsIdentity(s[1..]);
      assert [s[0]] + s[1..] == s;
    }
  }

  lemma {:induction false} NewlinesToSpaceIdentity(s: string)
    requires '\n' !in s
    ensures NewlinesToSpace(s) == s
    decreases |s|
  {
    if s != [] {
      NewlinesToSpaceIdentity(s[1..]);
      assert [s[0]] + s[1..] == s;
    }
  }

  /**
   * `DeleteStars` works character by character: it distributes over
   * concatenation, so with `DeleteStarsIdentity` and its own contract it keeps
   * exactly the characters that are not '*'.
   */
  lemma {:induction false} DeleteStarsConcat(x: string, y: string)
    ensures DeleteStars(x + y) == DeleteStars(x) + DeleteStars(y)
    decreases |x|
  {
    if x == [] {
      assert x + y == y;
    } else {
      assert (x + y)[1..] == x[1..] + y;
      DeleteStarsConcat(x[1..], y);
      ConcatAssoc(if x[0] == '*' then [] else [x[0]], DeleteStars(x[1..]), DeleteStars(y));
    }
  }

  /** Text holding no '#' is copied as it is, whatever follows. */
  lemma {:induction false} DeleteHashRunsKeeps(x: string, y: string)
    requires '#' !in x
    ensures DeleteHashRuns(x + y) == x + DeleteHashRuns(y)
    decreases |x|
  {
    if x == [] {
      assert x + y == y;
    } else {
      assert (x + y)[1..] == x[1..] + y;
      DeleteHashRunsKeeps(x[1..], y);
      ConcatAssoc([x[0]], x[1..], DeleteHashRuns(y));
      assert [x[0]] + x[1..] == x;
    }
  }

  /** A whole run of '#' and the whole whitespace run after it are deleted, and nothing more. */
  lemma HashRunDeleted(h: string, w: string, y: string)
    requires h != [] && forall i :: 0 <= i < |h| ==> h[i] == '#'
    requires forall i :: 0 <= i < |w| ==> IsSpace(w[i])
    requires y == [] || (y[0] != '#' && !IsSpace(y[0]))
    ensures DeleteHashRuns(h + w + y) == DeleteHashRuns(y)
  {
    var s := h + (w + y);
    ConcatAssoc(h, w, y);
    assert s[0] == '#';
    SkipRunWhole(h, '#', w + y);
    SkipWhole(w, y);
  }

  /** Skipping a run of `c` that ends before another character leaves exactly what follows it. */
  lemma {:induction false} SkipRunWhole(h: string, c: char, b: string)
    requires forall i :: 0 <= i < |h| ==> h[i] == c
    requires b == [] || b[0] != c
    ensures SkipRun(h + b, c) == b
    decreases |h|
  {
    if h == [] {
      assert h + b == b;
    } else {
      assert (h + b)[1..] == h[1..] + b;
      SkipRunWhole(h[1..], c, b);
    }
  }

  /** Text holding no bullet character is copied as it is, whatever follows. */
  lemma {:induction false} DeleteBulletsKeeps(x: string, y: string)
    requires forall i :: 0 <= i < |x| ==> !IsBullet(x[i])
    ensures DeleteBullets(x + y) == x + DeleteBullets(y)
    decreases |x|
  {
    if x == [] {
      assert x + y == y;
    } else {
      assert (x + y)[1..] == x[1..] + y;
      DeleteBulletsKeeps(x[1..], y);
      ConcatAssoc([x[0]], x[1..], DeleteBullets(y));
      assert [x[0]] + x[1..] == x;
    }
  }

  /** One bullet character and the whole whitespace run after it are deleted, and nothing more. */
  lemma BulletDeleted(c: char, w: string, y: string)
    requires IsBullet(c)
    requires forall i :: 0 <= i < |w| ==> IsSpace(w[i])
    requires y == [] || !IsSpace(y[0])
    ensures DeleteBullets([c] + w + y) == DeleteBullets(y)
  {
    var s := [c] + (w + y);
    ConcatAssoc([c], w, y);
    assert s[0] == c && s[1..] == w + y;
    SkipWhole(w, y);
  }

  /** Text holding no newline is copied as it is, whatever follows. */
  lemma {:induction false} NewlinesKeep(x: string, y: string)
    requires '\n' !in x
    ensures NewlinesToSpace(x + y) == x + NewlinesToSpace(y)
    decreases |x|
  {
    if x == [] {
      assert x + y == y;
    } else {
      assert (x + y)[1..] == x[1..] + y;
      NewlinesKeep(x[1..], y);
      ConcatAssoc([x[0]], x[1..], NewlinesToSpace(y));
      assert [x[0]] + x[1..] == x;
    }
  }

  /** A whole run of newlines becomes one space. */
  lemma NewlineRunReplaced(n: string, y: string)
    requires n != [] && forall i :: 0 <= i < |n| ==> n[i] == '\n'
    requires y == [] || y[0] != '\n'
    ensures NewlinesToSpace(n + y) == " " + NewlinesToSpace(y)
  {
    assert (n + y)[0] == '\n';
    SkipRunWhole(n, '\n', y);
  }

  /**
   * Formatting works left to right: a collapsed stretch with no marker
   * characters that ends in a non-space is copied as it is, and only what
   * follows it is formatted.
   */
  lemma FormatKeeps(x: string, y: string)
    requires x != [] && Collapsed(x) && !IsSpace(x[|x| - 1])
    requires forall i :: 0 <= i < |x| ==> x[i] != '#' && !IsBullet(x[i])
    ensures Format(x + y) == x + Format(y)
  {
    assert '*' !in x && '#' !in x;
    assert '\n' !in x by {
      forall i | 0 <= i < |x|
        ensures x[i] != '\n'
      {
        if IsSpace(x[i]) {
          assert x[i] == ' ';
        }
      }
    }
    DeleteStarsConcat(x, y);
    DeleteStarsIdentity(x);
    var s := DeleteStars(y);
    DeleteHashRunsKeeps(x, s);
    var h := DeleteHashRuns(s);
    DeleteBulletsKeeps(x, h);
    var b := DeleteBullets(h);
    NewlinesKeep(x, b);
    CollapsePrefix(x, NewlinesToSpace(b));
  }

  /** Text already in body form passes the formatting steps unchanged. */
  lemma FormatFixpoint(x: string)
    requires BodyForm(x)
    ensures Format(x) == x
  {
    assert forall i :: 0 <= i < |x| ==> x[i] != '*' && x[i] != '#' && x[i] != '\n' && !IsBullet(x[i]);
    DeleteStarsIdentity(x);
    DeleteHashRunsIdentity(x);
    DeleteBulletsIdentity(x);
    NewlinesToSpaceIdentity(x);
    CollapseIdentity(x);
  }

  lemma AlnumIdentity(x: string)
    requires forall i :: 0 <= i < |x| ==> BodyChar(x[i])
    ensures AlnumOrSpace(x) == x
  {
    assert forall i :: 0 <= i < |x| ==> AlnumOrSpace(x)[i] == x[i];
  }

  lemma LowerNoUpper(x: string)
    requires forall i :: 0 <= i < |x| ==> !IsUpper(x[i])
    ensures Lower(x) == x
  {
    assert forall i :: 0 <= i < |x| ==> Lower(x)[i] == x[i];
  }

  /** Text already in body form is its own body. */
  lemma BodyFixpoint(x: string)
    requires BodyForm(x)
    ensures Body(x) == x
  {
    AlnumIdentity(x);
    CollapseIdentity(x);
    StripIdentity(x);
    LowerNoUpper(x);
  }

  /**
   * `clean_for_ml_model` is not idempotent: on text in body form that the
   * noise step leaves alone, any term it finds is put in front of the text
   * again, so a second pass always grows it.
   */
  lemma SecondPassGrows(x: string, m: Matchers)
    requires BodyForm(x) && x != [] && m.stripNoise(x) == x
    requires Terms(x, m) != []
    requires forall i :: 0 <= i < |Terms(x, m)| ==> Shaped(Terms(x, m)[i])
    ensures |CleanForMl(x, m)| > |x|
  {
    FormatFixpoint(x);
    BodyFixpoint(x);
    AssembleExact(Terms(x, m), x);
  }

  ghost predicate BodyChars(s: string) {
    forall i :: 0 <= i < |s| ==> BodyChar(s[i])
  }

  lemma ConcatBodyChars(a: string, b: string)
    requires BodyChars(a) && BodyChars(b)
    ensures BodyChars(a + b)
  {
    assert forall i :: |a| <= i < |a + b| ==> (a + b)[i] == b[i - |a|];
  }

  lemma {:induction false} JoinBodyChars(parts: seq<string>)
    requires forall j :: 0 <= j < |parts| ==> BodyChars(parts[j])
    ensures BodyChars(Join(parts))
    decreases |parts|
  {
    if |parts| > 1 {
      JoinBodyChars(parts[1..]);
      ConcatBodyChars(parts[0], " ");
      ConcatBodyChars(parts[0] + " ", Join(parts[1..]));
    }
  }

  /** The joined terms open the text, so a non-empty first term makes it non-empty. */
  lemma JoinNonEmpty(parts: seq<string>)
    requires parts != [] && parts[0] != []
    ensures Join(parts) != []
  {
  }

  /**
   * A first-pass output whose terms are in body form is itself in body form,
   * and it is not empty once a term was found.
   */
  lemma FirstPassBodyForm(y: string, m: Matchers)
    requires y != []
    requires var ts := Terms(Format(m.stripNoise(y)), m);
      ts != [] && forall i :: 0 <= i < |ts| ==> Shaped(ts[i]) && BodyChars(ts[i])
    ensures BodyForm(CleanForMl(y, m)) && CleanForMl(y, m) != []
  {
    var f := Format(m.stripNoise(y));
    AssembledBodyChars(Terms(f, m), Body(f));
  }

  /** Terms and a body made of body characters assemble into body characters. */
  lemma AssembledBodyChars(ts: seq<string>, b: string)
    requires ts != [] && forall i :: 0 <= i < |ts| ==> Shaped(ts[i]) && BodyChars(ts[i])
    requires BodyForm(b)
    ensures BodyChars(Assemble(ts, b)) && Assemble(ts, b) != []
  {
    AssembleExact(ts, b);
    JoinBodyChars(ts);
    JoinNonEmpty(ts);
    if b != [] {
      ConcatBodyChars(Join(ts), " ");
      ConcatBodyChars(Join(ts) + " ", b);
    }
  }

  /**
   * The route cleans `clean_for_ml_model`'s output a second time. When the
   * first pass found terms in body form, the noise step leaves its output
   * alone and the second pass finds terms again, that second pass makes the
   * text strictly longer: the output is not a fixpoint.
   */
  lemma SecondPassGrowsOnOutput(y: string, m: Matchers)
    requires y != []
    requires var ts := Terms(Format(m.stripNoise(y)), m);
      ts != [] && forall i :: 0 <= i < |ts| ==> Shaped(ts[i]) && BodyChars(ts[i])
    requires var x := CleanForMl(y, m);
      && m.stripNoise(x) == x && Terms(x, m) != []
      && forall i :: 0 <= i < |Terms(x, m)| ==> Shaped(Terms(x, m)[i])
    ensures |CleanForMl(CleanForMl(y, m), m)| > |CleanForMl(y, m)|
  {
    FirstPassBodyForm(y, m);
    SecondPassGrows(CleanForMl(y, m), m);
  }

  /**
   * The same with the second pass's terms found rather than assumed: an
   * experience phrase found by the first pass leads its output, so the
   * second pass finds it again and puts it in front once more.
   */
  lemma SecondPassRepeatsExperience(y: string, m: Matchers)
    requires y != [] && ExperienceYears(Format(m.stripNoise(y))) != []
    requires var ts := Terms(Format(m.stripNoise(y)), m);
      forall i :: 0 <= i < |ts| ==> Shaped(ts[i]) && BodyChars(ts[i])
    requires var x := CleanForMl(y, m);
      && m.stripNoise(x) == x
      && (forall t :: t in m.techTerms(x) ==> Shaped(Lower(t)))
      && (forall t :: t in m.roleTerms(x) ==> Shaped(Lower(t)))
    ensures |CleanForMl(CleanForMl(y, m), m)| > |CleanForMl(y, m)|
  {
    var x := CleanForMl(y, m);
    var n := MaxStr(ExperienceYears(Format(m.stripNoise(y))));
    ExperienceLeads(y, m);
    LeadFoundAgain(x, n);
    FirstPassBodyForm(y, m);
    TermsShaped(x, m);
    SecondPassGrows(x, m);
  }

  /** The matchers of a text without noise and without keywords. */
  function Plain(): Matchers {
    Matchers(s => s, s => [], s => [])
  }

  /**
   * The hypotheses can be met: with no noise and no keywords, "N years
   * experience" is cleaned to the phrase twice over, and cleaning that again
   * puts it in front a third time.
   */
  lemma SecondPassWitness(n: string)
    requires IsNumeral(n)
    ensures var y := n + " years experience";
      |CleanForMl(CleanForMl(y, Plain()), Plain())| > |CleanForMl(y, Plain())|
  {
    var y := n + " years experience";
    WitnessFormatted(n, y);
    WitnessTerms(n, y, Plain());
    SecondPassRepeatsExperience(y, Plain());
  }

  lemma WitnessFormatted(n: string, y: string)
    requires IsNumeral(n) && y == n + " years experience"
    ensures Format(y) == y && ExperienceYears(y) == [n]
    ensures Shaped(y) && BodyChars(y)
  {
    ExperienceYearsFound(n, "");
    assert y + "" == y;
    ExperienceTermShaped(n);
    PhraseBodyChars(n, y);
    FormatFixpoint(y);
  }

  lemma PhraseBodyChars(n: string, y: string)
    requires IsNumeral(n) && y == n + " years experience"
    ensures BodyChars(y)
  {
    var w := " years experience";
    assert BodyChars(w) by {
      assert forall i :: 0 <= i < |w| ==> w[i] == ' ' || 'a' <= w[i] <= 'z';
    }
    assert BodyChars(n);
    ConcatBodyChars(n, w);
  }

  lemma WitnessTerms(n: string, y: string, m: Matchers)
    requires ExperienceYears(y) == [n] && y == n + " years experience"
    requires m.techTerms(y) == [] && m.roleTerms(y) == []
    ensures Terms(y, m) == [y]
  {
    assert MaxStr([n]) == n;
  }

  lemma LeadFoundAgain(x: string, n: string)
    requires IsNumeral(n)
    requires var lead := n + " years experience"; |lead| <= |x| && x[..|lead|] == lead
    ensures ExperienceYears(x) != []
  {
    var lead := n + " years experience";
    var rest := x[|lead|..];
    assert x == lead + rest;
    ExperienceYearsFound(n, rest);
  }

  // ---------------------------------------------------------------------------
  // extract_resume_text_with_groq_for_ml: input handling and result record
  // ---------------------------------------------------------------------------

  /** Index of the first comma. */
  function FirstComma(s: string): (i: nat)
    requires ',' in s
    ensures i < |s| && s[i] == ',' && ',' !in s[..i]
  {
    if s[0] == ',' then 0
    else
      assert ',' in s[1..];
      var i := 1 + FirstComma(s[1..]);
      assert s[..i] == [s[0]] + s[1..][..i - 1];
      i
  }

  /** The text before the first comma, or all of it. */
  function UpToComma(s: string): (r: string)
    ensures ',' !in r
    ensures |r| <= |s| && r == s[..|r|]
    ensures |r| == |s| || s[|r|] == ','
  {
    if ',' in s then s[..FirstComma(s)] else s
  }

  /**
   * What is sent to the decoder and the model: for a data URL, `split(',')[1]`,
   * the part between the first and the second comma; otherwise the input itself.
   */
  function Payload(image: string): (r: string)
    ensures ',' !in image ==> r == image
    ensures ',' in image ==>
      var i := FirstComma(image);
      && ',' !in r
      && i + 1 + |r| <= |image|
      && image[i + 1..i + 1 + |r|] == r
      && (i + 1 + |r| == |image| || image[i + 1 + |r|] == ',')
  {
    if ',' in image then UpToComma(image[FirstComma(image) + 1..]) else image
  }

  /** The result record: the raw completion and its cleaned form, or an error message. */
  datatype Extraction =
    | Extracted(rawExtractedText: string, mlReadyText: string, message: string)
    | ExtractionFailed(error: string)

  /**
   * `extract_resume_text_with_groq_for_ml`. `decode` stands for the base64 and
   * image check (the message of the exception it raised, if any), `complete`
   * for the vision-model request (its reply, or the message of the exception).
   */
  function ExtractResumeText(
    image: string,
    decode: string -> Option<string>,
    complete: string -> Result<string, string>,
    m: Matchers): Extraction
  {
    if image == [] then ExtractionFailed("No image data provided")
    else
      var payload := Payload(image);
      match decode(payload)
      case Some(e) => ExtractionFailed("Invalid image data: " + e)
      case None =>
        match complete(payload)
        case Failure(e) => ExtractionFailed("Text extraction failed: " + e)
        case Success(raw) =>
          Extracted(raw, CleanForMl(raw, m), "Resume text extracted and cleaned for ML model")
  }

  /** A successful extraction always carries the cleaned form of the very text the model returned. */
  lemma ExtractionOutcome(image: string, decode: string -> Option<string>,
                          complete: string -> Result<string, string>, m: Matchers)
    ensures var x := ExtractResumeText(image, decode, complete, m);
      && (image == [] <==> x == ExtractionFailed("No image data provided"))
      && (x.Extracted? <==> image != [] && decode(Payload(image)).None? && complete(Payload(image)).Success?)
      && (x.Extracted? ==> x.rawExtractedText == complete(Payload(image)).value
                           && x.mlReadyText == CleanForMl(x.rawExtractedText, m))
  {
    var x := ExtractResumeText(image, decode, complete, m);
    if image != [] && x.ExtractionFailed? {
      var payload := Payload(image);
      if decode(payload).Some? {
        assert x.error[0] == 'I';
      } else {
        assert x.error[0] == 'T';
      }
    }
  }
}
