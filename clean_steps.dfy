/**
 * The `re.sub` deletion steps shared by the training-time and inference-time
 * resume cleaners, each modelled as the left-to-right scan `re.sub` performs:
 * at every position the pattern is tried; a match is deleted and the scan
 * resumes after it, otherwise the character is kept and the scan moves on.
 */
module CleanSteps {
  import opened Wrappers
  import opened Text

  /** The three patterns that are deleted with `re.sub(pattern, '', text)`. */
  datatype Pattern =
    | Tag    // r'<.*?>'
    | Url    // r'http\S+|www\S+|https\S+'
    | Email  // r'\S+@\S+'

  /** Length of the leading run of non-whitespace characters (what a greedy `\S+` consumes). */
  function RunLength(s: string): (n: nat)
    ensures n <= |s|
    ensures forall i :: 0 <= i < n ==> !IsSpace(s[i])
    ensures n == |s| || IsSpace(s[n])
  {
    if s == [] || IsSpace(s[0]) then 0 else 1 + RunLength(s[1..])
  }

  /**
   * End of the lazy `.*?>` that follows a `<`, scanning from index `i`:
   * the first `>` on the same line (`.` does not match a newline).
   */
  function CloseAt(s: string, i: nat): (r: Option<nat>)
    requires i <= |s|
    decreases |s| - i
    ensures r.Some? ==> i < r.value <= |s| && s[r.value - 1] == '>'
    ensures r.Some? ==> forall k :: i <= k < r.value - 1 ==> s[k] != '>' && s[k] != '\n'
  {
    if i == |s| || s[i] == '\n' then None
    else if s[i] == '>' then Some(i + 1)
    else CloseAt(s, i + 1)
  }

  /** Length of a `<.*?>` match at the start of `s`. */
  function TagAt(s: string): (r: Option<nat>)
    ensures r.Some? ==> 0 < r.value <= |s|
  {
    if s != [] && s[0] == '<' then CloseAt(s, 1) else None
  }

  /** Length of a match of the keyword `w` followed by `\S+` at the start of `s`. */
  function KeywordAt(s: string, w: string): (r: Option<nat>)
    ensures r.Some? ==> |w| < r.value <= |s|
    ensures r.Some? ==> StartsWith(s, w)
    ensures r.Some? ==> forall i :: |w| <= i < r.value ==> !IsSpace(s[i])
    ensures r.Some? ==> r.value == |s| || IsSpace(s[r.value])
  {
    if |s| > |w| && StartsWith(s, w) && !IsSpace(s[|w|]) then Some(|w| + RunLength(s[|w|..])) else None
  }

  /** Length of a `http\S+|www\S+|https\S+` match at the start of `s`. */
  function UrlAt(s: string): (r: Option<nat>)
    ensures r.Some? ==> 0 < r.value <= |s|
    ensures r.Some? ==> forall i :: 0 <= i < r.value ==> !IsSpace(s[i])
    ensures r.Some? ==> r.value == |s| || IsSpace(s[r.value])
  {
    // `https\S+` is never reached: whatever it matches, `http\S+` matched first.
    var http := KeywordAt(s, "http");
    if http.Some? then http else KeywordAt(s, "www")
  }

  /**
   * Length of a `\S+@\S+` match at the start of `s`. The greedy `\S+` backtracks
   * to some `@` that has a non-space on each side; the second greedy `\S+` then
   * runs to the end of the whitespace-free run.
   */
  function EmailAt(s: string): (r: Option<nat>)
    ensures r.Some? ==> 0 < r.value <= |s|
    ensures r.Some? ==> forall i :: 0 <= i < r.value ==> !IsSpace(s[i])
    ensures r.Some? ==> r.value == |s| || IsSpace(s[r.value])
  {
    var n := RunLength(s);
    if InnerAt(s, n) then Some(n) else None
  }

  /** Length of the match of `p` that starts at the beginning of `s`, if there is one. */
  function MatchAt(p: Pattern, s: string): (r: Option<nat>)
    ensures r.Some? ==> 0 < r.value <= |s|
  {
    match p
    case Tag => TagAt(s)
    case Url => UrlAt(s)
    case Email => EmailAt(s)
  }

  /** Some `@` among `s[..n]` has a character on each side of it. */
  predicate InnerAt(s: string, n: nat)
    requires n <= |s|
  {
    exists k :: 0 < k < n - 1 && s[k] == '@'
  }

  /** `re.sub(p, '', s)`. */
  function Delete(p: Pattern, s: string): (r: string)
    decreases |s|
    ensures |r| <= |s|
  {
    if s == [] then []
    else match MatchAt(p, s)
      case Some(n) => Delete(p, s[n..])
      case None => [s[0]] + Delete(p, s[1..])
  }

  /** `\d`, restricted to ASCII digits. */
  predicate IsPhoneDigit(c: char) { IsDigit(c) }

  /** `\w`, restricted to ASCII letters, digits and underscore. */
  predicate IsWordChar(c: char) { IsLetter(c) || IsDigit(c) || c == '_' }

  predicate IsPhoneSeparator(c: char) { c == '-' || c == '.' }

  predicate DigitsAt(s: string, i: nat, k: nat) {
    i + k <= |s| && forall j :: i <= j < i + k ==> IsPhoneDigit(s[j])
  }

  /**
   * End of a match of r'\b\d{3}[-.]?\d{3}[-.]?\d{4}\b' starting at index `i`.
   * The optional separators never need backtracking: a separator is not a digit.
   */
  function PhoneAt(s: string, i: nat): (r: Option<nat>)
    requires i <= |s|
    ensures r.Some? ==> i < r.value <= |s|
    ensures r.Some? ==> forall j :: i <= j < r.value ==> IsPhoneDigit(s[j]) || IsPhoneSeparator(s[j])
  {
    if i > 0 && IsWordChar(s[i - 1]) then None
    else if !DigitsAt(s, i, 3) then None
    else
      var j := if i + 3 < |s| && IsPhoneSeparator(s[i + 3]) then i + 4 else i + 3;
      if !DigitsAt(s, j, 3) then None
      else
        var k := if j + 3 < |s| && IsPhoneSeparator(s[j + 3]) then j + 4 else j + 3;
        if !DigitsAt(s, k, 4) then None
        else if k + 4 < |s| && IsWordChar(s[k + 4]) then None
        else Some(k + 4)
  }

  /** The phone deletion scan from index `i`; `\b` looks at the character before `i`. */
  function DeletePhonesFrom(s: string, i: nat): (r: string)
    requires i <= |s|
    decreases |s| - i
  {
    if i == |s| then []
    else match PhoneAt(s, i)
      case Some(e) => DeletePhonesFrom(s, e)
      case None => [s[i]] + DeletePhonesFrom(s, i + 1)
  }

  /** `re.sub(r'\b\d{3}[-.]?\d{3}[-.]?\d{4}\b', '', s)`. */
  function DeletePhones(s: string): string {
    DeletePhonesFrom(s, 0)
  }

  /** `re.sub(r'[^a-zA-Z\s]', '', s)`. */
  function KeepLettersAndSpaces(s: string): (r: string)
    ensures forall i :: 0 <= i < |r| ==> IsLetter(r[i]) || IsSpace(r[i])
    ensures forall c :: c in r ==> c in s
  {
    if s == [] then []
    else (if IsLetter(s[0]) || IsSpace(s[0]) then [s[0]] else []) + KeepLettersAndSpaces(s[1..])
  }

  /**
   * The last three stages of both cleaners: drop everything but letters and
   * whitespace, collapse whitespace runs to one space, strip, lower-case.
   */
  function Finish(s: string): (r: string)
    ensures Normalized(r)
  {
    var stripped := Strip(Collapse(KeepLettersAndSpaces(s)));
    LettersAndSpacesSurvive(KeepLettersAndSpaces(s), stripped);
    LowerKeepsShape(stripped);
    Lower(stripped)
  }

  /** Collapsing and stripping a string of letters and whitespace leaves letters and plain spaces. */
  lemma LettersAndSpacesSurvive(kept: string, stripped: string)
    requires forall i :: 0 <= i < |kept| ==> IsLetter(kept[i]) || IsSpace(kept[i])
    requires stripped == Strip(Collapse(kept))
    ensures forall i :: 0 <= i < |stripped| ==> IsLetter(stripped[i]) || stripped[i] == ' '
  {
    forall i | 0 <= i < |stripped| ensures IsLetter(stripped[i]) || stripped[i] == ' ' {
      var c := stripped[i];
      assert c in Collapse(kept);
      if c != ' ' && !IsSpace(c) {
        assert c in kept;
      }
    }
  }

  // ---- Lemmas about the scans ----

  lemma {:induction false} CloseAtFinds(s: string, i: nat, j: nat)
    requires i <= j < |s| && s[j] == '>'
    requires forall k :: i <= k < j ==> s[k] != '>' && s[k] != '\n'
    ensures CloseAt(s, i) == Some(j + 1)
    decreases j - i
  {
    if i < j { CloseAtFinds(s, i + 1, j); }
  }

  /**
   * A `<...>` span on one line, preceded by text without `<`, is deleted whole,
   * and whatever it held has no effect on the rest of the scan.
   */
  lemma {:induction false} TagSpanDeleted(a: string, m: string, b: string)
    requires '<' !in a && '>' !in m && '\n' !in m
    ensures Delete(Tag, a + ['<'] + m + ['>'] + b) == a + Delete(Tag, b)
    decreases |a|
  {
    var s := a + ['<'] + m + ['>'] + b;
    if a == [] {
      assert s == ['<'] + m + ['>'] + b;
      CloseAtFinds(s, 1, |m| + 1);
      assert s[|m| + 2..] == b;
    } else {
      assert s[1..] == a[1..] + ['<'] + m + ['>'] + b;
      TagSpanDeleted(a[1..], m, b);
    }
  }

  lemma {:induction false} RunLengthExact(x: string, y: string)
    requires forall i :: 0 <= i < |x| ==> !IsSpace(x[i])
    requires y == [] || IsSpace(y[0])
    ensures RunLength(x + y) == |x|
    decreases |x|
  {
    if x != [] {
      assert (x + y)[1..] == x[1..] + y;
      RunLengthExact(x[1..], y);
    }
  }

  lemma {:induction false} RunLengthPrefix(x: string, y: string)
    requires x != [] && IsSpace(x[|x| - 1])
    ensures RunLength(x + y) == RunLength(x) < |x|
    decreases |x|
  {
    if !IsSpace(x[0]) {
      assert (x + y)[1..] == x[1..] + y;
      RunLengthPrefix(x[1..], y);
    }
  }

  lemma UrlAtPrefix(a: string, c: string)
    requires a != [] && IsSpace(a[|a| - 1])
    ensures UrlAt(a + c) == UrlAt(a)
  {
    KeywordRunPrefix(a, c, "http");
    KeywordRunPrefix(a, c, "www");
  }

  /** Whether `s` starts with `w` is decided by the first `|w|` characters. */
  lemma StartsWithPrefix(a: string, c: string, w: string)
    requires |w| <= |a|
    ensures StartsWith(a + c, w) == StartsWith(a, w)
  {
    assert forall i :: 0 <= i < |w| ==> (a + c)[i] == a[i];
  }

  /** A string with whitespace at index `j` does not start with a whitespace-free word longer than `j`. */
  lemma NoWordOverSpace(s: string, w: string, j: nat)
    requires j < |w| && j < |s| && IsSpace(s[j])
    requires forall i :: 0 <= i < |w| ==> !IsSpace(w[i])
    ensures !StartsWith(s, w)
  {
    assert !IsSpace(w[j]);
  }

  /** On a string that ends in whitespace, a keyword match is the same whatever comes after. */
  lemma KeywordRunPrefix(a: string, c: string, w: string)
    requires a != [] && IsSpace(a[|a| - 1])
    requires forall i :: 0 <= i < |w| ==> !IsSpace(w[i])
    ensures KeywordAt(a + c, w) == KeywordAt(a, w)
  {
    var s := a + c;
    var k := |w|;
    if |a| > k {
      StartsWithPrefix(a, c, w);
      assert s[k] == a[k];
      if !IsSpace(a[k]) {
        assert s[k..] == a[k..] + c;
        RunLengthPrefix(a[k..], c);
      }
    } else if |s| > k {
      assert s[|a| - 1] == a[|a| - 1];
      NoWordOverSpace(s, w, |a| - 1);
    }
  }

  lemma EmailAtPrefix(a: string, c: string)
    requires a != [] && IsSpace(a[|a| - 1])
    ensures EmailAt(a + c) == EmailAt(a)
  {
    var s := a + c;
    RunLengthPrefix(a, c);
    var n := RunLength(a);
    assert forall k :: 0 <= k < n ==> s[k] == a[k];
    assert InnerAt(s, n) == InnerAt(a, n);
  }

  /** A URL or e-mail match never reaches past a whitespace character. */
  lemma MatchAtPrefix(p: Pattern, a: string, c: string)
    requires p != Tag
    requires a != [] && IsSpace(a[|a| - 1])
    ensures MatchAt(p, a + c) == MatchAt(p, a)
    ensures MatchAt(p, a).Some? ==> MatchAt(p, a).value < |a|
  {
    if p == Url { UrlAtPrefix(a, c); } else { EmailAtPrefix(a, c); }
  }

  lemma DeleteMatched(p: Pattern, s: string, n: nat)
    requires s != [] && MatchAt(p, s) == Some(n)
    ensures Delete(p, s) == Delete(p, s[n..])
  {
  }

  lemma DeleteUnmatched(p: Pattern, s: string)
    requires s != [] && MatchAt(p, s) == None
    ensures Delete(p, s) == [s[0]] + Delete(p, s[1..])
  {
  }

  /** The URL and e-mail scans work whitespace-separated chunk by chunk. */
  lemma {:induction false} DeleteSplit(p: Pattern, a: string, c: string)
    requires p != Tag
    requires a == [] || IsSpace(a[|a| - 1])
    ensures Delete(p, a + c) == Delete(p, a) + Delete(p, c)
    decreases |a|, 1
  {
    if a == [] {
      assert a + c == c;
    } else {
      MatchAtPrefix(p, a, c);
      match MatchAt(p, a)
      case Some(n) => DeleteSplitMatched(p, a, c, n);
      case None => DeleteSplitUnmatched(p, a, c);
    }
  }

  lemma {:induction false} DeleteSplitMatched(p: Pattern, a: string, c: string, n: nat)
    requires p != Tag && a != [] && IsSpace(a[|a| - 1])
    requires MatchAt(p, a) == Some(n) && MatchAt(p, a + c) == Some(n) && n < |a|
    ensures Delete(p, a + c) == Delete(p, a) + Delete(p, c)
    decreases |a|, 0
  {
    var rest := a[n..];
    assert Delete(p, a + c) == Delete(p, rest + c) by {
      DeleteMatched(p, a + c, n);
      assert (a + c)[n..] == rest + c;
    }
    assert Delete(p, a) == Delete(p, rest) by {
      DeleteMatched(p, a, n);
    }
    DeleteSplit(p, rest, c);
  }

  lemma {:induction false} DeleteSplitUnmatched(p: Pattern, a: string, c: string)
    requires p != Tag && a != [] && IsSpace(a[|a| - 1])
    requires MatchAt(p, a) == None && MatchAt(p, a + c) == None
    ensures Delete(p, a + c) == Delete(p, a) + Delete(p, c)
    decreases |a|, 0
  {
    var s := a + c;
    var rest := a[1..];
    assert s[1..] == rest + c;
    DeleteSplit(p, rest, c);
    DeleteUnmatched(p, s);
    DeleteUnmatched(p, a);
    assert s[0] == a[0];
    ConcatAssoc([a[0]], Delete(p, rest), Delete(p, c));
  }

  /** A whitespace-free run that starts with "http" or "www" and goes on is one URL match. */
  lemma UrlMatchesRun(u: string, b: string)
    requires (|u| > 4 && StartsWith(u, "http")) || (|u| > 3 && StartsWith(u, "www"))
    requires forall i :: 0 <= i < |u| ==> !IsSpace(u[i])
    requires b == [] || IsSpace(b[0])
    ensures UrlAt(u + b) == Some(|u|)
  {
    if |u| > 4 && StartsWith(u, "http") {
      KeywordRun(u, b, "http");
    } else {
      assert u[0] == 'w';
      StartsWithPrefix(u, b, "http");
      KeywordRun(u, b, "www");
    }
  }

  /** A keyword that starts a whitespace-free run followed by whitespace matches the whole run. */
  lemma KeywordRun(u: string, b: string, w: string)
    requires |u| > |w| && StartsWith(u, w)
    requires forall i :: 0 <= i < |u| ==> !IsSpace(u[i])
    requires b == [] || IsSpace(b[0])
    ensures KeywordAt(u + b, w) == Some(|u|)
  {
    var s := u + b;
    StartsWithPrefix(u, b, w);
    assert s[|w|] == u[|w|];
    assert s[|w|..] == u[|w|..] + b;
    RunLengthExact(u[|w|..], b);
  }

  /**
   * "http" or "www" followed by non-space characters is deleted up to the next
   * whitespace, together with those characters.
   */
  lemma UrlDeleted(a: string, u: string, b: string)
    requires a == [] || IsSpace(a[|a| - 1])
    requires (|u| > 4 && StartsWith(u, "http")) || (|u| > 3 && StartsWith(u, "www"))
    requires forall i :: 0 <= i < |u| ==> !IsSpace(u[i])
    requires b == [] || IsSpace(b[0])
    ensures Delete(Url, a + u + b) == Delete(Url, a) + Delete(Url, b)
  {
    UrlMatchesRun(u, b);
    RunDeleted(Url, a, u, b);
  }

  /**
   * The URL pattern has no word boundary: a URL that starts inside a
   * whitespace-free run is deleted from its keyword to the next whitespace,
   * and the text before it, where no URL match starts, is kept.
   */
  lemma UrlDeletedInRun(a: string, u: string, b: string)
    requires forall k :: 0 <= k < |a| ==> UrlAt((a + u + b)[k..]) == None
    requires (|u| > 4 && StartsWith(u, "http")) || (|u| > 3 && StartsWith(u, "www"))
    requires forall i :: 0 <= i < |u| ==> !IsSpace(u[i])
    requires b == [] || IsSpace(b[0])
    ensures Delete(Url, a + u + b) == a + Delete(Url, b)
  {
    var t := u + b;
    ConcatAssoc(a, u, b);
    forall k | 0 <= k < |a|
      ensures MatchAt(Url, (a + t)[k..]) == None
    {
    }
    UnmatchedPrefixKept(Url, a, t);
    UrlMatchesRun(u, b);
    DeleteMatched(Url, t, |u|);
    assert t[|u|..] == b;
  }

  /** Where no match starts, the scan copies the text unchanged. */
  lemma {:induction false} UnmatchedPrefixKept(p: Pattern, a: string, t: string)
    requires forall k :: 0 <= k < |a| ==> MatchAt(p, (a + t)[k..]) == None
    ensures Delete(p, a + t) == a + Delete(p, t)
    decreases |a|
  {
    if a == [] {
      assert a + t == t;
    } else {
      var s := a + t;
      var a' := a[1..];
      assert s[0..] == s;
      DeleteUnmatched(p, s);
      assert s[1..] == a' + t;
      forall k | 0 <= k < |a'|
        ensures MatchAt(p, (a' + t)[k..]) == None
      {
        assert (a' + t)[k..] == s[k + 1..];
      }
      UnmatchedPrefixKept(p, a', t);
      assert [a[0]] + a' == a;
      ConcatAssoc([a[0]], a', Delete(p, t));
    }
  }

  /** For instance after a label: "Portfolio:" holds neither 'h' nor 'w', so only the URL after it goes. */
  lemma UrlDeletedAfterLabel(a: string, u: string, b: string)
    requires forall k :: 0 <= k < |a| ==> a[k] != 'h' && a[k] != 'w'
    requires (|u| > 4 && StartsWith(u, "http")) || (|u| > 3 && StartsWith(u, "www"))
    requires forall i :: 0 <= i < |u| ==> !IsSpace(u[i])
    requires b == [] || IsSpace(b[0])
    ensures Delete(Url, a + u + b) == a + Delete(Url, b)
  {
    forall k | 0 <= k < |a|
      ensures UrlAt((a + u + b)[k..]) == None
    {
      var t := (a + u + b)[k..];
      assert t[0] == a[k];
      assert !StartsWith(t, "http") && !StartsWith(t, "www");
    }
    UrlDeletedInRun(a, u, b);
  }

  /** A match that covers a whole whitespace-delimited run deletes exactly that run. */
  lemma RunDeleted(p: Pattern, a: string, u: string, b: string)
    requires p != Tag && u != []
    requires a == [] || IsSpace(a[|a| - 1])
    requires MatchAt(p, u + b) == Some(|u|)
    ensures Delete(p, a + u + b) == Delete(p, a) + Delete(p, b)
  {
    var t := u + b;
    DeleteMatched(p, t, |u|);
    assert t[|u|..] == b;
    DeleteSplit(p, a, t);
    ConcatAssoc(a, u, b);
  }

  /** On a whitespace-free run `w` followed by whitespace, the e-mail match is decided by `w` alone. */
  lemma EmailAtRun(w: string, b: string)
    requires forall i :: 0 <= i < |w| ==> !IsSpace(w[i])
    requires b == [] || IsSpace(b[0])
    ensures EmailAt(w + b) == if InnerAt(w, |w|) then Some(|w|) else None
  {
    var s := w + b;
    RunLengthExact(w, b);
    assert forall k :: 0 <= k < |w| ==> s[k] == w[k];
    assert InnerAt(s, |w|) == InnerAt(w, |w|);
  }

  lemma InnerAtTail(w: string)
    requires w != [] && !InnerAt(w, |w|)
    ensures !InnerAt(w[1..], |w| - 1)
  {
  }

  lemma {:induction false} EmailFreeRun(w: string, b: string)
    requires forall i :: 0 <= i < |w| ==> !IsSpace(w[i])
    requires !InnerAt(w, |w|)
    requires b == [] || IsSpace(b[0])
    ensures Delete(Email, w + b) == w + Delete(Email, b)
    decreases |w|
  {
    if w != [] {
      var s := w + b;
      var t := w[1..] + b;
      assert s[1..] == t;
      EmailAtRun(w, b);
      DeleteUnmatched(Email, s);
      InnerAtTail(w);
      assert forall i :: 0 <= i < |w[1..]| ==> !IsSpace(w[1..][i]);
      EmailFreeRun(w[1..], b);
      var x := Delete(Email, b);
      ConcatAssoc([w[0]], w[1..], x);
      assert [w[0]] + w[1..] == w;
    } else {
      assert w + b == b;
    }
  }

  /** A whitespace-delimited run holding an `@` with a character on each side is deleted whole. */
  lemma EmailRunDeleted(a: string, w: string, b: string)
    requires a == [] || IsSpace(a[|a| - 1])
    requires forall i :: 0 <= i < |w| ==> !IsSpace(w[i])
    requires InnerAt(w, |w|)
    requires b == [] || IsSpace(b[0])
    ensures Delete(Email, a + w + b) == Delete(Email, a) + Delete(Email, b)
  {
    EmailAtRun(w, b);
    RunDeleted(Email, a, w, b);
  }

  /** A whitespace-delimited run without such an `@` is kept whole. */
  lemma EmailRunKept(a: string, w: string, b: string)
    requires a == [] || IsSpace(a[|a| - 1])
    requires forall i :: 0 <= i < |w| ==> !IsSpace(w[i])
    requires !InnerAt(w, |w|)
    requires b == [] || IsSpace(b[0])
    ensures Delete(Email, a + w + b) == Delete(Email, a) + w + Delete(Email, b)
  {
    var t := w + b;
    EmailFreeRun(w, b);
    DeleteSplit(Email, a, t);
    ConcatAssoc(a, w, b);
    ConcatAssoc(Delete(Email, a), w, Delete(Email, b));
  }

  lemma {:induction false} KeepConcat(x: string, y: string)
    ensures KeepLettersAndSpaces(x + y) == KeepLettersAndSpaces(x) + KeepLettersAndSpaces(y)
    decreases |x|
  {
    if x != [] {
      assert (x + y)[0] == x[0];
      assert (x + y)[1..] == x[1..] + y;
      KeepConcat(x[1..], y);
    } else {
      assert x + y == y;
    }
  }

  lemma {:induction false} KeepDropsPhoneChars(x: string)
    requires forall i :: 0 <= i < |x| ==> IsPhoneDigit(x[i]) || IsPhoneSeparator(x[i])
    ensures KeepLettersAndSpaces(x) == []
    decreases |x|
  {
    if x != [] { KeepDropsPhoneChars(x[1..]); }
  }

  /** The phone step deletes nothing that the letters-and-whitespace filter would keep. */
  lemma {:induction false} PhonesInvisibleAfterFilter(s: string, i: nat)
    requires i <= |s|
    ensures KeepLettersAndSpaces(DeletePhonesFrom(s, i)) == KeepLettersAndSpaces(s[i..])
    decreases |s| - i
  {
    if i < |s| {
      match PhoneAt(s, i)
      case Some(e) =>
        PhonesInvisibleAfterFilter(s, e);
        PhoneSpanDropped(s, i, e);
      case None =>
        PhonesInvisibleAfterFilter(s, i + 1);
        assert s[i..] == [s[i]] + s[i + 1..];
        KeepConcat([s[i]], DeletePhonesFrom(s, i + 1));
        KeepConcat([s[i]], s[i + 1..]);
    }
  }

  /** A span of phone digits and separators contributes nothing to the letters-and-whitespace filter. */
  lemma PhoneSpanDropped(s: string, i: nat, e: nat)
    requires i <= e <= |s|
    requires forall j :: i <= j < e ==> IsPhoneDigit(s[j]) || IsPhoneSeparator(s[j])
    ensures KeepLettersAndSpaces(s[i..]) == KeepLettersAndSpaces(s[e..])
  {
    var x := s[i..e];
    assert forall j :: 0 <= j < |x| ==> x[j] == s[i + j];
    KeepDropsPhoneChars(x);
    assert s[i..] == x + s[e..];
    KeepConcat(x, s[e..]);
  }

  /** A string on which the pattern matches nowhere is left as it is. */
  lemma {:induction false} NothingMatched(p: Pattern, s: string)
    requires forall k :: 0 <= k < |s| ==> MatchAt(p, s[k..]) == None
    ensures Delete(p, s) == s
    decreases |s|
  {
    if s != [] {
      forall k | 0 <= k < |s| - 1 ensures MatchAt(p, s[1..][k..]) == None {
        assert s[1..][k..] == s[k + 1..];
      }
      NothingMatched(p, s[1..]);
      assert MatchAt(p, s[0..]) == None;
      assert s[0..] == s;
      DeleteUnmatched(p, s);
    }
  }

  lemma {:induction false} KeepIdentity(s: string)
    requires forall i :: 0 <= i < |s| ==> IsLetter(s[i]) || IsSpace(s[i])
    ensures KeepLettersAndSpaces(s) == s
    decreases |s|
  {
    if s != [] {
      KeepIdentity(s[1..]);
      assert [s[0]] + s[1..] == s;
    }
  }

  /** A string already in normal form passes the last three stages unchanged. */
  lemma FinishIdentity(s: string)
    requires Normalized(s)
    ensures Finish(s) == s
  {
    KeepIdentity(s);
    CollapseIdentity(s);
    StripIdentity(s);
    LowerIdentity(s);
  }

  /** Without a '<' there is no tag to delete. */
  lemma TagFree(s: string)
    requires forall i :: 0 <= i < |s| ==> s[i] != '<'
    ensures Delete(Tag, s) == s
  {
    forall k | 0 <= k < |s| ensures MatchAt(Tag, s[k..]) == None {
      assert s[k..][0] == s[k];
    }
    NothingMatched(Tag, s);
  }

  /** Without an '@' there is no e-mail run to delete. */
  lemma EmailFree(s: string)
    requires forall i :: 0 <= i < |s| ==> s[i] != '@'
    ensures Delete(Email, s) == s
  {
    forall k | 0 <= k < |s| ensures MatchAt(Email, s[k..]) == None {
      var u := s[k..];
      assert !InnerAt(u, RunLength(u)) by {
        forall j | 0 <= j < |u| ensures u[j] != '@' {
          assert u[j] == s[k + j];
        }
      }
    }
    NothingMatched(Email, s);
  }

  /** Only what the letter filter keeps matters to the last three stages. */
  lemma FinishAfterKeep(s: string)
    ensures Finish(s) == Finish(KeepLettersAndSpaces(s))
  {
    KeepIdentity(KeepLettersAndSpaces(s));
  }

  /** A prefix without '<' is copied through the tag deletion unchanged. */
  lemma {:induction false} TagFreePrefix(a: string, b: string)
    requires '<' !in a
    ensures Delete(Tag, a + b) == a + Delete(Tag, b)
    decreases |a|
  {
    if a == [] {
      assert a + b == b;
    } else {
      var s := a + b;
      assert s[0] == a[0] && s[1..] == a[1..] + b;
      assert TagAt(s) == None;
      DeleteUnmatched(Tag, s);
      TagFreePrefix(a[1..], b);
      ConcatAssoc([a[0]], a[1..], Delete(Tag, b));
      assert [a[0]] + a[1..] == a;
    }
  }
}
