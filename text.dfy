/**
 * Character classes and the whitespace-level string operations shared by
 * the cleaners: the `\s` class of Python's `re` on `str`, `re.sub(r'\s+', ' ', _)`,
 * `str.strip()`, `str.lower()` on ASCII and `' '.join`.
 */
module Text {

  /** Python's `str.isspace()`, which is also what `\s` matches in a `str` pattern. */
  predicate IsSpace(c: char) {
    var n := c as int;
    (9 <= n <= 13) || (28 <= n <= 32) || n == 0x85 || n == 0xA0 || n == 0x1680
    || (0x2000 <= n <= 0x200A) || n == 0x2028 || n == 0x2029 || n == 0x202F
    || n == 0x205F || n == 0x3000
  }

  predicate IsUpper(c: char) { 'A' <= c <= 'Z' }
  predicate IsLower(c: char) { 'a' <= c <= 'z' }
  predicate IsLetter(c: char) { IsUpper(c) || IsLower(c) }
  predicate IsDigit(c: char) { '0' <= c <= '9' }

  /** `str.lower()` on one character, exact for ASCII (the only case the cleaners need). */
  function ToLower(c: char): (r: char)
    ensures IsLetter(c) ==> IsLower(r)
    ensures !IsUpper(c) ==> r == c
  {
    if IsUpper(c) then (c as int + 32) as char else c
  }

  function Lower(s: string): (r: string)
    ensures |r| == |s|
    ensures forall i :: 0 <= i < |s| ==> r[i] == ToLower(s[i])
    ensures forall i :: 0 <= i < |r| ==> !IsUpper(r[i])
  {
    seq(|s|, i requires 0 <= i < |s| => ToLower(s[i]))
  }

  /** Every whitespace character is a plain space and no two whitespace characters are adjacent. */
  ghost predicate Collapsed(s: string) {
    forall i :: 0 <= i < |s| && IsSpace(s[i]) ==> s[i] == ' ' && (i + 1 < |s| ==> !IsSpace(s[i + 1]))
  }

  /** No whitespace at either end. */
  ghost predicate Trimmed(s: string) {
    s == [] || (!IsSpace(s[0]) && !IsSpace(s[|s| - 1]))
  }

  /** Drops the leading run of whitespace. */
  function SkipSpaces(s: string): (r: string)
    ensures |r| <= |s| && r == s[|s| - |r|..]
    ensures r == [] || !IsSpace(r[0])
    ensures forall i :: 0 <= i < |s| - |r| ==> IsSpace(s[i])
  {
    if s != [] && IsSpace(s[0]) then SkipSpaces(s[1..]) else s
  }

  /** Drops the trailing run of whitespace. */
  function TrimEnd(s: string): (r: string)
    ensures |r| <= |s| && r == s[..|r|]
    ensures r == [] || !IsSpace(r[|r| - 1])
    ensures forall i :: |r| <= i < |s| ==> IsSpace(s[i])
  {
    if s != [] && IsSpace(s[|s| - 1]) then TrimEnd(s[..|s| - 1]) else s
  }

  /**
   * What `str.strip()` promises of its result `r` on `s`: no whitespace at either end, nothing
   * that was not in `s`, no new whitespace runs, and empty exactly when `s` is all whitespace.
   */
  ghost predicate StripFacts(s: string, r: string) {
    && Trimmed(r)
    && (forall c :: c in r ==> c in s)
    && (Collapsed(s) ==> Collapsed(r))
    && ((exists i :: 0 <= i < |s| && !IsSpace(s[i])) <==> r != [])
  }

  /** `str.strip()`: the part of `s` between its leading and trailing whitespace. */
  function Strip(s: string): (r: string)
    ensures StripFacts(s, r)
  {
    var t := SkipSpaces(s);
    var r := TrimEnd(t);
    StripSlice(s, t, r);
    r
  }

  /**
   * What `Strip` keeps is a slice of its input with only whitespace around it:
   * `t` is what is left after the leading whitespace, `r` is `t` without its trailing whitespace.
   */
  lemma StripSlice(s: string, t: string, r: string)
    requires |t| <= |s| && t == s[|s| - |t|..]
    requires t == [] || !IsSpace(t[0])
    requires forall i :: 0 <= i < |s| - |t| ==> IsSpace(s[i])
    requires |r| <= |t| && r == t[..|r|]
    requires r == [] || !IsSpace(r[|r| - 1])
    requires forall i :: |r| <= i < |t| ==> IsSpace(t[i])
    ensures StripFacts(s, r)
  {
    var a := |s| - |t|;
    SuffixPrefix(s, t, r);
    SliceMembers(s, a, r);
    if Collapsed(s) {
      SliceCollapsed(s, a, r);
    }
    if r == [] {
      assert t == [];
    } else {
      assert r[0] == t[0];
      assert !IsSpace(s[a]);
    }
  }

  /** A prefix of a suffix of `s` is a slice of `s`. */
  lemma SuffixPrefix(s: string, t: string, r: string)
    requires |t| <= |s| && t == s[|s| - |t|..]
    requires |r| <= |t| && r == t[..|r|]
    ensures forall i :: 0 <= i < |r| ==> r[i] == s[|s| - |t| + i]
  {
  }

  lemma SliceMembers(s: string, a: nat, r: string)
    requires a + |r| <= |s|
    requires forall i :: 0 <= i < |r| ==> r[i] == s[a + i]
    ensures forall c :: c in r ==> c in s
  {
    forall c | c in r
      ensures c in s
    {
      var i :| 0 <= i < |r| && r[i] == c;
      assert s[a + i] == c;
    }
  }

  lemma SliceCollapsed(s: string, a: nat, r: string)
    requires a + |r| <= |s|
    requires forall i :: 0 <= i < |r| ==> r[i] == s[a + i]
    requires Collapsed(s)
    ensures Collapsed(r)
  {
    forall i | 0 <= i < |r| && IsSpace(r[i])
      ensures r[i] == ' ' && (i + 1 < |r| ==> !IsSpace(r[i + 1]))
    {
      assert r[i] == s[a + i];
      if i + 1 < |r| {
        assert r[i + 1] == s[a + i + 1];
      }
    }
  }

  lemma SkipOneSpace(c: char, b: string)
    requires IsSpace(c)
    ensures SkipSpaces([c] + b) == SkipSpaces(b)
  {
    assert ([c] + b)[1..] == b;
  }

  lemma SkipNoSpaces(b: string)
    requires b == [] || !IsSpace(b[0])
    ensures SkipSpaces(b) == b
  {
  }

  lemma TrimNoSpaces(b: string)
    requires b == [] || !IsSpace(b[|b| - 1])
    ensures TrimEnd(b) == b
  {
  }

  /** `re.sub(r'\s+', ' ', s)`: each maximal whitespace run becomes one space. */
  function Collapse(s: string): (r: string)
    decreases |s|
    ensures Collapsed(r)
    ensures r == [] <==> s == []
    ensures s != [] && !IsSpace(s[0]) ==> r[0] == s[0]
    ensures s != [] && IsSpace(s[0]) ==> r[0] == ' '
    ensures forall c :: c in r && c != ' ' ==> c in s
  {
    if s == [] then []
    else if IsSpace(s[0]) then
      var t := SkipSpaces(s[1..]);
      var x := Collapse(t);
      ConsCollapsed(' ', x);
      SuffixMembers(s[1..], t);
      [' '] + x
    else
      var x := Collapse(s[1..]);
      ConsCollapsed(s[0], x);
      [s[0]] + x
  }

  /** One character in front of a collapsed string keeps it collapsed, unless it is whitespace before whitespace. */
  lemma ConsCollapsed(c: char, x: string)
    requires Collapsed(x)
    requires IsSpace(c) ==> c == ' ' && (x == [] || !IsSpace(x[0]))
    ensures Collapsed([c] + x)
  {
    var s := [c] + x;
    forall i | 0 <= i < |s| && IsSpace(s[i])
      ensures s[i] == ' ' && (i + 1 < |s| ==> !IsSpace(s[i + 1]))
    {
      if i > 0 {
        assert s[i] == x[i - 1];
        if i + 1 < |s| { assert s[i + 1] == x[i]; }
      }
    }
  }

  lemma SuffixMembers(s: string, t: string)
    requires |t| <= |s| && t == s[|s| - |t|..]
    ensures forall c :: c in t ==> c in s
  {
    SliceMembers(s, |s| - |t|, t);
  }

  /** `s.startswith(p)`. */
  predicate StartsWith(s: string, p: string) {
    |p| <= |s| && forall i :: 0 <= i < |p| ==> s[i] == p[i]
  }

  /** `' '.join(parts)`. */
  function Join(parts: seq<string>): (r: string)
  {
    if parts == [] then ""
    else if |parts| == 1 then parts[0]
    else parts[0] + " " + Join(parts[1..])
  }

  /** A string of a-z and single inner spaces only: what the resume cleaners promise. */
  ghost predicate Normalized(s: string) {
    (forall i :: 0 <= i < |s| ==> IsLower(s[i]) || s[i] == ' ') && Collapsed(s) && Trimmed(s)
  }

  lemma EmptyNormalized()
    ensures Normalized("")
  {
  }

  /** The text with every whitespace character dropped. */
  function NonSpace(s: string): (r: string)
    ensures forall c :: c in r <==> c in s && !IsSpace(c)
  {
    if s == [] then []
    else (if IsSpace(s[0]) then [] else [s[0]]) + NonSpace(s[1..])
  }

  /**
   * Collapsing touches whitespace only: the non-whitespace characters come out
   * all of them, in order, and nothing else.
   */
  lemma {:induction false} CollapseKeepsNonSpace(s: string)
    ensures NonSpace(Collapse(s)) == NonSpace(s)
    decreases |s|
  {
    if s != [] {
      var x := s[1..];
      assert s == [s[0]] + x;
      CollapseCons(s[0], x);
      NonSpaceCons(s[0], x);
      if IsSpace(s[0]) {
        var t := SkipSpaces(x);
        CollapseKeepsNonSpace(t);
        NonSpaceSkip(x);
        NonSpaceCons(' ', Collapse(t));
        assert NonSpace(Collapse(s)) == NonSpace(Collapse(t));
      } else {
        CollapseKeepsNonSpace(x);
        NonSpaceCons(s[0], Collapse(x));
        assert NonSpace(Collapse(s)) == [s[0]] + NonSpace(Collapse(x));
      }
    }
  }

  /** `NonSpace` on a string with a known first character. */
  lemma NonSpaceCons(c: char, x: string)
    ensures IsSpace(c) ==> NonSpace([c] + x) == NonSpace(x)
    ensures !IsSpace(c) ==> NonSpace([c] + x) == [c] + NonSpace(x)
  {
    assert ([c] + x)[1..] == x;
  }

  lemma {:induction false} NonSpaceSkip(s: string)
    ensures NonSpace(SkipSpaces(s)) == NonSpace(s)
    decreases |s|
  {
    if s != [] && IsSpace(s[0]) {
      NonSpaceSkip(s[1..]);
    }
  }

  /** A whole whitespace run, of any length and kind, becomes a single space. */
  lemma CollapseRun(w: string, b: string)
    requires w != [] && forall i :: 0 <= i < |w| ==> IsSpace(w[i])
    requires b == [] || !IsSpace(b[0])
    ensures Collapse(w + b) == [' '] + Collapse(b)
  {
    var y := w[1..] + b;
    ConcatAssoc([w[0]], w[1..], b);
    assert [w[0]] + w[1..] == w;
    CollapseCons(w[0], y);
    SkipWhole(w[1..], b);
  }

  /** Skipping a whitespace run that ends before a non-space leaves exactly what follows it. */
  lemma {:induction false} SkipWhole(w: string, b: string)
    requires forall i :: 0 <= i < |w| ==> IsSpace(w[i])
    requires b == [] || !IsSpace(b[0])
    ensures SkipSpaces(w + b) == b
    decreases |w|
  {
    if w == [] {
      assert w + b == b;
      SkipNoSpaces(b);
    } else {
      assert (w + b)[1..] == w[1..] + b;
      SkipWhole(w[1..], b);
    }
  }

  /** `t` sits in `s` at index `k`. */
  predicate SitsAt(s: string, t: string, k: nat) {
    k + |t| <= |s| && s[k..k + |t|] == t
  }

  /** `r` is the slice of `s` at `a`, with only whitespace before and after it. */
  ghost predicate Framed(s: string, r: string, a: nat) {
    && SitsAt(s, r, a)
    && (forall i :: 0 <= i < a ==> IsSpace(s[i]))
    && (forall i :: a + |r| <= i < |s| ==> IsSpace(s[i]))
  }

  /**
   * `Strip` keeps a slice `s[a..a + |r|]` of its input and drops only
   * whitespace before and after it; with `Trimmed(r)` this is all it does.
   */
  lemma StripBounds(s: string) returns (a: nat)
    ensures Framed(s, Strip(s), a)
  {
    a := |s| - |SkipSpaces(s)|;
    TrimmedFramed(s);
  }

  /** `Strip` is `TrimEnd` after `SkipSpaces`, framed by whitespace. */
  lemma TrimmedFramed(s: string)
    ensures Framed(s, TrimEnd(SkipSpaces(s)), |s| - |SkipSpaces(s)|)
  {
    var t := SkipSpaces(s);
    SkipTrimFramed(s, t, TrimEnd(t));
  }

  /** What is left between the leading and the trailing whitespace is framed by it. */
  lemma SkipTrimFramed(s: string, t: string, r: string)
    requires |t| <= |s| && t == s[|s| - |t|..]
    requires forall i :: 0 <= i < |s| - |t| ==> IsSpace(s[i])
    requires |r| <= |t| && r == t[..|r|]
    requires forall i :: |r| <= i < |t| ==> IsSpace(t[i])
    ensures Framed(s, r, |s| - |t|)
  {
    var a := |s| - |t|;
    forall i | a + |r| <= i < |s|
      ensures IsSpace(s[i])
    {
      assert s[i] == t[i - a];
    }
  }

  /** Collapsing an already collapsed string changes nothing. */
  lemma {:induction false} CollapseIdentity(s: string)
    requires Collapsed(s)
    ensures Collapse(s) == s
    decreases |s|
  {
    if s != [] {
      var y := s[1..];
      assert s == [s[0]] + y;
      assert Collapse(y) == y by {
        CollapsedTail(s);
        CollapseIdentity(y);
      }
      CollapseCons(s[0], y);
      if IsSpace(s[0]) {
        assert s[0] == ' ' && (y == [] || (y[0] == s[1] && !IsSpace(s[1])));
        SkipNoSpaces(y);
      }
    }
  }

  /** Stripping a trimmed string changes nothing. */
  lemma StripIdentity(s: string)
    requires Trimmed(s)
    ensures Strip(s) == s
  {
  }

  /** Lowering a string of lower-case letters and spaces changes nothing. */
  lemma LowerIdentity(s: string)
    requires forall i :: 0 <= i < |s| ==> IsLower(s[i]) || s[i] == ' '
    ensures Lower(s) == s
  {
  }

  /** Lower-casing maps whitespace to itself and nothing else to whitespace. */
  lemma LowerKeepsShape(s: string)
    requires forall i :: 0 <= i < |s| ==> IsLetter(s[i]) || s[i] == ' '
    requires Collapsed(s) && Trimmed(s)
    ensures Normalized(Lower(s))
  {
    var r := Lower(s);
    assert forall i :: 0 <= i < |s| ==> (IsSpace(r[i]) <==> IsSpace(s[i])) && (s[i] == ' ' ==> r[i] == ' ');
  }

  lemma CollapsedTail(s: string)
    requires Collapsed(s) && s != []
    ensures Collapsed(s[1..])
  {
    forall i | 0 <= i < |s[1..]| && IsSpace(s[1..][i])
      ensures s[1..][i] == ' ' && (i + 1 < |s[1..]| ==> !IsSpace(s[1..][i + 1]))
    {
      assert s[1..][i] == s[i + 1];
    }
  }

  /** A collapsed prefix that ends in a non-space passes through the whitespace collapse untouched. */
  lemma {:induction false} CollapsePrefix(p: string, x: string)
    requires Collapsed(p) && p != [] && !IsSpace(p[|p| - 1])
    ensures Collapse(p + x) == p + Collapse(x)
    decreases |p|
  {
    var y := p[1..] + x;
    assert p + x == [p[0]] + y;
    if |p| == 1 {
      assert y == x;
      CollapseCons(p[0], y);
    } else {
      assert Collapse(y) == p[1..] + Collapse(x) by {
        CollapsedTail(p);
        CollapsePrefix(p[1..], x);
      }
      assert Collapse([p[0]] + y) == [p[0]] + Collapse(y) by {
        CollapseCons(p[0], y);
        if IsSpace(p[0]) {
          assert p[0] == ' ' && y[0] == p[1] && !IsSpace(p[1]);
          SkipNoSpaces(y);
        }
      }
      calc {
        Collapse(p + x);
        Collapse([p[0]] + y);
        [p[0]] + (p[1..] + Collapse(x));
        { ConcatAssoc([p[0]], p[1..], Collapse(x)); assert [p[0]] + p[1..] == p; }
        p + Collapse(x);
      }
    }
  }

  /** One unfolding of `Collapse` on a string given as its first character and the rest. */
  lemma CollapseCons(c: char, y: string)
    ensures !IsSpace(c) ==> Collapse([c] + y) == [c] + Collapse(y)
    ensures IsSpace(c) ==> Collapse([c] + y) == [' '] + Collapse(SkipSpaces(y))
  {
    assert ([c] + y)[0] == c && ([c] + y)[1..] == y;
  }

  lemma ConcatAssoc<T>(x: seq<T>, y: seq<T>, z: seq<T>)
    ensures x + (y + z) == (x + y) + z
  {
  }

  /** Stripping keeps a prefix that starts and ends with a non-space, and then at most what follows it. */
  lemma StripPrefix(p: string, c: string)
    requires p != [] && !IsSpace(p[0]) && !IsSpace(p[|p| - 1])
    ensures var r := Strip(p + c);
      |p| <= |r| && r[..|p|] == p && (|r| > |p| ==> r[|p|] == c[0])
  {
    var s := p + c;
    assert s[0] == p[0] && s[|p| - 1] == p[|p| - 1];
    SkipNoSpaces(s);
    var r := TrimEnd(s);
    assert Strip(s) == r;
    assert |p| <= |r|;
    assert r[..|p|] == s[..|p|] == p;
  }

  /** Two non-empty trimmed, collapsed strings glued with one space stay trimmed and collapsed. */
  lemma Glue(a: string, b: string)
    requires a != [] && b != []
    requires Collapsed(a) && Trimmed(a) && Collapsed(b) && Trimmed(b)
    ensures Collapsed(a + " " + b) && Trimmed(a + " " + b)
  {
    var s := a + " " + b;
    forall i | 0 <= i < |s| && IsSpace(s[i])
      ensures s[i] == ' ' && (i + 1 < |s| ==> !IsSpace(s[i + 1]))
    {
      if i < |a| {
        assert s[i] == a[i];
        if i + 1 < |a| { assert s[i + 1] == a[i + 1]; }
      } else if i > |a| {
        assert s[i] == b[i - |a| - 1];
        if i + 1 < |s| { assert s[i + 1] == b[i - |a|]; }
      } else {
        assert s[i + 1] == b[0];
      }
    }
  }

  /** Joining trimmed, collapsed, non-empty parts gives a trimmed, collapsed string. */
  lemma {:induction false} JoinShape(parts: seq<string>)
    requires forall i :: 0 <= i < |parts| ==> parts[i] != [] && Collapsed(parts[i]) && Trimmed(parts[i])
    ensures Collapsed(Join(parts)) && Trimmed(Join(parts))
    ensures parts != [] ==> Join(parts) != [] && Join(parts)[..|parts[0]|] == parts[0]
    decreases |parts|
  {
    if |parts| > 1 {
      JoinShape(parts[1..]);
      Glue(parts[0], Join(parts[1..]));
    }
  }

  lemma StripSpaceThen(b: string)
    requires Trimmed(b)
    ensures Strip(" " + b) == b
  {
    assert IsSpace(' ');
    StripLeadingSpace(' ', b);
  }

  lemma StripLeadingSpace(c: char, b: string)
    requires IsSpace(c) && Trimmed(b)
    ensures Strip([c] + b) == b
  {
    SkipOneSpace(c, b);
    SkipNoSpaces(b);
    TrimNoSpaces(b);
  }

  lemma StripThenSpace(p: string)
    requires p != [] && Trimmed(p)
    ensures Strip(p + " ") == p
  {
    assert IsSpace(' ');
    StripTrailingSpace(p, ' ');
  }

  lemma StripTrailingSpace(p: string, c: char)
    requires IsSpace(c) && p != [] && Trimmed(p)
    ensures Strip(p + [c]) == p
  {
    var s := p + [c];
    assert s[0] == p[0];
    SkipNoSpaces(s);
    TrimOneSpace(p, c);
    TrimNoSpaces(p);
  }

  lemma TrimOneSpace(b: string, c: char)
    requires IsSpace(c)
    ensures TrimEnd(b + [c]) == TrimEnd(b)
  {
    assert (b + [c])[..|b|] == b;
  }
}
