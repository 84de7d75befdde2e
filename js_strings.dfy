/**
 * The three JavaScript string built-ins the core relies on:
 * `String.prototype.trim` (the schema's `trim: true` setter),
 * `String.prototype.toLowerCase` (the schema's `lowercase: true` setter) and
 * `String.prototype.split(" ")` (the auth guard's header parsing).
 */
module JsStrings {

  /** ECMAScript WhiteSpace and LineTerminator code points: what `trim` removes. */
  predicate IsWhiteSpace(c: char) {
    || c == '\t' || c == '\n' || c == '\U{000B}' || c == '\U{000C}' || c == '\r'
    || c == ' ' || c == '\U{00A0}' || c == '\U{1680}'
    || ('\U{2000}' <= c <= '\U{200A}')
    || c == '\U{2028}' || c == '\U{2029}' || c == '\U{202F}' || c == '\U{205F}'
    || c == '\U{3000}' || c == '\U{FEFF}'
  }

  /** Neither end of `s` is white space. */
  predicate IsTrimmed(s: string) {
    s == [] || (!IsWhiteSpace(s[0]) && !IsWhiteSpace(s[|s| - 1]))
  }

  /** `s` with its leading white space removed. */
  function TrimStart(s: string): (r: string)
    ensures |r| <= |s|
  {
    if s != [] && IsWhiteSpace(s[0]) then TrimStart(s[1..]) else s
  }

  /** `TrimStart` drops a prefix of white space and stops at the first other character. */
  lemma {:induction false} TrimStartSpec(s: string)
    ensures TrimStart(s) == s[|s| - |TrimStart(s)|..]
    ensures forall k :: 0 <= k < |s| - |TrimStart(s)| ==> IsWhiteSpace(s[k])
    ensures TrimStart(s) == [] || !IsWhiteSpace(TrimStart(s)[0])
  {
    if s != [] && IsWhiteSpace(s[0]) {
      TrimStartSpec(s[1..]);
    }
  }

  /** `s` with its trailing white space removed. */
  function TrimEnd(s: string): (r: string)
    ensures |r| <= |s|
  {
    if s != [] && IsWhiteSpace(s[|s| - 1]) then TrimEnd(s[..|s| - 1]) else s
  }

  /** `TrimEnd` drops a suffix of white space and stops at the last other character. */
  lemma {:induction false} TrimEndSpec(s: string)
    ensures TrimEnd(s) == s[..|TrimEnd(s)|]
    ensures forall k :: |TrimEnd(s)| <= k < |s| ==> IsWhiteSpace(s[k])
    ensures TrimEnd(s) == [] || !IsWhiteSpace(TrimEnd(s)[|TrimEnd(s)| - 1])
  {
    if s != [] && IsWhiteSpace(s[|s| - 1]) {
      TrimEndSpec(s[..|s| - 1]);
    }
  }

  /** How many white-space characters `s` starts with. */
  function LeadingWhiteSpace(s: string): (n: nat)
    ensures n <= |s|
  {
    |s| - |TrimStart(s)|
  }

  /** `s.trim()`: neither end of the result is white space. */
  function Trim(s: string): (r: string)
    ensures IsTrimmed(r)
  {
    TrimStartSpec(s);
    TrimEndSpec(TrimStart(s));
    TrimEnd(TrimStart(s))
  }

  /**
   * What `trim` keeps and what it drops: the result is the infix of `s`
   * that starts after its leading white space, and everything cut away on
   * either side is white space.
   */
  lemma TrimSpec(s: string)
    ensures LeadingWhiteSpace(s) + |Trim(s)| <= |s|
    ensures Trim(s) == s[LeadingWhiteSpace(s)..LeadingWhiteSpace(s) + |Trim(s)|]
    ensures forall k :: 0 <= k < LeadingWhiteSpace(s) ==> IsWhiteSpace(s[k])
    ensures forall k :: LeadingWhiteSpace(s) + |Trim(s)| <= k < |s| ==> IsWhiteSpace(s[k])
  {
    var t := TrimStart(s);
    TrimStartSpec(s);
    TrimEndSpec(t);
    assert Trim(s) == s[|s| - |t|..|s| - |t| + |Trim(s)|];
  }

  /** Trimming a trimmed string changes nothing, so `trim` is idempotent. */
  lemma TrimOfTrimmed(s: string)
    requires IsTrimmed(s)
    ensures Trim(s) == s
  {
  }

  lemma TrimIdempotent(s: string)
    ensures Trim(Trim(s)) == Trim(s)
  {
    TrimOfTrimmed(Trim(s));
  }

  predicate IsUpper(c: char) { 'A' <= c <= 'Z' }

  /** The ASCII letters, capital and small, in alphabetical order. */
  const UpperLetters: string := "ABCDEFGHIJKLMNOPQRSTUVWXYZ"
  const LowerLetters: string := "abcdefghijklmnopqrstuvwxyz"

  /** A capital becomes the small letter at the same place in the alphabet; anything else is kept. */
  function ToLowerChar(c: char): (d: char)
    ensures !IsUpper(d)
    ensures IsUpper(c) ==> d == LowerLetters[c as int - 'A' as int]
    ensures !IsUpper(c) ==> d == c
    ensures IsWhiteSpace(d) <==> IsWhiteSpace(c)
  {
    if IsUpper(c) then (c as int + 32) as char else c
  }

  /** `x` and `y` are the same character, or the capital and the small form of one ASCII letter. */
  predicate SameLetterIgnoringCase(x: char, y: char) {
    || x == y
    || exists i :: 0 <= i < 26 && (|| (x == UpperLetters[i] && y == LowerLetters[i])
                                   || (x == LowerLetters[i] && y == UpperLetters[i]))
  }

  lemma LettersAligned()
    ensures forall i :: 0 <= i < 26 ==> UpperLetters[i] as int == 'A' as int + i
    ensures forall i :: 0 <= i < 26 ==> LowerLetters[i] as int == 'a' as int + i
  {
  }

  /** Lower-casing maps both forms of the `i`-th letter to its small form. */
  lemma LowerOfLetter(i: int)
    requires 0 <= i < 26
    ensures ToLowerChar(UpperLetters[i]) == LowerLetters[i] == ToLowerChar(LowerLetters[i])
  {
    LettersAligned();
  }

  /** A capital is the `i`-th capital for `i` its distance from 'A'. */
  lemma CapitalAt(x: char)
    requires IsUpper(x)
    ensures 0 <= x as int - 'A' as int < 26 && x == UpperLetters[x as int - 'A' as int]
  {
    LettersAligned();
  }

  /** Two characters lower-case alike exactly when they differ at most in ASCII case. */
  lemma LowerCharAlikeIff(x: char, y: char)
    ensures ToLowerChar(x) == ToLowerChar(y) <==> SameLetterIgnoringCase(x, y)
  {
    if ToLowerChar(x) == ToLowerChar(y) && x != y {
      if IsUpper(x) {
        CapitalAt(x);
        assert x == UpperLetters[x as int - 'A' as int] && y == LowerLetters[x as int - 'A' as int];
      } else {
        CapitalAt(y);
        assert y == UpperLetters[y as int - 'A' as int] && x == LowerLetters[y as int - 'A' as int];
      }
    }
    if SameLetterIgnoringCase(x, y) && x != y {
      var i :| 0 <= i < 26 && (|| (x == UpperLetters[i] && y == LowerLetters[i])
                               || (x == LowerLetters[i] && y == UpperLetters[i]));
      LowerOfLetter(i);
    }
  }

  /** No ASCII capital letter occurs in `s`. */
  predicate IsLowerCase(s: string) {
    forall k :: 0 <= k < |s| ==> !IsUpper(s[k])
  }

  /** `s.toLowerCase()`, restricted to the ASCII letters A-Z. */
  function ToLowerCase(s: string): (r: string)
    ensures |r| == |s| && IsLowerCase(r)
    ensures forall k :: 0 <= k < |s| ==> (IsWhiteSpace(r[k]) <==> IsWhiteSpace(s[k]))
    ensures forall k :: 0 <= k < |s| && !IsUpper(s[k]) ==> r[k] == s[k]
    ensures forall k :: 0 <= k < |s| && IsUpper(s[k]) ==> r[k] == LowerLetters[s[k] as int - 'A' as int]
  {
    seq(|s|, k requires 0 <= k < |s| => ToLowerChar(s[k]))
  }

  /**
   * Two strings lower-case alike exactly when they have the same length and
   * differ at most in the case of ASCII letters: "Jane@X.com" and
   * "jane@x.com" are one e-mail to the schema.
   */
  lemma LowerCaseAlikeIff(a: string, b: string)
    ensures ToLowerCase(a) == ToLowerCase(b)
        <==> |a| == |b| && forall k :: 0 <= k < |a| ==> SameLetterIgnoringCase(a[k], b[k])
  {
    if |a| == |b| {
      forall k | 0 <= k < |a|
        ensures ToLowerCase(a)[k] == ToLowerCase(b)[k] <==> SameLetterIgnoringCase(a[k], b[k])
      {
        LowerCharAlikeIff(a[k], b[k]);
      }
      if forall k :: 0 <= k < |a| ==> SameLetterIgnoringCase(a[k], b[k]) {
        assert forall k :: 0 <= k < |a| ==> ToLowerCase(a)[k] == ToLowerCase(b)[k];
      }
    }
  }

  /** Lower-casing keeps a trimmed string trimmed. */
  lemma LowerKeepsTrimmed(s: string)
    requires IsTrimmed(s)
    ensures IsTrimmed(ToLowerCase(s))
  {
  }

  /**
   * The schema's e-mail setters, `trim` then `lowercase`.
   * The result is trimmed and has no capital letter.
   */
  function NormalizeEmail(s: string): (r: string)
    ensures IsTrimmed(r) && IsLowerCase(r)
  {
    LowerKeepsTrimmed(Trim(s));
    ToLowerCase(Trim(s))
  }

  /** A normalised e-mail is a fixed point of the setters. */
  lemma NormalizeEmailIdempotent(s: string)
    ensures NormalizeEmail(NormalizeEmail(s)) == NormalizeEmail(s)
  {
    var n := NormalizeEmail(s);
    TrimOfTrimmed(n);
    assert ToLowerCase(n) == n;
  }

  /** The fields of `split(" ")`, joined back with single spaces. */
  function Join(fields: seq<string>): string
    requires |fields| >= 1
  {
    if |fields| == 1 then fields[0] else fields[0] + " " + Join(fields[1..])
  }

  predicate SpaceFree(s: string) {
    forall k :: 0 <= k < |s| ==> s[k] != ' '
  }

  /**
   * `s.split(" ")`: the maximal space-free pieces between single spaces.
   * There is always at least one field, consecutive spaces give empty fields,
   * and joining the fields with " " gives `s` back.
   */
  function Split(s: string): (fields: seq<string>)
    ensures |fields| >= 1
    ensures forall f :: f in fields ==> SpaceFree(f)
    ensures Join(fields) == s
  {
    if s == [] then [[]]
    else
      var rest := Split(s[1..]);
      if s[0] == ' ' then
        assert Join([[]] + rest) == " " + Join(rest) by {
          assert ([[]] + rest)[1..] == rest;
        }
        [[]] + rest
      else
        var fields := [[s[0]] + rest[0]] + rest[1..];
        assert fields[1..] == rest[1..];
        assert rest[0] in rest;
        assert SpaceFree([s[0]] + rest[0]);
        assert forall f :: f in rest[1..] ==> f in rest;
        assert s == [s[0]] + s[1..];
        fields
  }

  /** A space-free string is a single field. */
  lemma {:induction false} SplitSpaceFree(w: string)
    requires SpaceFree(w)
    ensures Split(w) == [w]
  {
    if w != [] {
      SplitSpaceFree(w[1..]);
      assert [w[0]] + w[1..] == w;
    }
  }

  /** A space-free word followed by a space is the first field, the rest splits on its own. */
  lemma {:induction false} SplitAfterWord(w: string, t: string)
    requires SpaceFree(w)
    ensures Split(w + " " + t) == [w] + Split(t)
  {
    if w == [] {
      assert [] + " " + t == [' '] + t;
      assert (" " + t)[1..] == t;
    } else {
      SplitAfterWord(w[1..], t);
      assert (w + " " + t)[1..] == w[1..] + " " + t;
      assert [w[0]] + w[1..] == w;
    }
  }

  /** Splitting undoes joining space-free fields: the two are inverse. */
  lemma {:induction false} SplitJoin(fields: seq<string>)
    requires |fields| >= 1
    requires forall k :: 0 <= k < |fields| ==> SpaceFree(fields[k])
    ensures Split(Join(fields)) == fields
  {
    if |fields| == 1 {
      SplitSpaceFree(fields[0]);
    } else {
      SplitJoin(fields[1..]);
      SplitAfterWord(fields[0], Join(fields[1..]));
      assert [fields[0]] + fields[1..] == fields;
    }
  }
}
