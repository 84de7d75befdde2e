/**
 * A hand-written recognizer for the schema's e-mail pattern
 *
 *     ^\w+([.-]?\w+)*@\w+([.-]?\w+)*(\.\w{2,3})+$
 *
 * where `\w` is `[A-Za-z0-9_]`. Each sub-pattern is one predicate:
 * `Dotted` is `\w+([.-]?\w+)*`, `TopLevelLabels` is `(\.\w{2,3})+`,
 * and `MatchesEmail` anchors both ends and tries every split.
 */
module EmailFormat {

  /** `\w`. */
  predicate IsWordChar(c: char) {
    ('a' <= c <= 'z') || ('A' <= c <= 'Z') || ('0' <= c <= '9') || c == '_'
  }

  /** `[.-]`. */
  predicate IsSeparator(c: char) {
    c == '.' || c == '-'
  }

  /**
   * `\w+([.-]?\w+)*`, read from the left: a word character, then either
   * nothing, more of the same, or one separator followed by more of the same.
   */
  predicate Dotted(s: string): (b: bool)
    ensures b ==> |s| >= 1 && IsWordChar(s[0]) && IsWordChar(s[|s| - 1])
    decreases |s|
  {
    && |s| >= 1
    && IsWordChar(s[0])
    && (|s| == 1 || Dotted(s[1..]) || (IsSeparator(s[1]) && Dotted(s[2..])))
  }

  /** `(\.\w{2,3})+`: one or more labels, each a dot and two or three word characters. */
  predicate TopLevelLabels(t: string): (b: bool)
    ensures b ==> |t| >= 3 && t[0] == '.' && IsWordChar(t[|t| - 2]) && IsWordChar(t[|t| - 1])
    decreases |t|
  {
    && |t| >= 3
    && t[0] == '.' && IsWordChar(t[1]) && IsWordChar(t[2])
    && (|| |t| == 3
        || TopLevelLabels(t[3..])
        || (IsWordChar(t[3]) && (|t| == 4 || TopLevelLabels(t[4..]))))
  }

  /**
   * `s[..i]` is the local part, `s[i]` the '@', `s[i + 1..k]` the dotted name
   * of the domain and `s[k..]` its top-level labels.
   */
  predicate SplitsAt(s: string, i: int, k: int) {
    && 0 <= i < k <= |s|
    && s[i] == '@'
    && Dotted(s[..i])
    && Dotted(s[i + 1..k])
    && TopLevelLabels(s[k..])
  }

  /** The whole pattern, anchored at both ends: some split into the three pieces. */
  predicate MatchesEmail(s: string): (b: bool)
    ensures b ==> |s| >= 5 && IsWordChar(s[0]) && IsWordChar(s[|s| - 1])
  {
    exists i, k :: 0 <= i < k <= |s| && SplitsAt(s, i, k)
  }

  // ----- An independent description of what the pattern accepts -----

  /**
   * What `\w+([.-]?\w+)*` accepts, without recursion: word characters and
   * separators only, a word character at both ends, and no two separators in a row.
   */
  predicate DottedShape(s: string) {
    && |s| >= 1
    && IsWordChar(s[0]) && IsWordChar(s[|s| - 1])
    && (forall k :: 0 <= k < |s| ==> IsWordChar(s[k]) || IsSeparator(s[k]))
    && (forall k :: 0 <= k < |s| - 1 ==> IsWordChar(s[k]) || IsWordChar(s[k + 1]))
  }

  lemma {:induction false} DottedHasShape(s: string)
    requires Dotted(s)
    ensures DottedShape(s)
    decreases |s|
  {
    if |s| > 1 {
      if Dotted(s[1..]) {
        DottedHasShape(s[1..]);
        assert forall k :: 1 <= k < |s| ==> s[k] == s[1..][k - 1];
      } else {
        DottedHasShape(s[2..]);
        assert forall k :: 2 <= k < |s| ==> s[k] == s[2..][k - 2];
      }
    }
  }

  lemma {:induction false} ShapeIsDotted(s: string)
    requires DottedShape(s)
    ensures Dotted(s)
    decreases |s|
  {
    if |s| > 1 {
      if IsWordChar(s[1]) {
        assert forall k :: 0 <= k < |s| - 1 ==> s[1..][k] == s[k + 1];
        ShapeIsDotted(s[1..]);
      } else {
        assert IsWordChar(s[2]);
        assert forall k :: 0 <= k < |s| - 2 ==> s[2..][k] == s[k + 2];
        ShapeIsDotted(s[2..]);
      }
    }
  }

  /** The recursive reading of `\w+([.-]?\w+)*` and its shape description agree. */
  lemma DottedIffShape(s: string)
    ensures Dotted(s) <==> DottedShape(s)
  {
    if Dotted(s) { DottedHasShape(s); }
    if DottedShape(s) { ShapeIsDotted(s); }
  }

  /** The last label of `s` is a dot followed by exactly `n` word characters at the end. */
  predicate LastLabelHasLength(s: string, n: nat) {
    && n < |s|
    && s[|s| - n - 1] == '.'
    && forall k :: |s| - n <= k < |s| ==> IsWordChar(s[k])
  }

  /** `s` ends with a dot and two or three word characters. */
  predicate EndsWithShortLabel(s: string) {
    LastLabelHasLength(s, 2) || LastLabelHasLength(s, 3)
  }

  predicate IsLabelChar(c: char) {
    IsWordChar(c) || c == '.'
  }

  lemma {:induction false} TopLevelLabelsShape(t: string)
    requires TopLevelLabels(t)
    ensures t[0] == '.'
    ensures forall k :: 0 <= k < |t| ==> IsLabelChar(t[k])
    ensures EndsWithShortLabel(t)
    decreases |t|
  {
    if |t| > 3 {
      if TopLevelLabels(t[3..]) {
        TopLevelLabelsShape(t[3..]);
        assert forall k :: 3 <= k < |t| ==> t[k] == t[3..][k - 3];
        assert EndsWithShortLabel(t[3..]);
        if LastLabelHasLength(t[3..], 2) {
          assert LastLabelHasLength(t, 2);
        } else {
          assert LastLabelHasLength(t, 3);
        }
      } else if |t| > 4 {
        TopLevelLabelsShape(t[4..]);
        assert forall k :: 4 <= k < |t| ==> t[k] == t[4..][k - 4];
        if LastLabelHasLength(t[4..], 2) {
          assert LastLabelHasLength(t, 2);
        } else {
          assert LastLabelHasLength(t, 3);
        }
      } else {
        assert LastLabelHasLength(t, 3);
      }
    } else {
      assert LastLabelHasLength(t, 2);
    }
  }

  /** How often `c` occurs in `s`. */
  function Occurrences(s: string, c: char): (n: nat)
    ensures n <= |s|
    ensures n == 0 <==> forall k :: 0 <= k < |s| ==> s[k] != c
  {
    if s == [] then 0 else (if s[0] == c then 1 else 0) + Occurrences(s[1..], c)
  }

  lemma {:induction false} OccurrencesConcat(a: string, b: string, c: char)
    ensures Occurrences(a + b, c) == Occurrences(a, c) + Occurrences(b, c)
  {
    if a == [] {
      assert a + b == b;
    } else {
      assert (a + b)[1..] == a[1..] + b;
      OccurrencesConcat(a[1..], b, c);
    }
  }

  /** The three pieces the pattern matched: local part, '@', dotted name, top-level labels. */
  lemma EmailParts(s: string) returns (i: nat, k: nat)
    requires MatchesEmail(s)
    ensures 1 <= i < k < |s| - 1 && s[i] == '@'
    ensures Dotted(s[..i]) && Dotted(s[i + 1..k]) && TopLevelLabels(s[k..])
  {
    i, k :| 0 <= i < k <= |s| && SplitsAt(s, i, k);
  }

  /** A local part, an '@', a domain name and top-level labels without '@' hold exactly one '@'. */
  lemma {:induction false} OneAtBetween(local: string, name: string, labels: string)
    requires Occurrences(local, '@') == 0 && Occurrences(name, '@') == 0 && Occurrences(labels, '@') == 0
    ensures Occurrences(local + "@" + name + labels, '@') == 1
  {
    OccurrencesConcat(local, "@", '@');
    OccurrencesConcat(local + "@", name, '@');
    OccurrencesConcat(local + "@" + name, labels, '@');
  }

  /** Exactly one '@' occurs in an accepted address. */
  lemma {:induction false} EmailHasOneAt(s: string)
    requires MatchesEmail(s)
    ensures Occurrences(s, '@') == 1
  {
    var i, k := EmailParts(s);
    var local, name, labels := s[..i], s[i + 1..k], s[k..];
    DottedHasNoAt(local);
    DottedHasNoAt(name);
    LabelsHaveNoAt(labels);
    PiecesJoin(s, i, k);
    OneAtBetween(local, name, labels);
  }

  lemma PiecesJoin(s: string, i: nat, k: nat)
    requires i < k <= |s| && s[i] == '@'
    ensures s == s[..i] + "@" + s[i + 1..k] + s[k..]
  {
    assert s[..i + 1] == s[..i] + "@";
    assert s[..k] == s[..i + 1] + s[i + 1..k];
    assert s == s[..k] + s[k..];
  }

  lemma DottedHasNoAt(s: string)
    requires Dotted(s)
    ensures Occurrences(s, '@') == 0
  {
    DottedHasShape(s);
  }

  lemma LabelsHaveNoAt(t: string)
    requires TopLevelLabels(t)
    ensures Occurrences(t, '@') == 0
  {
    TopLevelLabelsShape(t);
    assert forall j :: 0 <= j < |t| ==> IsLabelChar(t[j]);
  }

  /** An accepted address ends with a dot and two or three word characters. */
  lemma {:induction false} EmailEndsWithShortLabel(s: string)
    requires MatchesEmail(s)
    ensures EndsWithShortLabel(s)
  {
    var i, k := EmailParts(s);
    var t := s[k..];
    TopLevelLabelsShape(t);
    assert forall j :: 0 <= j < |t| ==> s[k + j] == t[j];
    if LastLabelHasLength(t, 2) {
      assert LastLabelHasLength(s, 2);
    } else {
      assert LastLabelHasLength(s, 3);
    }
  }

  /**
   * What an accepted address looks like: exactly one '@', a word character
   * first (so neither '.' nor '-'), and a dot and two or three word
   * characters last.
   */
  lemma EmailShape(s: string)
    requires MatchesEmail(s)
    ensures Occurrences(s, '@') == 1
    ensures IsWordChar(s[0])
    ensures EndsWithShortLabel(s)
  {
    var i, k := EmailParts(s);
    assert s[0] == s[..i][0];
    EmailHasOneAt(s);
    EmailEndsWithShortLabel(s);
  }

  /** A run of word characters is a dotted name. */
  lemma {:induction false} WordIsDotted(w: string)
    requires |w| >= 1
    requires forall k :: 0 <= k < |w| ==> IsWordChar(w[k])
    ensures Dotted(w)
    decreases |w|
  {
    if |w| > 1 {
      WordIsDotted(w[1..]);
    }
  }

  /** Two dotted names joined by one separator make a dotted name. */
  lemma {:induction false} DottedJoin(a: string, sep: char, b: string)
    requires Dotted(a) && IsSeparator(sep) && Dotted(b)
    ensures Dotted(a + [sep] + b)
    decreases |a|
  {
    if |a| == 1 {
      assert (a + [sep] + b)[2..] == b;
    } else if Dotted(a[1..]) {
      DottedJoin(a[1..], sep, b);
      assert (a + [sep] + b)[1..] == a[1..] + [sep] + b;
    } else {
      DottedJoin(a[2..], sep, b);
      assert (a + [sep] + b)[2..] == a[2..] + [sep] + b;
    }
  }

  /** Conversely, any three pieces of the right forms joined around an '@' are accepted. */
  lemma JoinedPartsMatch(local: string, name: string, labels: string)
    requires Dotted(local) && Dotted(name) && TopLevelLabels(labels)
    ensures MatchesEmail(local + "@" + name + labels)
  {
    var s := local + "@" + name + labels;
    var i, k := |local|, |local| + 1 + |name|;
    assert s[..i] == local;
    assert s[i] == '@';
    assert s[i + 1..k] == name;
    assert s[k..] == labels;
    assert SplitsAt(s, i, k);
  }

  /**
   * An address made of a run of word characters, '@', a run of word
   * characters, '.', and two or three word characters is accepted (as
   * "jane@example.com" is).
   */
  lemma AcceptsPlainAddress(user: string, host: string, tld: string)
    requires |user| >= 1 && |host| >= 1 && 2 <= |tld| <= 3
    requires forall k :: 0 <= k < |user| ==> IsWordChar(user[k])
    requires forall k :: 0 <= k < |host| ==> IsWordChar(host[k])
    requires forall k :: 0 <= k < |tld| ==> IsWordChar(tld[k])
    ensures MatchesEmail(user + "@" + host + "." + tld)
  {
    WordIsDotted(user);
    WordIsDotted(host);
    assert TopLevelLabels("." + tld);
    JoinedPartsMatch(user, host, "." + tld);
    assert user + "@" + host + ("." + tld) == user + "@" + host + "." + tld;
  }

  /** "invalid-email" has no '@' and is refused. */
  lemma RejectsMissingAt()
    ensures !MatchesEmail("invalid-email")
  {
    var s := "invalid-email";
    assert forall k :: 0 <= k < |s| ==> s[k] != '@';
  }

  /** A four-letter final label is refused: "user@example.info". */
  lemma RejectsLongFinalLabel()
    ensures !MatchesEmail("user@example.info")
  {
    var s := "user@example.info";
    assert s[|s| - 3] == 'n' && s[|s| - 4] == 'i';
    assert !EndsWithShortLabel(s);
    if MatchesEmail(s) {
      EmailEndsWithShortLabel(s);
    }
  }
}
