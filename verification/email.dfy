/**
 The email check `/^[^\s@]+@[^\s@]+\.[^\s@]+$/` used by create and update.

 `MatchesEmailPattern` is the pattern's own meaning: the whole string splits
 into three non-empty runs of "plain" characters (neither whitespace nor `@`),
 separated by a literal `@` and a literal `.`. `IsValidEmail` is the
 executable check the handlers use, phrased as the pattern's observable shape;
 `EmailCheckIsPattern` proves the two agree on every string.
 */
module Email {

  /**
   JavaScript's `\s`: the ECMAScript WhiteSpace characters (tab, vertical tab,
   form feed, no-break space, byte order mark and the Unicode space separators)
   and the LineTerminator characters (line feed, carriage return, line and
   paragraph separators).
   */
  predicate IsWhitespace(c: char) {
    var n := c as int;
    || n == 0x09 || n == 0x0A || n == 0x0B || n == 0x0C || n == 0x0D
    || n == 0x20 || n == 0xA0 || n == 0x1680
    || (0x2000 <= n <= 0x200A)
    || n == 0x2028 || n == 0x2029 || n == 0x202F || n == 0x205F
    || n == 0x3000 || n == 0xFEFF
  }

  /** The character class `[^\s@]`. */
  predicate IsPlainChar(c: char) {
    !IsWhitespace(c) && c != '@'
  }

  /** Every character of `s` belongs to `[^\s@]`. */
  predicate IsPlain(s: string) {
    forall k :: 0 <= k < |s| ==> IsPlainChar(s[k])
  }

  /**
   `s` matches the pattern with its `@` at index `at` and the separating `.`
   at index `dot`: `s[..at]`, `s[at+1..dot]` and `s[dot+1..]` are the three
   `[^\s@]+` runs.
   */
  predicate IsEmailSplit(s: string, at: int, dot: int) {
    && 0 < at && at + 1 < dot && dot + 1 < |s|
    && s[at] == '@' && s[dot] == '.'
    && IsPlain(s[..at]) && IsPlain(s[at + 1..dot]) && IsPlain(s[dot + 1..])
  }

  /** The anchored pattern matches `s` (some split exists; the regex backtracks over all of them). */
  ghost predicate MatchesEmailPattern(s: string) {
    exists at, dot :: IsEmailSplit(s, at, dot)
  }

  /** No character of `s` is whitespace. */
  predicate HasNoWhitespace(s: string) {
    forall k :: 0 <= k < |s| ==> !IsWhitespace(s[k])
  }

  /** `s[at]` is the only `@` in `s`. */
  predicate IsOnlyAt(s: string, at: int)
    requires 0 <= at < |s|
  {
    s[at] == '@' && forall k :: 0 <= k < |s| && k != at ==> s[k] != '@'
  }

  /** The domain has a `.` with at least one character on each side of it; further dots are allowed. */
  predicate HasInnerDot(domain: string) {
    exists j :: 0 < j < |domain| - 1 && domain[j] == '.'
  }

  /**
   The email check as the handlers perform it: no whitespace, exactly one `@`,
   a non-empty part before it, and a part after it that holds an inner dot.
   */
  predicate IsValidEmail(s: string) {
    && HasNoWhitespace(s)
    && exists at :: 0 < at < |s| && IsOnlyAt(s, at) && HasInnerDot(s[at + 1..])
  }

  /** The shape check accepts a string exactly when the pattern matches it. */
  lemma EmailCheckIsPattern(s: string)
    ensures IsValidEmail(s) <==> MatchesEmailPattern(s)
  {
    if IsValidEmail(s) {
      var at :| 0 < at < |s| && IsOnlyAt(s, at) && HasInnerDot(s[at + 1..]);
      var j :| 0 < j < |s[at + 1..]| - 1 && s[at + 1..][j] == '.';
      var dot := at + 1 + j;
      PlainBetween(s, at, 0, at);
      PlainBetween(s, at, at + 1, dot);
      PlainBetween(s, at, dot + 1, |s|);
      assert s[dot + 1..] == s[dot + 1..|s|];
      assert IsEmailSplit(s, at, dot);
    }
    if MatchesEmailPattern(s) {
      var at, dot :| IsEmailSplit(s, at, dot);
      SplitShape(s, at, dot);
    }
  }

  /** With whitespace excluded and `s[at]` the only `@`, any slice avoiding `at` is plain. */
  lemma PlainBetween(s: string, at: int, lo: int, hi: int)
    requires 0 <= at < |s| && IsOnlyAt(s, at) && HasNoWhitespace(s)
    requires 0 <= lo <= hi <= |s| && (hi <= at || at < lo)
    ensures IsPlain(s[lo..hi])
  {
    forall k | 0 <= k < hi - lo
      ensures IsPlainChar(s[lo..hi][k])
    {
      assert s[lo..hi][k] == s[lo + k];
    }
  }

  /** A split of the pattern exhibits the shape `IsValidEmail` checks. */
  lemma SplitShape(s: string, at: int, dot: int)
    requires IsEmailSplit(s, at, dot)
    ensures IsValidEmail(s)
  {
    forall k | 0 <= k < |s| && k != at
      ensures IsPlainChar(s[k]) || (k == dot && s[k] == '.')
    {
      if k < at {
        assert s[k] == s[..at][k];
      } else if k < dot {
        assert s[k] == s[at + 1..dot][k - at - 1];
      } else if dot < k {
        assert s[k] == s[dot + 1..][k - dot - 1];
      }
    }
    assert !IsWhitespace('@') && !IsWhitespace('.');
    assert IsOnlyAt(s, at);
    assert s[at + 1..][dot - at - 1] == '.';
    assert HasInnerDot(s[at + 1..]);
  }

  /** A single-dot domain and a dotted domain both pass. */
  lemma EmailAcceptsExamples()
    ensures IsValidEmail("a@b.c")
    ensures IsValidEmail("a@b.c.d")
  {
    assert IsOnlyAt("a@b.c", 1) && "a@b.c"[2..][1] == '.';
    assert IsOnlyAt("a@b.c.d", 1) && "a@b.c.d"[2..][1] == '.';
  }

  /** A missing `@`, a second `@`, a space and an empty local part each fail. */
  lemma EmailRejectsExamples()
    ensures !IsValidEmail("noatsign.com")
    ensures !IsValidEmail("a@b@c.d")
    ensures !IsValidEmail("a b@c.d")
    ensures !IsValidEmail("@b.c")
  {
    assert "a@b@c.d"[1] == '@' && "a@b@c.d"[3] == '@';
    assert IsWhitespace("a b@c.d"[1]);
  }
}
