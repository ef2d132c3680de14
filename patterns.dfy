/**
 * The three validation patterns of the inquiry form and the filter that the
 * phone input applies to what is typed, written as predicates over strings.
 * `\d` is the ASCII digits, `[a-zA-Z]` the ASCII letters and `\s` is `Text.IsWs`.
 */
module Patterns {
  import opened Text

  predicate IsAsciiLetter(c: char)
  {
    'a' <= c <= 'z' || 'A' <= c <= 'Z'
  }

  predicate IsDigit(c: char)
  {
    '0' <= c <= '9'
  }

  /** A member of the character class `[\d\s\-\+\(\)]`. */
  predicate IsPhoneChar(c: char)
  {
    IsDigit(c) || IsWs(c) || c == '-' || c == '+' || c == '(' || c == ')'
  }

  predicate AllPhoneChars(s: string)
  {
    forall k :: 0 <= k < |s| ==> IsPhoneChar(s[k])
  }

  /** `^[a-zA-Z\s]{2,50}$`: two to fifty letters or whitespace characters. */
  predicate NamePattern(s: string)
  {
    2 <= |s| <= 50 && forall k :: 0 <= k < |s| ==> IsAsciiLetter(s[k]) || IsWs(s[k])
  }

  /** `^[\d\s\-\+\(\)]{10,15}$`: ten to fifteen digits, whitespace, dashes, pluses or parentheses. */
  predicate PhonePattern(s: string)
  {
    10 <= |s| <= 15 && AllPhoneChars(s)
  }

  /** A run of `[^\s@]`: no whitespace and no `@`. */
  predicate EmailRun(x: string)
  {
    forall k :: 0 <= k < |x| ==> !IsWs(x[k]) && x[k] != '@'
  }

  /**
   * `^[^\s@]+@[^\s@]+\.[^\s@]+$`: a non-empty run, `@`, a non-empty run, `.`,
   * a non-empty run. The runs may themselves hold dots.
   */
  predicate EmailPattern(s: string)
  {
    exists at, dot :: 0 < at && at + 1 < dot < |s| - 1 && s[at] == '@' && s[dot] == '.' &&
      EmailRun(s[..at]) && EmailRun(s[at + 1..dot]) && EmailRun(s[dot + 1..])
  }

  /** The domain holds a `.` that is neither its first nor its last character. */
  predicate InnerDot(domain: string)
  {
    exists i :: 0 < i < |domain| - 1 && domain[i] == '.'
  }

  /**
   * The same check in plain words: no whitespace, exactly one `@`, something
   * before it, and an inner dot in the domain after it.
   */
  predicate SingleAtDottedDomain(s: string)
  {
    (forall k :: 0 <= k < |s| ==> !IsWs(s[k])) &&
    exists at :: 0 < at < |s| && s[at] == '@' &&
      (forall k :: 0 <= k < |s| && k != at ==> s[k] != '@') &&
      InnerDot(s[at + 1..])
  }

  /** What the email pattern accepts has no whitespace, a single `@` after a non-empty local part, and an inner dot after it. */
  lemma EmailPatternSound(s: string)
    requires EmailPattern(s)
    ensures SingleAtDottedDomain(s)
  {
    var at, dot :| 0 < at && at + 1 < dot < |s| - 1 && s[at] == '@' && s[dot] == '.' &&
      EmailRun(s[..at]) && EmailRun(s[at + 1..dot]) && EmailRun(s[dot + 1..]);
    forall k | 0 <= k < |s| && k != at && k != dot
      ensures !IsWs(s[k]) && s[k] != '@'
    {
      if k < at {
        assert s[k] == s[..at][k];
      } else if k < dot {
        assert s[k] == s[at + 1..dot][k - at - 1];
      } else {
        assert s[k] == s[dot + 1..][k - dot - 1];
      }
    }
    assert s[at + 1..][dot - at - 1] == '.';
  }

  /** Every string described by `SingleAtDottedDomain` matches the email pattern. */
  lemma EmailPatternComplete(s: string)
    requires SingleAtDottedDomain(s)
    ensures EmailPattern(s)
  {
    var at :| 0 < at < |s| && s[at] == '@' &&
      (forall k :: 0 <= k < |s| && k != at ==> s[k] != '@') &&
      InnerDot(s[at + 1..]);
    var i :| 0 < i < |s[at + 1..]| - 1 && s[at + 1..][i] == '.';
    var dot := at + 1 + i;
    assert s[dot] == '.';
    assert EmailRun(s[..at]);
    assert EmailRun(s[at + 1..dot]);
    assert EmailRun(s[dot + 1..]);
  }

  /** The email pattern accepts exactly the strings described by `SingleAtDottedDomain`. */
  lemma EmailPatternCharacterized(s: string)
    ensures EmailPattern(s) <==> SingleAtDottedDomain(s)
  {
    if EmailPattern(s) {
      EmailPatternSound(s);
    }
    if SingleAtDottedDomain(s) {
      EmailPatternComplete(s);
    }
  }

  /** A well-formed address matches the email pattern. */
  lemma EmailAccepts()
    ensures EmailPattern("john@example.com")
  {
    var good := "john@example.com";
    assert good[4] == '@' && good[12] == '.';
    assert EmailRun(good[..4]) && EmailRun(good[5..12]) && EmailRun(good[13..]);
  }

  /** A string without `@`, one whose only dot ends it, and one with a doubled `@` are all rejected. */
  lemma EmailRejects()
    ensures !EmailPattern("bad-email")
    ensures !EmailPattern("a@b.")
    ensures !EmailPattern("a@@b.c")
  {
    var noAt, twice := "bad-email", "a@@b.c";
    assert forall k :: 0 <= k < |noAt| ==> noAt[k] != '@';
    assert twice[1] == '@' && twice[2] == '@';
    EmailPatternCharacterized(twice);
  }

  /** Worked examples of the phone and name patterns. */
  lemma PatternExamples()
    ensures PhonePattern("123-456-7890") && PhonePattern("+1 (555) 010-99")
    ensures !PhonePattern("abc") && !PhonePattern("12345")
    ensures NamePattern("John Doe") && !NamePattern("J") && !NamePattern("J0hn")
  {
    assert !IsPhoneChar("abc"[0]);
    assert !(IsAsciiLetter("J0hn"[1]) || IsWs("J0hn"[1]));
  }

  /**
   * The phone input's `replace(/[^\d\s\-\+\(\)]/g, '')`: the characters of `s`
   * that the phone class allows, in their original order.
   */
  function Sanitize(s: string): (r: string)
    ensures |r| <= |s|
    ensures AllPhoneChars(r)
  {
    if s == [] then []
    else if IsPhoneChar(s[0]) then [s[0]] + Sanitize(s[1..])
    else Sanitize(s[1..])
  }

  /** The filter works piecewise: it never moves characters across a cut. */
  lemma {:induction false} SanitizeAppend(a: string, b: string)
    ensures Sanitize(a + b) == Sanitize(a) + Sanitize(b)
  {
    if a == [] {
      assert a + b == b;
    } else {
      assert (a + b)[0] == a[0];
      assert (a + b)[1..] == a[1..] + b;
      SanitizeAppend(a[1..], b);
      if IsPhoneChar(a[0]) {
        assert Sanitize(a + b) == [a[0]] + (Sanitize(a[1..]) + Sanitize(b));
      }
    }
  }

  /** Every allowed character keeps its number of occurrences; every other one disappears. */
  lemma {:induction false} SanitizeKeepsAllowed(s: string)
    ensures forall c :: multiset(Sanitize(s))[c] == if IsPhoneChar(c) then multiset(s)[c] else 0
  {
    if s != [] {
      SanitizeKeepsAllowed(s[1..]);
      assert s == [s[0]] + s[1..];
      assert multiset(s) == multiset{s[0]} + multiset(s[1..]);
    }
  }

  /** A string already made of allowed characters is left as it is. */
  lemma {:induction false} SanitizeIdentity(s: string)
    requires AllPhoneChars(s)
    ensures Sanitize(s) == s
  {
    if s != [] {
      SanitizeIdentity(s[1..]);
    }
  }

  /** Sanitising twice is sanitising once. */
  lemma SanitizeIdempotent(s: string)
    ensures Sanitize(Sanitize(s)) == Sanitize(s)
  {
    SanitizeIdentity(Sanitize(s));
  }
}
