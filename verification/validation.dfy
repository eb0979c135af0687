/** The validation helpers of the TypeScript service (src/utils/validation.ts). */
module Validation {
  import opened Text

  /** A JavaScript value of unknown type, as far as `typeof value === 'string'` can tell. */
  datatype Dynamic = Str(s: string) | NotAString

  /** `isValidString`: a string that is not empty once trimmed. */
  predicate IsValidString(value: Dynamic)
  {
    value.Str? && |Strip(value.s)| > 0
  }

  /** Exactly the strings that contain a non-whitespace character pass, so
      "" and whitespace-only strings are rejected, as is every non-string. */
  lemma IsValidStringIff(value: Dynamic)
    ensures IsValidString(value) <==> value.Str? && exists k :: 0 <= k < |value.s| && !IsSpace(value.s[k])
  {
    if value.Str? {
      StripEmptyIff(value.s);
    }
  }

  /** A character the class `[^\s@]` admits. */
  predicate IsEmailChar(c: char)
  {
    !IsSpace(c) && c != '@'
  }

  predicate AllEmailChars(s: string)
  {
    forall k :: 0 <= k < |s| ==> IsEmailChar(s[k])
  }

  /** A '.' with at least one character on either side. */
  predicate HasInnerDot(d: string)
  {
    exists j :: 1 <= j < |d| - 1 && d[j] == '.'
  }

  /** `isValidEmail`: the test of `/^[^\s@]+@[^\s@]+\.[^\s@]+$/`, decided by
      locating the '@' and looking for an inner '.' after it. */
  predicate IsValidEmail(email: string)
  {
    '@' in email &&
    var at := IndexOf(email, '@');
    var local, domain := email[..at], email[at + 1..];
    |local| > 0 && AllEmailChars(local) && AllEmailChars(domain) && HasInnerDot(domain)
  }

  /** One `[^\s@]+` of the pattern. */
  ghost predicate IsEmailPart(x: string)
  {
    |x| > 0 && AllEmailChars(x)
  }

  /** The language of the regular expression, written as a decomposition
      `L + "@" + A + "." + B`. */
  ghost predicate MatchesEmailPattern(s: string)
  {
    exists l, a, b :: IsEmailPart(l) && IsEmailPart(a) && IsEmailPart(b) && s == l + "@" + a + "." + b
  }

  /** An accepted address splits as `L@A.B`. */
  lemma ValidEmailHasPattern(s: string)
    requires IsValidEmail(s)
    ensures MatchesEmailPattern(s)
  {
    var at := IndexOf(s, '@');
    var local, domain := s[..at], s[at + 1..];
    var j :| 1 <= j < |domain| - 1 && domain[j] == '.';
    var a, b := domain[..j], domain[j + 1..];
    assert domain == a + "." + b;
    assert s == local + "@" + domain;
    assert s == local + "@" + a + "." + b;
    assert IsEmailPart(a) && IsEmailPart(b);
  }

  /** Every `L@A.B` of the pattern is accepted. */
  lemma PatternIsValidEmail(l: string, a: string, b: string)
    requires IsEmailPart(l) && IsEmailPart(a) && IsEmailPart(b)
    ensures IsValidEmail(l + "@" + a + "." + b)
  {
    var domain := a + "." + b;
    var s := l + "@" + domain;
    assert l + "@" + a + "." + b == s;
    assert s[|l|] == '@';
    assert forall k :: 0 <= k < |l| ==> s[k] == l[k];
    var at := IndexOf(s, '@');
    assert at == |l|;
    assert s[..at] == l;
    assert s[at + 1..] == domain;
    assert domain[|a|] == '.';
    forall k | 0 <= k < |domain|
      ensures IsEmailChar(domain[k])
    {
      if k < |a| {
        assert domain[k] == a[k];
      } else if k > |a| {
        assert domain[k] == b[k - |a| - 1];
      }
    }
  }

  /** Both directions: `isValidEmail` accepts a string iff it has the shape
      `L@A.B` with L, A, B non-empty and free of whitespace and '@'. */
  lemma IsValidEmailMatchesPattern(s: string)
    ensures IsValidEmail(s) <==> MatchesEmailPattern(s)
  {
    if IsValidEmail(s) {
      ValidEmailHasPattern(s);
    }
    if MatchesEmailPattern(s) {
      var l, a, b :| IsEmailPart(l) && IsEmailPart(a) && IsEmailPart(b) && s == l + "@" + a + "." + b;
      PatternIsValidEmail(l, a, b);
    }
  }

  /** Every accepted address has exactly one '@' and no whitespace. */
  lemma AcceptedEmailShape(s: string)
    requires IsValidEmail(s)
    ensures multiset(s)['@'] == 1
    ensures forall k :: 0 <= k < |s| ==> !IsSpace(s[k])
  {
    var at := IndexOf(s, '@');
    var local, domain := s[..at], s[at + 1..];
    assert s == local + "@" + domain;
    assert '@' !in local && '@' !in domain;
    assert multiset(s) == multiset(local) + multiset{'@'} + multiset(domain);
    forall k | 0 <= k < |s|
      ensures !IsSpace(s[k])
    {
      if k < at {
        assert s[k] == local[k];
      } else if k > at {
        assert s[k] == domain[k - at - 1];
      }
    }
  }

  /** `sanitizeInput`: trim, then delete every '<' and '>'. The result has no
      angle bracket and is never longer than the input. */
  function SanitizeInput(input: string): (r: string)
    ensures forall k :: 0 <= k < |r| ==> r[k] != '<' && r[k] != '>'
    ensures |r| <= |input|
  {
    Without(Strip(input), {'<', '>'})
  }

  /** Trimming happens before the brackets go, so a space uncovered by the
      removal survives: sanitising is not idempotent. */
  lemma SanitizeInputNotIdempotent()
    ensures SanitizeInput("< a") == " a"
    ensures SanitizeInput(SanitizeInput("< a")) == "a" != SanitizeInput("< a")
  {
    SanitizeBracketThenSpace();
    SanitizeLeadingSpace();
  }

  lemma SanitizeBracketThenSpace()
    ensures SanitizeInput("< a") == " a"
  {
    TrimStartKeeps("< a");
    TrimEndKeeps("< a");
    BracketRemoved();
  }

  lemma BracketRemoved()
    ensures Without("< a", {'<', '>'}) == " a"
  {
    WithoutNothingToRemove(" a", {'<', '>'});
    assert "< a"[1..] == " a";
  }

  lemma SanitizeLeadingSpace()
    ensures SanitizeInput(" a") == "a"
  {
    LeadingSpaceTrimmed();
    TrimEndKeeps("a");
    assert Strip(" a") == "a";
    WithoutNothingToRemove("a", {'<', '>'});
    assert Without(Strip(" a"), {'<', '>'}) == "a";
  }

  lemma LeadingSpaceTrimmed()
    ensures TrimStart(" a") == "a"
  {
    assert " a"[1..] == "a";
    TrimStartKeeps("a");
  }
}
