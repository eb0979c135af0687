/** How the Python and the TypeScript email checks relate. */
module EmailChecks {
  import Text
  import PyUtils
  import Validation

  /** Every address the TypeScript pattern accepts also passes Python's
      `validate_email`. */
  lemma TsAcceptedImpliesPyAccepted(s: string)
    requires Validation.IsValidEmail(s)
    ensures PyUtils.ValidateEmail(s)
  {
    var at := Text.IndexOf(s, '@');
    var domain := s[at + 1..];
    var j :| 1 <= j < |domain| - 1 && domain[j] == '.';
    forall k | 0 <= k < at + 1 + j && k != at
      ensures s[k] != '@'
    {
      if k > at {
        assert s[k] == domain[k - at - 1];
      }
    }
    assert PyUtils.DotAfterFirstAt(s, at, at + 1 + j);
    PyUtils.ValidateEmailIff(s);
  }

  /** The converse fails: "@." passes Python's check and not the pattern. */
  lemma PyCheckIsWeaker()
    ensures PyUtils.ValidateEmail("@.")
    ensures !Validation.IsValidEmail("@.")
  {
    var s := "@.";
    assert PyUtils.DotAfterFirstAt(s, 0, 1);
    PyUtils.ValidateEmailIff(s);
    assert Text.IndexOf(s, '@') == 0;
  }
}
