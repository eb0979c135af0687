/** The non-numeric helpers of src/utils.ts. */
module AppUtils {
  import opened Text
  import Validation

  /** `greet`: the template `Hello, ${name}! 👋`. */
  function Greet(name: string): string
  {
    "Hello, " + name + "! \U{1F44B}"
  }

  /** The greeting wraps the name in a fixed 7-character prefix and a fixed
      3-character suffix, so the name can be read back from it. */
  lemma GreetRecoversName(name: string)
    ensures var g := Greet(name);
      |g| == |name| + 10 && g[..7] == "Hello, " && g[7..|g| - 3] == name && g[|g| - 3..] == "! \U{1F44B}"
  {
    var g := Greet(name);
    assert g == "Hello, " + name + "! \U{1F44B}";
  }

  /** Different names give different greetings. */
  lemma GreetInjective(a: string, b: string)
    requires Greet(a) == Greet(b)
    ensures a == b
  {
    GreetRecoversName(a);
    GreetRecoversName(b);
  }

  /** `isValidPrice`: strictly between 0 and 1,000,000. */
  predicate IsValidPrice(price: real)
  {
    price > 0.0 && price < 1000000.0
  }

  /** The bounds themselves are rejected and everything strictly inside accepted. */
  lemma IsValidPriceRange(price: real)
    ensures IsValidPrice(price) <==> 0.0 < price < 1000000.0
    ensures !IsValidPrice(0.0) && !IsValidPrice(1000000.0) && IsValidPrice(0.01) && IsValidPrice(999999.99)
  {
  }

  /** `validateEmail`: the same regular expression literal as `isValidEmail`
      in src/utils/validation.ts, so the same test. */
  predicate ValidateEmail(email: string)
  {
    Validation.IsValidEmail(email)
  }

  /** The two TypeScript email checks agree on every input. */
  lemma ValidateEmailAgrees(email: string)
    ensures ValidateEmail(email) <==> Validation.IsValidEmail(email)
    ensures ValidateEmail(email) <==> Validation.MatchesEmailPattern(email)
  {
    Validation.IsValidEmailMatchesPattern(email);
  }

  /** `validateEmail` rejects "", any string holding whitespace, and any string without '@'. */
  lemma ValidateEmailRejects(email: string)
    requires email == "" || '@' !in email || exists k :: 0 <= k < |email| && IsSpace(email[k])
    ensures !ValidateEmail(email)
  {
    if ValidateEmail(email) {
      Validation.AcceptedEmailShape(email);
    }
  }
}
