/** The string and range helpers of the Python application (python_app/utils.py). */
module PyUtils {
  import opened Text

  /** `validate_email`: non-empty, contains '@', and the piece of text after the
      first '@' (up to the next '@' or the end) contains a '.'. */
  predicate ValidateEmail(email: string)
  {
    if email == "" then false
    else '@' in email && '.' in Split(email, '@')[1]
  }

  /** Position `i` is the first '@' of `s`, and `j` is a '.' that follows it
      with no other '@' in between. */
  ghost predicate DotAfterFirstAt(s: string, i: int, j: int)
  {
    0 <= i < j < |s| && s[i] == '@' && s[j] == '.' &&
    forall k :: 0 <= k < j && k != i ==> s[k] != '@'
  }

  /** The first piece of a split is a separator-free prefix that ends at the
      first separator, or at the end of the text. */
  lemma FirstPiece(s: string, sep: char)
    ensures Split(s, sep)[0] <= s
    ensures sep !in Split(s, sep)[0]
    ensures |Split(s, sep)[0]| < |s| ==> s[|Split(s, sep)[0]|] == sep
  {
    if sep in s {
      var i := IndexOf(s, sep);
      assert Split(s, sep)[0] == s[..i];
    }
  }

  /** The second piece of a split is the first piece of the text after the
      first separator. */
  lemma SecondPiece(s: string, sep: char)
    requires sep in s
    ensures Split(s, sep)[1] == Split(s[IndexOf(s, sep) + 1..], sep)[0]
  {
    var i := IndexOf(s, sep);
    assert Split(s, sep) == [s[..i]] + Split(s[i + 1..], sep);
  }

  /** A position holding `c` with no `c` before it is the first position of `c`. */
  lemma IndexOfIsFirst(s: string, c: char, i: int)
    requires 0 <= i < |s| && s[i] == c
    requires forall k :: 0 <= k < i ==> s[k] != c
    ensures c in s && IndexOf(s, c) == i
  {
  }

  /** An accepted address has a '.' after its first '@' and before any second '@'. */
  lemma AcceptedHasDot(s: string) returns (i: int, j: int)
    requires ValidateEmail(s)
    ensures DotAfterFirstAt(s, i, j)
  {
    i := IndexOf(s, '@');
    var rest := s[i + 1..];
    SecondPiece(s, '@');
    var seg := Split(rest, '@')[0];
    FirstPiece(rest, '@');
    var j' :| 0 <= j' < |seg| && seg[j'] == '.';
    j := i + 1 + j';
    forall k | 0 <= k < j && k != i
      ensures s[k] != '@'
    {
      if k > i {
        assert s[k] == rest[k - i - 1] == seg[k - i - 1];
      }
    }
  }

  /** A '.' before any '@' lies inside the first piece of the split on '@'. */
  lemma DotInFirstPiece(rest: string, j: int)
    requires 0 <= j < |rest| && rest[j] == '.'
    requires forall k :: 0 <= k <= j ==> rest[k] != '@'
    ensures '.' in Split(rest, '@')[0]
  {
    FirstPiece(rest, '@');
    var seg := Split(rest, '@')[0];
    assert |seg| > j;
    assert seg[j] == rest[j];
  }

  /** A '.' after the first '@' and before any second '@' makes an address accepted. */
  lemma DotIsAccepted(s: string, i: int, j: int)
    requires DotAfterFirstAt(s, i, j)
    ensures ValidateEmail(s)
  {
    IndexOfIsFirst(s, '@', i);
    var rest := s[i + 1..];
    SecondPiece(s, '@');
    forall k | 0 <= k <= j - i - 1
      ensures rest[k] != '@'
    {
      assert rest[k] == s[k + i + 1];
    }
    DotInFirstPiece(rest, j - i - 1);
  }

  /** `validate_email` accepts exactly the strings with a '.' somewhere after
      the first '@' and before any second '@'. */
  lemma ValidateEmailIff(s: string)
    ensures ValidateEmail(s) <==> exists i, j :: DotAfterFirstAt(s, i, j)
  {
    if ValidateEmail(s) {
      var i, j := AcceptedHasDot(s);
    }
    if exists i, j :: DotAfterFirstAt(s, i, j) {
      var i, j :| DotAfterFirstAt(s, i, j);
      DotIsAccepted(s, i, j);
    }
  }

  /** An address made of a local part and a domain, neither holding '@', is
      accepted as soon as the domain holds a '.'. */
  lemma ValidateEmailOfParts(local: string, domain: string)
    requires '@' !in local && '@' !in domain && '.' in domain
    ensures ValidateEmail(local + "@" + domain)
  {
    var s := local + "@" + domain;
    var d := IndexOf(domain, '.');
    var i, j := |local|, |local| + 1 + d;
    forall k | 0 <= k < j && k != i
      ensures s[k] != '@'
    {
      if k < i {
        assert s[k] == local[k];
      } else {
        assert s[k] == domain[k - i - 1];
      }
    }
    assert DotAfterFirstAt(s, i, j);
    ValidateEmailIff(s);
  }

  /** `format_date`: the first ten characters, or the whole text when shorter. */
  function FormatDate(dateStr: string): (r: string)
    ensures r <= dateStr
    ensures |r| == if |dateStr| < 10 then |dateStr| else 10
  {
    if |dateStr| >= 10 then dateStr[..10] else dateStr
  }

  /** The characters `format_phone_number` removes. */
  const PhoneSeparators: set<char> := {'-', ' ', '(', ')'}

  /** `format_phone_number`: four successive `replace(c, '')` calls. */
  function FormatPhoneNumber(phone: string): string
  {
    Without(Without(Without(Without(phone, {'-'}), {' '}), {'('}), {')'})
  }

  /** The four removals amount to one pass that drops every separator and
      keeps every other character in order. */
  lemma FormatPhoneNumberIsOnePass(phone: string)
    ensures FormatPhoneNumber(phone) == Without(phone, PhoneSeparators)
  {
    var s1: set<char>, s2: set<char>, s3: set<char> := {'-'}, {'-', ' '}, {'-', ' ', '('};
    assert s1 + {' '} == s2;
    assert s2 + {'('} == s3;
    assert s3 + {')'} == PhoneSeparators;
    var a := Without(phone, s1);
    WithoutTwice(phone, s1, {' '});
    var b := Without(a, {' '});
    assert b == Without(phone, s2);
    WithoutTwice(phone, s2, {'('});
    var c := Without(b, {'('});
    assert c == Without(phone, s3);
    WithoutTwice(phone, s3, {')'});
  }

  /** `format_phone_number` leaves no separator, keeps every other character
      as often as it occurred, and a second application changes nothing. */
  lemma FormatPhoneNumberStripsSeparators(phone: string)
    ensures forall k :: 0 <= k < |FormatPhoneNumber(phone)| ==>
      FormatPhoneNumber(phone)[k] !in PhoneSeparators
    ensures forall c :: c !in PhoneSeparators ==>
      multiset(FormatPhoneNumber(phone))[c] == multiset(phone)[c]
    ensures FormatPhoneNumber(FormatPhoneNumber(phone)) == FormatPhoneNumber(phone)
  {
    FormatPhoneNumberIsOnePass(phone);
    FormatPhoneNumberIsOnePass(FormatPhoneNumber(phone));
    WithoutIdempotent(phone, PhoneSeparators);
    forall c | c !in PhoneSeparators
      ensures multiset(FormatPhoneNumber(phone))[c] == multiset(phone)[c]
    {
      WithoutKeepsOthers(phone, PhoneSeparators, c);
    }
  }

  /** `validate_user_age`. */
  predicate ValidateUserAge(age: int)
  {
    age > 0 && age < 150
  }

  /** The accepted ages are exactly 1 through 149. */
  lemma ValidateUserAgeRange(age: int)
    ensures ValidateUserAge(age) <==> 1 <= age <= 149
    ensures ValidateUserAge(1) && ValidateUserAge(149) && !ValidateUserAge(0) && !ValidateUserAge(150)
  {
  }
}
