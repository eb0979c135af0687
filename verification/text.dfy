/** The handful of string operations the application relies on: Python's
    `strip`, `split`, `replace` and `in`, and JavaScript's `trim`,
    `startsWith` and character-class removal. Strings are `seq<char>`. */
module Text {

  /** Whitespace, as removed by Python's `str.strip()` and JavaScript's
      `trim()` and matched by the regular-expression class `\s`.
      Only the ASCII whitespace characters are modelled. */
  predicate IsSpace(c: char)
  {
    c == ' ' || c == '\t' || c == '\n' || c == '\r' || c == '\U{000B}' || c == '\U{000C}'
  }

  /** Every character of `s` is whitespace (vacuously true of ""). */
  predicate AllSpace(s: string)
  {
    forall k :: 0 <= k < |s| ==> IsSpace(s[k])
  }

  /** Leading whitespace removed: the longest suffix of `s` that does not start with whitespace. */
  function TrimStart(s: string): (r: string)
    ensures |r| <= |s| && r == s[|s| - |r|..]
    ensures r == [] || !IsSpace(r[0])
    ensures forall k :: 0 <= k < |s| - |r| ==> IsSpace(s[k])
  {
    if s != [] && IsSpace(s[0]) then TrimStart(s[1..]) else s
  }

  /** Trailing whitespace removed: the longest prefix of `s` that does not end with whitespace. */
  function TrimEnd(s: string): (r: string)
    ensures |r| <= |s| && r == s[..|r|]
    ensures r == [] || !IsSpace(r[|r| - 1])
    ensures forall k :: |r| <= k < |s| ==> IsSpace(s[k])
  {
    if s != [] && IsSpace(s[|s| - 1]) then TrimEnd(s[..|s| - 1]) else s
  }

  /** Python `s.strip()` and JavaScript `s.trim()`: the result neither starts
      nor ends with whitespace. */
  function Strip(s: string): (r: string)
    ensures |r| <= |s|
    ensures r == [] || (!IsSpace(r[0]) && !IsSpace(r[|r| - 1]))
  {
    var t := TrimStart(s);
    var r := TrimEnd(t);
    assert r != [] ==> r[0] == t[0];
    r
  }

  /** What stripping removes: the result is the infix of `s` starting at `i`,
      and everything before and after it is whitespace. */
  lemma StripIsInfix(s: string) returns (i: nat)
    ensures i + |Strip(s)| <= |s|
    ensures forall k :: 0 <= k < |Strip(s)| ==> Strip(s)[k] == s[i + k]
    ensures forall k :: 0 <= k < i ==> IsSpace(s[k])
    ensures forall k :: i + |Strip(s)| <= k < |s| ==> IsSpace(s[k])
  {
    var t := TrimStart(s);
    i := |s| - |t|;
    PrefixOfSuffix(s, t, TrimEnd(t));
  }

  /** A prefix `r` of the suffix `t` of `s`, followed in `t` by whitespace only,
      sits in `s` right after the part that `t` dropped. */
  lemma PrefixOfSuffix(s: string, t: string, r: string)
    requires |t| <= |s| && t == s[|s| - |t|..]
    requires |r| <= |t| && r == t[..|r|]
    requires forall k :: |r| <= k < |t| ==> IsSpace(t[k])
    ensures forall k :: 0 <= k < |r| ==> r[k] == s[|s| - |t| + k]
    ensures forall k :: |s| - |t| + |r| <= k < |s| ==> IsSpace(s[k])
  {
    var i := |s| - |t|;
    forall k | i + |r| <= k < |s|
      ensures IsSpace(s[k])
    {
      assert s[k] == t[k - i];
    }
  }

  /** Text that does not start with whitespace keeps its start. */
  lemma TrimStartKeeps(s: string)
    requires s == [] || !IsSpace(s[0])
    ensures TrimStart(s) == s
  {
  }

  /** Text that does not end with whitespace keeps its end. */
  lemma TrimEndKeeps(s: string)
    requires s == [] || !IsSpace(s[|s| - 1])
    ensures TrimEnd(s) == s
  {
  }

  /** A string of whitespace only loses all of its leading characters. */
  lemma {:induction false} TrimStartAllSpace(s: string)
    requires AllSpace(s)
    ensures TrimStart(s) == []
  {
    if s != [] {
      TrimStartAllSpace(s[1..]);
    }
  }

  /** Stripping yields "" exactly when the text is whitespace only. */
  lemma StripEmptyIff(s: string)
    ensures Strip(s) == [] <==> AllSpace(s)
  {
    if AllSpace(s) {
      TrimStartAllSpace(s);
    } else {
      var t := TrimStart(s);
      var k :| 0 <= k < |s| && !IsSpace(s[k]);
      assert k >= |s| - |t|;
      assert t[0] == s[|s| - |t|];
    }
  }

  /** Stripping twice is stripping once. */
  lemma StripIdempotent(s: string)
    ensures Strip(Strip(s)) == Strip(s)
  {
    var r := Strip(s);
    assert TrimStart(r) == r;
    assert TrimEnd(r) == r;
  }

  /** Python `sep in s` for a one-character `sep`; the first position of `c`. */
  function IndexOf(s: string, c: char): (i: nat)
    requires c in s
    ensures i < |s| && s[i] == c
    ensures forall k :: 0 <= k < i ==> s[k] != c
  {
    if s[0] == c then 0 else 1 + IndexOf(s[1..], c)
  }

  /** Python `s.split(sep)` for a one-character separator: the pieces between
      consecutive separators, from left to right. */
  function Split(s: string, sep: char): (parts: seq<string>)
    ensures |parts| >= 1
    ensures sep in s ==> |parts| >= 2
    decreases |s|
  {
    if sep in s then
      var i := IndexOf(s, sep);
      [s[..i]] + Split(s[i + 1..], sep)
    else
      [s]
  }

  /** Python `sep.join(parts)` for a one-character separator. */
  function Join(parts: seq<string>, sep: char): string
    requires |parts| >= 1
  {
    if |parts| == 1 then parts[0] else parts[0] + [sep] + Join(parts[1..], sep)
  }

  /** Joining the pieces with the separator gives back the original text. */
  lemma {:induction false} JoinSplit(s: string, sep: char)
    ensures Join(Split(s, sep), sep) == s
    decreases |s|
  {
    if sep in s {
      var i := IndexOf(s, sep);
      var head, tail := s[..i], s[i + 1..];
      var rest := Split(tail, sep);
      JoinSplit(tail, sep);
      calc {
        Join(Split(s, sep), sep);
        { assert Split(s, sep) == [head] + rest; }
        Join([head] + rest, sep);
        { JoinCons(head, rest, sep); }
        head + [sep] + tail;
        { assert s[i] == sep; }
        s;
      }
    }
  }

  /** Joining a piece in front of a non-empty list puts one separator between them. */
  lemma JoinCons(p: string, rest: seq<string>, sep: char)
    requires |rest| >= 1
    ensures Join([p] + rest, sep) == p + [sep] + Join(rest, sep)
  {
    assert ([p] + rest)[1..] == rest;
  }

  /** In `p + [sep] + tail` with no separator in `p`, the first separator is the one after `p`. */
  lemma IndexOfAfterPiece(p: string, sep: char, tail: string)
    requires sep !in p
    ensures sep in p + [sep] + tail
    ensures IndexOf(p + [sep] + tail, sep) == |p|
  {
    var s := p + [sep] + tail;
    assert s[|p|] == sep;
    assert forall k :: 0 <= k < |p| ==> s[k] == p[k];
  }

  /** A separator-free piece followed by the separator splits off as the first piece. */
  lemma SplitAfterPiece(p: string, sep: char, tail: string)
    requires sep !in p
    ensures Split(p + [sep] + tail, sep) == [p] + Split(tail, sep)
  {
    var s := p + [sep] + tail;
    IndexOfAfterPiece(p, sep, tail);
    assert s[..|p|] == p;
    assert s[|p| + 1..] == tail;
  }

  /** Splitting is undone by joining: a list of separator-free pieces is
      recovered from its join. */
  lemma {:induction false} SplitJoin(parts: seq<string>, sep: char)
    requires |parts| >= 1
    requires forall k :: 0 <= k < |parts| ==> sep !in parts[k]
    ensures Split(Join(parts, sep), sep) == parts
  {
    if |parts| > 1 {
      SplitJoin(parts[1..], sep);
      assert sep !in parts[0];
      SplitAfterPiece(parts[0], sep, Join(parts[1..], sep));
      assert parts == [parts[0]] + parts[1..];
    } else {
      assert sep !in parts[0];
    }
  }

  /** `s` with every character of `bad` removed, the others kept in order:
      Python `s.replace(c, '')` when `bad == {c}`, JavaScript
      `s.replace(/[...]/g, '')` for a character class. */
  function Without(s: string, bad: set<char>): (r: string)
    ensures |r| <= |s|
    ensures forall k :: 0 <= k < |r| ==> r[k] !in bad
  {
    if s == [] then []
    else (if s[0] in bad then [] else [s[0]]) + Without(s[1..], bad)
  }

  /** Every character outside `bad` survives removal as often as it occurred. */
  lemma {:induction false} WithoutKeepsOthers(s: string, bad: set<char>, c: char)
    requires c !in bad
    ensures multiset(Without(s, bad))[c] == multiset(s)[c]
  {
    if s != [] {
      WithoutKeepsOthers(s[1..], bad, c);
      assert s == [s[0]] + s[1..];
      assert Without(s, bad) == (if s[0] in bad then [] else [s[0]]) + Without(s[1..], bad);
    }
  }

  /** Removal distributes over concatenation. */
  lemma {:induction false} WithoutConcat(a: string, b: string, bad: set<char>)
    ensures Without(a + b, bad) == Without(a, bad) + Without(b, bad)
  {
    if a != [] {
      var head := if a[0] in bad then [] else [a[0]];
      assert (a + b)[0] == a[0];
      assert (a + b)[1..] == a[1..] + b;
      assert Without(a + b, bad) == head + Without(a[1..] + b, bad);
      assert Without(a, bad) == head + Without(a[1..], bad);
      WithoutConcat(a[1..], b, bad);
    } else {
      assert a + b == b;
    }
  }

  /** Removing two sets one after the other is removing their union at once. */
  lemma {:induction false} WithoutTwice(s: string, b1: set<char>, b2: set<char>)
    ensures Without(Without(s, b1), b2) == Without(s, b1 + b2)
  {
    if s != [] {
      WithoutTwice(s[1..], b1, b2);
      var head := if s[0] in b1 then [] else [s[0]];
      WithoutConcat(head, Without(s[1..], b1), b2);
    }
  }

  /** Removal leaves a string that has none of the removed characters untouched. */
  lemma {:induction false} WithoutNothingToRemove(s: string, bad: set<char>)
    requires forall k :: 0 <= k < |s| ==> s[k] !in bad
    ensures Without(s, bad) == s
  {
    if s != [] {
      WithoutNothingToRemove(s[1..], bad);
    }
  }

  /** Removing the same characters again changes nothing. */
  lemma WithoutIdempotent(s: string, bad: set<char>)
    ensures Without(Without(s, bad), bad) == Without(s, bad)
  {
    WithoutNothingToRemove(Without(s, bad), bad);
  }
}
