/**
 * Character classes, the name filter applied by `FSNode::setName`, the
 * ordering of `std::string::operator<`, and `std::string::find` on one
 * character.
 */
module Strings {

  /** A letter or a digit, as `isalpha`/`isdigit` classify ASCII characters. */
  predicate IsAlnum(c: char)
  {
    ('a' <= c <= 'z') || ('A' <= c <= 'Z') || ('0' <= c <= '9')
  }

  /** Every character of `s` is a letter or a digit. */
  predicate AllAlnum(s: string)
  {
    forall i :: 0 <= i < |s| ==> IsAlnum(s[i])
  }

  /** The letters and digits of `s`, in their original order. */
  function Sanitize(s: string): (r: string)
    ensures AllAlnum(r)
    ensures |r| <= |s|
    ensures r == s <==> AllAlnum(s)
  {
    if s == [] then []
    else if IsAlnum(s[0]) then [s[0]] + Sanitize(s[1..])
    else Sanitize(s[1..])
  }

  /** Filtering distributes over concatenation: the filter looks at each character on its own. */
  lemma {:induction false} SanitizeConcat(a: string, b: string)
    ensures Sanitize(a + b) == Sanitize(a) + Sanitize(b)
    decreases |a|
  {
    if a != [] {
      assert (a + b)[0] == a[0];
      assert (a + b)[1..] == a[1..] + b;
      SanitizeConcat(a[1..], b);
    } else {
      assert a + b == b;
    }
  }

  /** One more character is kept exactly when it is a letter or a digit. */
  lemma SanitizeSnoc(s: string, c: char)
    ensures Sanitize(s + [c]) == Sanitize(s) + (if IsAlnum(c) then [c] else [])
  {
    SanitizeConcat(s, [c]);
  }

  /** Filtering twice is filtering once. */
  lemma SanitizeIdempotent(s: string)
    ensures Sanitize(Sanitize(s)) == Sanitize(s)
  {
  }

  /**
   * The character loop of `FSNode::setName`: appends each letter or digit of
   * `pName` to the stored name and skips every other character.
   */
  method SetName(pName: string) returns (goodName: string)
    ensures AllAlnum(goodName)
    ensures goodName == Sanitize(pName)
  {
    goodName := "";
    var i := 0;
    while i < |pName|
      invariant 0 <= i <= |pName|
      invariant goodName == Sanitize(pName[..i])
    {
      assert pName[..i + 1] == pName[..i] + [pName[i]];
      SanitizeSnoc(pName[..i], pName[i]);
      if IsAlnum(pName[i]) {
        goodName := goodName + [pName[i]];
      }
      i := i + 1;
    }
    assert pName[..i] == pName;
  }

  /**
   * `std::string::operator<`: the first differing character decides, and a
   * proper prefix is smaller than the longer string.
   */
  predicate LexLess(a: string, b: string)
  {
    if a == [] then b != []
    else if b == [] then false
    else if a[0] != b[0] then a[0] < b[0]
    else LexLess(a[1..], b[1..])
  }

  lemma {:induction false} LexLessIrreflexive(a: string)
    ensures !LexLess(a, a)
    decreases |a|
  {
    if a != [] {
      LexLessIrreflexive(a[1..]);
    }
  }

  lemma {:induction false} LexLessAsymmetric(a: string, b: string)
    requires LexLess(a, b)
    ensures !LexLess(b, a)
    decreases |a|
  {
    if a != [] && b != [] && a[0] == b[0] {
      LexLessAsymmetric(a[1..], b[1..]);
    }
  }

  lemma {:induction false} LexLessTransitive(a: string, b: string, c: string)
    requires LexLess(a, b) && LexLess(b, c)
    ensures LexLess(a, c)
    decreases |a|
  {
    if a != [] && b != [] && c != [] && a[0] == b[0] && b[0] == c[0] {
      LexLessTransitive(a[1..], b[1..], c[1..]);
    }
  }

  /** Two different strings are always ordered one way or the other. */
  lemma {:induction false} LexLessTotal(a: string, b: string)
    ensures a == b || LexLess(a, b) || LexLess(b, a)
    decreases |a|
  {
    if a != [] && b != [] && a[0] == b[0] {
      LexLessTotal(a[1..], b[1..]);
      if a[1..] == b[1..] {
        assert a == [a[0]] + a[1..] && b == [b[0]] + b[1..];
      }
    }
  }

  /**
   * `std::string::find(c)`: the index of the first `c` in `s`, or `|s|` when
   * there is none (standing for `npos`).
   */
  function IndexOf(s: string, c: char): (k: nat)
    ensures k <= |s|
    ensures k < |s| ==> s[k] == c
    ensures forall i :: 0 <= i < k ==> s[i] != c
  {
    if s == [] then 0
    else if s[0] == c then 0
    else 1 + IndexOf(s[1..], c)
  }

  /** A character closing `s` is found somewhere in `s`. */
  lemma IndexOfLast(s: string, c: char)
    requires |s| > 0 && s[|s| - 1] == c
    ensures IndexOf(s, c) < |s|
  {
    assert s[|s| - 1] == c;
  }

  /** A character found in a prefix is found at the same place in any extension of it. */
  lemma IndexOfPrefix(s: string, t: string, c: char)
    requires IndexOf(s, c) < |s|
    ensures IndexOf(s + t, c) == IndexOf(s, c)
  {
    var k := IndexOf(s + t, c);
    var j := IndexOf(s, c);
    assert (s + t)[j] == c;
    if k < j {
      assert s[k] == (s + t)[k];
    }
  }

  /** A character absent from `s` is found in `s + t` only inside `t`. */
  lemma IndexOfSkip(s: string, t: string, c: char)
    requires IndexOf(s, c) == |s|
    ensures IndexOf(s + t, c) == |s| + IndexOf(t, c)
  {
    var k := IndexOf(s + t, c);
    var j := IndexOf(t, c);
    if j < |t| {
      assert (s + t)[|s| + j] == c;
    }
  }
}
