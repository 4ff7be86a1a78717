/** String helpers that the registration rules rely on: Python's `str.strip()`,
    `str.lower()` and `str.join()`, restricted to ASCII. */
module Text {

  /** The ASCII characters for which Python's `str.isspace()` holds; the regex
      class `\s` matches the same characters. */
  predicate IsWhitespace(c: char) {
    c == ' ' || ('\t' <= c <= '\r') || ('\U{1C}' <= c <= '\U{1F}')
  }

  ghost predicate AllWhitespace(s: string) {
    forall k | 0 <= k < |s| :: IsWhitespace(s[k])
  }

  /** Number of whitespace characters at the front of `s`. */
  function LeadingSpace(s: string): (n: nat)
    ensures n <= |s|
    ensures forall k | 0 <= k < n :: IsWhitespace(s[k])
    ensures n < |s| ==> !IsWhitespace(s[n])
  {
    if |s| > 0 && IsWhitespace(s[0]) then 1 + LeadingSpace(s[1..]) else 0
  }

  /** Number of whitespace characters at the back of `s`. */
  function TrailingSpace(s: string): (n: nat)
    ensures n <= |s|
    ensures forall k | |s| - n <= k < |s| :: IsWhitespace(s[k])
    ensures n < |s| ==> !IsWhitespace(s[|s| - 1 - n])
  {
    if |s| > 0 && IsWhitespace(s[|s| - 1]) then 1 + TrailingSpace(s[..|s| - 1]) else 0
  }

  /** `s.strip()`: `s` without its leading and trailing whitespace. */
  function Strip(s: string): (r: string)
    ensures |r| <= |s|
    ensures r == [] || (!IsWhitespace(r[0]) && !IsWhitespace(r[|r| - 1]))
    ensures r == [] <==> AllWhitespace(s)
  {
    var i := LeadingSpace(s);
    if i == |s| then []
    else
      var n := TrailingSpace(s);
      s[i..|s| - n]
  }

  /** Stripping removes exactly the whitespace padding around a string whose
      ends are not whitespace. */
  lemma {:induction false} StripPadded(a: string, r: string, b: string)
    requires AllWhitespace(a) && AllWhitespace(b)
    requires r == [] || (!IsWhitespace(r[0]) && !IsWhitespace(r[|r| - 1]))
    ensures Strip(a + r + b) == r
  {
    var s := a + r + b;
    if r == [] {
      assert s == a + b;
      assert AllWhitespace(s);
    } else {
      LeadingSpaceOfPadded(a, r + b);
      assert s == a + (r + b);
      assert LeadingSpace(s) == |a|;
      TrailingSpaceOfPadded(a + r, b);
      assert s == (a + r) + b;
      assert TrailingSpace(s) == |b|;
      assert s[|a|..|s| - |b|] == r;
    }
  }

  lemma {:induction false} LeadingSpaceOfPadded(a: string, t: string)
    requires AllWhitespace(a)
    requires t == [] || !IsWhitespace(t[0])
    ensures LeadingSpace(a + t) == |a|
  {
    if a != [] {
      assert (a + t)[1..] == a[1..] + t;
      LeadingSpaceOfPadded(a[1..], t);
    }
  }

  lemma {:induction false} TrailingSpaceOfPadded(t: string, b: string)
    requires AllWhitespace(b)
    requires t == [] || !IsWhitespace(t[|t| - 1])
    ensures TrailingSpace(t + b) == |b|
  {
    if b != [] {
      assert (t + b)[..|t + b| - 1] == t + b[..|b| - 1];
      TrailingSpaceOfPadded(t, b[..|b| - 1]);
    }
  }

  /** Every string is its stripped form with whitespace padding around it. */
  lemma StripSplits(s: string) returns (a: string, b: string)
    ensures AllWhitespace(a) && AllWhitespace(b)
    ensures s == a + Strip(s) + b
  {
    var i := LeadingSpace(s);
    if i == |s| {
      a, b := s, [];
      assert s + [] + [] == s;
    } else {
      var n := TrailingSpace(s);
      var r := s[i..|s| - n];
      a, b := s[..i], s[|s| - n..];
      assert Strip(s) == r;
      assert forall k | 0 <= k < |a| :: a[k] == s[k];
      assert forall k | 0 <= k < |b| :: b[k] == s[|s| - n + k];
      var e := a + r + b;
      forall k | 0 <= k < |s| ensures e[k] == s[k] {
        if k < i {
          assert e[k] == a[k];
        } else if k < |s| - n {
          assert e[k] == r[k - i];
        } else {
          assert e[k] == b[k - (|s| - n)];
        }
      }
      assert e == s;
    }
  }

  /** A string whose ends are not whitespace is its own stripped form. */
  lemma StripKeeps(r: string)
    requires r == [] || (!IsWhitespace(r[0]) && !IsWhitespace(r[|r| - 1]))
    ensures Strip(r) == r
  {
    assert [] + r + [] == r;
    StripPadded([], r, []);
  }

  /** `s.strip().strip() == s.strip()`. */
  lemma StripIdempotent(s: string)
    ensures Strip(Strip(s)) == Strip(s)
  {
    StripKeeps(Strip(s));
  }

  /** ASCII lower-casing of one character. */
  function LowerChar(c: char): (d: char)
    ensures 'A' <= c <= 'Z' ==> 'a' <= d <= 'z' && d as int - c as int == 32
    ensures !('A' <= c <= 'Z') ==> d == c
  {
    if 'A' <= c <= 'Z' then (c as int + 32) as char else c
  }

  /** `s.lower()` on ASCII text. */
  function Lower(s: string): (r: string)
    ensures |r| == |s|
    ensures forall k | 0 <= k < |s| :: r[k] == LowerChar(s[k])
  {
    if s == [] then [] else [LowerChar(s[0])] + Lower(s[1..])
  }

  /** Lower-casing twice is lower-casing once. */
  lemma LowerIdempotent(s: string)
    ensures Lower(Lower(s)) == Lower(s)
  {
    assert forall k | 0 <= k < |s| :: LowerChar(LowerChar(s[k])) == LowerChar(s[k]);
  }

  /** `sep.join(parts)`. */
  function Join(parts: seq<string>, sep: string): string
  {
    if |parts| == 0 then []
    else if |parts| == 1 then parts[0]
    else parts[0] + sep + Join(parts[1..], sep)
  }

  /** Joining a list grown by one element appends the separator and that element. */
  lemma {:induction false} JoinSnoc(parts: seq<string>, p: string, sep: string)
    ensures Join(parts + [p], sep) == if parts == [] then p else Join(parts, sep) + sep + p
  {
    if |parts| > 1 {
      assert (parts + [p])[1..] == parts[1..] + [p];
      JoinSnoc(parts[1..], p, sep);
    } else if |parts| == 1 {
      assert (parts + [p])[1..] == [p];
    }
  }
}
