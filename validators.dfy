/** The two field validators of the registration form and the rule that
    normalises a mobile number (main.py: is_valid_email, is_valid_mobile and the
    `re.sub(r'[\s\-\(\)]', '', mobile)` cleaning step). */
module Validators {
  import opened Text

  predicate IsDigit(c: char) { '0' <= c <= '9' }

  predicate IsAsciiLetter(c: char) { 'a' <= c <= 'z' || 'A' <= c <= 'Z' }

  // ---------------------------------------------------------------------------
  // Mobile numbers
  // ---------------------------------------------------------------------------

  /** The characters the cleaning rule deletes: the class `[\s\-\(\)]`. */
  predicate IsSeparator(c: char) {
    IsWhitespace(c) || c == '-' || c == '(' || c == ')'
  }

  /** The mobile number with every separator removed. */
  function CleanMobile(s: string): (r: string)
    ensures |r| <= |s|
    ensures forall k | 0 <= k < |r| :: !IsSeparator(r[k])
  {
    if s == [] then []
    else (if IsSeparator(s[0]) then [] else [s[0]]) + CleanMobile(s[1..])
  }

  /** Python's `str.isdigit()`: non-empty and made of digits only. */
  predicate IsDigitString(s: string) {
    |s| > 0 && forall k | 0 <= k < |s| :: IsDigit(s[k])
  }

  /** is_valid_mobile: after cleaning, exactly 8 characters, all of them digits.
      A valid number therefore has at least 8 characters before cleaning. */
  function IsValidMobile(mobile: string): (valid: bool)
    ensures valid ==> 8 <= |mobile|
  {
    var cleaned := CleanMobile(mobile);
    IsDigitString(cleaned) && |cleaned| == 8
  }

  /** Cleaning distributes over concatenation. */
  lemma {:induction false} CleanMobileAppend(a: string, b: string)
    ensures CleanMobile(a + b) == CleanMobile(a) + CleanMobile(b)
  {
    if a == [] {
      assert a + b == b;
    } else {
      assert (a + b)[0] == a[0];
      assert (a + b)[1..] == a[1..] + b;
      CleanMobileAppend(a[1..], b);
    }
  }

  /** A cleaned number is left alone by a second cleaning, so stored numbers
      are fixed points of the rule that the probes apply. */
  lemma {:induction false} CleanMobileIdempotent(s: string)
    ensures CleanMobile(CleanMobile(s)) == CleanMobile(s)
  {
    if s != [] {
      var head := if IsSeparator(s[0]) then [] else [s[0]];
      CleanMobileAppend(head, CleanMobile(s[1..]));
      CleanMobileIdempotent(s[1..]);
    }
  }

  /** Inserting a separator anywhere does not change the cleaned number: two
      spellings of a number that differ only in spacing, dashes or parentheses
      are the same key. */
  lemma SeparatorIgnored(a: string, c: char, b: string)
    requires IsSeparator(c)
    ensures CleanMobile(a + [c] + b) == CleanMobile(a + b)
  {
    CleanMobileAppend(a + [c], b);
    CleanMobileAppend(a, [c]);
    CleanMobileAppend(a, b);
  }

  /** Number of decimal digits in `s`. */
  function DigitCount(s: string): nat {
    if s == [] then 0 else (if IsDigit(s[0]) then 1 else 0) + DigitCount(s[1..])
  }

  /** A string is made of separators and digits only exactly when its cleaned
      form is made of digits only; then the cleaned form has one character per
      digit of `s`. */
  lemma {:induction false} CleanMobileDigits(s: string)
    ensures (forall k | 0 <= k < |s| :: IsSeparator(s[k]) || IsDigit(s[k]))
        <==> (forall k | 0 <= k < |CleanMobile(s)| :: IsDigit(CleanMobile(s)[k]))
    ensures (forall k | 0 <= k < |s| :: IsSeparator(s[k]) || IsDigit(s[k]))
        ==> |CleanMobile(s)| == DigitCount(s)
  {
    if s != [] {
      CleanMobileDigits(s[1..]);
      var head := if IsSeparator(s[0]) then [] else [s[0]];
      assert CleanMobile(s) == head + CleanMobile(s[1..]);
      if forall k | 0 <= k < |s| :: IsSeparator(s[k]) || IsDigit(s[k]) {
        assert forall k | 0 <= k < |s[1..]| :: IsSeparator(s[1..][k]) || IsDigit(s[1..][k]) by {
          forall k | 0 <= k < |s[1..]| ensures IsSeparator(s[1..][k]) || IsDigit(s[1..][k]) {
            assert s[1..][k] == s[k + 1];
          }
        }
        assert !IsSeparator(s[0]) ==> IsDigit(s[0]);
        assert IsDigit(s[0]) ==> !IsSeparator(s[0]);
      } else {
        var k :| 0 <= k < |s| && !IsSeparator(s[k]) && !IsDigit(s[k]);
        if k == 0 {
          assert CleanMobile(s)[0] == s[0];
        } else {
          assert s[1..][k - 1] == s[k];
          var j :| 0 <= j < |CleanMobile(s[1..])| && !IsDigit(CleanMobile(s[1..])[j]);
          assert CleanMobile(s)[|head| + j] == CleanMobile(s[1..])[j];
        }
      }
    }
  }

  /** is_valid_mobile, stated on the raw input: every character is a separator
      or a digit, and there are exactly 8 digits. The 8 is exact, not a lower
      bound. */
  lemma MobileValidIff(s: string)
    ensures IsValidMobile(s)
        <==> (forall k | 0 <= k < |s| :: IsSeparator(s[k]) || IsDigit(s[k])) && DigitCount(s) == 8
  {
    CleanMobileDigits(s);
  }

  /** A valid number is still valid, and unchanged by cleaning, once cleaned:
      what the store keeps is 8 bare digits. */
  lemma CleanedMobileValid(s: string)
    requires IsValidMobile(s)
    ensures IsValidMobile(CleanMobile(s))
    ensures CleanMobile(CleanMobile(s)) == CleanMobile(s)
  {
    CleanMobileIdempotent(s);
  }

  // ---------------------------------------------------------------------------
  // E-mail addresses: ^[a-zA-Z0-9._%+-]+@[a-zA-Z0-9.-]+\.[a-zA-Z]{2,}$
  // ---------------------------------------------------------------------------

  /** `[a-zA-Z0-9._%+-]` */
  predicate IsLocalChar(c: char) {
    IsAsciiLetter(c) || IsDigit(c) || c == '.' || c == '_' || c == '%' || c == '+' || c == '-'
  }

  /** `[a-zA-Z0-9.-]` */
  predicate IsDomainChar(c: char) {
    IsAsciiLetter(c) || IsDigit(c) || c == '.' || c == '-'
  }

  /** The pattern matched with `@` at index `at` and the `\.` before the
      top-level label at index `dot`: a non-empty local part, a non-empty
      domain, and a top-level label of at least two letters. */
  ghost predicate EmailParts(s: string, at: int, dot: int) {
    && 0 < at && at + 1 < dot && dot + 2 < |s|
    && s[at] == '@' && s[dot] == '.'
    && (forall k | 0 <= k < at :: IsLocalChar(s[k]))
    && (forall k | at < k < dot :: IsDomainChar(s[k]))
    && (forall k | dot < k < |s| :: IsAsciiLetter(s[k]))
  }

  /** Index of the first `c` in `s`, or `|s|` when there is none. */
  function FirstIndex(s: string, c: char): (i: nat)
    ensures i <= |s|
    ensures i < |s| ==> s[i] == c
    ensures forall k | 0 <= k < i :: s[k] != c
  {
    if s == [] then 0
    else if s[0] == c then 0
    else 1 + FirstIndex(s[1..], c)
  }

  /** Index of the last `c` in `s`, or -1 when there is none. */
  function LastIndex(s: string, c: char): (i: int)
    ensures -1 <= i < |s|
    ensures 0 <= i ==> s[i] == c
    ensures forall k | i < k < |s| :: s[k] != c
  {
    if s == [] then -1
    else if s[|s| - 1] == c then |s| - 1
    else LastIndex(s[..|s| - 1], c)
  }

  /** The pattern matched against the whole of `s`. No character class but
      the `@` itself admits `@`, so the `@` is the first one; the top-level
      label has no dot, so the `\.` is the last dot. */
  function MatchesEmailPattern(s: string): (matches: bool)
    ensures matches ==> 6 <= |s| && IsLocalChar(s[0]) && IsAsciiLetter(s[|s| - 1])
  {
    var at := FirstIndex(s, '@');
    var dot := LastIndex(s, '.');
    && 0 < at && at + 1 < dot && dot + 2 < |s|
    && (forall k | 0 <= k < at :: IsLocalChar(s[k]))
    && (forall k | at < k < dot :: IsDomainChar(s[k]))
    && (forall k | dot < k < |s| :: IsAsciiLetter(s[k]))
  }

  /** is_valid_email: `re.match` with a pattern that ends in `$`, which matches
      at the end of the string or just before one final newline. */
  function IsValidEmail(s: string): (valid: bool)
    ensures MatchesEmailPattern(s) ==> valid
    ensures valid ==> 6 <= |s| && IsLocalChar(s[0])
  {
    || MatchesEmailPattern(s)
    || (|s| > 0 && s[|s| - 1] == '\n' && MatchesEmailPattern(s[..|s| - 1]))
  }

  /** The pattern holds exactly when some choice of split points makes `s` a
      local part, `@`, a domain, `.` and a top-level label. */
  lemma MatchesEmailPatternIff(s: string)
    ensures MatchesEmailPattern(s) <==> exists at, dot :: EmailParts(s, at, dot)
  {
    var at := FirstIndex(s, '@');
    var dot := LastIndex(s, '.');
    if MatchesEmailPattern(s) {
      assert EmailParts(s, at, dot);
    }
    if exists a, d :: EmailParts(s, a, d) {
      var a, d :| EmailParts(s, a, d);
      assert at == a;
      assert dot == d;
    }
  }

  /** The trailing-newline allowance never applies to a stripped field. */
  lemma StrippedEmailValid(s: string)
    ensures IsValidEmail(Strip(s)) <==> MatchesEmailPattern(Strip(s))
  {
  }

  /** Lower-casing keeps an address inside the pattern, with the same split
      points. */
  lemma LowerKeepsEmailParts(s: string, at: int, dot: int)
    requires EmailParts(s, at, dot)
    ensures EmailParts(Lower(s), at, dot)
  {
  }

  /** The canonical (lower-case) form of a matching address matches too. */
  lemma LowerKeepsEmailPattern(s: string)
    requires MatchesEmailPattern(s)
    ensures MatchesEmailPattern(Lower(s))
  {
    MatchesEmailPatternIff(s);
    var at, dot :| EmailParts(s, at, dot);
    LowerKeepsEmailParts(s, at, dot);
    MatchesEmailPatternIff(Lower(s));
  }

  /** A string without separators is already clean. */
  lemma {:induction false} CleanMobileKeeps(s: string)
    requires forall k | 0 <= k < |s| :: !IsSeparator(s[k])
    ensures CleanMobile(s) == s
  {
    if s != [] {
      CleanMobileKeeps(s[1..]);
    }
  }

  /** FirstIndex is determined by its contract. */
  lemma FirstIndexIs(s: string, c: char, i: nat)
    requires i <= |s|
    requires i < |s| ==> s[i] == c
    requires forall k | 0 <= k < i :: s[k] != c
    ensures FirstIndex(s, c) == i
  {
  }

  /** LastIndex is determined by its contract. */
  lemma LastIndexIs(s: string, c: char, i: int)
    requires -1 <= i < |s|
    requires 0 <= i ==> s[i] == c
    requires forall k | i < k < |s| :: s[k] != c
    ensures LastIndex(s, c) == i
  {
  }

  /** `[a-zA-Z0-9._%+-]+` */
  ghost predicate IsLocalPart(l: string) {
    |l| > 0 && forall k | 0 <= k < |l| :: IsLocalChar(l[k])
  }

  /** `[a-zA-Z0-9.-]+` */
  ghost predicate IsDomainPart(d: string) {
    |d| > 0 && forall k | 0 <= k < |d| :: IsDomainChar(d[k])
  }

  /** `[a-zA-Z]{2,}` */
  ghost predicate IsTopLevelLabel(t: string) {
    |t| >= 2 && forall k | 0 <= k < |t| :: IsAsciiLetter(t[k])
  }

  /** Any local part, `@`, domain, `.` and top-level label make a matching address. */
  lemma EmailFromParts(l: string, d: string, t: string)
    requires IsLocalPart(l) && IsDomainPart(d) && IsTopLevelLabel(t)
    ensures MatchesEmailPattern(l + "@" + d + "." + t)
  {
    var s := l + "@" + d + "." + t;
    var at, dot := |l|, |l| + 1 + |d|;
    assert forall k | 0 <= k < at :: s[k] == l[k];
    assert forall k | at < k < dot :: s[k] == d[k - at - 1];
    assert forall k | dot < k < |s| :: s[k] == t[k - dot - 1];
    assert EmailParts(s, at, dot);
    MatchesEmailPatternIff(s);
  }

  /** Every matching address splits into a local part, `@`, a domain, `.` and
      a top-level label. */
  lemma EmailSplits(s: string) returns (l: string, d: string, t: string)
    requires MatchesEmailPattern(s)
    ensures s == l + "@" + d + "." + t
    ensures IsLocalPart(l) && IsDomainPart(d) && IsTopLevelLabel(t)
  {
    var at, dot := FirstIndex(s, '@'), LastIndex(s, '.');
    l, d, t := s[..at], s[at + 1..dot], s[dot + 1..];
    assert s == s[..at] + [s[at]] + s[at + 1..dot] + [s[dot]] + s[dot + 1..];
  }

  /** For a string of digits the only condition left is the length. */
  lemma DigitStringValidIff(s: string)
    requires IsDigitString(s)
    ensures IsValidMobile(s) <==> |s| == 8
  {
    CleanMobileKeeps(s);
  }

  /** A separator anywhere neither makes nor breaks a number. */
  lemma SeparatorKeepsValidity(a: string, c: char, b: string)
    requires IsSeparator(c)
    ensures IsValidMobile(a + [c] + b) <==> IsValidMobile(a + b)
  {
    SeparatorIgnored(a, c, b);
  }

  /** A letter anywhere makes a number invalid. */
  lemma LetterRejected(a: string, c: char, b: string)
    requires IsAsciiLetter(c)
    ensures !IsValidMobile(a + [c] + b)
  {
    CleanMobileAppend(a + [c], b);
    CleanMobileAppend(a, [c]);
    assert CleanMobile([c]) == [c];
    var cleaned := CleanMobile(a + [c] + b);
    assert cleaned[|CleanMobile(a)|] == c;
  }

  lemma DigitsConcat(a: string, b: string)
    requires IsDigitString(a) && IsDigitString(b)
    ensures IsDigitString(a + b)
  {
  }

  /** A dash between two blocks of four digits is accepted. */
  lemma DashedNumberValid()
    ensures IsValidMobile("1234" + "-" + "5678")
  {
    SeparatorKeepsValidity("1234", '-', "5678");
    DigitsConcat("1234", "5678");
    DigitStringValidIff("1234" + "5678");
  }

  /** The 8-digit boundary is exact: nine digits are too many ... */
  lemma NineDigitsRejected()
    ensures !IsValidMobile("123456789")
  {
    DigitStringValidIff("123456789");
  }

  /** ... and seven too few. */
  lemma SevenDigitsRejected()
    ensures !IsValidMobile("1234567")
  {
    DigitStringValidIff("1234567");
  }

  /** Separators alone clean to the empty string. */
  lemma {:induction false} SeparatorsOnlyClean(s: string)
    requires forall k | 0 <= k < |s| :: IsSeparator(s[k])
    ensures CleanMobile(s) == []
  {
    if s != [] {
      SeparatorsOnlyClean(s[1..]);
    }
  }

  /** A number made only of separators is rejected. */
  lemma SeparatorsOnlyRejected()
    ensures !IsValidMobile(" - ")
  {
    SeparatorsOnlyClean(" - ");
  }

  /** Letters are rejected wherever they stand. */
  lemma LettersRejected()
    ensures !IsValidMobile("abcd5678")
  {
    LetterRejected([], 'a', "bcd5678");
    assert [] + ['a'] + "bcd5678" == "abcd5678";
  }

  lemma EmailAccepted()
    ensures IsValidEmail("a.b+c" + "@" + "sub.example" + "." + "com")
  {
    EmailFromParts("a.b+c", "sub.example", "com");
  }

  lemma EmailsRejected()
    ensures !IsValidEmail("not-an-email")
    ensures !IsValidEmail("a@b")
  {
    LastIndexIs("not-an-email", '.', -1);
    LastIndexIs("a@b", '.', -1);
  }

  /** A one-letter top-level label is too short. */
  lemma ShortTopLevelRejected()
    ensures !IsValidEmail("a@b.c")
  {
    FirstIndexIs("a@b.c", '@', 1);
    LastIndexIs("a@b.c", '.', 3);
  }

  /** `$` lets one trailing newline through. */
  lemma TrailingNewlineAccepted()
    ensures IsValidEmail("a@b.co\n")
  {
    EmailFromParts("a", "b", "co");
    assert "a" + "@" + "b" + "." + "co" == "a@b.co" == "a@b.co\n"[..6];
  }
}
