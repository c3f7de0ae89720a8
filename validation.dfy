/**
 * The string validators of pkg/validation/validation.go. A Go string is a
 * sequence of runes here (valid UTF-8 is assumed), so `[]rune(s)` has length
 * |s| and `len(s)` is the UTF-8 byte length ByteLen(s). Each regular expression
 * the source compiles is written out as a predicate over characters.
 */
module Validation {
  import opened Wrappers
  import Util

  datatype VError =
    | EmptyString
    | ShortString
    | LongString
    | NumberString
    | Generic
    | WeakPassword
    | InvalidUsername
    | InvalidMobilePhone
    | InvalidEmail
    | InvalidSubDomain
    | IncorrectMaxResult
    | IncorrectMinResult
      /** strconv.ErrSyntax: the string is not a decimal numeral. */
    | IntSyntax
      /** strconv.ErrRange: the numeral does not fit in an int64. */
    | IntRange

  // ---------------------------------------------------------------- lengths

  /** Checks, in this order: empty, fewer than minLength runes, more than maxLength runes. */
  function StringMustBeNotEmptyWithMinAndMaxLengths(s: string, minLength: int, maxLength: int): (r: Option<VError>)
    ensures r == Some(EmptyString) <==> s == ""
    ensures r == Some(ShortString) <==> s != "" && |s| < minLength
    ensures r == Some(LongString) <==> s != "" && minLength <= |s| && |s| > maxLength
    ensures r.None? <==> s != "" && minLength <= |s| <= maxLength
  {
    if s == "" then Some(EmptyString)
    else if |s| < minLength then Some(ShortString)
    else if |s| > maxLength then Some(LongString)
    else None
  }

  function StringMustBeNotEmptyWithMaxLength(s: string, maxLength: int): (r: Option<VError>)
    ensures r.None? <==> 1 <= |s| <= maxLength
    ensures r.Some? ==> r.value == (if s == "" then EmptyString else LongString)
  {
    StringMustBeNotEmptyWithMinAndMaxLengths(s, 1, maxLength)
  }

  function StringMustBeNotEmptyWithMinLength(s: string, minLength: int): (r: Option<VError>)
    ensures r.None? <==> s != "" && minLength <= |s|
    ensures r.Some? ==> r.value == (if s == "" then EmptyString else ShortString)
  {
    if s == "" then Some(EmptyString)
    else if |s| < minLength then Some(ShortString)
    else None
  }

  /** The min-and-max check is the min check followed by the max check. */
  lemma MinAndMaxIsMinThenMax(s: string, minLength: int, maxLength: int)
    ensures StringMustBeNotEmptyWithMinAndMaxLengths(s, minLength, maxLength) ==
      if StringMustBeNotEmptyWithMinLength(s, minLength).Some? then StringMustBeNotEmptyWithMinLength(s, minLength)
      else if |s| > maxLength then Some(LongString) else None
  {
  }

  function StringCanBeEmptyButNotExceedMaxLength(s: string, maxLength: int): (r: Option<VError>)
    ensures s == "" ==> r.None?
    ensures s != "" ==> (r.Some? <==> |s| > maxLength)
    ensures r.Some? ==> r.value == LongString
  {
    if s == "" then None
    else if |s| > maxLength then Some(LongString)
    else None
  }

  // ---------------------------------------------------------- ASCII classes

  predicate IsAsciiLower(c: char) { 'a' <= c <= 'z' }
  predicate IsAsciiUpper(c: char) { 'A' <= c <= 'Z' }
  predicate IsAsciiDigit(c: char) { '0' <= c <= '9' }
  predicate IsAsciiAlnum(c: char) { IsAsciiLower(c) || IsAsciiUpper(c) || IsAsciiDigit(c) }

  /** Every character of s satisfies the class `[...]` given by `cls`. */
  predicate AllIn(s: string, cls: CharClassSet)
  {
    forall i | 0 <= i < |s| :: InClass(s[i], cls)
  }

  /** The bracketed character classes the source's expressions use. */
  datatype CharClassSet =
    | UsernameChars   // [a-zA-Z0-9-_.]
    | KeyTailChars    // [a-z0-9_]
    | SubdomainInner  // [A-Za-z0-9\-]
    | EmailLocal      // [a-zA-Z0-9_.+-]
    | EmailLabel      // [a-zA-Z0-9-]
    | EmailTail       // [a-zA-Z0-9-.]
    | Digits          // \d (ASCII only in Go's regexp)

  predicate InClass(c: char, cls: CharClassSet)
  {
    match cls
    case UsernameChars => IsAsciiAlnum(c) || c == '-' || c == '_' || c == '.'
    case KeyTailChars => IsAsciiLower(c) || IsAsciiDigit(c) || c == '_'
    case SubdomainInner => IsAsciiAlnum(c) || c == '-'
    case EmailLocal => IsAsciiAlnum(c) || c == '_' || c == '.' || c == '+' || c == '-'
    case EmailLabel => IsAsciiAlnum(c) || c == '-'
    case EmailTail => IsAsciiAlnum(c) || c == '-' || c == '.'
    case Digits => IsAsciiDigit(c)
  }

  // --------------------------------------------------------------- username

  /** `^[a-zA-Z0-9-_.]*$` */
  predicate MatchesUsername(s: string)
  {
    AllIn(s, UsernameChars)
  }

  function UsernameValidate(s: string): (r: Option<VError>)
    ensures r.None? <==> 1 <= |s| <= 32 && forall i | 0 <= i < |s| :: IsAsciiAlnum(s[i]) || s[i] in "-_."
    ensures r.Some? ==> r.value == InvalidUsername
  {
    if StringMustBeNotEmptyWithMaxLength(s, 32).Some? then Some(InvalidUsername)
    else if !MatchesUsername(s) then Some(InvalidUsername)
    else None
  }

  // ------------------------------------------------------------------- key

  /** `^[a-z][a-z0-9_]{2,31}$` */
  predicate MatchesKey(s: string)
  {
    3 <= |s| <= 32 && IsAsciiLower(s[0]) && AllIn(s[1..], KeyTailChars)
  }

  function StringMustBeKey(s: string): (r: Option<VError>)
    ensures r.None? <==> (3 <= |s| <= 32 && IsAsciiLower(s[0]) &&
                          forall i | 1 <= i < |s| :: IsAsciiLower(s[i]) || IsAsciiDigit(s[i]) || s[i] == '_')
    ensures r.Some? ==> r.value == Generic
  {
    if !MatchesKey(s) then Some(Generic) else None
  }

  // ---------------------------------------------------------- mobile phone

  /** `^993[6-7][1-5]\d{6}$` */
  predicate MatchesMobilePhone(s: string)
  {
    |s| == 11 && s[..3] == "993" && '6' <= s[3] <= '7' && '1' <= s[4] <= '5' && AllIn(s[5..], Digits)
  }

  function MobilePhoneValidate(s: string): (r: Option<VError>)
    ensures r.None? <==> (|s| == 11 && s[0] == '9' && s[1] == '9' && s[2] == '3' &&
                          s[3] in "67" && s[4] in "12345" && forall i | 5 <= i < 11 :: IsAsciiDigit(s[i]))
    ensures r.Some? ==> r.value == InvalidMobilePhone
  {
    if MatchesMobilePhone(s) then None else Some(InvalidMobilePhone)
  }

  // ------------------------------------------------------------- subdomain

  /** `^[A-Za-z0-9](?:[A-Za-z0-9\-]{0,61}[A-Za-z0-9])?$` */
  predicate MatchesSubdomain(s: string)
  {
    1 <= |s| <= 63 && IsAsciiAlnum(s[0]) && IsAsciiAlnum(s[|s| - 1]) && AllIn(s, SubdomainInner)
  }

  function SubDomainValidate(s: string): (r: Option<VError>)
    ensures r.None? <==> (1 <= |s| <= 63 && IsAsciiAlnum(s[0]) && IsAsciiAlnum(s[|s| - 1]) &&
                          forall i | 0 <= i < |s| :: IsAsciiAlnum(s[i]) || s[i] == '-')
    ensures r.Some? ==> r.value == InvalidSubDomain
  {
    if MatchesSubdomain(s) then None else Some(InvalidSubDomain)
  }

  // ----------------------------------------------------------------- email

  /**
   * What `(^[a-zA-Z0-9_.+-]+@[a-zA-Z0-9-]+\.[a-zA-Z0-9-.]+$)` denotes: the string splits
   * at some '@' (index a) and some later '.' (index d) into three non-empty parts
   * drawn from the three classes.
   */
  ghost predicate EmailSplitsAt(s: string, a: int, d: int)
  {
    0 < a && a + 1 < d && d + 1 < |s| && s[a] == '@' && s[d] == '.' &&
    AllIn(s[..a], EmailLocal) && AllIn(s[a + 1..d], EmailLabel) && AllIn(s[d + 1..], EmailTail)
  }

  ghost predicate EmailRegexMatches(s: string)
  {
    exists a, d :: EmailSplitsAt(s, a, d)
  }

  /** The first index at or after `from` whose character is c, or |s|. */
  function IndexOf(s: string, c: char, from: nat): (r: nat)
    requires from <= |s|
    ensures from <= r <= |s|
    ensures r < |s| ==> s[r] == c
    ensures forall i | from <= i < r :: s[i] != c
    decreases |s| - from
  {
    if from == |s| || s[from] == c then from else IndexOf(s, c, from + 1)
  }

  /** The email expression checked by scanning: '@' is the first '@', '.' the first '.' after it. */
  predicate MatchesEmail(s: string)
  {
    var a := IndexOf(s, '@', 0);
    a < |s| &&
    var d := IndexOf(s, '.', a + 1);
    d < |s| && 0 < a && a + 1 < d && d + 1 < |s| &&
    AllIn(s[..a], EmailLocal) && AllIn(s[a + 1..d], EmailLabel) && AllIn(s[d + 1..], EmailTail)
  }

  /** Scanning decides the regular expression: the split, when there is one, is unique. */
  lemma MatchesEmailIff(s: string)
    ensures MatchesEmail(s) <==> EmailRegexMatches(s)
  {
    var a := IndexOf(s, '@', 0);
    if MatchesEmail(s) {
      var d := IndexOf(s, '.', a + 1);
      assert EmailSplitsAt(s, a, d);
    }
    if EmailRegexMatches(s) {
      var a', d' :| EmailSplitsAt(s, a', d');
      // No class before the '@' admits '@', so a' is the first '@'.
      forall i | 0 <= i < a' ensures s[i] != '@' {
        assert InClass(s[..a'][i], EmailLocal);
      }
      assert a == a';
      // The label class admits no '.', so d' is the first '.' after a.
      forall i | a + 1 <= i < d' ensures s[i] != '.' {
        assert InClass(s[a + 1..d'][i - (a + 1)], EmailLabel);
      }
      assert IndexOf(s, '.', a + 1) == d';
    }
  }

  function EmailValidate(s: string): (r: Option<VError>)
    ensures r.None? <==> 1 <= |s| <= 64 && EmailRegexMatches(s)
    ensures r.Some? ==> r.value == InvalidEmail
  {
    MatchesEmailIff(s);
    if StringMustBeNotEmptyWithMaxLength(s, 64).Some? then Some(InvalidEmail)
    else if !MatchesEmail(s) then Some(InvalidEmail)
    else None
  }

  // -------------------------------------------------------------- password

  /** The Unicode tables the source consults (package unicode), taken as given predicates. */
  datatype UnicodeTables = UnicodeTables(
    isNumber: char -> bool,
    isUpper: char -> bool,
    isLetter: char -> bool,
    isPunct: char -> bool,
    isSymbol: char -> bool,
    isDigit: char -> bool)

  /** The counter a rune increments: the first class that applies, in this priority. */
  datatype RuneKind = Numeric | Upper | Lower | Special | Uncounted

  function KindOf(u: UnicodeTables, c: char): RuneKind
  {
    if u.isNumber(c) then Numeric
    else if u.isUpper(c) then Upper
    else if u.isLetter(c) || c == ' ' then Lower
    else if u.isPunct(c) || u.isSymbol(c) then Special
    else Uncounted
  }

  /** How many runes of s fall in kind k. */
  function Count(u: UnicodeTables, s: string, k: RuneKind): nat
  {
    if s == [] then 0
    else Count(u, s[..|s| - 1], k) + (if KindOf(u, s[|s| - 1]) == k then 1 else 0)
  }

  /** Each rune is counted in exactly one kind. */
  lemma {:induction false} CountsPartition(u: UnicodeTables, s: string)
    ensures Count(u, s, Numeric) + Count(u, s, Upper) + Count(u, s, Lower) +
            Count(u, s, Special) + Count(u, s, Uncounted) == |s|
  {
    if s != [] {
      CountsPartition(u, s[..|s| - 1]);
    }
  }

  /** The UTF-8 encoded length of one rune. */
  function Utf8Len(c: char): nat
  {
    if c as int < 0x80 then 1
    else if c as int < 0x800 then 2
    else if c as int < 0x10000 then 3
    else 4
  }

  /** Go's `len(s)`: the number of bytes of the UTF-8 encoding. */
  function ByteLen(s: string): nat
  {
    if s == [] then 0 else ByteLen(s[..|s| - 1]) + Utf8Len(s[|s| - 1])
  }

  lemma {:induction false} ByteLenBounds(s: string)
    ensures |s| <= ByteLen(s) <= 4 * |s|
  {
    if s != [] {
      ByteLenBounds(s[..|s| - 1]);
    }
  }

  /** Four two-byte runes already satisfy a minimum length of 8. */
  lemma LengthIsCountedInBytes()
    ensures ByteLen("éééé") == 8
  {
    var s := "éééé";
    assert ByteLen(s[..1]) == 2 by { assert s[..1][..0] == []; }
    assert s[..2][..1] == s[..1];
    assert s[..3][..2] == s[..2];
    assert s[..4][..3] == s[..3];
    assert s[..4] == s;
  }

  datatype PasswordPolicy = PasswordPolicy(
    minPasswordLength: int,
    minNumericSymbols: int,
    minUpperCaseChars: int,
    minLowerCaseChars: int,
    minSpecialChars: int)

  const DefaultPasswordPolicy := PasswordPolicy(8, 2, 1, 1, 1)

  ghost predicate MeetsPolicy(pp: PasswordPolicy, u: UnicodeTables, password: string)
  {
    ByteLen(password) >= pp.minPasswordLength &&
    Count(u, password, Numeric) >= pp.minNumericSymbols &&
    Count(u, password, Upper) >= pp.minUpperCaseChars &&
    Count(u, password, Lower) >= pp.minLowerCaseChars &&
    Count(u, password, Special) >= pp.minSpecialChars
  }

  method PasswordValidate(pp: PasswordPolicy, u: UnicodeTables, password: string) returns (err: Option<VError>)
    ensures err.None? <==> MeetsPolicy(pp, u, password)
    ensures err.Some? ==> err.value == WeakPassword
  {
    var numCount, upperCount, lowerCount, specialCharCount := 0, 0, 0, 0;
    var totalLength := ByteLen(password);
    for i := 0 to |password|
      invariant numCount == Count(u, password[..i], Numeric)
      invariant upperCount == Count(u, password[..i], Upper)
      invariant lowerCount == Count(u, password[..i], Lower)
      invariant specialCharCount == Count(u, password[..i], Special)
    {
      var s := password[i];
      assert password[..i + 1][..i] == password[..i];
      if u.isNumber(s) {
        numCount := numCount + 1;
      } else if u.isUpper(s) {
        upperCount := upperCount + 1;
      } else if u.isLetter(s) || s == ' ' {
        lowerCount := lowerCount + 1;
      } else if u.isPunct(s) || u.isSymbol(s) {
        specialCharCount := specialCharCount + 1;
      }
    }
    assert password[..|password|] == password;
    if totalLength >= pp.minPasswordLength && numCount >= pp.minNumericSymbols &&
       upperCount >= pp.minUpperCaseChars && lowerCount >= pp.minLowerCaseChars &&
       specialCharCount >= pp.minSpecialChars {
      err := None;
    } else {
      err := Some(WeakPassword);
    }
  }

  // ---------------------------------------------------------------- numbers

  /** Accepts exactly the strings whose every rune is a digit; "" is accepted. */
  method IsNumber(u: UnicodeTables, s: string) returns (err: Option<VError>)
    ensures err.None? <==> forall i | 0 <= i < |s| :: u.isDigit(s[i])
    ensures err.Some? ==> err.value == NumberString
  {
    var rest := s;
    while |rest| > 0
      invariant |rest| <= |s| && rest == s[|s| - |rest|..]
      invariant forall i | 0 <= i < |s| - |rest| :: u.isDigit(s[i])
    {
      var rn := rest[0];
      if !u.isDigit(rn) {
        return Some(NumberString);
      }
      rest := rest[1..];
    }
    return None;
  }

  const MaxUint64: int := Util.TwoTo64 - 1

  predicate AllDigits(s: string)
  {
    forall i | 0 <= i < |s| :: IsAsciiDigit(s[i])
  }

  /** The value of a run of ASCII digits, read most significant first. */
  function DigitsValue(s: string): nat
    requires AllDigits(s)
  {
    if s == [] then 0
    else
      assert IsAsciiDigit(s[|s| - 1]);
      10 * DigitsValue(s[..|s| - 1]) + (s[|s| - 1] as int - '0' as int)
  }

  /** One more digit multiplies the value so far by ten and adds the digit. */
  lemma DigitsStep(s: string, i: nat)
    requires i < |s| && AllDigits(s[..i]) && IsAsciiDigit(s[i])
    ensures AllDigits(s[..i + 1])
    ensures DigitsValue(s[..i + 1]) == 10 * DigitsValue(s[..i]) + (s[i] as int - '0' as int)
  {
    assert s[..i + 1] == s[..i] + [s[i]];
    assert s[..i + 1][..i] == s[..i];
  }

  /** The value of a run of digits is at least the value of any of its prefixes. */
  lemma {:induction false} DigitsPrefixMonotone(s: string, k: nat)
    requires AllDigits(s) && k <= |s|
    ensures AllDigits(s[..k])
    ensures DigitsValue(s[..k]) <= DigitsValue(s)
  {
    assert forall i | 0 <= i < k :: s[..k][i] == s[i];
    if k < |s| {
      var s' := s[..|s| - 1];
      assert forall i | 0 <= i < |s'| :: s'[i] == s[i];
      assert s'[..k] == s[..k];
      DigitsPrefixMonotone(s', k);
    } else {
      assert s[..k] == s;
    }
  }

  /** The outcome of strconv.ParseUint's digit loop in base 10. */
  datatype UintScan = Scanned(value: nat) | Overflow | Malformed

  /**
   * strconv.ParseUint's loop from position i with the value n read so far: a
   * non-digit is a syntax error, and the first digit that takes the value past
   * 2^64 - 1 is a range error, so no later character is looked at.
   */
  function ScanDigits(b: string, i: nat, n: nat): UintScan
    requires i <= |b|
    decreases |b| - i
  {
    if i == |b| then Scanned(n)
    else if !IsAsciiDigit(b[i]) then Malformed
    else
      var n1 := 10 * n + (b[i] as int - '0' as int);
      if n1 > MaxUint64 then Overflow else ScanDigits(b, i + 1, n1)
  }

  /** Some run of leading digits of b already exceeds 2^64 - 1. */
  ghost predicate OverflowsBeforeJunk(b: string)
  {
    exists k | 1 <= k <= |b| :: AllDigits(b[..k]) && DigitsValue(b[..k]) > MaxUint64
  }

  /**
   * What the digit loop decides: a value exactly for a run of digits within
   * uint64, and a range error exactly when leading digits overflow before any
   * non-digit is met.
   */
  lemma {:induction false} ScanDigitsMeaning(b: string, i: nat, n: nat)
    requires i <= |b| && AllDigits(b[..i]) && n == DigitsValue(b[..i]) && n <= MaxUint64
    ensures ScanDigits(b, i, n).Scanned? <==> AllDigits(b) && DigitsValue(b) <= MaxUint64
    ensures ScanDigits(b, i, n).Scanned? ==> ScanDigits(b, i, n).value == DigitsValue(b)
    ensures ScanDigits(b, i, n).Overflow? <==> OverflowsBeforeJunk(b)
    decreases |b| - i
  {
    if i == |b| {
      assert b[..i] == b;
      forall k | 1 <= k <= |b|
        ensures AllDigits(b[..k]) && DigitsValue(b[..k]) <= MaxUint64
      {
        DigitsPrefixMonotone(b, k);
      }
    } else if !IsAsciiDigit(b[i]) {
      forall k | 1 <= k <= |b| && AllDigits(b[..k])
        ensures DigitsValue(b[..k]) <= MaxUint64
      {
        assert k <= i;
        assert b[..i][..k] == b[..k];
        DigitsPrefixMonotone(b[..i], k);
      }
    } else {
      DigitsStep(b, i);
      var n1 := 10 * n + (b[i] as int - '0' as int);
      if n1 > MaxUint64 {
        assert 1 <= i + 1 <= |b| && AllDigits(b[..i + 1]) && DigitsValue(b[..i + 1]) > MaxUint64;
        if AllDigits(b) {
          DigitsPrefixMonotone(b, i + 1);
        }
      } else {
        ScanDigitsMeaning(b, i + 1, n1);
      }
    }
  }

  /** The digits after one optional leading sign. */
  function Unsigned(s: string): string
  {
    if |s| > 0 && (s[0] == '-' || s[0] == '+') then s[1..] else s
  }

  predicate Negative(s: string)
  {
    |s| > 0 && s[0] == '-'
  }

  /** `[+-]?[0-9]+` */
  predicate IsNumeral(s: string)
  {
    |Unsigned(s)| > 0 && AllDigits(Unsigned(s))
  }

  function NumeralValue(s: string): int
    requires IsNumeral(s)
  {
    var v: int := DigitsValue(Unsigned(s));
    if Negative(s) then -v else v
  }

  /**
   * strconv.Atoi on a 64-bit platform, which comes down to strconv.ParseInt: the
   * integer it returns together with its error. A range error carries the
   * int64 bound of the sign, a syntax error carries 0.
   */
  function Atoi(s: string): (r: (int, Option<VError>))
  {
    var body := Unsigned(s);
    if body == "" then (0, Some(IntSyntax))
    else
      match ScanDigits(body, 0, 0)
      case Malformed => (0, Some(IntSyntax))
      case Overflow => (if Negative(s) then Util.MinInt64 else Util.MaxInt64, Some(IntRange))
      case Scanned(n) =>
        var u: int := n;
        if !Negative(s) && u > Util.MaxInt64 then (Util.MaxInt64, Some(IntRange))
        else if Negative(s) && u > Util.MaxInt64 + 1 then (Util.MinInt64, Some(IntRange))
        else (if Negative(s) then -u else u, None)
  }

  /**
   * What Atoi accepts and returns: exactly the numerals `[+-]?[0-9]+` within
   * int64, with their value; a range error for a numeral out of range or for
   * overflowing leading digits, with the bound of the sign; otherwise a syntax
   * error with 0.
   */
  lemma AtoiMeaning(s: string)
    ensures Atoi(s).1.None? <==> IsNumeral(s) && Util.MinInt64 <= NumeralValue(s) <= Util.MaxInt64
    ensures Atoi(s).1.None? ==> Atoi(s).0 == NumeralValue(s)
    ensures Atoi(s).1.Some? ==> Atoi(s).1.value == IntSyntax || Atoi(s).1.value == IntRange
    ensures Atoi(s).1 == Some(IntRange) <==>
      (IsNumeral(s) && !(Util.MinInt64 <= NumeralValue(s) <= Util.MaxInt64)) || OverflowsBeforeJunk(Unsigned(s))
    ensures Atoi(s).1 == Some(IntRange) ==> Atoi(s).0 == if Negative(s) then Util.MinInt64 else Util.MaxInt64
    ensures Atoi(s).1 == Some(IntSyntax) ==> Atoi(s).0 == 0
  {
    var body := Unsigned(s);
    if body != "" {
      assert body[..0] == "";
      assert body[..|body|] == body;
      ScanDigitsMeaning(body, 0, 0);
    }
  }

  /**
   * Digits that overflow uint64 are a range error whatever follows them: the
   * loop stops before it reaches the junk, and the result is MaxInt64.
   */
  lemma RangeErrorBeforeJunk(d: string, junk: string)
    requires |d| > 0 && AllDigits(d) && DigitsValue(d) > MaxUint64
    ensures Atoi(d + junk) == (Util.MaxInt64, Some(IntRange))
  {
    var s := d + junk;
    assert IsAsciiDigit(d[0]) && s[0] == d[0];
    assert Unsigned(s) == s;
    assert s[..|d|] == d;
    AtoiMeaning(s);
  }

  /**
   * Parses a max-results parameter: strconv.Atoi, then the range [1, maxRes]. The
   * integer is returned with the error as Go returns it.
   */
  function MaxResultsStringWithMaxCheck(s: string, maxRes: int): (r: (int, Option<VError>))
    ensures r.0 == Atoi(s).0
    ensures Atoi(s).1.Some? ==> r.1 == Atoi(s).1
    ensures r.1.None? <==> Atoi(s).1.None? && 1 <= r.0 <= maxRes
    ensures Atoi(s).1.None? && r.1.Some? ==> r.1 == Some(IncorrectMaxResult)
    ensures r.1.None? ==> IsNumeral(s) && r.0 == NumeralValue(s) && 1 <= r.0 <= maxRes
  {
    AtoiMeaning(s);
    var (maxResult, err) := Atoi(s);
    if err.Some? then (maxResult, err)
    else if maxResult < 1 || maxRes < maxResult then (maxResult, Some(IncorrectMaxResult))
    else (maxResult, None)
  }

  function IntWithMinCheck(result: int, minResult: int): (r: Option<VError>)
    ensures r.None? <==> minResult <= result
    ensures r.Some? ==> r.value == IncorrectMinResult
  {
    if result < minResult then Some(IncorrectMinResult) else None
  }

  // -------------------------------------------------------------- IsValid

  /** A named validation together with the outcome its check function gives. */
  datatype ValidationBox = ValidationBox(name: string, outcome: Option<VError>)

  /** The names of the failing validations, in order: what an eager run logs. */
  function FailedNames(vs: seq<ValidationBox>): (r: seq<string>)
    ensures r == [] <==> forall i | 0 <= i < |vs| :: vs[i].outcome.None?
  {
    if vs == [] then []
    else FailedNames(vs[..|vs| - 1]) + (if vs[|vs| - 1].outcome.Some? then [vs[|vs| - 1].name] else [])
  }

  /**
   * Runs the validations in order and reports whether none failed. `logged` is the
   * sequence of names the failure log receives: with `lazy` only the first failure
   * (nothing after it is run), otherwise every failure.
   */
  method IsValid(lazy: bool, validations: seq<ValidationBox>) returns (ok: bool, logged: seq<string>)
    ensures ok <==> forall i | 0 <= i < |validations| :: validations[i].outcome.None?
    ensures !lazy ==> logged == FailedNames(validations)
    ensures lazy ==> logged == FailedNames(validations)[..if ok then 0 else 1]
  {
    var hasErrors := false;
    logged := [];
    for i := 0 to |validations|
      invariant logged == FailedNames(validations[..i])
      invariant hasErrors <==> logged != []
      invariant lazy ==> !hasErrors
    {
      var validation := validations[i];
      assert validations[..i + 1][..i] == validations[..i];
      var err := validation.outcome;
      if err.Some? {
        hasErrors := true;
        logged := logged + [validation.name];
        if lazy {
          FailedNamesPrefix(validations, i + 1);
          return false, logged;
        }
      }
    }
    assert validations[..|validations|] == validations;
    ok := !hasErrors;
  }

  /** The log of a prefix is a prefix of the whole log. */
  lemma {:induction false} FailedNamesPrefix(vs: seq<ValidationBox>, n: nat)
    requires n <= |vs|
    ensures FailedNames(vs[..n]) <= FailedNames(vs)
    decreases |vs| - n
  {
    if n < |vs| {
      FailedNamesPrefix(vs, n + 1);
      assert vs[..n + 1][..n] == vs[..n];
    } else {
      assert vs[..n] == vs;
    }
  }
}
