/**
 * The field validators of the user schema (models/User.js), each regular expression
 * written out as a recogniser over `seq<char>`. JavaScript's `\w` is `[A-Za-z0-9_]`
 * and `\d` is `[0-9]`; lengths are JavaScript lengths (UTF-16 code units).
 */
module Validators {
  import opened Options
  import opened Text
  import opened Calendar

  // ---------------------------------------------------------------- email

  /** `\w` */
  predicate IsWordChar(c: char) {
    ('a' <= c <= 'z') || ('A' <= c <= 'Z') || ('0' <= c <= '9') || c == '_'
  }

  /** `[.-]` */
  predicate IsSeparator(c: char) {
    c == '.' || c == '-'
  }

  /**
   * What may follow the first character of `\w+([.-]?\w+)*`: the run ends, goes on with a
   * word character, or goes on with one separator that a word character must follow.
   */
  predicate IsRunTail(t: string)
    decreases |t|
  {
    || t == []
    || (IsWordChar(t[0]) && IsRunTail(t[1..]))
    || (|t| >= 2 && IsSeparator(t[0]) && IsWordChar(t[1]) && IsRunTail(t[2..]))
  }

  /** `\w+([.-]?\w+)*` */
  predicate IsWordRun(s: string) {
    |s| > 0 && IsWordChar(s[0]) && IsRunTail(s[1..])
  }

  /** `(\.\w{2,3})+`: a dot and two word characters, a third one optionally, then more groups or the end. */
  predicate IsTldGroups(t: string)
    decreases |t|
  {
    && |t| >= 3 && t[0] == '.' && IsWordChar(t[1]) && IsWordChar(t[2])
    && (|| t[3..] == []
        || IsTldGroups(t[3..])
        || (|t| >= 4 && IsWordChar(t[3]) && (t[4..] == [] || IsTldGroups(t[4..]))))
  }

  /** The domain splits at `k` into a word run and dot groups. */
  predicate DomainSplitsAt(d: string, k: int) {
    1 <= k < |d| && IsWordRun(d[..k]) && IsTldGroups(d[k..])
  }

  /** `\w+([.-]?\w+)*(\.\w{2,3})+`: some split into a word run and dot groups. */
  predicate IsEmailDomain(d: string) {
    exists k :: 1 <= k < |d| && DomainSplitsAt(d, k)
  }

  /** The address splits at an '@' at `i` into a word run and a domain. */
  predicate EmailSplitsAt(s: string, i: int) {
    0 < i < |s| - 1 && s[i] == '@' && IsWordRun(s[..i]) && IsEmailDomain(s[i + 1..])
  }

  /** `^\w+([.-]?\w+)*@\w+([.-]?\w+)*(\.\w{2,3})+$` (models/User.js:23). */
  predicate MatchesEmailPattern(s: string) {
    exists i :: 0 < i < |s| - 1 && EmailSplitsAt(s, i)
  }

  /** The email path's validators on the stored value: required (non-empty) and the pattern. */
  predicate IsValidEmail(e: string) {
    e != "" && MatchesEmailPattern(e)
  }

  /** The stored form of an email: the schema's `lowercase` setter, then its `trim` setter. */
  function NormaliseEmail(raw: string): (e: string)
    ensures IsTrimmed(e)
    ensures HasNoAsciiUpper(e)
  {
    var lowered := LowerAscii(raw);
    LowerAsciiRemovesCapitals(raw);
    Trim(lowered)
  }

  /** Normalising a stored email again changes nothing. */
  lemma NormaliseEmailIdempotent(raw: string)
    ensures NormaliseEmail(NormaliseEmail(raw)) == NormaliseEmail(raw)
  {
    var e := NormaliseEmail(raw);
    LowerAsciiOfLower(e);
    TrimOfTrimmed(e);
  }

  /** Lower-casing a value first, as `isEmailTaken` and the login lookup do, does not change its stored form. */
  lemma NormaliseLoweredEmail(raw: string)
    ensures NormaliseEmail(LowerAscii(raw)) == NormaliseEmail(raw)
  {
    LowerAsciiIdempotent(raw);
  }

  /** Two inputs are stored as the same email exactly when they agree once trimmed and lower-cased. */
  lemma SameStoredEmail(a: string, b: string)
    ensures NormaliseEmail(a) == NormaliseEmail(b) <==> LowerAscii(Trim(a)) == LowerAscii(Trim(b))
  {
    TrimLowerCommute(a);
    TrimLowerCommute(b);
  }

  /** The final character of a run tail, if any, is a word character; every character is `\w` or `[.-]`. */
  lemma {:induction false} RunTailChars(t: string)
    requires IsRunTail(t)
    ensures forall j :: 0 <= j < |t| ==> IsWordChar(t[j]) || IsSeparator(t[j])
    ensures t != [] ==> IsWordChar(t[|t| - 1])
    decreases |t|
  {
    if t == [] {
    } else if IsWordChar(t[0]) && IsRunTail(t[1..]) {
      RunTailChars(t[1..]);
    } else {
      RunTailChars(t[2..]);
    }
  }

  lemma WordRunChars(s: string)
    requires IsWordRun(s)
    ensures forall j :: 0 <= j < |s| ==> IsWordChar(s[j]) || IsSeparator(s[j])
    ensures IsWordChar(s[|s| - 1])
  {
    RunTailChars(s[1..]);
    assert forall j :: 1 <= j < |s| ==> s[j] == s[1..][j - 1];
  }

  /** The pattern's tail `(\.\w{2,3})$`: a final dot followed by two or three word characters. */
  predicate HasFinalTld(s: string) {
    || (|s| >= 3 && s[|s| - 3] == '.' && IsWordChar(s[|s| - 2]) && IsWordChar(s[|s| - 1]))
    || (|s| >= 4 && s[|s| - 4] == '.' && IsWordChar(s[|s| - 3]) && IsWordChar(s[|s| - 2])
        && IsWordChar(s[|s| - 1]))
  }

  lemma {:induction false} TldGroupsShape(t: string)
    requires IsTldGroups(t)
    ensures forall j :: 0 <= j < |t| ==> IsWordChar(t[j]) || t[j] == '.'
    ensures HasFinalTld(t)
    decreases |t|
  {
    if t[3..] == [] {
    } else if IsTldGroups(t[3..]) {
      TldGroupsShape(t[3..]);
      assert forall j :: 3 <= j < |t| ==> t[j] == t[3..][j - 3];
    } else {
      if t[4..] != [] {
        TldGroupsShape(t[4..]);
        assert forall j :: 4 <= j < |t| ==> t[j] == t[4..][j - 4];
      }
    }
  }

  /** No '@' anywhere in `s`. */
  predicate NoAt(s: string) {
    forall j :: 0 <= j < |s| ==> s[j] != '@'
  }

  lemma WordRunHasNoAt(s: string)
    requires IsWordRun(s)
    ensures NoAt(s)
  {
    WordRunChars(s);
  }

  /** A string whose two halves hold no '@' holds none. */
  lemma NoAtJoin(s: string, k: int)
    requires 0 <= k <= |s| && NoAt(s[..k]) && NoAt(s[k..])
    ensures NoAt(s)
  {
    forall j | 0 <= j < |s|
      ensures s[j] != '@'
    {
      if j < k {
        assert s[j] == s[..k][j];
      } else {
        assert s[j] == s[k..][j - k];
      }
    }
  }

  /** An email domain has no '@' and ends in a dot and two or three word characters. */
  lemma EmailDomainShape(d: string)
    requires IsEmailDomain(d)
    ensures NoAt(d) && HasFinalTld(d)
  {
    var k :| 1 <= k < |d| && DomainSplitsAt(d, k);
    var run, groups := d[..k], d[k..];
    WordRunHasNoAt(run);
    TldGroupsShape(groups);
    assert NoAt(groups);
    NoAtJoin(d, k);
    FinalTldOfSuffix(d, groups);
  }

  /** A string that ends with one having a final top-level domain has one too. */
  lemma FinalTldOfSuffix(s: string, d: string)
    requires |d| <= |s| && d == s[|s| - |d|..]
    requires HasFinalTld(d)
    ensures HasFinalTld(s)
  {
    assert s[|s| - 1] == d[|d| - 1] && s[|s| - 2] == d[|d| - 2] && s[|s| - 3] == d[|d| - 3];
    if |d| >= 4 {
      assert s[|s| - 4] == d[|d| - 4];
    }
  }

  /** An '@' between two parts that hold none is the only one. */
  lemma OnlyAt(s: string, i: int)
    requires 0 <= i < |s| && NoAt(s[..i]) && NoAt(s[i + 1..])
    ensures forall j :: 0 <= j < |s| && s[j] == '@' ==> j == i
  {
    forall j | 0 <= j < |s| && j != i
      ensures s[j] != '@'
    {
      if j < i {
        assert s[j] == s[..i][j];
      } else {
        assert s[j] == s[i + 1..][j - i - 1];
      }
    }
  }

  /**
   * What the email pattern implies: exactly one '@', not at either end, and the address
   * ends in a dot followed by two or three word characters.
   */
  lemma EmailShape(s: string)
    requires MatchesEmailPattern(s)
    ensures exists i :: 0 < i < |s| - 1 && s[i] == '@' && forall j :: 0 <= j < |s| && s[j] == '@' ==> j == i
    ensures HasFinalTld(s)
  {
    var i :| 0 < i < |s| - 1 && EmailSplitsAt(s, i);
    WordRunHasNoAt(s[..i]);
    EmailDomainShape(s[i + 1..]);
    OnlyAt(s, i);
    FinalTldOfSuffix(s, s[i + 1..]);
  }

  /** An address the pattern accepts begins and ends with a word character. */
  lemma EmailEndsInWordChars(s: string)
    requires MatchesEmailPattern(s)
    ensures IsWordChar(s[0]) && IsWordChar(s[|s| - 1])
  {
    var i :| 0 < i < |s| - 1 && EmailSplitsAt(s, i);
    assert s[..i][0] == s[0];
    EmailShape(s);
  }

  /** Normalising a stored address with a space before it gives the address back. */
  lemma NormalisePaddedEmail(e: string)
    requires IsValidEmail(e) && HasNoAsciiUpper(e)
    ensures NormaliseEmail([' '] + e) == e
  {
    EmailEndsInWordChars(e);
    assert IsTrimmed(e);
    SpaceKeepsLower(e);
    TrimAfterSpace(e);
  }

  /** Building an address from its parts the way the pattern reads it always matches. */
  lemma EmailFromParts(local: string, host: string, tld: string)
    requires IsWordRun(local) && IsWordRun(host)
    requires 2 <= |tld| <= 3 && forall j :: 0 <= j < |tld| ==> IsWordChar(tld[j])
    ensures MatchesEmailPattern(local + "@" + host + "." + tld)
  {
    var s := local + "@" + host + "." + tld;
    var d := host + "." + tld;
    var t := "." + tld;
    assert t[3..] == [] || (t[4..] == [] && IsWordChar(t[3]));
    assert IsTldGroups(t);
    assert d[..|host|] == host && d[|host|..] == t;
    assert DomainSplitsAt(d, |host|);
    assert s[..|local|] == local && s[|local|] == '@' && s[|local| + 1..] == d;
    assert EmailSplitsAt(s, |local|);
  }

  // ---------------------------------------------------------------- nickname

  /** `[가-힣a-zA-Z0-9_-]`: a precomposed Hangul syllable, an ASCII letter or digit, `_` or `-`. */
  predicate IsNicknameChar(c: char) {
    || ('\U{AC00}' <= c <= '\U{D7A3}')
    || ('a' <= c <= 'z') || ('A' <= c <= 'Z') || ('0' <= c <= '9')
    || c == '_' || c == '-'
  }

  /** `^[가-힣a-zA-Z0-9_-]+$` (models/User.js:45). */
  predicate MatchesNicknamePattern(s: string) {
    |s| > 0 && forall i :: 0 <= i < |s| ==> IsNicknameChar(s[i])
  }

  /** The nickname path's validators on the stored (trimmed) value: required, minlength 2, maxlength 20, match. */
  predicate IsValidNickname(n: string) {
    n != "" && 2 <= Utf16Length(n) <= 20 && MatchesNicknamePattern(n)
  }

  /** The stored form of a nickname: the schema's `trim` setter. */
  function NormaliseNickname(raw: string): (n: string)
    ensures IsTrimmed(n)
    ensures |n| <= |raw|
  {
    Trim(raw)
  }

  /** A nickname is accepted exactly when its trimmed form has 2 to 20 characters, all allowed ones. */
  lemma NicknameRule(raw: string)
    ensures IsValidNickname(NormaliseNickname(raw)) <==>
              var n := NormaliseNickname(raw);
              2 <= |n| <= 20 && forall i :: 0 <= i < |n| ==> IsNicknameChar(n[i])
  {
    NicknameCharsRule(NormaliseNickname(raw));
  }

  lemma NicknameCharsRule(n: string)
    ensures IsValidNickname(n) <==> 2 <= |n| <= 20 && forall i :: 0 <= i < |n| ==> IsNicknameChar(n[i])
  {
    if forall i :: 0 <= i < |n| ==> IsNicknameChar(n[i]) {
      Utf16LengthOfBmp(n);
    }
  }

  // ---------------------------------------------------------------- birth date

  /** Eight ASCII digits: the shape every stored birth date has. */
  predicate IsBirthDateShape(s: string) {
    |s| == 8 && AllDigits(s)
  }

  /** `^(19|20)\d{2}(0[1-9]|1[0-2])(0[1-9]|[12]\d|3[01])$` (models/User.js:53). */
  predicate MatchesBirthDatePattern(s: string) {
    && IsBirthDateShape(s)
    && ((s[0] == '1' && s[1] == '9') || (s[0] == '2' && s[1] == '0'))
    && ((s[4] == '0' && s[5] != '0') || (s[4] == '1' && s[5] <= '2'))
    && ((s[6] == '0' && s[7] != '0') || s[6] == '1' || s[6] == '2' || (s[6] == '3' && s[7] <= '1'))
  }

  /** `parseInt(v.substring(0, 4))`, `parseInt(v.substring(4, 6))`, `parseInt(v.substring(6, 8))`. */
  function YearOf(s: string): nat
    requires IsBirthDateShape(s)
  {
    DecimalValue(s[..4])
  }

  function MonthOf(s: string): nat
    requires IsBirthDateShape(s)
  {
    DecimalValue(s[4..6])
  }

  function DayOf(s: string): nat
    requires IsBirthDateShape(s)
  {
    DecimalValue(s[6..8])
  }

  /** On eight digits, the pattern accepts exactly years 1900-2099, months 1-12 and days 1-31. */
  lemma BirthDatePatternRanges(s: string)
    requires IsBirthDateShape(s)
    ensures MatchesBirthDatePattern(s) <==>
              1900 <= YearOf(s) <= 2099 && 1 <= MonthOf(s) <= 12 && 1 <= DayOf(s) <= 31
  {
    DecimalValueOfFour(s[..4]);
    DecimalValueOfTwo(s[4..6]);
    DecimalValueOfTwo(s[6..8]);
  }

  /** Year, month and day read digit by digit. */
  lemma BirthDateFields(s: string)
    requires IsBirthDateShape(s)
    ensures YearOf(s) ==
              1000 * DigitValue(s[0]) + 100 * DigitValue(s[1]) + 10 * DigitValue(s[2]) + DigitValue(s[3])
    ensures MonthOf(s) == 10 * DigitValue(s[4]) + DigitValue(s[5])
    ensures DayOf(s) == 10 * DigitValue(s[6]) + DigitValue(s[7])
  {
    DecimalValueOfFour(s[..4]);
    DecimalValueOfTwo(s[4..6]);
    DecimalValueOfTwo(s[6..8]);
  }

  /**
   * The custom validator (models/User.js:57-76) on a value the pattern accepted: the year
   * is not after the current one, and `new Date(year, month - 1, day)` reads back as the
   * same year, month and day.
   */
  predicate PassesBirthDateCheck(s: string, currentYear: int)
    requires MatchesBirthDatePattern(s)
  {
    BirthDatePatternRanges(s);
    var year, month, day := YearOf(s), MonthOf(s), DayOf(s);
    && |s| == 8
    && year <= currentYear
    && MakeDate(year, month, day) == Date(year, month, day)
  }

  /** The birth-date path's validators: required, the pattern, then the custom check. */
  predicate IsValidBirthDate(s: string, currentYear: int) {
    s != "" && MatchesBirthDatePattern(s) && PassesBirthDateCheck(s, currentYear)
  }

  /** A real calendar date of 1900-2099: the year bound aside, what every stored birth date is. */
  predicate IsRealBirthDate(s: string) {
    MatchesBirthDatePattern(s) && PassesBirthDateCheck(s, 2099)
  }

  /**
   * A birth date is accepted exactly when it is eight digits naming a real day of the
   * Gregorian calendar in a year from 1900 up to the current year.
   */
  lemma BirthDateRule(s: string, currentYear: int)
    ensures IsValidBirthDate(s, currentYear) <==>
              && IsBirthDateShape(s)
              && 1900 <= YearOf(s) <= 2099 && YearOf(s) <= currentYear
              && 1 <= MonthOf(s) <= 12
              && 1 <= DayOf(s) <= DaysInMonth(YearOf(s), MonthOf(s))
  {
    if IsBirthDateShape(s) {
      BirthDatePatternRanges(s);
      if MatchesBirthDatePattern(s) {
        MakeDateRoundTrip(YearOf(s), MonthOf(s), DayOf(s));
      }
    }
  }

  /** Accepted for the current year is accepted as a real date, and the year is within bounds. */
  lemma ValidBirthDateIsReal(s: string, currentYear: int)
    requires IsValidBirthDate(s, currentYear)
    ensures IsRealBirthDate(s)
    ensures 1900 <= YearOf(s) <= currentYear
  {
    BirthDateRule(s, currentYear);
    BirthDateRule(s, 2099);
  }

  /** Five of the dates routes/test.js:99-106 expects the validator to refuse: refused in every year. */
  lemma RejectedBirthDates(currentYear: int)
    ensures !IsValidBirthDate("19901301", currentYear)
    ensures !IsValidBirthDate("19900232", currentYear)
    ensures !IsValidBirthDate("1899123", currentYear)
    ensures !IsValidBirthDate("199001", currentYear)
    ensures !IsValidBirthDate("abcd1234", currentYear)
  {
    assert !IsAsciiDigit("abcd1234"[0]);
  }

  /** The sixth, 20300101, is a real date refused only while the current year is before 2030. */
  lemma FutureBirthDate(currentYear: int)
    ensures !IsValidBirthDate("20300101", currentYear) <==> currentYear < 2030
  {
    var s := "20300101";
    assert IsBirthDateShape(s);
    BirthDateFields(s);
    assert YearOf(s) == 2030 && MonthOf(s) == 1 && DayOf(s) == 1;
    BirthDateRule(s, currentYear);
  }

  /** 2000 is a leap year, being divisible by 400: its February 29 is a birth date. */
  lemma LeapDayIn2000(currentYear: int)
    requires currentYear >= 2000
    ensures IsValidBirthDate("20000229", currentYear)
  {
    var s := "20000229";
    assert IsBirthDateShape(s);
    BirthDateFields(s);
    assert YearOf(s) == 2000 && MonthOf(s) == 2 && DayOf(s) == 29;
    BirthDateRule(s, currentYear);
  }

  /** 1900 is a century not divisible by 400, so not a leap year: no February 29. */
  lemma NoLeapDayIn1900(currentYear: int)
    ensures !IsValidBirthDate("19000229", currentYear)
  {
    var s := "19000229";
    assert IsBirthDateShape(s);
    BirthDateFields(s);
    assert YearOf(s) == 1900 && MonthOf(s) == 2 && DayOf(s) == 29;
    BirthDateRule(s, currentYear);
  }

  /** February 30 passes the pattern but not the calendar round trip. */
  lemma NoFebruary30(currentYear: int)
    ensures !IsValidBirthDate("19900230", currentYear)
  {
    var s := "19900230";
    assert IsBirthDateShape(s);
    BirthDateFields(s);
    assert YearOf(s) == 1990 && MonthOf(s) == 2 && DayOf(s) == 30;
    BirthDateRule(s, currentYear);
  }

  // ---------------------------------------------------------------- profile image

  /** `.` in a JavaScript regular expression matches anything but these. */
  predicate IsLineTerminator(c: char) {
    c == '\n' || c == '\r' || c == '\U{2028}' || c == '\U{2029}'
  }

  /** `s` starts with the lower-case ASCII text `p`, letters compared without case (the `i` flag). */
  predicate StartsWithIgnoringCase(s: string, p: string) {
    |s| >= |p| && LowerAscii(s[..|p|]) == p
  }

  /** From index `from`, `s` is `.+\.ext$` with `ext` compared without case. */
  predicate HasImageTail(s: string, from: nat, ext: string) {
    && |s| >= from + 2 + |ext|
    && s[|s| - |ext| - 1] == '.'
    && LowerAscii(s[|s| - |ext|..]) == ext
    && forall i :: from <= i < |s| - |ext| - 1 ==> !IsLineTerminator(s[i])
  }

  /** `.+\.(jpg|jpeg|png|gif|webp)$` from index `from`. */
  predicate HasImageSuffix(s: string, from: nat) {
    || HasImageTail(s, from, "jpg") || HasImageTail(s, from, "jpeg") || HasImageTail(s, from, "png")
    || HasImageTail(s, from, "gif") || HasImageTail(s, from, "webp")
  }

  /** `/^https?:\/\/.+\.(jpg|jpeg|png|gif|webp)$/i` (models/User.js:102). */
  predicate MatchesImageUrlPattern(s: string) {
    || (StartsWithIgnoringCase(s, "http://") && HasImageSuffix(s, 7))
    || (StartsWithIgnoringCase(s, "https://") && HasImageSuffix(s, 8))
  }

  /** The profile-image validator: no value or an empty one passes; otherwise the pattern decides. */
  predicate IsValidProfileImage(v: Option<string>) {
    v.None? || v.value == "" || MatchesImageUrlPattern(v.value)
  }

  /** `jpg|jpeg|png|gif|webp` */
  predicate IsImageExtension(e: string) {
    e == "jpg" || e == "jpeg" || e == "png" || e == "gif" || e == "webp"
  }

  /**
   * `s` reads as a scheme `s[..i]` that is `http://` or `https://` in any case, a
   * non-empty middle `s[i..j]` without line terminators, a dot at `j`, and an image
   * extension in any case after it.
   */
  predicate ImageUrlSplitsAt(s: string, i: int, j: int) {
    && 0 < i < j < |s|
    && (LowerAscii(s[..i]) == "http://" || LowerAscii(s[..i]) == "https://")
    && s[j] == '.' && IsImageExtension(LowerAscii(s[j + 1..]))
    && forall k :: i <= k < j ==> !IsLineTerminator(s[k])
  }

  /** The rule of the image pattern read from one end of the URL, from one extension at a time. */
  lemma ImageTailSplits(s: string, from: nat, ext: string)
    requires from == 7 || from == 8
    requires StartsWithIgnoringCase(s, if from == 7 then "http://" else "https://")
    requires IsImageExtension(ext) && HasImageTail(s, from, ext)
    ensures ImageUrlSplitsAt(s, from, |s| - |ext| - 1)
  {
    assert s[|s| - |ext| - 1 + 1..] == s[|s| - |ext|..];
  }

  /**
   * The image rule: a URL passes the pattern exactly when it starts with `http://` or
   * `https://` in any case, has at least one character after that, and ends in a dot and
   * one of jpg, jpeg, png, gif, webp in any case (the characters in between are not
   * line terminators, which `.` does not match).
   */
  lemma ImageUrlRule(s: string)
    ensures MatchesImageUrlPattern(s) <==> exists i, j :: ImageUrlSplitsAt(s, i, j)
  {
    if MatchesImageUrlPattern(s) {
      var from := if StartsWithIgnoringCase(s, "http://") && HasImageSuffix(s, 7) then 7 else 8;
      if HasImageTail(s, from, "jpg") {
        ImageTailSplits(s, from, "jpg");
      } else if HasImageTail(s, from, "jpeg") {
        ImageTailSplits(s, from, "jpeg");
      } else if HasImageTail(s, from, "png") {
        ImageTailSplits(s, from, "png");
      } else if HasImageTail(s, from, "gif") {
        ImageTailSplits(s, from, "gif");
      } else {
        ImageTailSplits(s, from, "webp");
      }
    }
    if exists i, j :: ImageUrlSplitsAt(s, i, j) {
      var i, j :| ImageUrlSplitsAt(s, i, j);
      SplitMatchesPattern(s, i, j);
    }
  }

  lemma SplitMatchesPattern(s: string, i: int, j: int)
    requires ImageUrlSplitsAt(s, i, j)
    ensures MatchesImageUrlPattern(s)
  {
    var ext := LowerAscii(s[j + 1..]);
    assert |ext| == |s| - j - 1;
    assert s[|s| - |ext|..] == s[j + 1..];
    assert HasImageTail(s, i, ext);
    if LowerAscii(s[..i]) == "http://" {
      assert StartsWithIgnoringCase(s, "http://");
    } else {
      assert StartsWithIgnoringCase(s, "https://");
    }
  }

  /**
   * A non-empty accepted URL starts with `http` (any case), is at least `http://x.jpg`
   * long, and ends in a dot followed by an image extension in any case.
   */
  lemma ImageUrlShape(s: string)
    requires MatchesImageUrlPattern(s)
    ensures |s| >= 12 && LowerAscii(s[..4]) == "http"
    ensures exists j :: 7 < j < |s| - 3 && s[j] == '.' && IsImageExtension(LowerAscii(s[j + 1..]))
  {
    ImageUrlRule(s);
    var i, j :| ImageUrlSplitsAt(s, i, j);
    assert |LowerAscii(s[j + 1..])| >= 3;
    assert LowerAscii(s[..4]) == LowerAscii(s[..i])[..4];
  }

  lemma ImageUrlAbsentOrEmpty()
    ensures IsValidProfileImage(None) && IsValidProfileImage(Some(""))
  {
  }

  lemma LowerCaseScheme()
    ensures LowerAscii("https://") == "https://"
  {
    LowerAsciiRemovesCapitals("https://");
  }

  lemma UpperCaseExtension()
    ensures LowerAscii("PNG") == "png"
  {
    var lowered := LowerAscii("PNG");
    assert lowered[0] == 'p' && lowered[1] == 'n' && lowered[2] == 'g';
  }

  lemma ImageUrlAccepted()
    ensures IsValidProfileImage(Some("https://x.PNG"))
  {
    var ok := "https://x.PNG";
    assert ok[..8] == "https://" && ok[|ok| - 3..] == "PNG";
    LowerCaseScheme();
    UpperCaseExtension();
    assert StartsWithIgnoringCase(ok, "https://");
    assert HasImageTail(ok, 8, "png");
    assert MatchesImageUrlPattern(ok);
  }

  lemma ImageUrlWrongScheme()
    ensures !IsValidProfileImage(Some("ftp://a.b/c.png"))
  {
    var ftp := "ftp://a.b/c.png";
    assert LowerAscii(ftp[..7])[0] == 'f';
    assert LowerAscii(ftp[..8])[0] == 'f';
  }

  lemma ImageUrlNothingBeforeExtension()
    ensures !IsValidProfileImage(Some("http://.png"))
  {
    var short := "http://.png";
    assert LowerAscii(short[..8])[4] == ':';
  }

  lemma ImageUrlTrailingQuery()
    ensures !IsValidProfileImage(Some("http://a.b/c.png?x=1"))
  {
    var query := "http://a.b/c.png?x=1";
    assert LowerAscii(query[|query| - 3..])[2] == '1';
    assert LowerAscii(query[|query| - 4..])[3] == '1';
  }

  // ---------------------------------------------------------------- the other paths

  /** Bio: maxlength 100 (models/User.js:111). */
  predicate IsValidBio(b: string) {
    Utf16Length(b) <= 100
  }

  /** Gender: the enum F, M, N (models/User.js:84-86). */
  predicate IsValidGender(g: string) {
    g == "F" || g == "M" || g == "N"
  }

  /** Password: required and minlength 6 (models/User.js:32-33), on the plain text. */
  predicate IsValidPassword(p: string) {
    p != "" && Utf16Length(p) >= 6
  }

  /** The length bounds in characters: up to 50 characters always fit a bio, more than 100 never do. */
  lemma BioBounds(b: string)
    ensures |b| <= 50 ==> IsValidBio(b)
    ensures IsValidBio(b) ==> |b| <= 100
    ensures (forall i :: 0 <= i < |b| ==> IsBmp(b[i])) ==> (IsValidBio(b) <==> |b| <= 100)
  {
    if forall i :: 0 <= i < |b| ==> IsBmp(b[i]) {
      Utf16LengthOfBmp(b);
    }
  }
}
