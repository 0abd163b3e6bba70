/**
 * The string primitives the user model relies on, as JavaScript defines them:
 * `String.prototype.trim`, ASCII lower-casing, `length` counted in UTF-16 code
 * units, and `parseInt` on a run of decimal digits.
 */
module Text {

  /** The characters `trim` removes: ECMAScript WhiteSpace and LineTerminator. */
  predicate IsJsWhiteSpace(c: char) {
    || c == '\t' || c == '\n' || c == '\U{000B}' || c == '\U{000C}' || c == '\r' || c == ' '
    || c == '\U{00A0}' || c == '\U{1680}' || ('\U{2000}' <= c <= '\U{200A}')
    || c == '\U{2028}' || c == '\U{2029}' || c == '\U{202F}' || c == '\U{205F}'
    || c == '\U{3000}' || c == '\U{FEFF}'
  }

  /** Neither end of `s` is white space. */
  predicate IsTrimmed(s: string) {
    s == [] || (!IsJsWhiteSpace(s[0]) && !IsJsWhiteSpace(s[|s| - 1]))
  }

  /** The index of the first character at or after `from` that is not white space, or `|s|`. */
  function LeadingEnd(s: string, from: nat): (k: nat)
    requires from <= |s|
    ensures from <= k <= |s|
    ensures forall i :: from <= i < k ==> IsJsWhiteSpace(s[i])
    ensures k == |s| || !IsJsWhiteSpace(s[k])
    decreases |s| - from
  {
    if from < |s| && IsJsWhiteSpace(s[from]) then LeadingEnd(s, from + 1) else from
  }

  /** The index just past the last character in `s[lo..limit]` that is not white space, or `lo`. */
  function TrailingStart(s: string, lo: nat, limit: nat): (k: nat)
    requires lo <= limit <= |s|
    ensures lo <= k <= limit
    ensures forall i :: k <= i < limit ==> IsJsWhiteSpace(s[i])
    ensures k == lo || !IsJsWhiteSpace(s[k - 1])
    decreases limit
  {
    if lo < limit && IsJsWhiteSpace(s[limit - 1]) then TrailingStart(s, lo, limit - 1) else limit
  }

  /** `String.prototype.trim`: white space removed from both ends. */
  function Trim(s: string): (r: string)
    ensures IsTrimmed(r)
    ensures |r| <= |s|
  {
    var lo := LeadingEnd(s, 0);
    s[lo..TrailingStart(s, lo, |s|)]
  }

  /** `r` is `s[lo..hi]`, and everything of `s` outside it is white space. */
  predicate Pads(s: string, r: string, lo: int, hi: int) {
    && 0 <= lo <= hi <= |s| && r == s[lo..hi]
    && (forall i :: 0 <= i < lo ==> IsJsWhiteSpace(s[i]))
    && (forall i :: hi <= i < |s| ==> IsJsWhiteSpace(s[i]))
  }

  /** The trimmed text is the middle of `s`, between a white-space prefix and a white-space suffix. */
  lemma TrimStripsWhiteSpace(s: string)
    ensures exists lo, hi :: 0 <= lo <= hi <= |s| && Pads(s, Trim(s), lo, hi)
  {
    var lo := LeadingEnd(s, 0);
    assert Pads(s, Trim(s), lo, TrailingStart(s, lo, |s|));
  }

  /** A string without white space at its ends is its own trim. */
  lemma TrimOfTrimmed(s: string)
    requires IsTrimmed(s)
    ensures Trim(s) == s
  {
    if s != [] {
      assert LeadingEnd(s, 0) == 0;
      assert s[0..|s|] == s;
    }
  }

  /** A space before a trimmed, non-empty string is all that `trim` removes. */
  lemma TrimAfterSpace(e: string)
    requires e != [] && IsTrimmed(e)
    ensures Trim([' '] + e) == e
  {
    var s := [' '] + e;
    assert s[1] == e[0] && s[|s| - 1] == e[|e| - 1];
    assert LeadingEnd(s, 1) == 1;
    assert LeadingEnd(s, 0) == 1;
    assert TrailingStart(s, 1, |s|) == |s|;
    assert s[1..] == e;
  }

  /** Trimming twice is trimming once. */
  lemma TrimIdempotent(s: string)
    ensures Trim(Trim(s)) == Trim(s)
  {
    TrimOfTrimmed(Trim(s));
  }

  /** `toLowerCase` restricted to ASCII: 'A'..'Z' become 'a'..'z', everything else stays. */
  function LowerChar(c: char): char {
    if 'A' <= c <= 'Z' then (c as int + 32) as char else c
  }

  predicate IsAsciiUpper(c: char) {
    'A' <= c <= 'Z'
  }

  /** No ASCII capital letter anywhere in `s`. */
  predicate HasNoAsciiUpper(s: string) {
    forall i :: 0 <= i < |s| ==> !IsAsciiUpper(s[i])
  }

  function LowerAscii(s: string): (r: string)
    ensures |r| == |s|
    ensures forall i :: 0 <= i < |s| ==> r[i] == LowerChar(s[i])
  {
    seq(|s|, i requires 0 <= i < |s| => LowerChar(s[i]))
  }

  /** Lower-casing leaves no ASCII capital behind and changes nothing else that is not one. */
  lemma LowerAsciiRemovesCapitals(s: string)
    ensures HasNoAsciiUpper(LowerAscii(s))
    ensures forall i :: 0 <= i < |s| && !IsAsciiUpper(s[i]) ==> LowerAscii(s)[i] == s[i]
  {
  }

  /** A space before a string with no ASCII capital adds none. */
  lemma SpaceKeepsLower(e: string)
    requires HasNoAsciiUpper(e)
    ensures LowerAscii([' '] + e) == [' '] + e
  {
    var padded := [' '] + e;
    forall j | 0 <= j < |padded|
      ensures !IsAsciiUpper(padded[j])
    {
      if j > 0 {
        assert padded[j] == e[j - 1];
      }
    }
    LowerAsciiOfLower(padded);
  }

  /** Lower-casing turns no character into white space and none out of it. */
  lemma LowerCharKeepsWhiteSpace(c: char)
    ensures IsJsWhiteSpace(LowerChar(c)) == IsJsWhiteSpace(c)
  {
  }

  lemma {:induction false} LeadingEndOfLower(s: string, from: nat)
    requires from <= |s|
    ensures LeadingEnd(LowerAscii(s), from) == LeadingEnd(s, from)
    decreases |s| - from
  {
    if from < |s| {
      LowerCharKeepsWhiteSpace(s[from]);
      LeadingEndOfLower(s, from + 1);
    }
  }

  lemma {:induction false} TrailingStartOfLower(s: string, lo: nat, limit: nat)
    requires lo <= limit <= |s|
    ensures TrailingStart(LowerAscii(s), lo, limit) == TrailingStart(s, lo, limit)
    decreases limit
  {
    if lo < limit {
      LowerCharKeepsWhiteSpace(s[limit - 1]);
      TrailingStartOfLower(s, lo, limit - 1);
    }
  }

  /** Lower-casing then trimming is trimming then lower-casing: the order of the two setters does not matter. */
  lemma TrimLowerCommute(s: string)
    ensures Trim(LowerAscii(s)) == LowerAscii(Trim(s))
  {
    var lower := LowerAscii(s);
    var lo := LeadingEnd(s, 0);
    LeadingEndOfLower(s, 0);
    TrailingStartOfLower(s, lo, |s|);
    var hi := TrailingStart(s, lo, |s|);
    assert Trim(lower) == lower[lo..hi];
    assert Trim(s) == s[lo..hi];
    LowerAsciiSlice(s, lo, hi);
  }

  /** Lower-casing works character by character, so it commutes with taking a slice. */
  lemma LowerAsciiSlice(s: string, lo: int, hi: int)
    requires 0 <= lo <= hi <= |s|
    ensures LowerAscii(s)[lo..hi] == LowerAscii(s[lo..hi])
  {
    var a, b := LowerAscii(s)[lo..hi], LowerAscii(s[lo..hi]);
    assert |a| == |b|;
    forall k | 0 <= k < |a|
      ensures a[k] == b[k]
    {
      assert a[k] == LowerChar(s[lo + k]);
    }
  }

  /** Lower-casing twice is lower-casing once. */
  lemma LowerAsciiIdempotent(s: string)
    ensures LowerAscii(LowerAscii(s)) == LowerAscii(s)
  {
    LowerAsciiRemovesCapitals(s);
    LowerAsciiOfLower(LowerAscii(s));
  }

  /** A string with no ASCII capital is its own lower-casing. */
  lemma LowerAsciiOfLower(s: string)
    requires HasNoAsciiUpper(s)
    ensures LowerAscii(s) == s
  {
  }

  /** The `length` of a JavaScript string: characters outside the BMP take two code units. */
  function Utf16Length(s: string): (n: nat)
    ensures |s| <= n <= 2 * |s|
  {
    if s == [] then 0 else (if s[0] as int >= 0x1_0000 then 2 else 1) + Utf16Length(s[1..])
  }

  predicate IsBmp(c: char) {
    c as int < 0x1_0000
  }

  /** For text inside the Basic Multilingual Plane the JavaScript length is the character count. */
  lemma {:induction false} Utf16LengthOfBmp(s: string)
    requires forall i :: 0 <= i < |s| ==> IsBmp(s[i])
    ensures Utf16Length(s) == |s|
  {
    if s != [] {
      Utf16LengthOfBmp(s[1..]);
    }
  }

  predicate IsAsciiDigit(c: char) {
    '0' <= c <= '9'
  }

  predicate AllDigits(s: string) {
    forall i :: 0 <= i < |s| ==> IsAsciiDigit(s[i])
  }

  function DigitValue(c: char): (d: nat)
    requires IsAsciiDigit(c)
    ensures d <= 9
  {
    c as int - '0' as int
  }

  /** `parseInt(s, 10)` for a string of decimal digits. */
  function DecimalValue(s: string): (n: nat)
    requires AllDigits(s)
  {
    if s == [] then 0 else 10 * DecimalValue(s[..|s| - 1]) + DigitValue(s[|s| - 1])
  }

  lemma DecimalValueOfTwo(s: string)
    requires |s| == 2 && AllDigits(s)
    ensures DecimalValue(s) == 10 * DigitValue(s[0]) + DigitValue(s[1])
  {
    var first := s[..1];
    assert first[..0] == [] && first[0] == s[0];
    assert DecimalValue(first) == DigitValue(s[0]);
  }

  lemma DecimalValueOfFour(s: string)
    requires |s| == 4 && AllDigits(s)
    ensures DecimalValue(s) ==
              1000 * DigitValue(s[0]) + 100 * DigitValue(s[1]) + 10 * DigitValue(s[2]) + DigitValue(s[3])
  {
    assert s[..3][..2] == s[..2];
    DecimalValueOfTwo(s[..2]);
  }
}
