/**
  Normalisation and validation of one spreadsheet cell as a WhatsApp number:
  strip surrounding whitespace, prefix the default country code unless the
  text already starts with '+', and accept the result only when it is longer
  than ten characters and everything after its first character is a digit.
 */
module Phone {

  /** The country code prefixed to numbers written without one. */
  const CountryCode: string := "+91"

  /** Numbers at most this long (after normalisation) are rejected. */
  const MaxRejectedLength: nat := 10

  /** Python's whitespace test restricted to Latin-1: tab to carriage return,
      the four information separators, space, NEL and no-break space. */
  predicate IsSpace(c: char) {
    ('\t' <= c <= '\r') || ('\U{1C}' <= c <= ' ') || c == '\U{85}' || c == '\U{A0}'
  }

  /** Python's digit test restricted to Latin-1: the ten ASCII digits and the
      superscripts one, two and three. */
  predicate IsDigit(c: char) {
    ('0' <= c <= '9') || c == '\U{B2}' || c == '\U{B3}' || c == '\U{B9}'
  }

  /** True when s neither starts nor ends with whitespace. */
  predicate Trimmed(s: string) {
    s == [] || (!IsSpace(s[0]) && !IsSpace(s[|s| - 1]))
  }

  /** The number of whitespace characters s starts with. */
  function LeadingSpaces(s: string): (k: nat)
    ensures k <= |s|
    ensures forall i :: 0 <= i < k ==> IsSpace(s[i])
    ensures k == |s| || !IsSpace(s[k])
  {
    if s != [] && IsSpace(s[0]) then 1 + LeadingSpaces(s[1..]) else 0
  }

  /** The number of whitespace characters s ends with. */
  function TrailingSpaces(s: string): (k: nat)
    ensures k <= |s|
    ensures forall i :: |s| - k <= i < |s| ==> IsSpace(s[i])
    ensures k == |s| || !IsSpace(s[|s| - 1 - k])
  {
    if s != [] && IsSpace(s[|s| - 1]) then 1 + TrailingSpaces(s[..|s| - 1]) else 0
  }

  /** Python's str.strip() with no argument. */
  function Strip(s: string): (r: string)
    ensures |r| <= |s| && Trimmed(r)
    ensures Trimmed(s) ==> r == s
    ensures r == [] <==> forall i :: 0 <= i < |s| ==> IsSpace(s[i])
    ensures LeadingSpaces(s) + |r| <= |s|
    ensures forall i :: 0 <= i < |r| ==> r[i] == s[LeadingSpaces(s) + i]
    ensures forall i :: LeadingSpaces(s) + |r| <= i < |s| ==> IsSpace(s[i])
  {
    var lo := LeadingSpaces(s);
    if lo == |s| then [] else s[lo..|s| - TrailingSpaces(s)]
  }

  lemma StripIdempotent(s: string)
    ensures Strip(Strip(s)) == Strip(s)
  {
  }

  predicate StartsWithPlus(s: string) {
    |s| > 0 && s[0] == '+'
  }

  /** The number media.py dials for a cell whose text is raw. */
  function Normalise(raw: string): (r: string)
    ensures StartsWithPlus(r)
    ensures |Strip(raw)| <= |r| <= |Strip(raw)| + |CountryCode|
    ensures r[|r| - |Strip(raw)|..] == Strip(raw)
  {
    var t := Strip(raw);
    if StartsWithPlus(t) then t else CountryCode + t
  }

  /** Python's str.isdigit(): false on the empty string. */
  predicate AllDigits(s: string) {
    |s| > 0 && forall i :: 0 <= i < |s| ==> IsDigit(s[i])
  }

  /** The acceptance test applied to a normalised number. */
  predicate IsValid(n: string) {
    |n| > MaxRejectedLength && AllDigits(n[1..])
  }

  // ---------------------------------------------------------------------------
  // Properties of normalisation

  /** A stripped number that already starts with '+' is dialled as it is. */
  lemma NormaliseKeepsPlus(raw: string)
    requires StartsWithPlus(Strip(raw))
    ensures Normalise(raw) == Strip(raw)
  {
  }

  /** Any other stripped text gets the default country code in front. */
  lemma NormaliseAddsCountryCode(raw: string)
    requires !StartsWithPlus(Strip(raw))
    ensures Normalise(raw) == CountryCode + Strip(raw)
  {
  }

  /** A cell text without whitespace at its ends is normalised as it is:
      kept when it starts with '+', prefixed with the country code otherwise. */
  lemma NormaliseTrimmed(s: string)
    requires Trimmed(s)
    ensures Normalise(s) == if StartsWithPlus(s) then s else CountryCode + s
  {
  }

  /** Normalising a normalised number changes nothing. */
  lemma NormaliseIdempotent(raw: string)
    ensures Normalise(Normalise(raw)) == Normalise(raw)
  {
    var r := Normalise(raw);
    var t := Strip(raw);
    assert Trimmed(r) by {
      if t == [] {
        assert r == CountryCode;
      } else {
        assert r[|r| - 1] == t[|t| - 1] by {
          assert r[|r| - |t|..][|t| - 1] == t[|t| - 1];
        }
      }
    }
  }

  // ---------------------------------------------------------------------------
  // Properties of validation

  /** A normalised number is rejected exactly when it is at most ten characters
      long or some character after its first is not a digit. */
  lemma {:induction false} ValidIff(n: string)
    ensures IsValid(n) <==> |n| > MaxRejectedLength && forall i :: 1 <= i < |n| ==> IsDigit(n[i])
  {
    if |n| > MaxRejectedLength && forall i :: 1 <= i < |n| ==> IsDigit(n[i]) {
      forall j | 0 <= j < |n[1..]| ensures IsDigit(n[1..][j]) {
        assert n[1..][j] == n[j + 1];
      }
    }
    if IsValid(n) {
      forall i | 1 <= i < |n| ensures IsDigit(n[i]) {
        assert n[i] == n[1..][i - 1];
      }
    }
  }

  /** A cell is accepted only when its stripped text has at least eight
      characters: shorter ones stay at most ten long even with the prefix. */
  lemma AcceptedNeedsEightCharacters(raw: string)
    requires IsValid(Normalise(raw))
    ensures |Strip(raw)| >= MaxRejectedLength + 1 - |CountryCode|
  {
  }

  /** A cell of exactly ten ASCII digits is dialled as +91 followed by them, and accepted. */
  lemma TenDigitsAccepted(raw: string)
    requires |raw| == 10 && forall i :: 0 <= i < |raw| ==> '0' <= raw[i] <= '9'
    ensures Normalise(raw) == CountryCode + raw
    ensures IsValid(Normalise(raw))
  {
    assert Trimmed(raw);
    NormaliseTrimmed(raw);
    DigitsAfterCountryCode(raw);
  }

  /** The country code followed by ten ASCII digits passes validation. */
  lemma DigitsAfterCountryCode(digits: string)
    requires |digits| == 10 && forall i :: 0 <= i < |digits| ==> '0' <= digits[i] <= '9'
    ensures IsValid(CountryCode + digits)
  {
    var n := CountryCode + digits;
    forall i | 1 <= i < |n| ensures IsDigit(n[i]) {
      if i >= 3 {
        assert n[i] == digits[i - 3];
      }
    }
    ValidIff(n);
  }

  /** A local ten-digit number is dialled with the Indian country code. */
  lemma LocalNumberGetsCountryCode()
    ensures Normalise("9876543210") == "+919876543210"
  {
    assert Trimmed("9876543210");
    NormaliseTrimmed("9876543210");
    LocalNumberPrefixed();
  }

  lemma LocalNumberPrefixed()
    ensures CountryCode + "9876543210" == "+919876543210"
  {
  }

  /** The number a local ten-digit cell is dialled as passes validation. */
  lemma LocalNumberAccepted()
    ensures IsValid("+919876543210")
  {
    assert "+919876543210"[1..] == "919876543210";
  }

  /** A number written with its own country code is dialled unchanged. */
  lemma InternationalNumberKept()
    ensures Normalise("+1234567891") == "+1234567891"
    ensures IsValid("+1234567891")
  {
    assert Trimmed("+1234567891");
    NormaliseTrimmed("+1234567891");
    InternationalNumberAccepted();
  }

  /** "+1234567891" passes validation. */
  lemma InternationalNumberAccepted()
    ensures IsValid("+1234567891")
  {
    assert "+1234567891"[1..] == "1234567891";
  }

  /** Text that is not a number gets the prefix and is then rejected. */
  lemma LettersRejected()
    ensures Normalise("abc") == "+91abc"
    ensures !IsValid(Normalise("abc"))
  {
    LettersGetCountryCode();
    assert |"+91abc"| == 6;
  }

  /** "abc" is dialled as "+91abc". */
  lemma LettersGetCountryCode()
    ensures Normalise("abc") == "+91abc"
  {
    assert Trimmed("abc");
    NormaliseTrimmed("abc");
    LettersPrefixed();
  }

  lemma LettersPrefixed()
    ensures CountryCode + "abc" == "+91abc"
  {
  }

  /** A cell whose stripped text has a non-digit anywhere after its first
      character is rejected, whether or not the country code was added. */
  lemma NonDigitRejected(raw: string, i: nat)
    requires 0 < i < |Strip(raw)| && !IsDigit(Strip(raw)[i])
    ensures !IsValid(Normalise(raw))
  {
    var t := Strip(raw);
    var r := Normalise(raw);
    var j := |r| - |t| + i;
    assert r[j] == t[i] by {
      assert r[|r| - |t|..][i] == t[i];
    }
    assert r[1..][j - 1] == r[j];
  }

  /** Whitespace inside a number is not stripped, so the number is rejected. */
  lemma InnerSpaceRejected()
    ensures !IsValid(Normalise(" 98765 43210\n"))
  {
    InnerSpaceStripped();
    NonDigitRejected(" 98765 43210\n", 5);
  }

  /** Only the whitespace at the two ends of a number is stripped. */
  lemma InnerSpaceStripped()
    ensures Strip(" 98765 43210\n") == "98765 43210"
  {
    var s := " 98765 43210\n";
    assert s[1..|s| - 1] == "98765 43210";
    StripOneSpaceEachSide(s);
  }

  /** Text with exactly one whitespace character at each end loses just those two. */
  lemma StripOneSpaceEachSide(s: string)
    requires |s| >= 3 && IsSpace(s[0]) && !IsSpace(s[1])
    requires IsSpace(s[|s| - 1]) && !IsSpace(s[|s| - 2])
    ensures Strip(s) == s[1..|s| - 1]
  {
    assert LeadingSpaces(s[1..]) == 0;
    assert TrailingSpaces(s[..|s| - 1]) == 0;
  }
}
