/**
  Text as C sees it: strings without NUL that are read up to a NUL behind their end, and the
  character classes of the C locale.
*/
module CText {
  /** The character at position i of a C string; the terminator is there to be read. */
  function At(s: string, i: nat): char
  {
    if i < |s| then s[i] else '\0'
  }

  ghost predicate CString(s: string)
  {
    forall i :: 0 <= i < |s| ==> s[i] != '\0'
  }

  predicate IsSpace(c: char)
  {
    c == ' ' || c == '\t' || c == '\n' || c == '\r' || c == '\U{000B}' || c == '\U{000C}'
  }

  predicate IsDigit(c: char)
  {
    '0' <= c <= '9'
  }

  function ToUpper(c: char): char
  {
    if 'a' <= c <= 'z' then (c as int - 'a' as int + 'A' as int) as char else c
  }

  /** White space, digits and letters by their codes. */
  lemma CharacterCodes(c: char)
    ensures IsSpace(c) <==> c as int == 32 || 9 <= c as int <= 13
    ensures IsDigit(c) <==> 48 <= c as int <= 57
    ensures ToUpper(c) as int == if 97 <= c as int <= 122 then c as int - 32 else c as int
  {
  }

  ghost predicate AllSpace(s: string)
  {
    forall i :: 0 <= i < |s| ==> IsSpace(s[i])
  }

  ghost predicate AllDigits(s: string)
  {
    forall i :: 0 <= i < |s| ==> IsDigit(s[i])
  }

  /** The end of the run of white space, or of digits, that starts at i. */
  function SpaceEnd(s: string, i: nat): (e: nat)
    requires i <= |s|
    ensures i <= e <= |s|
    ensures e < |s| ==> !IsSpace(s[e])
    decreases |s| - i
  {
    if i < |s| && IsSpace(s[i]) then SpaceEnd(s, i + 1) else i
  }

  lemma {:induction false} SpaceRun(s: string, i: nat)
    requires i <= |s|
    ensures AllSpace(s[i..SpaceEnd(s, i)])
    decreases |s| - i
  {
    if i < |s| && IsSpace(s[i]) {
      SpaceRun(s, i + 1);
      assert s[i..SpaceEnd(s, i)] == [s[i]] + s[i + 1..SpaceEnd(s, i)];
    }
  }

  function DigitsEnd(s: string, i: nat): (e: nat)
    requires i <= |s|
    ensures i <= e <= |s| && AllDigits(s[i..e])
    ensures e < |s| ==> !IsDigit(s[e])
    decreases |s| - i
  {
    if i < |s| && IsDigit(s[i]) then
      var e := DigitsEnd(s, i + 1);
      assert s[i..e] == [s[i]] + s[i + 1..e];
      e
    else i
  }

  /** A run ends where the next character is of another kind. */
  lemma {:induction false} SpaceEndAt(s: string, i: nat, e: nat)
    requires i <= e <= |s| && AllSpace(s[i..e]) && (e < |s| ==> !IsSpace(s[e]))
    ensures SpaceEnd(s, i) == e
    decreases e - i
  {
    if i < e {
      assert IsSpace(s[i..e][0]);
      assert s[i + 1..e] == s[i..e][1..];
      SpaceEndAt(s, i + 1, e);
    }
  }

  lemma {:induction false} DigitsEndAt(s: string, i: nat, e: nat)
    requires i <= e <= |s| && AllDigits(s[i..e]) && (e < |s| ==> !IsDigit(s[e]))
    ensures DigitsEnd(s, i) == e
    decreases e - i
  {
    if i < e {
      assert IsDigit(s[i..e][0]);
      assert s[i + 1..e] == s[i..e][1..];
      DigitsEndAt(s, i + 1, e);
    }
  }

  /** `while (isspace(*p)) p++;`. */
  method SkipSpace(s: string, i: nat) returns (e: nat)
    requires i <= |s|
    ensures e == SpaceEnd(s, i)
  {
    e := i;
    while IsSpace(At(s, e))
      invariant i <= e <= |s| && SpaceEnd(s, e) == SpaceEnd(s, i)
      decreases |s| - e
    {
      e := e + 1;
    }
  }

  // ------------------------------------------------------------------ decimal numbers

  function DigitValue(c: char): (d: nat)
    requires IsDigit(c)
    ensures d <= 9
  {
    c as int - '0' as int
  }

  /** The number that a digit string denotes, however long. */
  function Decimal(digits: string): nat
    requires AllDigits(digits)
  {
    if digits == [] then 0
    else 10 * Decimal(digits[..|digits| - 1]) + DigitValue(digits[|digits| - 1])
  }

  /** What `PRIu64` prints. */
  function DecimalText(n: nat): (text: string)
    ensures text != [] && AllDigits(text)
  {
    var last := [('0' as int + n % 10) as char];
    if n < 10 then last else DecimalText(n / 10) + last
  }

  lemma {:induction false} DecimalRoundTrip(n: nat)
    ensures Decimal(DecimalText(n)) == n
  {
    var text := DecimalText(n);
    if n < 10 {
      assert text[..0] == [];
    } else {
      assert text[..|text| - 1] == DecimalText(n / 10);
      DecimalRoundTrip(n / 10);
    }
  }
}
