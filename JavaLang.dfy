/**
 * The java.lang routines the configuration reader, the LLM service and the
 * HTML parser rely on: case mapping, trim, contains, Integer.parseInt,
 * String.valueOf and Boolean.parseBoolean. Case mapping is ASCII only; a Java
 * `int` is the subset type Int32.
 */
module JavaLang {
  import opened Wrappers

  /** The values of a Java `int`. */
  type Int32 = x: int | -0x8000_0000 <= x <= 0x7fff_ffff

  const MinInt: int := -0x8000_0000
  const MaxInt: int := 0x7fff_ffff

  // ---------------------------------------------------------------------
  // Case mapping (ASCII)
  // ---------------------------------------------------------------------

  predicate IsAsciiUpper(c: char) { 'A' <= c <= 'Z' }

  predicate IsAsciiLower(c: char) { 'a' <= c <= 'z' }

  function LowerChar(c: char): (r: char)
    ensures !IsAsciiUpper(r)
    ensures IsAsciiUpper(c) ==> IsAsciiLower(r) && UpperChar(r) == c
    ensures !IsAsciiUpper(c) ==> r == c
  {
    if IsAsciiUpper(c) then (c as int + 32) as char else c
  }

  function UpperChar(c: char): (r: char)
    ensures !IsAsciiLower(r)
    ensures IsAsciiLower(c) ==> IsAsciiUpper(r) && (r as int + 32) as char == c
    ensures !IsAsciiLower(c) ==> r == c
  {
    if IsAsciiLower(c) then (c as int - 32) as char else c
  }

  /** String.toLowerCase: every ASCII capital becomes its small letter. */
  function ToLowerCase(s: string): (r: string)
    ensures |r| == |s|
    ensures forall i :: 0 <= i < |s| ==> r[i] == LowerChar(s[i])
    decreases |s|
  {
    if s == [] then [] else [LowerChar(s[0])] + ToLowerCase(s[1..])
  }

  /** String.toUpperCase: every ASCII small letter becomes its capital. */
  function ToUpperCase(s: string): (r: string)
    ensures |r| == |s|
    ensures forall i :: 0 <= i < |s| ==> r[i] == UpperChar(s[i])
    decreases |s|
  {
    if s == [] then [] else [UpperChar(s[0])] + ToUpperCase(s[1..])
  }

  /** String.replace(char, char): every occurrence of `from` becomes `to`. */
  function Replace(s: string, from: char, to: char): (r: string)
    ensures |r| == |s|
    ensures forall i :: 0 <= i < |s| ==> r[i] == (if s[i] == from then to else s[i])
    decreases |s|
  {
    if s == [] then [] else [if s[0] == from then to else s[0]] + Replace(s[1..], from, to)
  }

  /** A lower-cased string has no ASCII capitals and is its own lower case. */
  lemma {:induction false} ToLowerCaseIdempotent(s: string)
    ensures ToLowerCase(ToLowerCase(s)) == ToLowerCase(s)
  {
    var t := ToLowerCase(s);
    var u := ToLowerCase(t);
    assert |u| == |t|;
    forall i | 0 <= i < |t| ensures u[i] == t[i] {
      assert !IsAsciiUpper(t[i]);
    }
  }

  /** A string without ASCII capitals is its own lower case. */
  lemma LowerCaseFixed(s: string)
    requires forall i :: 0 <= i < |s| ==> !IsAsciiUpper(s[i])
    ensures ToLowerCase(s) == s
  {
  }

  /** String.equalsIgnoreCase, comparing character by character. */
  function EqualsIgnoreCase(s: string, t: string): (r: bool)
    ensures r ==> |s| == |t|
    decreases |s|
  {
    |s| == |t| && (s == [] || (LowerChar(s[0]) == LowerChar(t[0]) && EqualsIgnoreCase(s[1..], t[1..])))
  }

  /** Two strings are equal ignoring case exactly when their lower cases agree. */
  lemma {:induction false} EqualsIgnoreCaseIff(s: string, t: string)
    ensures EqualsIgnoreCase(s, t) <==> ToLowerCase(s) == ToLowerCase(t)
    decreases |s|
  {
    if |s| == |t| && s != [] {
      EqualsIgnoreCaseIff(s[1..], t[1..]);
      assert ToLowerCase(s) == [LowerChar(s[0])] + ToLowerCase(s[1..]);
      assert ToLowerCase(t) == [LowerChar(t[0])] + ToLowerCase(t[1..]);
      if ToLowerCase(s) == ToLowerCase(t) {
        assert ToLowerCase(s)[1..] == ToLowerCase(s[1..]);
        assert ToLowerCase(t)[1..] == ToLowerCase(t[1..]);
      }
    }
  }

  // ---------------------------------------------------------------------
  // String.trim and blankness
  // ---------------------------------------------------------------------

  /** True of the characters String.trim removes (code points up to U+0020). */
  predicate IsTrimmed(c: char) { c <= ' ' }

  /** Index of the first character that String.trim keeps, or |s|. */
  function TrimStart(s: string): (i: nat)
    ensures i <= |s|
    ensures forall k :: 0 <= k < i ==> IsTrimmed(s[k])
    ensures i < |s| ==> !IsTrimmed(s[i])
    decreases |s|
  {
    if s != [] && IsTrimmed(s[0]) then 1 + TrimStart(s[1..]) else 0
  }

  /** Length of s once String.trim has removed its trailing characters. */
  function TrimEnd(s: string): (j: nat)
    ensures j <= |s|
    ensures forall k :: j <= k < |s| ==> IsTrimmed(s[k])
    ensures j > 0 ==> !IsTrimmed(s[j - 1])
    decreases |s|
  {
    if s != [] && IsTrimmed(s[|s| - 1]) then TrimEnd(s[..|s| - 1]) else |s|
  }

  /** String.trim: removes every leading and trailing character up to U+0020. */
  function Trim(s: string): (r: string)
    ensures |r| <= |s|
    ensures r != [] ==> !IsTrimmed(r[0]) && !IsTrimmed(r[|r| - 1])
    ensures r == [] <==> forall k :: 0 <= k < |s| ==> IsTrimmed(s[k])
    ensures exists i :: OccursAt(s, r, i)
                     && (forall k :: 0 <= k < i ==> IsTrimmed(s[k]))
                     && (forall k :: i + |r| <= k < |s| ==> IsTrimmed(s[k]))
    ensures Contains(s, r)
  {
    var i := TrimStart(s);
    var rest := s[i..];
    var j := TrimEnd(rest);
    assert rest[..j] == s[i..i + j];
    assert OccursAt(s, rest[..j], i);
    assert i < |s| ==> rest[0] == s[i];
    assert forall k :: i + j <= k < |s| ==> IsTrimmed(s[k]) by {
      forall k | i + j <= k < |s| ensures IsTrimmed(s[k]) {
        assert rest[k - i] == s[k];
      }
    }
    rest[..j]
  }

  /** Trimming twice is trimming once. */
  lemma TrimIdempotent(s: string)
    ensures Trim(Trim(s)) == Trim(s)
  {
    var r := Trim(s);
    if r != [] {
      assert TrimStart(r) == 0;
      assert TrimEnd(r[0..]) == |r| by { assert r[0..] == r; }
      assert r[0..][..|r|] == r;
    }
  }

  /** `s.trim().isEmpty()`: blank exactly when every character is at most U+0020. */
  predicate IsBlank(s: string)
    ensures IsBlank(s) <==> forall k :: 0 <= k < |s| ==> s[k] <= ' '
  {
    Trim(s) == []
  }

  /** A character above U+0020 anywhere makes a string non-blank. */
  lemma NotBlankAt(s: string, i: int)
    requires 0 <= i < |s| && !IsTrimmed(s[i])
    ensures !IsBlank(s)
  {
  }

  // ---------------------------------------------------------------------
  // String.contains
  // ---------------------------------------------------------------------

  /** t occurs in s starting at index i. */
  predicate OccursAt(s: string, t: string, i: int)
  {
    0 <= i <= |s| - |t| && s[i..i + |t|] == t
  }

  /** String.contains: t occurs in s as a contiguous substring. */
  function Contains(s: string, t: string): (r: bool)
    ensures r <==> exists i :: OccursAt(s, t, i)
    decreases |s|
  {
    if t <= s then
      assert OccursAt(s, t, 0);
      true
    else if s == [] then
      assert forall i :: !OccursAt(s, t, i);
      false
    else
      var r := Contains(s[1..], t);
      assert r ==> exists i :: OccursAt(s, t, i) by {
        if r {
          var i :| OccursAt(s[1..], t, i);
          assert s[i + 1..i + 1 + |t|] == s[1..][i..i + |t|];
          assert OccursAt(s, t, i + 1);
        }
      }
      assert (exists i :: OccursAt(s, t, i)) ==> r by {
        if exists i :: OccursAt(s, t, i) {
          var i :| OccursAt(s, t, i);
          assert i != 0;
          assert s[1..][i - 1..i - 1 + |t|] == s[i..i + |t|];
          assert OccursAt(s[1..], t, i - 1);
        }
      }
      r
  }

  /** Containment survives lower-casing both strings. */
  lemma ContainsLowered(s: string, t: string)
    requires Contains(s, t)
    ensures Contains(ToLowerCase(s), ToLowerCase(t))
  {
    var i :| OccursAt(s, t, i);
    var ls, lt := ToLowerCase(s), ToLowerCase(t);
    assert ls[i..i + |t|] == lt by {
      forall k | 0 <= k < |t| ensures ls[i..i + |t|][k] == lt[k] {
        assert s[i + k] == t[k];
      }
    }
    assert OccursAt(ls, lt, i);
  }

  // ---------------------------------------------------------------------
  // Integer.parseInt and String.valueOf(int)
  // ---------------------------------------------------------------------

  predicate IsDigit(c: char) { '0' <= c <= '9' }

  predicate AllDigits(s: string) { forall i :: 0 <= i < |s| ==> IsDigit(s[i]) }

  function DigitValue(c: char): (d: nat)
    requires IsDigit(c)
    ensures d < 10
  {
    c as int - '0' as int
  }

  function DigitChar(d: nat): (c: char)
    requires d < 10
    ensures IsDigit(c) && DigitValue(c) == d
  {
    (d + '0' as int) as char
  }

  /** The value of a string of decimal digits, most significant first. */
  function DigitsValue(s: string): nat
    requires AllDigits(s)
    decreases |s|
  {
    if s == [] then 0 else 10 * DigitsValue(s[..|s| - 1]) + DigitValue(s[|s| - 1])
  }

  /** The decimal digits of n with no leading zero. */
  function NatDigits(n: nat): (r: string)
    ensures r != [] && AllDigits(r)
    ensures DigitsValue(r) == n
    ensures r[0] == '0' ==> n == 0
    decreases n
  {
    if n < 10 then
      [DigitChar(n)]
    else
      var prefix := NatDigits(n / 10);
      var r := prefix + [DigitChar(n % 10)];
      assert r[..|r| - 1] == prefix;
      r
  }

  /** The digits of s after an optional leading '-' or '+'. */
  function Magnitude(s: string): (d: string)
    ensures |d| <= |s|
  {
    if s != [] && (s[0] == '-' || s[0] == '+') then s[1..] else s
  }

  /** An optional sign followed by at least one decimal digit. */
  predicate IsDecimal(s: string)
  {
    Magnitude(s) != [] && AllDigits(Magnitude(s))
  }

  /** The integer a decimal string denotes, negative after a '-'. */
  function DecimalValue(s: string): int
    requires IsDecimal(s)
  {
    if s[0] == '-' then -(DigitsValue(Magnitude(s)) as int) else DigitsValue(Magnitude(s))
  }

  /** Integer.parseInt(s) in radix 10: None stands for NumberFormatException. */
  function ParseInt(s: string): (r: Option<Int32>)
    ensures r.Some? <==> IsDecimal(s) && MinInt <= DecimalValue(s) <= MaxInt
    ensures r.Some? ==> r.value == DecimalValue(s)
    ensures r.Some? ==> s != [] && (s[0] == '-' || s[0] == '+' || IsDigit(s[0]))
    ensures r.Some? ==> forall i :: 1 <= i < |s| ==> IsDigit(s[i])
    ensures r.Some? && s[0] == '-' ==> r.value <= 0
    ensures r.Some? && s[0] != '-' ==> r.value >= 0
  {
    if s == [] then None
    else
      var signed := s[0] == '-' || s[0] == '+';
      var digits := if signed then s[1..] else s;
      if digits == [] || !AllDigits(digits) then None
      else
        assert IsDigit(digits[0]);
        assert signed ==> s[1] == digits[0];
        assert !signed ==> IsDigit(s[0]);
        assert signed ==> forall i :: 1 <= i < |s| ==> s[i] == digits[i - 1];
        var v: int := if s[0] == '-' then -(DigitsValue(digits) as int) else DigitsValue(digits);
        if MinInt <= v <= MaxInt then Some(v) else None
  }

  /** String.valueOf(int): a minus sign for negatives, then the digits. */
  function ValueOfInt(n: Int32): (r: string)
    ensures r != []
    ensures r[0] == '-' <==> n < 0
    ensures AllDigits(Magnitude(r)) && Magnitude(r) != []
  {
    if n < 0 then
      var r := "-" + NatDigits(-(n as int));
      assert r[1..] == NatDigits(-(n as int));
      r
    else
      var r := NatDigits(n);
      assert IsDigit(r[0]);
      r
  }

  /** A leading zero does not change the value of a digit string. */
  lemma {:induction false} LeadingZero(d: string)
    requires AllDigits(d)
    ensures AllDigits("0" + d) && DigitsValue("0" + d) == DigitsValue(d)
    decreases |d|
  {
    var z := "0" + d;
    assert forall i :: 1 <= i < |z| ==> z[i] == d[i - 1];
    if d != [] {
      var n := |d| - 1;
      assert z[..|z| - 1] == "0" + d[..n];
      LeadingZero(d[..n]);
    }
  }

  /** Digits with no sign parse to their value exactly when it fits in an int. */
  lemma ParseUnsigned(d: string)
    requires d != [] && AllDigits(d)
    ensures ParseInt(d) == if DigitsValue(d) <= MaxInt then Some(DigitsValue(d)) else None
  {
    assert IsDigit(d[0]);
  }

  /** A leading '+' before digits changes nothing. */
  lemma ParsePlus(d: string)
    requires AllDigits(d)
    ensures ParseInt("+" + d) == ParseInt(d)
  {
    var s := "+" + d;
    assert s[1..] == d;
    if d != [] { assert IsDigit(d[0]); }
  }

  /** "-" and digits parse to the negation when it is at least -2^31. */
  lemma ParseMinus(d: string)
    requires d != [] && AllDigits(d)
    ensures ParseInt("-" + d) == if DigitsValue(d) <= -MinInt then Some(-(DigitsValue(d) as int)) else None
  {
    var s := "-" + d;
    assert s[1..] == d;
  }

  /** Leading zeros are accepted: "0" and digits parse like the digits. */
  lemma ParseLeadingZero(d: string)
    requires d != [] && AllDigits(d)
    ensures ParseInt("0" + d) == ParseInt(d)
  {
    LeadingZero(d);
    ParseUnsigned("0" + d);
    ParseUnsigned(d);
  }

  /** Integer.parseInt(String.valueOf(n)) == n for every int n. */
  lemma ParseValueOfInt(n: Int32)
    ensures ParseInt(ValueOfInt(n)) == Some(n)
  {
    if n < 0 {
      var d := NatDigits(-(n as int));
      assert ValueOfInt(n) == "-" + d;
      ParseMinus(d);
    } else {
      ParseUnsigned(NatDigits(n));
    }
  }

  /** parseInt rejects surrounding white space and an empty string. */
  lemma ParseIntRejectsSpace(s: string)
    ensures ParseInt(" " + s) == None
    ensures ParseInt(s + " ") == None
    ensures ParseInt("") == None
  {
    var t := s + " ";
    assert t[|t| - 1] == ' ';
  }

  // ---------------------------------------------------------------------
  // Boolean.parseBoolean and String.valueOf(boolean)
  // ---------------------------------------------------------------------

  /** Boolean.parseBoolean: true exactly for "true" in any mix of case. */
  function ParseBoolean(s: string): (r: bool)
    ensures r ==> |s| == 4
  {
    EqualsIgnoreCase(s, "true")
  }

  /** String.valueOf(boolean). */
  function ValueOfBoolean(b: bool): (r: string)
    ensures |r| == (if b then 4 else 5)
  {
    if b then "true" else "false"
  }

  /** parseBoolean accepts exactly the strings whose lower case is "true". */
  lemma ParseBooleanIff(s: string)
    ensures ParseBoolean(s) <==> ToLowerCase(s) == "true"
  {
    EqualsIgnoreCaseIff(s, "true");
    LowerCaseFixed("true");
  }

  /** Boolean.parseBoolean(String.valueOf(b)) == b. */
  lemma ParseValueOfBoolean(b: bool)
    ensures ParseBoolean(ValueOfBoolean(b)) == b
  {
  }
}
