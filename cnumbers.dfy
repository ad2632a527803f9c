/** Unsigned decimal conversion as the C library performs it for `strtoul(p, &end, 10)`
    and for the `%lu` directive of `sscanf`, over a character sequence. */
module CNumbers {
  import opened Wrappers

  /** ULONG_MAX on an LP64 system. */
  const ULongMax: nat := 0xFFFF_FFFF_FFFF_FFFF

  /** The characters `isspace` accepts in the C locale. */
  predicate IsSpace(c: char) { c == ' ' || '\t' <= c <= '\r' }

  /** std::min on sizes. */
  function Min(a: nat, b: nat): nat { if a <= b then a else b }

  predicate IsDigit(c: char) { '0' <= c <= '9' }

  predicate AllDigits(s: string) { forall k :: 0 <= k < |s| ==> IsDigit(s[k]) }

  /** The first index at or after i that does not hold white space. */
  function SkipSpace(s: string, i: nat): (j: nat)
    requires i <= |s|
    ensures i <= j <= |s|
    ensures forall k :: i <= k < j ==> IsSpace(s[k])
    ensures j == |s| || !IsSpace(s[j])
    decreases |s| - i
  {
    if i < |s| && IsSpace(s[i]) then SkipSpace(s, i + 1) else i
  }

  /** The end of the run of decimal digits that starts at i. */
  function DigitsEnd(s: string, i: nat): (j: nat)
    requires i <= |s|
    ensures i <= j <= |s|
    ensures forall k :: i <= k < j ==> IsDigit(s[k])
    ensures j == |s| || !IsDigit(s[j])
    decreases |s| - i
  {
    if i < |s| && IsDigit(s[i]) then DigitsEnd(s, i + 1) else i
  }

  function DigitValue(c: char): nat
    requires IsDigit(c)
  {
    c as int - '0' as int
  }

  function DigitChar(d: nat): (c: char)
    requires d < 10
    ensures IsDigit(c) && DigitValue(c) == d
  {
    ('0' as int + d) as char
  }

  /** The number a run of decimal digits denotes, most significant digit first. */
  function DecimalValue(d: string): nat
    requires AllDigits(d)
    decreases |d|
  {
    if d == [] then 0 else DecimalValue(d[..|d| - 1]) * 10 + DigitValue(d[|d| - 1])
  }

  /** The canonical decimal spelling of n, as `diff -e` writes line numbers. */
  function DecimalString(n: nat): (d: string)
    ensures |d| > 0 && AllDigits(d)
    decreases n
  {
    if n < 10 then [DigitChar(n)] else DecimalString(n / 10) + [DigitChar(n % 10)]
  }

  lemma {:induction false} DecimalRoundTrip(n: nat)
    ensures DecimalValue(DecimalString(n)) == n
    decreases n
  {
    if n >= 10 {
      var d := DecimalString(n);
      assert d[..|d| - 1] == DecimalString(n / 10);
      DecimalRoundTrip(n / 10);
    }
  }

  /** What strtoul makes of a magnitude and a sign: ULONG_MAX on overflow, otherwise the
      magnitude, negated modulo 2^64 when a minus sign preceded it. */
  function ULongOf(negative: bool, magnitude: nat): (v: nat)
    ensures v <= ULongMax
    ensures !negative && magnitude <= ULongMax ==> v == magnitude
    ensures magnitude > ULongMax ==> v == ULongMax
  {
    if magnitude > ULongMax then ULongMax
    else if negative && magnitude > 0 then ULongMax + 1 - magnitude
    else magnitude
  }

  datatype Conversion = Conversion(value: nat, end: nat)

  /** One unsigned conversion starting at index i: leading white space, an optional sign,
      then at least one digit. None when no digit follows; `end` is the index just after
      the last digit (strtoul's end pointer). */
  function ScanUnsigned(s: string, i: nat): (r: Option<Conversion>)
    requires i <= |s|
    ensures r.Some? ==> i < r.value.end <= |s| && r.value.value <= ULongMax
    ensures r.Some? ==> IsDigit(s[r.value.end - 1]) && (r.value.end == |s| || !IsDigit(s[r.value.end]))
    ensures var j := SkipSpace(s, i);
            var k := if j < |s| && (s[j] == '+' || s[j] == '-') then j + 1 else j;
            && (r.Some? <==> k < |s| && IsDigit(s[k]))
            && (r.Some? ==> k < r.value.end && AllDigits(s[k..r.value.end])
                            && r.value.value == ULongOf(k > j && s[j] == '-', DecimalValue(s[k..r.value.end])))
  {
    var j := SkipSpace(s, i);
    var signed := j < |s| && (s[j] == '+' || s[j] == '-');
    var k := if signed then j + 1 else j;
    var e := DigitsEnd(s, k);
    if e == k then None
    else Some(Conversion(ULongOf(signed && s[j] == '-', DecimalValue(s[k..e])), e))
  }

  lemma {:induction false} DigitsEndAt(s: string, i: nat, e: nat)
    requires i <= e <= |s|
    requires forall k :: i <= k < e ==> IsDigit(s[k])
    requires e == |s| || !IsDigit(s[e])
    ensures DigitsEnd(s, i) == e
    decreases e - i
  {
    if i < e {
      DigitsEndAt(s, i + 1, e);
    }
  }

  /** A canonically written number, followed by anything but a digit, converts back to itself. */
  lemma ScanDecimalString(s: string, i: nat, n: nat)
    requires n <= ULongMax
    requires i + |DecimalString(n)| <= |s| && s[i..i + |DecimalString(n)|] == DecimalString(n)
    requires i + |DecimalString(n)| == |s| || !IsDigit(s[i + |DecimalString(n)|])
    ensures ScanUnsigned(s, i) == Some(Conversion(n, i + |DecimalString(n)|))
  {
    var d := DecimalString(n);
    var e := i + |d|;
    assert s[i] == d[0];
    assert SkipSpace(s, i) == i;
    forall k | i <= k < e ensures IsDigit(s[k]) {
      assert s[k] == d[k - i];
    }
    DigitsEndAt(s, i, e);
    DecimalRoundTrip(n);
  }
}
