/**
 * Java's 32-bit `int` and the decimal parser `Integer.parseInt(String)`,
 * together with the printer `Integer.toString(int)` it inverts.
 */
module JavaInteger {
  import opened Wrappers
  import opened JavaString

  const MinValue: int := -0x8000_0000
  const MaxValue: int := 0x7fff_ffff

  /** Java's `int`. */
  newtype int32 = x: int | -0x8000_0000 <= x < 0x8000_0000

  predicate InInt32Range(v: int)
  {
    MinValue <= v <= MaxValue
  }

  function DigitValue(c: char): nat
    requires IsDigit(c)
  {
    c as int - '0' as int
  }

  function DigitChar(d: nat): (c: char)
    requires d < 10
    ensures IsDigit(c) && DigitValue(c) == d
  {
    ('0' as int + d) as char
  }

  /** The value of a digit string read left to right, as the parser accumulates it. */
  function DecimalValue(ds: string): nat
    requires AllDigits(ds)
  {
    if ds == [] then 0 else DecimalValue(ds[..|ds| - 1]) * 10 + DigitValue(ds[|ds| - 1])
  }

  /**
   * `Integer.parseInt(s)`: `None` where Java throws `NumberFormatException`,
   * that is for `null`, the empty string, a lone sign, any character other
   * than an ASCII digit after the optional leading `-` or `+`, and a value
   * outside the 32-bit range.
   */
  function ParseInt(s: Option<string>): (r: Option<int32>)
    ensures r.Some? ==> s.Some? && |s.value| > 0
  {
    if s.None? || s.value == [] then None
    else
      var t := s.value;
      var negative := t[0] == '-';
      var digits := if t[0] == '-' || t[0] == '+' then t[1..] else t;
      if digits == [] || !AllDigits(digits) then None
      else
        var magnitude: int := DecimalValue(digits);
        var v := if negative then -magnitude else magnitude;
        if InInt32Range(v) then Some(v as int32) else None
  }

  /** The shortest decimal spelling of a natural number (no leading zeros). */
  function NatToDecimal(n: nat): (ds: string)
    ensures |ds| > 0 && AllDigits(ds)
    ensures |ds| > 1 ==> ds[0] != '0'
  {
    if n < 10 then [DigitChar(n)] else NatToDecimal(n / 10) + [DigitChar(n % 10)]
  }

  /** `Integer.toString(v)`, stated for every mathematical integer. */
  function IntToString(v: int): string
  {
    if v < 0 then "-" + NatToDecimal(-v) else NatToDecimal(v)
  }

  lemma {:induction false} DecimalValueOfNatToDecimal(n: nat)
    ensures DecimalValue(NatToDecimal(n)) == n
  {
    var ds := NatToDecimal(n);
    if n >= 10 {
      DecimalValueOfNatToDecimal(n / 10);
      assert ds[..|ds| - 1] == NatToDecimal(n / 10);
    }
  }

  /** Parsing what `Integer.toString` prints gives back the same `int`. */
  lemma ParseIntRoundTrip(v: int32)
    ensures ParseInt(Some(IntToString(v as int))) == Some(v)
  {
    var s := IntToString(v as int);
    if v < 0 {
      DecimalValueOfNatToDecimal(-(v as int));
      assert s[1..] == NatToDecimal(-(v as int));
    } else {
      DecimalValueOfNatToDecimal(v as int);
    }
  }

  /** A well-formed decimal whose value does not fit in 32 bits is rejected. */
  lemma ParseIntOutOfRange(v: int)
    requires !InInt32Range(v)
    ensures ParseInt(Some(IntToString(v))) == None
  {
    var s := IntToString(v);
    if v < 0 {
      DecimalValueOfNatToDecimal(-v);
      assert s[1..] == NatToDecimal(-v);
    } else {
      DecimalValueOfNatToDecimal(v);
    }
  }

  /** `k` zero digits. */
  function Zeros(k: nat): (z: string)
    ensures |z| == k && AllDigits(z)
  {
    seq(k, _ => '0')
  }

  /** Zeros read as zero. */
  lemma {:induction false} ZerosValue(k: nat)
    ensures DecimalValue(Zeros(k)) == 0
  {
    if k > 0 {
      ZerosValue(k - 1);
      assert Zeros(k)[..k - 1] == Zeros(k - 1);
    }
  }

  /** Leading zeros do not change the value of a digit string. */
  lemma {:induction false} LeadingZerosValue(k: nat, ds: string)
    requires AllDigits(ds)
    ensures AllDigits(Zeros(k) + ds) && DecimalValue(Zeros(k) + ds) == DecimalValue(ds)
    decreases |ds|
  {
    var t := Zeros(k) + ds;
    assert AllDigits(t) by {
      forall i | 0 <= i < |t| ensures IsDigit(t[i]) {
        if i >= k { assert t[i] == ds[i - k]; }
      }
    }
    if ds == [] {
      assert t == Zeros(k);
      ZerosValue(k);
    } else {
      LeadingZerosValue(k, ds[..|ds| - 1]);
      assert t[..|t| - 1] == Zeros(k) + ds[..|ds| - 1];
      assert t[|t| - 1] == ds[|ds| - 1];
    }
  }

  /** A sign followed by a non-empty digit string parses to the signed value, if it fits. */
  lemma ParseIntSigned(sign: string, body: string)
    requires sign == "" || sign == "+" || sign == "-"
    requires body != [] && AllDigits(body)
    ensures var v: int := if sign == "-" then -(DecimalValue(body) as int) else DecimalValue(body);
      ParseInt(Some(sign + body)) == if InInt32Range(v) then Some(v as int32) else None
  {
    var t := sign + body;
    if sign == "" {
      assert t == body;
      assert IsDigit(t[0]);
    } else {
      assert t[0] == sign[0];
      assert t[1..] == body;
    }
  }

  /**
   * Any well-formed decimal, with an optional sign and any number of leading
   * zeros, parses to its value when that fits in 32 bits and is rejected
   * otherwise.
   */
  lemma ParseIntValue(sign: string, k: nat, n: nat)
    requires sign == "" || sign == "+" || sign == "-"
    ensures var v: int := if sign == "-" then -(n as int) else n;
      ParseInt(Some(sign + Zeros(k) + NatToDecimal(n))) == if InInt32Range(v) then Some(v as int32) else None
  {
    var ds := NatToDecimal(n);
    var body := Zeros(k) + ds;
    DecimalValueOfNatToDecimal(n);
    LeadingZerosValue(k, ds);
    ParseIntSigned(sign, body);
    assert sign + Zeros(k) + ds == sign + body;
  }

  /**
   * A character that is neither an ASCII digit nor a sign in first position
   * makes the parser fail, wherever it stands.
   */
  lemma ParseIntRejectsNonDigit(s: string, i: nat)
    requires i < |s| && !IsDigit(s[i])
    requires i > 0 || (s[0] != '-' && s[0] != '+')
    ensures ParseInt(Some(s)) == None
  {
    var digits := if s[0] == '-' || s[0] == '+' then s[1..] else s;
    if s[0] == '-' || s[0] == '+' {
      assert digits[i - 1] == s[i];
    } else {
      assert digits[i] == s[i];
    }
  }

  /** A sign followed by nothing is rejected. */
  lemma ParseIntRejectsLoneSign(c: char)
    requires c == '-' || c == '+'
    ensures ParseInt(Some([c])) == None
  {
    assert [c][1..] == [];
  }
}
