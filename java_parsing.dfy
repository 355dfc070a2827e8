/** `Integer.parseInt(s, 10)` and friends: locale-independent radix-10 parsing of an
    optionally signed digit string, with the value range of the target type checked
    afterwards, and `Integer.toString` as its inverse. */
module JavaParsing {
  import opened Wrappers

  /** `Character.digit(c, 10)` restricted to the ASCII digits. */
  function DigitValue(c: char): Option<nat> {
    if '0' <= c <= '9' then Some(c as int - '0' as int) else None
  }

  function DigitChar(v: nat): (c: char)
    requires v < 10
    ensures DigitValue(c) == Some(v)
  {
    ('0' as int + v) as char
  }

  /** The value of a non-empty string of digits, read left to right; None if some character is not a digit. */
  function DigitsValue(s: string): (r: Option<nat>)
    requires |s| > 0
    ensures r.Some? <==> forall i :: 0 <= i < |s| ==> DigitValue(s[i]).Some?
  {
    var last := DigitValue(s[|s| - 1]);
    if last.None? then None
    else if |s| == 1 then last
    else match DigitsValue(s[..|s| - 1])
      case None => None
      case Some(high) => Some(high * 10 + last.value)
  }

  /** `Integer.parseInt` before its range check: an optional '-' or '+' followed by at
      least one digit. None stands for NumberFormatException. */
  function ParseDecimal(s: string): Option<int> {
    if |s| == 0 then None
    else if s[0] == '-' || s[0] == '+' then
      if |s| == 1 then None
      else match DigitsValue(s[1..])
        case None => None
        case Some(v) => var n: int := v; Some(if s[0] == '-' then -n else n)
    else DigitsValue(s)
  }

  /** The decimal digits of a natural number, without leading zeros. */
  function NatDigits(n: nat): (r: string)
    ensures |r| > 0
    ensures r[0] != '0' || n == 0
    ensures forall i :: 0 <= i < |r| ==> '0' <= r[i] <= '9'
  {
    if n < 10 then [DigitChar(n)] else NatDigits(n / 10) + [DigitChar(n % 10)]
  }

  /** `Integer.toString` / `Long.toString`. */
  function ToDecimalString(n: int): string {
    if n < 0 then "-" + NatDigits(-n) else NatDigits(n)
  }

  lemma {:induction false} DigitsOfNat(n: nat)
    ensures DigitsValue(NatDigits(n)) == Some(n)
  {
    if n >= 10 {
      DigitsOfNat(n / 10);
      var s := NatDigits(n);
      assert s[..|s| - 1] == NatDigits(n / 10);
    }
  }

  /** A leading zero does not change the value: `parseInt("007")` is 7. */
  lemma {:induction false} LeadingZero(s: string)
    requires |s| > 0
    ensures DigitsValue("0" + s) == DigitsValue(s)
  {
    var z := "0" + s;
    assert z[|z| - 1] == s[|s| - 1];
    if |s| == 1 {
      assert z[..1] == "0";
    } else {
      assert z[..|z| - 1] == "0" + s[..|s| - 1];
      LeadingZero(s[..|s| - 1]);
    }
  }

  /** Any number of leading zeros does not change the value either. */
  lemma {:induction false} LeadingZeros(k: nat, s: string)
    requires |s| > 0
    ensures DigitsValue(Zeros(k) + s) == DigitsValue(s)
  {
    if k > 0 {
      LeadingZeros(k - 1, s);
      assert Zeros(k) + s == "0" + (Zeros(k - 1) + s);
      LeadingZero(Zeros(k - 1) + s);
    } else {
      assert Zeros(k) + s == s;
    }
  }

  /** `parseInt("007")` is 7 and `parseInt("-00")` is 0. */
  lemma LeadingZeroExamples()
    ensures ParseDecimal("007") == Some(7)
    ensures ParseDecimal("-00") == Some(0)
  {
    LeadingZeros(2, "7");
    assert Zeros(2) + "7" == "007";
    LeadingZero("0");
    assert "-00"[1..] == "0" + "0";
  }

  function Zeros(k: nat): (r: string)
    ensures |r| == k && forall i :: 0 <= i < k ==> r[i] == '0'
  {
    if k == 0 then "" else "0" + Zeros(k - 1)
  }

  /** Parsing what `toString` prints gives the number back. */
  lemma ParseToString(n: int)
    ensures ParseDecimal(ToDecimalString(n)) == Some(n)
  {
    if n < 0 {
      var digits := NatDigits(-n);
      DigitsOfNat(-n);
      var s := "-" + digits;
      assert s[0] == '-' && |s| > 1;
      assert s[1..] == digits;
      assert ToDecimalString(n) == s;
    } else {
      DigitsOfNat(n);
      var s := NatDigits(n);
      assert '0' <= s[0] <= '9';
      assert ToDecimalString(n) == s;
    }
  }

  /** A leading '+' changes nothing; a leading '-' negates. */
  lemma SignedParse(digits: string)
    requires |digits| > 0 && DigitValue(digits[0]).Some?
    ensures ParseDecimal("+" + digits) == ParseDecimal(digits)
    ensures ParseDecimal("-" + digits).Some? <==> ParseDecimal(digits).Some?
    ensures ParseDecimal(digits).Some? ==> ParseDecimal("-" + digits) == Some(-ParseDecimal(digits).value)
  {
    assert ("+" + digits)[1..] == digits;
    assert ("-" + digits)[1..] == digits;
  }

  /** A digit string's value lies in [0, 10^|s|). */
  lemma {:induction false} DigitsValueBound(s: string)
    requires |s| > 0 && DigitsValue(s).Some?
    ensures DigitsValue(s).value < Pow10(|s|)
  {
    if |s| > 1 {
      DigitsValueBound(s[..|s| - 1]);
    }
  }

  function Pow10(k: nat): (r: nat)
    ensures r >= 1
  {
    if k == 0 then 1 else 10 * Pow10(k - 1)
  }

  /** What `Byte.parseByte`, `Short.parseShort`, `Integer.parseInt` and `Long.parseLong`
      return: the number when it parses and lies in [lo, hi]; otherwise None, which stands
      for NumberFormatException (a null string included). */
  function ParseInRange(value: Option<string>, lo: int, hi: int): (r: Option<int>)
    ensures r.Some? <==> value.Some? && ParseDecimal(value.value).Some? && lo <= ParseDecimal(value.value).value <= hi
    ensures r.Some? ==> r == ParseDecimal(value.value)
  {
    match value
    case None => None
    case Some(s) =>
      match ParseDecimal(s)
      case None => None
      case Some(n) => if lo <= n <= hi then Some(n) else None
  }

  lemma ParseExamples()
    ensures ParseDecimal("65535") == Some(65535)
    ensures ParseDecimal("8192") == Some(8192)
    ensures ParseDecimal("-128") == Some(-128)
    ensures ParseDecimal("") == None && ParseDecimal("-") == None && ParseDecimal("1a") == None
  {
    assert DigitsValue("6") == Some(6);
    assert "65"[..1] == "6";
    assert "655"[..2] == "65";
    assert "6553"[..3] == "655";
    assert "65535"[..4] == "6553";
    assert "8"[..0] == "";
    assert "81"[..1] == "8";
    assert "819"[..2] == "81";
    assert "8192"[..3] == "819";
    assert "12"[..1] == "1";
    assert "128"[..2] == "12";
    assert "-128"[1..] == "128";
    assert "1a"[1] == 'a';
  }
}
