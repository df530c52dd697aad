/** Python's `int(s)` on a string in base 10, and `str(n)` for integers.
    `int` accepts surrounding whitespace, one optional sign and at least one
    ASCII digit; leading zeros are allowed. Since Python 3.11 a conversion
    between `str` and `int` refuses more than 4300 decimal digits. */
module PyInt {
  import opened Results
  import opened Text

  predicate IsDigit(c: char) {
    '0' <= c <= '9'
  }

  predicate AllDigits(s: string) {
    forall i :: 0 <= i < |s| ==> IsDigit(s[i])
  }

  /** Value of a run of decimal digits, most significant first. */
  function DigitsValue(s: string): nat
    requires AllDigits(s)
  {
    if |s| == 0 then 0
    else DigitsValue(s[..|s| - 1]) * 10 + (s[|s| - 1] as int - '0' as int)
  }

  function ParseUnsigned(s: string): Option<nat> {
    if |s| > 0 && AllDigits(s) then Some(DigitsValue(s)) else None
  }

  /** The default of `sys.get_int_max_str_digits()`: the most digits `int(s)`
      reads and `str(n)` writes, leading zeros counted. */
  const MaxStrDigits: nat := 4300

  /** `int(s)`: `None` stands for the ValueError Python raises, including the
      one for a digit string over the limit. */
  function ParseInt(s: string): Option<int> {
    var t := Strip(s);
    var signed := |t| > 0 && (t[0] == '-' || t[0] == '+');
    var digits := if signed then t[1..] else t;
    if |digits| > MaxStrDigits then None
    else match ParseUnsigned(digits)
      case None => None
      case Some(n) => Some(if signed && t[0] == '-' then -(n as int) else n as int)
  }

  function DigitChar(d: nat): (c: char)
    requires d < 10
  {
    ('0' as int + d) as char
  }

  /** `str(n)` for a natural number. */
  function NatDigits(n: nat): (s: string)
    ensures |s| > 0 && AllDigits(s)
  {
    if n < 10 then [DigitChar(n)] else NatDigits(n / 10) + [DigitChar(n % 10)]
  }

  /** `str(i)` for an integer. */
  function Show(i: int): string {
    if i < 0 then "-" + NatDigits(-i) else NatDigits(i)
  }

  lemma {:induction false} DigitsRoundTrip(n: nat)
    ensures DigitsValue(NatDigits(n)) == n
  {
    if n >= 10 {
      var s := NatDigits(n);
      assert s[..|s| - 1] == NatDigits(n / 10);
      DigitsRoundTrip(n / 10);
    }
  }

  /** The number of decimal digits of `i`, without its sign. */
  function DigitCount(i: int): nat {
    |NatDigits(if i < 0 then -i else i)|
  }

  /** Parsing the decimal rendering of an integer within the digit limit gives
      that integer back, with or without surrounding whitespace. */
  lemma ParseShow(i: int, pad: string)
    requires DigitCount(i) <= MaxStrDigits
    requires forall k :: 0 <= k < |pad| ==> IsSpace(pad[k])
    ensures ParseInt(Show(i)) == Some(i)
    ensures ParseInt(pad + Show(i) + pad) == Some(i)
  {
    var s := Show(i);
    assert !IsSpace(s[0]) && !IsSpace(s[|s| - 1]);
    StripIdentity(s);
    StripPadded(pad, s);
    ParseStripped(i, s);
    ParseStripped(i, pad + s + pad);
  }

  lemma ParseStripped(i: int, s: string)
    requires DigitCount(i) <= MaxStrDigits
    requires Strip(s) == Show(i)
    ensures ParseInt(s) == Some(i)
  {
    var t := Strip(s);
    if i < 0 {
      DigitsRoundTrip(-i);
      assert t[0] == '-';
      assert t[1..] == NatDigits(-i);
      assert ParseUnsigned(t[1..]) == Some(-i);
    } else {
      DigitsRoundTrip(i);
      assert t == NatDigits(i);
      assert IsDigit(t[0]);
      assert ParseUnsigned(t) == Some(i);
    }
  }

  lemma {:induction false} TrimLeftPadded(pad: string, s: string)
    requires forall k :: 0 <= k < |pad| ==> IsSpace(pad[k])
    requires |s| > 0 && !IsSpace(s[0])
    ensures TrimLeft(pad + s) == s
  {
    if |pad| == 0 {
      assert pad + s == s;
    } else {
      assert (pad + s)[1..] == pad[1..] + s;
      TrimLeftPadded(pad[1..], s);
    }
  }

  lemma {:induction false} TrimRightPadded(s: string, pad: string)
    requires forall k :: 0 <= k < |pad| ==> IsSpace(pad[k])
    requires |s| > 0 && !IsSpace(s[|s| - 1])
    ensures TrimRight(s + pad) == s
  {
    if |pad| == 0 {
      assert s + pad == s;
    } else {
      assert (s + pad)[..|s + pad| - 1] == s + pad[..|pad| - 1];
      TrimRightPadded(s, pad[..|pad| - 1]);
    }
  }

  lemma StripPadded(pad: string, s: string)
    requires forall k :: 0 <= k < |pad| ==> IsSpace(pad[k])
    requires |s| > 0 && !IsSpace(s[0]) && !IsSpace(s[|s| - 1])
    ensures Strip(pad + s + pad) == s
  {
    assert pad + s + pad == pad + (s + pad);
    TrimLeftPadded(pad, s + pad);
    TrimRightPadded(s, pad);
  }

  /** Blank text raises ValueError. */
  lemma ParseIntRejectsBlank(s: string)
    requires forall k :: 0 <= k < |s| ==> IsSpace(s[k])
    ensures ParseInt(s) == None
  {
    StripEmpty(s);
  }

  /** Text holding anything but digits after the optional sign raises
      ValueError ("not-a-number", "7/10", "8.5", "- 3"). */
  lemma ParseIntRejectsNonDigit(s: string, k: nat)
    requires k < |Strip(s)| && !IsDigit(Strip(s)[k])
    requires k == 0 ==> Strip(s)[0] != '-' && Strip(s)[0] != '+'
    ensures ParseInt(s) == None
  {
    var t := Strip(s);
    if |t| > 0 && (t[0] == '-' || t[0] == '+') {
      assert t[1..][k - 1] == t[k];
    }
  }

  /** A digit string longer than the limit raises ValueError even though every
      character is a digit. */
  lemma ParseIntRejectsLong(s: string)
    requires |Strip(s)| > MaxStrDigits && AllDigits(Strip(s))
    ensures ParseInt(s) == None
  {
    var t := Strip(s);
    assert IsDigit(t[0]);
  }
}
