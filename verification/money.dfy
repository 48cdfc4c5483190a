/** Monetary amounts (`total_fee_gbp`, `paid_to_date_gbp`) as the program
    reads them with `new BigDecimal(String)`. */
module Money {
  import opened Wrappers
  import opened Text

  /** A decimal number: `unscaled` divided by 10 to the power `scale`, as
      `BigDecimal` keeps it. */
  datatype Decimal = Decimal(unscaled: int, scale: nat)

  /** `new BigDecimal(s)` on plain decimal text: an optional sign, digits,
      an optional point with more digits, and at least one digit in all.
      The scale is the number of digits after the point. `None` is the
      `NumberFormatException`. */
  function ParseDecimal(s: string): (r: Option<Decimal>)
    ensures r.Some? ==> 0 < |s| && r.value.scale < |s|
    ensures r.Some? && r.value.unscaled < 0 ==> s[0] == '-'
    ensures |s| > 0 && !IsDigit(s[0]) && s[0] !in "+-." ==> r.None?
  {
    var negative := |s| > 0 && s[0] == '-';
    var body := if |s| > 0 && (s[0] == '-' || s[0] == '+') then s[1..] else s;
    var u := ParseUnsigned(body);
    if u.None? then None
    else Some(Decimal(if negative then 0 - u.value.unscaled else u.value.unscaled, u.value.scale))
  }

  /** The unsigned part: digits, an optional point with more digits, and at
      least one digit in all. */
  function ParseUnsigned(body: string): (r: Option<Decimal>)
    ensures r.Some? ==> 0 < |body| && r.value.scale < |body| && r.value.unscaled >= 0
    ensures |body| > 0 && !IsDigit(body[0]) && body[0] != '.' ==> r.None?
  {
    var dot := IndexOf(body, '.', 0);
    var whole := if dot == -1 then body else body[..dot];
    var fraction := if dot == -1 then "" else body[dot + 1..];
    if AllDigits(whole) && AllDigits(fraction) && |whole| + |fraction| >= 1 then
      DigitsValueAppend(whole, fraction);
      Some(Decimal(DigitsValue(whole + fraction), |fraction|))
    else None
  }

  function Magnitude(d: Decimal): nat {
    if d.unscaled < 0 then -d.unscaled else d.unscaled
  }

  /** The unsigned digits of a decimal with the point placed `scale` digits
      from the right, padded so that at least one digit precedes the point. */
  function UnsignedText(d: Decimal): string
  {
    PadDigits(Magnitude(d), d.scale + 1);
    WithPoint(Pad(Magnitude(d), d.scale + 1), d.scale)
  }

  /** `BigDecimal.toPlainString`: a minus sign for negative values, then the
      unsigned digits with their point. */
  function FormatDecimal(d: Decimal): string
  {
    (if d.unscaled < 0 then "-" else "") + UnsignedText(d)
  }

  /** Digits without a point read back as their value at scale 0. */
  lemma {:induction false} ParseUnpointedDigits(digits: string)
    requires AllDigits(digits) && |digits| > 0
    ensures ParseUnsigned(digits) == Some(Decimal(DigitsValue(digits), 0))
  {
    assert forall i | 0 <= i < |digits| :: digits[i] != '.' by {
      forall i | 0 <= i < |digits| ensures digits[i] != '.' {
        assert IsDigit(digits[i]);
      }
    }
    IndexOfFirst(digits, '.', 0, -1);
    assert digits + "" == digits;
  }

  /** Digits with a point placed `scale` digits from the right read back
      as their value at that scale. */
  lemma {:induction false} ParsePointedDigits(digits: string, scale: nat)
    requires AllDigits(digits) && 0 < scale < |digits|
    ensures ParseUnsigned(WithPoint(digits, scale)) == Some(Decimal(DigitsValue(digits), scale))
  {
    var k := |digits| - scale;
    var whole, fraction := digits[..k], digits[k..];
    var body := whole + "." + fraction;
    assert forall i | 0 <= i < k :: body[i] == digits[i] && body[i] != '.' by {
      forall i | 0 <= i < k ensures body[i] == digits[i] && body[i] != '.' {
        assert IsDigit(digits[i]);
      }
    }
    assert body[k] == '.';
    IndexOfFirst(body, '.', 0, k);
    assert body[..k] == whole;
    assert body[k + 1..] == fraction;
    assert whole + fraction == digits;
    assert ParseUnsigned(body).value.scale == scale;
    assert ParseUnsigned(body).value.unscaled == DigitsValue(digits);
  }

  /** Digits with a point inserted `scale` places from the right. */
  function WithPoint(digits: string, scale: nat): string
    requires scale < |digits|
  {
    if scale == 0 then digits
    else digits[..|digits| - scale] + "." + digits[|digits| - scale..]
  }

  /** A leading minus negates what the unsigned part reads as. */
  lemma {:induction false} ParseSigned(body: string, magnitude: nat, scale: nat)
    requires ParseUnsigned(body) == Some(Decimal(magnitude, scale))
    ensures ParseDecimal("-" + body) == Some(Decimal(0 - magnitude, scale))
  {
    var s := "-" + body;
    assert s[0] == '-' && s[1..] == body;
    assert ParseUnsigned(s[1..]) == Some(Decimal(magnitude, scale));
  }

  /** Text that starts with a digit reads as its unsigned part. */
  lemma {:induction false} ParseUnsignedFirst(body: string)
    requires 0 < |body| && IsDigit(body[0])
    ensures ParseDecimal(body) == ParseUnsigned(body)
  {
  }

  /** The unsigned text of a decimal starts with a digit and reads back as
      its magnitude at its scale. */
  lemma {:induction false} UnsignedTextReadsBack(d: Decimal)
    ensures ParseUnsigned(UnsignedText(d)) == Some(Decimal(Magnitude(d), d.scale))
    ensures 0 < |UnsignedText(d)| && IsDigit(UnsignedText(d)[0])
  {
    var digits := Pad(Magnitude(d), d.scale + 1);
    PadDigits(Magnitude(d), d.scale + 1);
    if d.scale == 0 {
      ParseUnpointedDigits(digits);
    } else {
      ParsePointedDigits(digits, d.scale);
    }
    assert UnsignedText(d)[0] == digits[0];
  }

  /** A negative decimal reads back from its minus sign and unsigned text. */
  lemma {:induction false} NegativeReadsBack(d: Decimal, t: string)
    requires d.unscaled < 0 && ParseUnsigned(t) == Some(Decimal(Magnitude(d), d.scale))
    ensures ParseDecimal("-" + t) == Some(d)
  {
    ParseSigned(t, Magnitude(d), d.scale);
  }

  /** A decimal that is not negative reads back from its unsigned text. */
  lemma {:induction false} NonNegativeReadsBack(d: Decimal, t: string)
    requires d.unscaled >= 0 && ParseUnsigned(t) == Some(Decimal(Magnitude(d), d.scale))
    requires 0 < |t| && IsDigit(t[0])
    ensures ParseDecimal(t) == Some(d)
  {
    ParseUnsignedFirst(t);
  }

  /** Every decimal reads back from its own plain text. */
  lemma {:induction false} ParseFormattedDecimal(d: Decimal)
    ensures ParseDecimal(FormatDecimal(d)) == Some(d)
  {
    var t := UnsignedText(d);
    UnsignedTextReadsBack(d);
    if d.unscaled < 0 {
      NegativeReadsBack(d, t);
      assert FormatDecimal(d) == "-" + t;
    } else {
      NonNegativeReadsBack(d, t);
      assert FormatDecimal(d) == t by {
        assert "" + t == t;
      }
    }
  }
}
