/** The string functions of the Java library that the program leans on,
    restricted to ASCII: `Integer.parseInt`, `String.trim`,
    `String.toLowerCase`, `String.equalsIgnoreCase`, `Boolean.parseBoolean`
    and the regular expression `0+`. */
module Text {
  import opened Wrappers

  /** Bounds of Java's 32-bit `int`. */
  const IntMin: int := -0x8000_0000
  const IntMax: int := 0x7fff_ffff

  predicate InInt32(v: int) {
    IntMin <= v <= IntMax
  }

  predicate IsDigit(c: char) {
    '0' <= c <= '9'
  }

  function DigitValue(c: char): (d: nat)
    requires IsDigit(c)
    ensures d < 10
  {
    (c as int - '0' as int)
  }

  function DigitChar(d: nat): (c: char)
    requires d < 10
    ensures IsDigit(c) && DigitValue(c) == d
  {
    ('0' as int + d) as char
  }

  predicate AllDigits(s: string) {
    forall i | 0 <= i < |s| :: IsDigit(s[i])
  }

  /** The value of a string of decimal digits, most significant first. */
  function DigitsValue(s: string): nat
    requires AllDigits(s)
  {
    if |s| == 0 then 0 else DigitsValue(s[..|s| - 1]) * 10 + DigitValue(s[|s| - 1])
  }

  /** The canonical decimal spelling of a natural number. */
  function NatToString(n: nat): string
  {
    if n < 10 then [DigitChar(n)] else NatToString(n / 10) + [DigitChar(n % 10)]
  }

  function Pow10(k: nat): (p: nat)
    ensures p >= 1
  {
    if k == 0 then 1 else 10 * Pow10(k - 1)
  }

  /** Digits written after other digits shift them left by one place each. */
  lemma {:induction false} DigitsValueAppend(a: string, b: string)
    requires AllDigits(a) && AllDigits(b)
    ensures AllDigits(a + b)
    ensures DigitsValue(a + b) == DigitsValue(a) * Pow10(|b|) + DigitsValue(b)
  {
    if |b| == 0 {
      assert a + b == a;
    } else {
      var ab := a + b;
      var front := b[..|b| - 1];
      assert ab[..|ab| - 1] == a + front;
      DigitsValueAppend(a, front);
      var x, y, d := DigitsValue(a), DigitsValue(front), DigitValue(b[|b| - 1]);
      assert DigitsValue(ab) == (x * Pow10(|front|) + y) * 10 + d;
      assert DigitsValue(b) == y * 10 + d;
      ShiftDigit(x, Pow10(|front|), y, d);
    }
  }

  /** Appending one digit to a number's spelling moves its higher part
      one place up. */
  lemma ShiftDigit(x: int, p: int, y: int, d: int)
    ensures (x * p + y) * 10 + d == x * (10 * p) + (y * 10 + d)
  {
    assert (x * p) * 10 == x * (10 * p);
  }

  function Zeros(k: nat): (z: string)
    ensures |z| == k && AllDigits(z)
  {
    seq(k, i => '0')
  }

  lemma {:induction false} ZerosValue(k: nat)
    ensures DigitsValue(Zeros(k)) == 0
  {
    if k > 0 {
      assert Zeros(k)[..k - 1] == Zeros(k - 1);
      ZerosValue(k - 1);
    }
  }

  /** The spelling of n padded on the left with zeros to at least `width`
      characters. */
  function Pad(n: nat, width: nat): string
  {
    var digits := NatToString(n);
    if |digits| < width then Zeros(width - |digits|) + digits else digits
  }

  /** A number below 10^width takes at most `width` digits. */
  lemma {:induction false} NatToStringWidth(n: nat, width: nat)
    requires 1 <= width && n < Pow10(width)
    ensures |NatToString(n)| <= width
  {
    if n >= 10 {
      NatToStringWidth(n / 10, width - 1);
    }
  }

  /** A padded number is at least `width` digits that read back as n. */
  lemma PadDigits(n: nat, width: nat)
    ensures |Pad(n, width)| >= width && |Pad(n, width)| >= 1 && AllDigits(Pad(n, width))
    ensures DigitsValue(Pad(n, width)) == n
  {
    NatToStringSpellsN(n);
    var digits := NatToString(n);
    if |digits| < width {
      var zeros := Zeros(width - |digits|);
      DigitsValueAppend(zeros, digits);
      ZerosValue(width - |digits|);
      assert DigitsValue(zeros) * Pow10(|digits|) == 0;
    }
  }

  /** A padded number below 10^width is exactly `width` digits that read back as n. */
  lemma PadSpellsN(n: nat, width: nat)
    requires 1 <= width && n < Pow10(width)
    ensures |Pad(n, width)| == width && AllDigits(Pad(n, width))
    ensures DigitsValue(Pad(n, width)) == n
  {
    PadDigits(n, width);
    NatToStringWidth(n, width);
  }

  /** The canonical decimal spelling of an integer (Java's `Integer.toString`). */
  function IntToString(n: int): string
  {
    if n < 0 then "-" + NatToString(-n) else NatToString(n)
  }

  /** NatToString spells n with digits only, without a leading zero, and reads back as n. */
  lemma {:induction false} NatToStringSpellsN(n: nat)
    ensures 0 < |NatToString(n)| && AllDigits(NatToString(n))
    ensures DigitsValue(NatToString(n)) == n
    ensures n > 0 ==> NatToString(n)[0] != '0'
    ensures n < 10 <==> |NatToString(n)| == 1
  {
    if n >= 10 {
      NatToStringSpellsN(n / 10);
      var s := NatToString(n);
      assert s[..|s| - 1] == NatToString(n / 10);
    }
  }

  /** Java's `Integer.parseInt(s)` in radix 10 on ASCII text: an optional
      sign, at least one digit, nothing else, and a value inside the 32-bit
      range; `None` stands for the `NumberFormatException`. */
  function ParseInt(s: string): (r: Option<int>)
    ensures r.Some? ==> InInt32(r.value)
    ensures |s| == 0 ==> r.None?
    ensures r.Some? ==> AllDigits(s) || ((s[0] == '-' || s[0] == '+') && AllDigits(s[1..]) && |s| >= 2)
  {
    if |s| == 0 then None
    else if s[0] == '-' || s[0] == '+' then
      if |s| == 1 || !AllDigits(s[1..]) then None
      else
        var v: int := if s[0] == '-' then 0 - DigitsValue(s[1..]) as int else DigitsValue(s[1..]);
        if InInt32(v) then Some(v) else None
    else if AllDigits(s) then
      var v := DigitsValue(s);
      if v <= IntMax then Some(v) else None
    else None
  }

  /** A non-empty digit string within range parses to its value. */
  lemma ParseIntOfDigits(s: string)
    requires 0 < |s| && AllDigits(s) && DigitsValue(s) <= IntMax
    ensures ParseInt(s) == Some(DigitsValue(s) as int)
  {
    assert IsDigit(s[0]);
  }

  /** Every 32-bit integer's canonical spelling parses back to it. */
  lemma ParseIntOfIntToString(n: int)
    requires InInt32(n)
    ensures ParseInt(IntToString(n)) == Some(n)
  {
    if n < 0 {
      NatToStringSpellsN(-n);
      assert IntToString(n)[1..] == NatToString(-n);
    } else {
      NatToStringSpellsN(n);
    }
  }

  /** Java's `String.indexOf(c, from)`: the first position at or after `from`
      holding `c`, or -1. */
  function IndexOf(s: string, c: char, from: nat): (r: int)
    ensures r == -1 || (from <= r < |s| && s[r] == c)
    ensures r == -1 ==> forall i | from <= i < |s| :: s[i] != c
    ensures r != -1 ==> forall i | from <= i < r :: s[i] != c
    decreases |s| - from
  {
    if from >= |s| then -1 else if s[from] == c then from else IndexOf(s, c, from + 1)
  }

  /** IndexOf finds the first occurrence, wherever it is. */
  lemma {:induction false} IndexOfFirst(s: string, c: char, from: nat, k: int)
    requires from <= |s|
    requires k == -1 || (from <= k < |s| && s[k] == c)
    requires forall i | from <= i < |s| && (k == -1 || i < k) :: s[i] != c
    ensures IndexOf(s, c, from) == k
    decreases |s| - from
  {
    if from < |s| && s[from] != c {
      IndexOfFirst(s, c, from + 1, k);
    }
  }

  /** The regular expression `0+` matched against the whole string. */
  predicate IsAllZeros(s: string) {
    |s| >= 1 && forall i | 0 <= i < |s| :: s[i] == '0'
  }

  /** Characters that Java's `String.trim` strips: every code point up to and
      including the space. */
  predicate IsTrimmable(c: char) {
    c <= ' '
  }

  function TrimStart(s: string): (r: string)
    ensures |r| <= |s| && r == s[|s| - |r|..]
    ensures |r| > 0 ==> !IsTrimmable(r[0])
    ensures forall i | 0 <= i < |s| - |r| :: IsTrimmable(s[i])
  {
    if |s| > 0 && IsTrimmable(s[0]) then TrimStart(s[1..]) else s
  }

  function TrimEnd(s: string): (r: string)
    ensures |r| <= |s| && r == s[..|r|]
    ensures |r| > 0 ==> !IsTrimmable(r[|r| - 1])
    ensures forall i | |r| <= i < |s| :: IsTrimmable(s[i])
  {
    if |s| > 0 && IsTrimmable(s[|s| - 1]) then TrimEnd(s[..|s| - 1]) else s
  }

  /** Java's `String.trim`: the longest slice of `s` that neither starts nor
      ends with a character at or below the space. */
  function Trim(s: string): (r: string)
    ensures |r| <= |s|
    ensures |r| > 0 ==> !IsTrimmable(r[0]) && !IsTrimmable(r[|r| - 1])
    ensures exists i | 0 <= i <= |s| - |r| :: OccursAt(s, r, i)
              && (forall j | 0 <= j < i :: IsTrimmable(s[j]))
              && (forall j | i + |r| <= j < |s| :: IsTrimmable(s[j]))
  {
    var t := TrimStart(s);
    var r := TrimEnd(t);
    var i := |s| - |t|;
    assert OccursAt(s, r, i) by {
      assert s[i..i + |r|] == t[..|r|];
    }
    assert forall j | i + |r| <= j < |s| :: IsTrimmable(s[j]) by {
      forall j | i + |r| <= j < |s| ensures IsTrimmable(s[j]) {
        assert s[j] == t[j - i];
      }
    }
    r
  }

  /** Trimming twice is trimming once. */
  lemma TrimIdempotent(s: string)
    ensures Trim(Trim(s)) == Trim(s)
  {
    var r := Trim(s);
    assert TrimStart(r) == r;
    assert TrimEnd(r) == r;
  }

  /** Java's `Character.toLowerCase` on ASCII letters. */
  function ToLowerChar(c: char): char {
    if 'A' <= c <= 'Z' then (c as int + 32) as char else c
  }

  /** Java's `String.toLowerCase` restricted to ASCII letters. */
  function ToLower(s: string): (r: string)
    ensures |r| == |s|
    ensures forall i | 0 <= i < |s| :: r[i] == ToLowerChar(s[i])
  {
    if |s| == 0 then "" else [ToLowerChar(s[0])] + ToLower(s[1..])
  }

  /** Lower-casing a string that is already lower case changes nothing. */
  lemma ToLowerIdempotent(s: string)
    ensures ToLower(ToLower(s)) == ToLower(s)
  {
    assert forall i | 0 <= i < |s| :: ToLowerChar(ToLowerChar(s[i])) == ToLowerChar(s[i]);
  }

  /** Java's `String.equalsIgnoreCase` on ASCII text. */
  predicate EqualsIgnoreCase(a: string, b: string) {
    |a| == |b| && forall i | 0 <= i < |a| :: ToLowerChar(a[i]) == ToLowerChar(b[i])
  }

  /** Java's `Boolean.parseBoolean`: true exactly for "true" in any letter case. */
  function ParseBoolean(s: string): (b: bool)
    ensures b <==> ToLower(s) == "true"
  {
    EqualsIgnoreCase(s, "true")
  }

  /** `sub` occurs in `s` starting at position `i`. */
  predicate OccursAt(s: string, sub: string, i: int) {
    0 <= i <= |s| - |sub| && s[i..i + |sub|] == sub
  }

  /** `sub` occurs as a contiguous piece of `s`. */
  predicate Contains(s: string, sub: string) {
    exists i | 0 <= i <= |s| - |sub| :: OccursAt(s, sub, i)
  }
}
