/**
 * ECMAScript's `parseInt(s)` (no radix) and `parseFloat(s)`, on exact numbers:
 * `int` for the integers `parseInt` yields and `real` (rationals) for the
 * decimals `parseFloat` yields. `None` stands for `NaN`.
 */
module JsNumbers {
  import opened Wrappers
  import Text

  function Pow10(n: nat): (r: nat)
    ensures r >= 1
  {
    if n == 0 then 1 else 10 * Pow10(n - 1)
  }

  /** The digit value ECMAScript gives an alphanumeric character (0-9, then a-z and A-Z
      as 10-35); 36 for anything else, which is a digit in no radix. */
  function DigitValue(c: char): (v: nat)
    ensures v <= 36
  {
    if '0' <= c <= '9' then c as int - '0' as int
    else if 'a' <= c <= 'z' then c as int - 'a' as int + 10
    else if 'A' <= c <= 'Z' then c as int - 'A' as int + 10
    else 36
  }

  predicate IsDigitIn(c: char, radix: nat) {
    DigitValue(c) < radix
  }

  predicate AllDigitsIn(s: string, radix: nat) {
    forall i :: 0 <= i < |s| ==> IsDigitIn(s[i], radix)
  }

  /** The longest prefix of `s` made of digits in `radix`. */
  function DigitRun(s: string, radix: nat): (r: string)
    ensures r <= s
    ensures AllDigitsIn(r, radix)
    ensures |r| == |s| || !IsDigitIn(s[|r|], radix)
  {
    if s != [] && IsDigitIn(s[0], radix) then [s[0]] + DigitRun(s[1..], radix) else []
  }

  /** A run of digits followed by a non-digit (or by nothing) is exactly the run `DigitRun` takes. */
  lemma {:induction false} DigitRunStopsAt(ds: string, rest: string, radix: nat)
    requires AllDigitsIn(ds, radix)
    requires rest == [] || !IsDigitIn(rest[0], radix)
    ensures DigitRun(ds + rest, radix) == ds
    decreases |ds|
  {
    if ds == [] {
      assert ds + rest == rest;
    } else {
      var s := ds + rest;
      assert s[0] == ds[0] && s[1..] == ds[1..] + rest;
      DigitRunStopsAt(ds[1..], rest, radix);
      assert [ds[0]] + ds[1..] == ds;
    }
  }

  /** The number a string of digits in `radix` denotes, most significant digit first. */
  function DigitsValue(ds: string, radix: nat): (v: nat)
    requires AllDigitsIn(ds, radix)
  {
    if ds == [] then 0 else DigitsValue(ds[..|ds| - 1], radix) * radix + DigitValue(ds[|ds| - 1])
  }

  /** Appending a digit multiplies the value by the radix and adds the digit. */
  lemma DigitsValueAppend(ds: string, c: char, radix: nat)
    requires AllDigitsIn(ds, radix) && IsDigitIn(c, radix)
    ensures AllDigitsIn(ds + [c], radix)
    ensures DigitsValue(ds + [c], radix) == DigitsValue(ds, radix) * radix + DigitValue(c)
  {
    var s := ds + [c];
    assert s[..|s| - 1] == ds;
  }

  /** The canonical decimal text of a natural number (what `String(n)` gives). */
  function DecimalText(n: nat): (r: string)
    ensures |r| > 0 && AllDigitsIn(r, 10)
    ensures r[0] == '0' ==> n == 0
  {
    if n < 10 then [('0' as int + n) as char]
    else DecimalText(n / 10) + [('0' as int + n % 10) as char]
  }

  /** Reading back the decimal text of `n` gives `n`. */
  lemma {:induction false} DecimalTextValue(n: nat)
    ensures DigitsValue(DecimalText(n), 10) == n
  {
    if n >= 10 {
      DecimalTextValue(n / 10);
      var t := DecimalText(n);
      assert t[..|t| - 1] == DecimalText(n / 10);
    }
  }

  /** The value of the longest run of `radix` digits at the start of `s`; `None` when
      there is no digit there. */
  function RunValue(s: string, radix: nat): Option<nat> {
    var ds := DigitRun(s, radix);
    if ds == [] then None else Some(DigitsValue(ds, radix))
  }

  /** `RunValue` of digits followed by a non-digit is the value of those digits. */
  lemma RunValueStopsAt(ds: string, rest: string, radix: nat)
    requires |ds| > 0 && AllDigitsIn(ds, radix)
    requires rest == [] || !IsDigitIn(rest[0], radix)
    ensures RunValue(ds + rest, radix) == Some(DigitsValue(ds, radix))
  {
    DigitRunStopsAt(ds, rest, radix);
  }

  /** Whether text starts with a minus sign, and the text after an optional sign. */
  function StripSign(t: string): (bool, string) {
    if |t| > 0 && (t[0] == '-' || t[0] == '+') then (t[0] == '-', t[1..]) else (false, t)
  }

  function Negate(v: Option<real>, negative: bool): Option<real> {
    match v
    case None => None
    case Some(x) => Some(if negative then -x else x)
  }

  /** `u` starts with `0x` or `0X`. */
  predicate HexPrefixed(u: string) {
    |u| >= 2 && u[0] == '0' && (u[1] == 'x' || u[1] == 'X')
  }

  /** The unsigned part of `parseInt`: a `0x`/`0X` prefix selects radix 16, otherwise radix 10. */
  function UnsignedInt(u: string): Option<nat> {
    if HexPrefixed(u) then RunValue(u[2..], 16)
    else RunValue(u, 10)
  }

  /** `parseInt` with no radix: optional white space, an optional sign, then the unsigned
      part, whose digit run must not be empty. The result is a number exactly when a
      digit of the selected radix follows the white space, the sign and the `0x` prefix,
      and it is negative only after a minus sign. */
  function ParseInt(s: string): (r: Option<int>)
    ensures var u := StripSign(Text.TrimStart(s)).1;
            r.Some? <==> if HexPrefixed(u) then |u| > 2 && IsDigitIn(u[2], 16)
                         else |u| > 0 && IsDigitIn(u[0], 10)
    ensures r.Some? && r.value < 0 ==> StripSign(Text.TrimStart(s)).0
  {
    var (negative, u) := StripSign(Text.TrimStart(s));
    match UnsignedInt(u)
    case None => None
    case Some(m) => Some(if negative then -(m as int) else m)
  }

  /** `parseInt` reads the decimal text of a natural number back as that number, whatever
      follows it, as long as that does not continue the literal. */
  lemma ParseIntOfDecimalText(n: nat, rest: string)
    requires rest == [] || (!IsDigitIn(rest[0], 10) && rest[0] != 'x' && rest[0] != 'X')
    ensures ParseInt(DecimalText(n) + rest) == Some(n)
  {
    var d := DecimalText(n);
    var s := d + rest;
    assert s[0] == d[0];
    assert !Text.IsWhiteSpace(s[0]) && s[0] != '-' && s[0] != '+';
    assert Text.TrimStart(s) == s;
    assert StripSign(s) == (false, s);
    if |d| >= 2 {
      assert s[1] == d[1];
    } else if rest != [] {
      assert s[1] == rest[0];
    }
    assert UnsignedInt(s) == RunValue(s, 10);
    RunValueStopsAt(d, rest, 10);
    DecimalTextValue(n);
  }

  /** The exponent of a decimal literal: `e`/`E`, an optional sign and at least one digit.
      Without digits there is no exponent part and the exponent is 0. */
  function Exponent(s: string): int {
    if |s| > 0 && (s[0] == 'e' || s[0] == 'E') then
      var negative := |s| > 1 && s[1] == '-';
      var v := if |s| > 1 && (s[1] == '-' || s[1] == '+') then s[2..] else s[1..];
      var ds := DigitRun(v, 10);
      if ds == [] then 0 else if negative then -(DigitsValue(ds, 10) as int) else DigitsValue(ds, 10)
    else 0
  }

  /** 10 raised to an integer power, exactly. */
  function Scale(e: int): (r: real)
    ensures r > 0.0
  {
    if e >= 0 then Pow10(e) as real else 1.0 / Pow10(-e) as real
  }

  /** The exact value of fixed-point text with integer digits `ip` and fraction digits `fp`. */
  function FixedPointValue(ip: string, fp: string): (r: real)
    requires AllDigitsIn(ip, 10) && AllDigitsIn(fp, 10)
    ensures r >= 0.0
  {
    DigitsValue(ip, 10) as real + DigitsValue(fp, 10) as real / Pow10(|fp|) as real
  }

  /** The fraction digits after a decimal point at the start of `s`, if there is a point. */
  function FractionRun(s: string): (r: string)
    ensures AllDigitsIn(r, 10)
    ensures r != [] ==> |s| > |r| && s[0] == '.' && s[1..1 + |r|] == r
  {
    if |s| > 0 && s[0] == '.' then DigitRun(s[1..], 10) else []
  }

  /** The text after the point and fraction digits, or all of `s` when there is no point. */
  function AfterFraction(s: string): string {
    if |s| > 0 && s[0] == '.' then s[1 + |FractionRun(s)|..] else s
  }

  lemma ProductNonNegative(a: real, b: real)
    requires a >= 0.0 && b > 0.0
    ensures a * b >= 0.0
  {
  }

  /** The unsigned part of `parseFloat`: the longest prefix of the form
      `digits [. digits] [exponent]` or `. digits [exponent]`, with at least one digit in
      the integer or the fraction part. */
  function UnsignedFloat(u: string): (r: Option<real>)
    ensures r.Some? ==> r.value >= 0.0
  {
    var intDigits := DigitRun(u, 10);
    var afterInt := u[|intDigits|..];
    var fracDigits := FractionRun(afterInt);
    if intDigits == [] && fracDigits == [] then None
    else
      var m := FixedPointValue(intDigits, fracDigits);
      var e := Scale(Exponent(AfterFraction(afterInt)));
      ProductNonNegative(m, e);
      Some(m * e)
  }

  /** `parseFloat`: optional white space, an optional sign, then the unsigned part. The
      result is a number exactly when that part starts with a digit, or with a point
      followed by a digit, and it is negative only after a minus sign. */
  function ParseFloat(s: string): (r: Option<real>)
    ensures var u := StripSign(Text.TrimStart(s)).1;
            r.Some? <==> |u| > 0 && (IsDigitIn(u[0], 10) || (u[0] == '.' && |u| > 1 && IsDigitIn(u[1], 10)))
    ensures r.Some? && r.value < 0.0 ==> StripSign(Text.TrimStart(s)).0
  {
    var (negative, u) := StripSign(Text.TrimStart(s));
    Negate(UnsignedFloat(u), negative)
  }

  /** Text that starts with a digit has no white space or sign to skip: `parseFloat`
      reads its unsigned part directly. */
  lemma ParseFloatOfDigitStart(s: string)
    requires |s| > 0 && IsDigitIn(s[0], 10)
    ensures ParseFloat(s) == UnsignedFloat(s)
  {
    assert !Text.IsWhiteSpace(s[0]) && s[0] != '-' && s[0] != '+';
    assert Text.TrimStart(s) == s;
  }

  /** After the integer digits, a point and fraction digits followed by nothing or a space
      give exactly those fraction digits and leave the rest. */
  lemma FractionOfPointText(fp: string, rest: string)
    requires AllDigitsIn(fp, 10)
    requires rest == [] || rest[0] == ' '
    ensures FractionRun("." + fp + rest) == fp
    ensures AfterFraction("." + fp + rest) == rest
  {
    var tail := "." + fp + rest;
    assert tail[0] == '.' && tail[1..] == fp + rest;
    DigitRunStopsAt(fp, rest, 10);
    assert tail[1 + |fp|..] == rest;
  }

  /** The unsigned part of text whose integer digits, fraction digits and exponent are
      known and whose exponent is 0 is the fixed-point value of those digits. */
  lemma UnsignedFloatOfParts(u: string, ip: string, fp: string)
    requires DigitRun(u, 10) == ip && ip != []
    requires FractionRun(u[|ip|..]) == fp
    requires Exponent(AfterFraction(u[|ip|..])) == 0
    ensures UnsignedFloat(u) == Some(FixedPointValue(ip, fp))
  {
    var v := FixedPointValue(ip, fp);
    assert v * Scale(0) == v;
  }

  /** The unsigned part of fixed-point text `I.F` (followed by nothing or by a space) is the
      exact decimal I + F / 10^|F|. */
  lemma UnsignedFloatFixedPoint(ip: string, fp: string, rest: string)
    requires |ip| > 0 && AllDigitsIn(ip, 10) && AllDigitsIn(fp, 10)
    requires rest == [] || rest[0] == ' '
    ensures UnsignedFloat(ip + "." + fp + rest) == Some(FixedPointValue(ip, fp))
  {
    var tail := "." + fp + rest;
    var s := ip + tail;
    assert ip + "." + fp + rest == s;
    assert tail[0] == '.';
    DigitRunStopsAt(ip, tail, 10);
    assert s[|ip|..] == tail;
    FractionOfPointText(fp, rest);
    NothingAfterDigits(rest);
    UnsignedFloatOfParts(s, ip, fp);
  }

  /** `parseFloat` reads fixed-point text `I.F` (followed by nothing or by a space) as the
      exact decimal I + F / 10^|F|. */
  lemma ParseFloatFixedPoint(ip: string, fp: string, rest: string)
    requires |ip| > 0 && AllDigitsIn(ip, 10) && AllDigitsIn(fp, 10)
    requires rest == [] || rest[0] == ' '
    ensures ParseFloat(ip + "." + fp + rest) == Some(FixedPointValue(ip, fp))
  {
    var s := ip + "." + fp + rest;
    assert s[0] == ip[0];
    ParseFloatOfDigitStart(s);
    UnsignedFloatFixedPoint(ip, fp, rest);
  }

  /** The unsigned part of a digit string followed by nothing or by a space is the value
      of those digits. */
  lemma UnsignedFloatOfDigits(ds: string, rest: string)
    requires |ds| > 0 && AllDigitsIn(ds, 10)
    requires rest == [] || rest[0] == ' '
    ensures UnsignedFloat(ds + rest) == Some(DigitsValue(ds, 10) as real)
  {
    var s := ds + rest;
    DigitRunStopsAt(ds, rest, 10);
    assert s[|ds|..] == rest;
    NothingAfterDigits(rest);
    UnsignedFloatOfParts(s, ds, []);
    FixedPointOfInteger(ds);
  }

  /** Nothing, or text starting with a space, has no fraction and no exponent. */
  lemma NothingAfterDigits(rest: string)
    requires rest == [] || rest[0] == ' '
    ensures FractionRun(rest) == [] && AfterFraction(rest) == rest && Exponent(rest) == 0
  {
  }

  /** Without fraction digits the fixed-point value is the integer's. */
  lemma FixedPointOfInteger(ds: string)
    requires AllDigitsIn(ds, 10)
    ensures FixedPointValue(ds, []) == DigitsValue(ds, 10) as real
  {
    assert DigitsValue([], 10) == 0 && Pow10(0) == 1;
  }

  /** `parseFloat` reads the decimal text of a natural number (followed by nothing or by a
      space) as that number ... */
  lemma ParseFloatOfDecimalTextAlone(n: nat, rest: string)
    requires rest == [] || rest[0] == ' '
    ensures ParseFloat(DecimalText(n) + rest) == Some(n as real)
  {
    var d := DecimalText(n);
    var s := d + rest;
    assert s[0] == d[0];
    ParseFloatOfDigitStart(s);
    UnsignedFloatOfDigits(d, rest);
    DecimalTextValue(n);
  }

  /** ... so it agrees with `parseInt` there. */
  lemma ParseFloatOfDecimalText(n: nat, rest: string)
    requires rest == [] || rest[0] == ' '
    ensures ParseFloat(DecimalText(n) + rest) == Some(n as real)
    ensures ParseInt(DecimalText(n) + rest) == Some(n)
  {
    ParseFloatOfDecimalTextAlone(n, rest);
    ParseIntOfDecimalText(n, rest);
  }
}
