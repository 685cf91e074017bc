/** `parseInt(string)` with no radix argument, on exact integers. */
module JsNumber {
  import opened Wrappers
  import opened JsString

  /** The value of `c` as a digit in base `radix` (10 or 16), if it is one:
      `0`-`9` in both bases, and `a`-`f` or `A`-`F` for ten to fifteen in
      base 16. */
  function DigitValue(c: char, radix: nat): (d: Option<nat>)
    requires radix == 10 || radix == 16
    ensures d.None? <==> !('0' <= c <= '9' || (radix == 16 && ('a' <= c <= 'f' || 'A' <= c <= 'F')))
    ensures d.Some? ==> d.value < radix
    ensures '0' <= c <= '9' ==> d == Some(c as nat - '0' as nat)
    ensures radix == 16 && 'a' <= c <= 'f' ==> d == Some(c as nat - 'a' as nat + 10)
    ensures radix == 16 && 'A' <= c <= 'F' ==> d == Some(c as nat - 'A' as nat + 10)
  {
    if '0' <= c <= '9' then Some(c as nat - '0' as nat)
    else if radix == 16 && 'a' <= c <= 'f' then Some(c as nat - 'a' as nat + 10)
    else if radix == 16 && 'A' <= c <= 'F' then Some(c as nat - 'A' as nat + 10)
    else None
  }

  /** The longest prefix of `s` made of digits of base `radix`. */
  function DigitPrefix(s: string, radix: nat): (p: string)
    requires radix == 10 || radix == 16
    ensures |p| <= |s| && p == s[..|p|]
    ensures forall i :: 0 <= i < |p| ==> DigitValue(p[i], radix).Some?
    ensures |p| < |s| ==> DigitValue(s[|p|], radix).None?
  {
    if s != [] && DigitValue(s[0], radix).Some? then [s[0]] + DigitPrefix(s[1..], radix) else []
  }

  /** `b` raised to the power `e`. */
  function Pow(b: nat, e: nat): (p: nat)
    ensures b >= 1 ==> p >= 1
  {
    if e == 0 then 1 else b * Pow(b, e - 1)
  }

  /** The number a string of base-`radix` digits denotes, most significant
      first: below `radix` to the power of the number of digits. */
  function Value(ds: string, radix: nat): (v: nat)
    requires radix == 10 || radix == 16
    requires forall i :: 0 <= i < |ds| ==> DigitValue(ds[i], radix).Some?
    ensures v < Pow(radix, |ds|)
  {
    if ds == [] then 0
    else
      var init := Value(ds[..|ds| - 1], radix);
      var last := DigitValue(ds[|ds| - 1], radix).value;
      assert init * radix + last < Pow(radix, |ds|) by {
        assert init + 1 <= Pow(radix, |ds| - 1);
        assert (init + 1) * radix <= Pow(radix, |ds| - 1) * radix;
      }
      init * radix + last
  }

  /** `u` starts with `0x` or `0X`, which switches `parseInt` to base 16. */
  predicate HexPrefix(u: string)
  {
    |u| >= 2 && u[0] == '0' && (u[1] == 'x' || u[1] == 'X')
  }

  /** No digit where `parseInt` starts reading a magnitude: at the start of
      `u` in base 10, or just after a `0x` or `0X` prefix in base 16. */
  predicate NoDigitFirst(u: string)
  {
    if HexPrefix(u) then |u| == 2 || DigitValue(u[2], 16).None?
    else u == [] || DigitValue(u[0], 10).None?
  }

  /** The magnitude `parseInt` reads after the sign: base 16 after a `0x` or
      `0X` prefix, base 10 otherwise. It is `None` exactly when no digit of
      that base comes first. */
  function ParseMagnitude(u: string): (r: Option<nat>)
    ensures r.None? <==> NoDigitFirst(u)
  {
    if HexPrefix(u) then
      var ds := DigitPrefix(u[2..], 16);
      if ds == [] then None else Some(Value(ds, 16))
    else
      var ds := DigitPrefix(u, 10);
      if ds == [] then None else Some(Value(ds, 10))
  }

  /** What follows a leading `-` or `+`, if there is one. */
  function Unsigned(t: string): (u: string)
    ensures t != [] && (t[0] == '-' || t[0] == '+') ==> u == t[1..]
    ensures !(t != [] && (t[0] == '-' || t[0] == '+')) ==> u == t
  {
    if t != [] && (t[0] == '-' || t[0] == '+') then t[1..] else t
  }

  /** What `parseInt` reads from text with no leading whitespace: an optional
      sign, then the magnitude. */
  function ParseSignedMagnitude(t: string): (r: Option<int>)
    ensures r.None? <==> NoDigitFirst(Unsigned(t))
    ensures r.Some? && r.value < 0 ==> t[0] == '-'
  {
    match ParseMagnitude(Unsigned(t))
    case None => None
    case Some(m) => Some(if t[0] == '-' then -(m as int) else m)
  }

  /** `parseInt(s)`: skip leading whitespace, read an optional sign, then the
      magnitude. `None` is NaN, which it is exactly when no digit follows the
      whitespace and the sign. A number is negative only after a `-`. */
  function ParseInt(s: string): (r: Option<int>)
    ensures r.None? <==> NoDigitFirst(Unsigned(TrimStart(s)))
    ensures r.Some? && r.value < 0 ==> TrimStart(s)[0] == '-'
  {
    ParseSignedMagnitude(TrimStart(s))
  }

  /** The decimal digit for `d`. */
  function Digit(d: nat): (c: char)
    requires d < 10
    ensures DigitValue(c, 10) == Some(d)
  {
    ('0' as nat + d) as char
  }

  /** The decimal numeral of `n`, as `String(n)` writes it. */
  function Decimal(n: nat): (s: string)
    ensures s != []
    ensures forall i :: 0 <= i < |s| ==> '0' <= s[i] <= '9'
  {
    if n < 10 then [Digit(n)] else Decimal(n / 10) + [Digit(n % 10)]
  }

  /** The numeral of an integer, with a leading `-` when it is negative. */
  function Numeral(i: int): (s: string)
    ensures s != [] && !IsWhitespace(s[0])
  {
    if i < 0 then "-" + Decimal(-i) else Decimal(i)
  }

  lemma {:induction false} ValueOfDecimal(n: nat)
    ensures Value(Decimal(n), 10) == n
  {
    if n >= 10 {
      var s := Decimal(n);
      assert s[..|s| - 1] == Decimal(n / 10);
      ValueOfDecimal(n / 10);
    }
  }

  /** Digits followed by something that is not a digit: exactly the digits
      are read. */
  lemma {:induction false} DigitPrefixOfDigits(ds: string, rest: string, radix: nat)
    requires radix == 10 || radix == 16
    requires forall i :: 0 <= i < |ds| ==> DigitValue(ds[i], radix).Some?
    requires rest == [] || DigitValue(rest[0], radix).None?
    ensures DigitPrefix(ds + rest, radix) == ds
  {
    if ds == [] {
      assert ds + rest == rest;
    } else {
      assert (ds + rest)[1..] == ds[1..] + rest;
      DigitPrefixOfDigits(ds[1..], rest, radix);
    }
  }

  /** Without a `0x` prefix, the magnitude is the value of the decimal digits
      that come first, whatever follows them. */
  lemma ParseMagnitudeDecimal(ds: string, rest: string)
    requires ds != [] && forall i :: 0 <= i < |ds| ==> '0' <= ds[i] <= '9'
    requires rest == [] || DigitValue(rest[0], 10).None?
    requires !HexPrefix(ds + rest)
    ensures ParseMagnitude(ds + rest) == Some(Value(ds, 10))
  {
    DigitPrefixOfDigits(ds, rest, 10);
  }

  /** After `0x` or `0X`, the magnitude is the value of the hexadecimal digits
      that come next, whatever follows them. */
  lemma ParseMagnitudeHex(x: char, ds: string, rest: string)
    requires x == 'x' || x == 'X'
    requires ds != [] && forall i :: 0 <= i < |ds| ==> DigitValue(ds[i], 16).Some?
    requires rest == [] || DigitValue(rest[0], 16).None?
    ensures ParseMagnitude(['0', x] + (ds + rest)) == Some(Value(ds, 16))
  {
    var body := ds + rest;
    var u := ['0', x] + body;
    assert HexPrefix(u);
    assert u[2..] == body;
    DigitPrefixOfDigits(ds, rest, 16);
  }

  /** Leading whitespace does not change what `parseInt` reads. */
  lemma ParseSkipsWhitespace(w: string, t: string)
    requires forall j :: 0 <= j < |w| ==> IsWhitespace(w[j])
    requires t == [] || !IsWhitespace(t[0])
    ensures ParseInt(w + t) == ParseInt(t)
  {
    TrimStartAfterWhitespace(w, t);
    assert TrimStart(t) == t;
  }

  /** Text that starts with a sign or a digit and has magnitude `m` after the
      sign is read as `m`, negated after a `-`. */
  lemma ParseSigned(t: string, m: nat)
    requires t != [] && (t[0] == '-' || t[0] == '+' || '0' <= t[0] <= '9')
    requires ParseMagnitude(Unsigned(t)) == Some(m)
    ensures ParseInt(t) == Some(if t[0] == '-' then -(m as int) else m as int)
  {
    assert TrimStart(t) == t;
  }

  /** A numeral followed by `rest` starts with `-` exactly when the integer
      is negative, and past that sign holds the decimal digits of its
      magnitude followed by `rest`. */
  lemma NumeralSign(i: int, rest: string)
    ensures var t := Numeral(i) + rest;
            t != [] && (t[0] == '-' <==> i < 0) && (t[0] == '-' || '0' <= t[0] <= '9')
            && Unsigned(t) == Decimal(if i < 0 then -i else i) + rest
  {
    var t := Numeral(i) + rest;
    var d := Decimal(if i < 0 then -i else i);
    if i < 0 {
      assert t[0] == '-' && t[1..] == d + rest;
    } else {
      assert t == d + rest && t[0] == d[0];
    }
  }

  /** Decimal digits followed by text that does not start with `x` or `X`
      carry no `0x` prefix. */
  lemma DigitsThenNoX(ds: string, rest: string)
    requires ds != [] && forall i :: 0 <= i < |ds| ==> '0' <= ds[i] <= '9'
    requires rest == [] || (rest[0] != 'x' && rest[0] != 'X')
    ensures !HexPrefix(ds + rest)
  {
    if |ds| >= 2 {
      assert (ds + rest)[1] == ds[1];
    } else if rest != [] {
      assert (ds + rest)[1] == rest[0];
    }
  }

  /** `parseInt` reads an integer's numeral back after any leading whitespace
      and before any text that starts with neither a decimal digit nor `x` or
      `X` (`"16.5"` reads as 16, `" 42 years"` as 42). */
  lemma ParseIntReads(w: string, i: int, rest: string)
    requires forall j :: 0 <= j < |w| ==> IsWhitespace(w[j])
    requires rest == [] || (!('0' <= rest[0] <= '9') && rest[0] != 'x' && rest[0] != 'X')
    ensures ParseInt(w + Numeral(i) + rest) == Some(i)
  {
    var n: nat := if i < 0 then -i else i;
    var d := Decimal(n);
    var t := Numeral(i) + rest;
    assert w + Numeral(i) + rest == w + t;
    ParseSkipsWhitespace(w, t);
    NumeralSign(i, rest);
    assert (d + rest)[0] == d[0];
    DigitsThenNoX(d, rest);
    ParseMagnitudeDecimal(d, rest);
    ValueOfDecimal(n);
    ParseSigned(t, n);
  }

  /** `parseInt` reads back every integer written as a decimal numeral. */
  lemma ParseNumeral(i: int)
    ensures ParseInt(Numeral(i)) == Some(i)
  {
    ParseIntReads("", i, "");
    assert "" + Numeral(i) + "" == Numeral(i);
  }

  /** A sign before a hexadecimal numeral applies to it: `"-0x1A"` is -26. */
  lemma ParseNegativeHex()
    ensures ParseInt("-0x1A") == Some(-26)
  {
    var ds := "1A";
    ParseMagnitudeHex('x', ds, "");
    assert Value(ds[..1], 16) == 1;
    assert ['0', 'x'] + (ds + "") == "0x1A";
    assert TrimStart("-0x1A") == "-0x1A";
    assert "-0x1A"[1..] == "0x1A";
  }

  /** A leading `+` is dropped like a `-` but keeps the sign: `"+5"` is 5. */
  lemma ParsePlus()
    ensures ParseInt("+5") == Some(5)
  {
    ParseMagnitudeDecimal("5", "");
    assert "5" + "" == "5";
    ParseSigned("+5", 5);
  }

  /** A digit other than `0` followed by `x` is no `0x` prefix: `"5x"` is 5. */
  lemma ParseDigitThenX()
    ensures ParseInt("5x") == Some(5)
  {
    ParseMagnitudeDecimal("5", "x");
    ParseSigned("5x", 5);
  }

  /** What a number input yields for an empty or blank field: NaN. */
  lemma ParseBlank(s: string)
    requires forall i :: 0 <= i < |s| ==> IsWhitespace(s[i])
    ensures ParseInt(s) == None
  {
    assert TrimStart(s) == [];
  }
}
