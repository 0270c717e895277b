/** JavaScript strings as the handler sees them: sequences of UTF-16 code
    units, with the two built-ins it applies to them, reversal by
    `split("").reverse().join("")` and `parseInt` without a radix. */
module JsText {
  import opened Wrappers

  /** One UTF-16 code unit, the element of a JavaScript string. */
  type CodeUnit = u: int | 0 <= u < 0x1_0000

  type JsString = seq<CodeUnit>

  // ---------------------------------------------------------------------
  // Reversal: `text.split("")` yields one element per code unit, so the
  // result of `.reverse().join("")` is the code-unit sequence backwards.
  // ---------------------------------------------------------------------

  function Reverse(s: JsString): (r: JsString)
    ensures |r| == |s|
  {
    if s == [] then [] else [s[|s| - 1]] + Reverse(s[..|s| - 1])
  }

  /** Position `i` of the reversal holds the code unit mirrored about the
      middle of the input. */
  lemma {:induction false} ReverseMirrors(s: JsString, i: int)
    requires 0 <= i < |s|
    ensures Reverse(s)[i] == s[|s| - 1 - i]
  {
    if i > 0 {
      ReverseMirrors(s[..|s| - 1], i - 1);
    }
  }

  /** Reversing twice gives back the original string. */
  lemma ReverseInvolutive(s: JsString)
    ensures Reverse(Reverse(s)) == s
  {
    var r := Reverse(s);
    forall i | 0 <= i < |s|
      ensures Reverse(r)[i] == s[i]
    {
      ReverseMirrors(r, i);
      ReverseMirrors(s, |s| - 1 - i);
    }
  }

  // ---------------------------------------------------------------------
  // parseInt without a radix: an optional sign; then a `0x` or `0X` prefix
  // selects hexadecimal, otherwise the radix is ten; then the longest run
  // of digits of that radix. No digit at all gives NaN, modelled as None.
  // ---------------------------------------------------------------------

  const PlusSign: CodeUnit := 0x2B
  const MinusSign: CodeUnit := 0x2D
  const DigitZero: CodeUnit := 0x30
  const SmallX: CodeUnit := 0x78
  const CapitalX: CodeUnit := 0x58

  /** The value of a code unit read as a digit: `0`-`9` are 0-9, the Latin
      letters `a`-`z` and `A`-`Z` are 10-35, anything else is 36, above
      every radix. */
  function DigitValue(u: CodeUnit): (v: nat)
    ensures v <= 36
    ensures v < 10 <==> DigitZero <= u <= DigitZero + 9
  {
    if DigitZero <= u <= DigitZero + 9 then u - DigitZero
    else if 0x61 <= u <= 0x7A then u - 0x61 + 10
    else if 0x41 <= u <= 0x5A then u - 0x41 + 10
    else 36
  }

  predicate IsDigit(u: CodeUnit, radix: nat)
  {
    DigitValue(u) < radix
  }

  predicate AllDigits(s: JsString, radix: nat)
  {
    forall i :: 0 <= i < |s| ==> IsDigit(s[i], radix)
  }

  /** The longest prefix of `s` made of digits of the radix. */
  function DigitPrefix(s: JsString, radix: nat): (d: JsString)
    ensures d <= s && AllDigits(d, radix)
    ensures |d| < |s| ==> !IsDigit(s[|d|], radix)
  {
    if s != [] && IsDigit(s[0], radix) then [s[0]] + DigitPrefix(s[1..], radix) else []
  }

  /** The value of a digit string, most significant digit first. */
  function DigitsValue(d: JsString, radix: nat): nat
    requires AllDigits(d, radix)
  {
    if d == [] then 0 else DigitsValue(d[..|d| - 1], radix) * radix + DigitValue(d[|d| - 1])
  }

  /** What follows an optional leading sign. */
  function Unsigned(s: JsString): (rest: JsString)
    ensures s != [] && (s[0] == PlusSign || s[0] == MinusSign) ==> rest == s[1..]
    ensures s == [] || (s[0] != PlusSign && s[0] != MinusSign) ==> rest == s
  {
    if s != [] && (s[0] == PlusSign || s[0] == MinusSign) then s[1..] else s
  }

  /** The unsigned text starts with `0x` or `0X`. */
  predicate HasHexPrefix(u: JsString)
  {
    |u| >= 2 && u[0] == DigitZero && (u[1] == SmallX || u[1] == CapitalX)
  }

  /** The value of the longest run of digits of the radix at the start of
      `t`; None when there is none. */
  function ReadDigits(t: JsString, radix: nat): (m: Option<nat>)
    ensures m.None? <==> DigitPrefix(t, radix) == []
  {
    var digits := DigitPrefix(t, radix);
    if digits == [] then None else Some(DigitsValue(digits, radix))
  }

  /** The magnitude parseInt reads from the unsigned text: hexadecimal after
      a `0x` or `0X` prefix, decimal otherwise. */
  function Magnitude(u: JsString): (m: Option<nat>)
    ensures HasHexPrefix(u) ==> m == ReadDigits(u[2..], 16)
    ensures !HasHexPrefix(u) ==> m == ReadDigits(u, 10)
  {
    if HasHexPrefix(u) then ReadDigits(u[2..], 16) else ReadDigits(u, 10)
  }

  function ParseInt(s: JsString): (n: Option<int>)
    ensures n.None? <==> Magnitude(Unsigned(s)).None?
    ensures n.Some? && s != [] && s[0] == MinusSign ==> n.value == -(Magnitude(Unsigned(s)).value as int)
    ensures n.Some? && (s == [] || s[0] != MinusSign) ==> n.value == Magnitude(Unsigned(s)).value
  {
    match Magnitude(Unsigned(s))
    case None => None
    case Some(m) => if s[0] == MinusSign then Some(-(m as int)) else Some(m as int)
  }

  /** The shortest decimal rendering of `n`: its digits, with a minus sign
      in front when it is negative. */
  function Decimal(n: int): (s: JsString)
    ensures s != []
  {
    if n < 0 then [MinusSign] + Digits(-n) else Digits(n)
  }

  function Digits(n: nat): (d: JsString)
    ensures d != [] && AllDigits(d, 10)
  {
    if n < 10 then [DigitZero + n] else Digits(n / 10) + [DigitZero + n % 10]
  }

  lemma {:induction false} DigitsValueOfDigits(n: nat)
    ensures DigitsValue(Digits(n), 10) == n
  {
    if n >= 10 {
      DigitsValueOfDigits(n / 10);
      var d := Digits(n);
      assert d[..|d| - 1] == Digits(n / 10);
    }
  }

  lemma {:induction false} DigitPrefixOfDigits(d: JsString, rest: JsString, radix: nat)
    requires AllDigits(d, radix)
    requires rest == [] || !IsDigit(rest[0], radix)
    ensures DigitPrefix(d + rest, radix) == d
  {
    if d != [] {
      assert (d + rest)[1..] == d[1..] + rest;
      DigitPrefixOfDigits(d[1..], rest, radix);
    }
  }

  /** Behind an optional sign, a string that does not itself start with a
      sign is what is left once the sign is skipped; the sign is a minus
      exactly when it was written so. */
  lemma UnsignedAfterSign(sign: JsString, t: JsString)
    requires sign == [] || sign == [PlusSign] || sign == [MinusSign]
    requires t != [] && t[0] != PlusSign && t[0] != MinusSign
    ensures Unsigned(sign + t) == t
    ensures (sign + t)[0] == MinusSign <==> sign == [MinusSign]
  {
    if sign != [] {
      assert (sign + t)[1..] == t;
    }
  }

  /** Once the sign (and for radix 16 the `0x` prefix) is skipped,
      parseInt reads the digits `d` up to `rest`. */
  lemma ParseIntReads(s: JsString, d: JsString, rest: JsString, radix: nat)
    requires radix == 10 || radix == 16
    requires d != [] && AllDigits(d, radix)
    requires rest == [] || !IsDigit(rest[0], radix)
    requires radix == 10 ==> !HasHexPrefix(Unsigned(s)) && Unsigned(s) == d + rest
    requires radix == 16 ==> HasHexPrefix(Unsigned(s)) && Unsigned(s)[2..] == d + rest
    ensures ParseInt(s).Some?
    ensures ParseInt(s).value == if s[0] == MinusSign then -(DigitsValue(d, radix) as int) else DigitsValue(d, radix) as int
  {
    DigitPrefixOfDigits(d, rest, radix);
    assert Magnitude(Unsigned(s)) == Some(DigitsValue(d, radix));
  }

  /** A string of `0` digits. */
  predicate AllZeros(z: JsString)
  {
    forall i :: 0 <= i < |z| ==> z[i] == DigitZero
  }

  /** Leading zeros do not change the value of a decimal digit string. */
  lemma {:induction false} DigitsValueLeadingZeros(z: JsString, d: JsString)
    requires AllZeros(z) && AllDigits(d, 10)
    ensures AllDigits(z + d, 10) && DigitsValue(z + d, 10) == DigitsValue(d, 10)
  {
    var zd := z + d;
    assert AllDigits(zd, 10);
    if d == [] {
      assert zd == z;
      if z != [] {
        assert zd[..|zd| - 1] == z[..|z| - 1] + [];
        DigitsValueLeadingZeros(z[..|z| - 1], []);
      }
    } else {
      assert zd[..|zd| - 1] == z + d[..|d| - 1];
      DigitsValueLeadingZeros(z, d[..|d| - 1]);
    }
  }

  /** parseInt reads a decimal number written with an optional explicit
      sign (`+` or `-`) and any number of leading zeros, stopping at the
      first code unit after the digits that is not a digit: `"+7"` and
      `"007"` are 7, `"-007y"` is -7. A lone `0` followed by `x` or `X` is
      excluded: that is the hexadecimal prefix. */
  lemma ParseIntSignedPadded(sign: JsString, zeros: JsString, n: nat, rest: JsString)
    requires sign == [] || sign == [PlusSign] || sign == [MinusSign]
    requires AllZeros(zeros)
    requires rest == [] || !IsDigit(rest[0], 10)
    requires zeros != [] || n != 0 || rest == [] || (rest[0] != SmallX && rest[0] != CapitalX)
    ensures ParseInt(sign + zeros + Digits(n) + rest).Some?
    ensures ParseInt(sign + zeros + Digits(n) + rest).value == if sign == [MinusSign] then -(n as int) else n as int
  {
    var d := zeros + Digits(n);
    DigitsValueLeadingZeros(zeros, Digits(n));
    DigitsValueOfDigits(n);
    LoneDigit(n);
    SignedPaddedSplits(sign, zeros, Digits(n), rest);
    ParseIntReads(sign + zeros + Digits(n) + rest, d, rest, 10);
  }

  /** Behind the sign of `sign + zeros + digits + rest` come the padded
      digits and then `rest`, with no hexadecimal prefix. */
  lemma SignedPaddedSplits(sign: JsString, zeros: JsString, digits: JsString, rest: JsString)
    requires sign == [] || sign == [PlusSign] || sign == [MinusSign]
    requires AllZeros(zeros) && digits != [] && AllDigits(digits, 10)
    requires zeros != [] || digits != [DigitZero] || rest == [] || (rest[0] != SmallX && rest[0] != CapitalX)
    ensures var s := sign + zeros + digits + rest;
            && Unsigned(s) == zeros + digits + rest
            && !HasHexPrefix(Unsigned(s))
            && (s[0] == MinusSign <==> sign == [MinusSign])
  {
    var d := zeros + digits;
    var u := d + rest;
    assert sign + zeros + digits + rest == sign + u;
    assert AllDigits(d, 10);
    DigitsNotHex(d, rest);
    assert u[0] != PlusSign && u[0] != MinusSign by {
      assert u[0] == d[0] && IsDigit(d[0], 10);
    }
    UnsignedAfterSign(sign, u);
  }

  /** The only rendering of a natural number as the single digit `0` is
      that of 0 itself. */
  lemma LoneDigit(n: nat)
    ensures Digits(n) == [DigitZero] ==> n == 0
  {
    if n >= 10 {
      assert |Digits(n)| == |Digits(n / 10)| + 1;
    }
  }

  /** Decimal digits followed by `rest` never start with `0x` or `0X`,
      unless the digits are a lone `0` and `rest` starts with `x` or `X`. */
  lemma DigitsNotHex(d: JsString, rest: JsString)
    requires d != [] && AllDigits(d, 10)
    requires |d| >= 2 || d[0] != DigitZero || rest == [] || (rest[0] != SmallX && rest[0] != CapitalX)
    ensures !HasHexPrefix(d + rest)
  {
    var u := d + rest;
    if |d| >= 2 {
      assert u[1] == d[1] && IsDigit(d[1], 10);
    } else if rest != [] {
      assert u[0] == d[0] && u[1] == rest[0];
    }
  }

  /** parseInt reads back every rendered integer, and stops at the first
      code unit after the digits that is not a digit itself (for 0, an `x`
      or `X` right after it would make a hexadecimal prefix). */
  lemma ParseIntDecimal(n: int, rest: JsString)
    requires rest == [] || !IsDigit(rest[0], 10)
    requires n != 0 || rest == [] || (rest[0] != SmallX && rest[0] != CapitalX)
    ensures ParseInt(Decimal(n) + rest) == Some(n)
  {
    if n < 0 {
      ParseIntNegative(-n, rest, Decimal(n) + rest);
    } else {
      ParseIntNonNegative(n, rest, Decimal(n) + rest);
    }
  }

  /** A minus sign, the digits of `n` and then `rest` read as -n. */
  lemma ParseIntNegative(n: nat, rest: JsString, s: JsString)
    requires rest == [] || !IsDigit(rest[0], 10)
    requires n != 0 || rest == [] || (rest[0] != SmallX && rest[0] != CapitalX)
    requires s == [MinusSign] + Digits(n) + rest
    ensures ParseInt(s) == Some(-(n as int))
  {
    var sign: JsString := [MinusSign];
    assert sign + [] + Digits(n) + rest == s;
    ParseIntSignedPadded(sign, [], n, rest);
  }

  /** The digits of `n` and then `rest` read as n. */
  lemma ParseIntNonNegative(n: nat, rest: JsString, s: JsString)
    requires rest == [] || !IsDigit(rest[0], 10)
    requires n != 0 || rest == [] || (rest[0] != SmallX && rest[0] != CapitalX)
    requires s == Digits(n) + rest
    ensures ParseInt(s) == Some(n as int)
  {
    var none: JsString := [];
    assert none + none + Digits(n) + rest == s;
    ParseIntSignedPadded(none, none, n, rest);
  }

  /** parseInt reads hexadecimal digits after an optional sign and a `0x`
      or `0X` prefix, stopping at the first code unit that is not a
      hexadecimal digit. */
  lemma ParseIntHex(sign: JsString, x: CodeUnit, d: JsString, rest: JsString)
    requires sign == [] || sign == [PlusSign] || sign == [MinusSign]
    requires x == SmallX || x == CapitalX
    requires d != [] && AllDigits(d, 16)
    requires rest == [] || !IsDigit(rest[0], 16)
    ensures ParseInt(sign + [DigitZero, x] + d + rest).Some?
    ensures ParseInt(sign + [DigitZero, x] + d + rest).value
            == if sign == [MinusSign] then -(DigitsValue(d, 16) as int) else DigitsValue(d, 16) as int
  {
    var s := sign + [DigitZero, x] + d + rest;
    var u := [DigitZero, x] + d + rest;
    assert Unsigned(s) == u && (s[0] == MinusSign <==> sign == [MinusSign]) by {
      assert s == sign + u;
      UnsignedAfterSign(sign, u);
    }
    assert HasHexPrefix(u) && u[2..] == d + rest;
    ParseIntReads(s, d, rest, 16);
  }

  /** `"0x1A"` is 26. */
  lemma ParseIntHexExample()
    ensures ParseInt([DigitZero, SmallX, 0x31, 0x41]) == Some(26)
  {
    ParseIntHex([], SmallX, [0x31, 0x41], []);
    assert [] + [DigitZero, SmallX] + [0x31, 0x41] + [] == [DigitZero, SmallX, 0x31, 0x41];
    assert [0x31, 0x41][..1] == [0x31];
    assert [0x31][..0] == [];
  }

  /** `"-0x10"` is -16. */
  lemma ParseIntNegativeHexExample()
    ensures ParseInt([MinusSign, DigitZero, SmallX, 0x31, 0x30]) == Some(-16)
  {
    ParseIntHex([MinusSign], SmallX, [0x31, 0x30], []);
    assert [MinusSign] + [DigitZero, SmallX] + [0x31, 0x30] + [] == [MinusSign, DigitZero, SmallX, 0x31, 0x30];
    assert [0x31, 0x30][..1] == [0x31];
    assert [0x31][..0] == [];
  }

  /** `"0x"` with no hexadecimal digit after the prefix is NaN. */
  lemma ParseIntBareHexPrefix()
    ensures ParseInt([DigitZero, SmallX]) == None
  {
    assert [DigitZero, SmallX][2..] == [];
  }
}
