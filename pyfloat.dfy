/** Python's `float(text)` on the tokens the coordinate parser passes it,
    taken over the plain decimal notation: an optional `-`, digits, and an
    optional `.` followed by digits, with at least one digit in all
    (`45`, `-12.5`, `.5` and `5.` are numbers; `-`, `.`, `` and `4-5` are
    not, and `float` raises `ValueError` on them). Values are exact reals.

    `FormatDecimal` is the other direction: the decimal text with a fixed
    number of fraction digits that a user would type for a value. */
module PyFloat {
  import opened Outcomes

  predicate IsDigit(c: char) {
    '0' <= c <= '9'
  }

  predicate IsDigits(s: string) {
    forall i :: 0 <= i < |s| ==> IsDigit(s[i])
  }

  /** A character that can occur in a decimal number. */
  predicate IsNumberChar(c: char) {
    IsDigit(c) || c == '-' || c == '.'
  }

  function DigitValue(c: char): nat
    requires IsDigit(c)
  {
    (c - '0') as nat
  }

  function DigitChar(d: nat): char
    requires d < 10
  {
    '0' + d as char
  }

  /** The natural number that a string of decimal digits denotes, most
      significant digit first. */
  function DigitsValue(s: string): nat
    requires IsDigits(s)
  {
    if s == [] then 0
    else DigitsValue(s[..|s| - 1]) * 10 + DigitValue(s[|s| - 1])
  }

  function Pow10(k: nat): (r: nat)
    ensures r >= 1
  {
    if k == 0 then 1 else 10 * Pow10(k - 1)
  }

  /** The position of the first `.` in `s`, or `|s|` when there is none. */
  function FindDot(s: string): (i: nat)
    ensures i <= |s|
    ensures i < |s| ==> s[i] == '.'
    ensures forall j :: 0 <= j < i ==> s[j] != '.'
  {
    if s == [] then 0
    else if s[0] == '.' then 0
    else 1 + FindDot(s[1..])
  }

  /** `float(t)` for a token `t`: `None` stands for the `ValueError` that
      `float` raises on text that is not a number. */
  function ParseFloat(t: string): (r: Option<real>)
    ensures r.Some? ==> t != [] && forall i :: 0 <= i < |t| ==> IsNumberChar(t[i])
    ensures r.Some? && r.value < 0.0 ==> t[0] == '-'
  {
    if |t| > 0 && t[0] == '-' then
      match ParseUnsigned(t[1..])
      case None => None
      case Some(m) =>
        assert forall i :: 0 < i < |t| ==> t[i] == t[1..][i - 1];
        Some(-m)
    else
      ParseUnsigned(t)
  }

  /** An unsigned decimal: whole digits, then optionally a dot and fraction
      digits, with at least one digit in all. */
  function ParseUnsigned(body: string): (r: Option<real>)
    ensures r.Some? ==> body != [] && forall i :: 0 <= i < |body| ==> IsNumberChar(body[i])
    ensures r.Some? ==> r.value >= 0.0
  {
    var dot := FindDot(body);
    var whole := body[..dot];
    var fraction := if dot < |body| then body[dot + 1..] else "";
    if IsDigits(whole) && IsDigits(fraction) && |whole| + |fraction| > 0 then
      assert forall i :: 0 <= i < |body| ==> IsNumberChar(body[i]) by {
        forall i | 0 <= i < |body| ensures IsNumberChar(body[i]) {
          if i < dot {
            assert body[i] == whole[i];
          } else if i > dot {
            assert body[i] == fraction[i - dot - 1];
          }
        }
      }
      Some(DecimalValue(whole, fraction))
    else
      None
  }

  /** The value of `whole.fraction` for digit strings `whole` and
      `fraction`. */
  function DecimalValue(whole: string, fraction: string): real
    requires IsDigits(whole) && IsDigits(fraction)
  {
    DigitsValue(whole) as real + DigitsValue(fraction) as real / Pow10(|fraction|) as real
  }

  /** The digits of `n` without leading zeros (`0` for zero). */
  function NatDigits(n: nat): (s: string)
    ensures s != [] && IsDigits(s) && DigitsValue(s) == n
  {
    if n < 10 then [DigitChar(n)]
    else
      var s := NatDigits(n / 10) + [DigitChar(n % 10)];
      assert s[..|s| - 1] == NatDigits(n / 10);
      s
  }

  /** The last `k` decimal digits of `n`, padded with leading zeros. */
  function LowDigits(n: nat, k: nat): (s: string)
    ensures |s| == k && IsDigits(s)
  {
    if k == 0 then [] else LowDigits(n / 10, k - 1) + [DigitChar(n % 10)]
  }

  /** `n` with its last `k` decimal digits removed (`n // 10^k` in Python). */
  function DropDigits(n: nat, k: nat): nat {
    if k == 0 then n else DropDigits(n / 10, k - 1)
  }

  /** The dropped and the kept digits together make up `n` again. */
  lemma {:induction false} DigitsSplit(n: nat, k: nat)
    ensures n == DropDigits(n, k) * Pow10(k) + DigitsValue(LowDigits(n, k))
  {
    if k > 0 {
      var q, d := n / 10, n % 10;
      DigitsSplit(q, k - 1);
      var w, p, f := DropDigits(q, k - 1), Pow10(k - 1), DigitsValue(LowDigits(q, k - 1));
      assert DigitsValue(LowDigits(n, k)) == 10 * f + d by {
        var s := LowDigits(q, k - 1) + [DigitChar(d)];
        assert s[..|s| - 1] == LowDigits(q, k - 1);
      }
      ShiftDigit(n, q, d, w, p, f);
    }
  }

  /** One more digit at the bottom: `10 * (w * p + f) + d` splits at `10 * p`. */
  lemma ShiftDigit(n: int, q: int, d: int, w: int, p: int, f: int)
    requires n == 10 * q + d && q == w * p + f
    ensures n == w * (10 * p) + (10 * f + d)
  {
    assert w * (10 * p) == 10 * (w * p);
  }

  /** The decimal text of the value `x / 10^k`, written with exactly `k`
      fraction digits (and no dot when `k` is zero): `FormatDecimal(-1225, 1)`
      is `-122.5`. */
  function FormatDecimal(x: int, k: nat): string {
    (if x < 0 then "-" else "") + FormatMagnitude(if x < 0 then -x else x, k)
  }

  /** The unsigned decimal text of `a / 10^k` with `k` fraction digits. */
  function FormatMagnitude(a: nat, k: nat): string {
    NatDigits(DropDigits(a, k)) + (if k == 0 then "" else "." + LowDigits(a, k))
  }

  /** `float` reads back the value of every decimal text written with a
      fixed number of fraction digits. */
  lemma ParseFormatDecimal(x: int, k: nat)
    ensures ParseFloat(FormatDecimal(x, k)) == Some(x as real / Pow10(k) as real)
  {
    var a: nat := if x < 0 then -x else x;
    var body := FormatMagnitude(a, k);
    var p := Pow10(k) as real;
    var m := a as real / p;
    assert ParseUnsigned(body) == Some(m) && body[0] != '-' by {
      MagnitudeValue(a, k);
    }
    SignedReadBack(FormatDecimal(x, k), body, x < 0, m);
    assert (if x < 0 then -m else m) == x as real / p by {
      SignedQuotient(a as real, x as real, p);
    }
  }

  /** `float` of an optional minus sign followed by an unsigned number text. */
  lemma SignedReadBack(t: string, body: string, negative: bool, m: real)
    requires t == (if negative then "-" else "") + body
    requires ParseUnsigned(body) == Some(m) && body[0] != '-'
    ensures ParseFloat(t) == Some(if negative then -m else m)
  {
    if negative {
      ParseNegative(body, m);
    } else {
      assert t == body;
      ParseNonNegative(body, m);
    }
  }

  /** `float` of an unsigned number text that does not start with `-`. */
  lemma ParseNonNegative(body: string, m: real)
    requires ParseUnsigned(body) == Some(m) && body[0] != '-'
    ensures ParseFloat(body) == Some(m)
  {
  }

  /** `float` of a minus sign followed by an unsigned number text. */
  lemma ParseNegative(body: string, m: real)
    requires ParseUnsigned(body) == Some(m)
    ensures ParseFloat("-" + body) == Some(-m)
  {
    assert ("-" + body)[1..] == body;
  }

  lemma SignedQuotient(a: real, x: real, p: real)
    requires p > 0.0 && (x == a || x == -a) && a >= 0.0
    ensures (if x < 0.0 then -(a / p) else a / p) == x / p
  {
  }

  /** The unsigned text splits at its dot into the whole and the fraction
      digits, whose value is `a / 10^k`. */
  lemma MagnitudeValue(a: nat, k: nat)
    ensures ParseUnsigned(FormatMagnitude(a, k)) == Some(a as real / Pow10(k) as real)
    ensures FormatMagnitude(a, k)[0] != '-'
  {
    var whole := NatDigits(DropDigits(a, k));
    var fraction := if k == 0 then "" else LowDigits(a, k);
    ParseDigitsDotDigits(whole, if k == 0 then "" else "." + fraction, fraction);
    DecimalOfParts(a, k, whole, fraction);
    assert FormatMagnitude(a, k)[0] == whole[0];
  }

  /** `float` of digits, optionally followed by a dot and digits. */
  lemma ParseDigitsDotDigits(whole: string, rest: string, fraction: string)
    requires IsDigits(whole) && IsDigits(fraction) && |whole| + |fraction| > 0
    requires (rest == [] && fraction == []) || rest == "." + fraction
    ensures ParseUnsigned(whole + rest) == Some(DecimalValue(whole, fraction))
  {
    var body := whole + rest;
    FindDotAfterDigits(whole, rest);
    assert body[..|whole|] == whole;
    if rest != [] {
      assert body[|whole| + 1..] == fraction;
    }
  }

  lemma DecimalOfParts(a: nat, k: nat, whole: string, fraction: string)
    requires IsDigits(whole) && IsDigits(fraction) && |fraction| == k
    requires DigitsValue(whole) == DropDigits(a, k)
    requires k == 0 || fraction == LowDigits(a, k)
    ensures DecimalValue(whole, fraction) == a as real / Pow10(k) as real
  {
    DigitsSplit(a, k);
    if k == 0 {
      assert DigitsValue(LowDigits(a, k)) == 0;
      assert DigitsValue(fraction) == 0;
    }
    RealQuotient(a, Pow10(k), DigitsValue(whole), DigitsValue(fraction));
  }

  /** Dividing `w * p + f` by `p` in the reals gives `w + f / p`. */
  lemma RealQuotient(a: nat, p: nat, w: nat, f: nat)
    requires p >= 1 && a == w * p + f
    ensures w as real + f as real / p as real == a as real / p as real
  {
    assert a as real == w as real * p as real + f as real;
  }

  /** In digits followed by a dot (or by nothing), the first dot is right
      after the digits. */
  lemma {:induction false} FindDotAfterDigits(whole: string, rest: string)
    requires IsDigits(whole)
    requires rest == [] || rest[0] == '.'
    ensures FindDot(whole + rest) == |whole|
    decreases |whole|
  {
    if whole == [] {
      assert whole + rest == rest;
    } else {
      FindDotAfterDigits(whole[1..], rest);
      assert (whole + rest)[1..] == whole[1..] + rest;
    }
  }

  /** The decimal texts `float` accepts here, written as a grammar on its
      own: digits, or digits and a dot and digits, with at least one digit
      in all. */
  predicate IsUnsignedText(b: string) {
    || (b != [] && IsDigits(b))
    || (exists i :: 0 <= i < |b| && b[i] == '.' && IsDigits(b[..i]) && IsDigits(b[i + 1..]) && |b| > 1)
  }

  /** An unsigned decimal text with an optional leading minus. */
  predicate IsDecimalText(t: string) {
    IsUnsignedText(t) || (t != [] && t[0] == '-' && IsUnsignedText(t[1..]))
  }

  /** `float(t)` returns exactly for the decimal texts and raises on any
      other text (`-`, `.`, `--5`, `1-2`, `1.2.3`, the empty text). */
  lemma ParseFloatAccepts(t: string)
    ensures ParseFloat(t).Some? <==> IsDecimalText(t)
  {
    if t != [] && t[0] == '-' {
      ParseUnsignedAccepts(t[1..]);
      assert !IsDigit(t[0]);
      forall i | 0 < i < |t| ensures !IsDigits(t[..i]) {
        assert t[..i][0] == t[0];
      }
    } else {
      ParseUnsignedAccepts(t);
    }
  }

  /** The unsigned half of `ParseFloatAccepts`. */
  lemma ParseUnsignedAccepts(b: string)
    ensures ParseUnsigned(b).Some? <==> IsUnsignedText(b)
  {
    var dot := FindDot(b);
    if b != [] && IsDigits(b) {
      assert forall j :: 0 <= j < |b| ==> b[j] != '.';
      assert b[..dot] == b;
    } else if i :| 0 <= i < |b| && b[i] == '.' && IsDigits(b[..i]) && IsDigits(b[i + 1..]) && |b| > 1 {
      forall j | 0 <= j < i ensures b[j] != '.' {
        assert b[..i][j] == b[j];
      }
      assert dot == i;
    } else if dot == |b| {
      assert b[..dot] == b;
    }
  }

  /** The value of every decimal text: `-` gives the negation, and the
      digits `whole.fraction` give `whole + fraction / 10^|fraction|`,
      so `.5`, `5.`, `007` and `-0` read as 0.5, 5, 7 and 0. */
  lemma ParseFloatValue(negative: bool, whole: string, dot: bool, fraction: string)
    requires IsDigits(whole) && IsDigits(fraction) && |whole| + |fraction| > 0
    requires dot || fraction == []
    ensures
      var v := DecimalValue(whole, fraction);
      ParseFloat((if negative then "-" else "") + (whole + (if dot then "." + fraction else "")))
        == Some(if negative then -v else v)
  {
    var rest := if dot then "." + fraction else "";
    var body := whole + rest;
    ParseDigitsDotDigits(whole, rest, fraction);
    assert body[0] != '-' by {
      if whole != [] { assert body[0] == whole[0]; } else { assert body[0] == '.'; }
    }
    SignedReadBack((if negative then "-" else "") + body, body, negative, DecimalValue(whole, fraction));
  }
}
