/**
  Numbers as the budget tools read them: a restricted model of Python's
  `int()` and `float()` on text (an optional sign, decimal digits and at most
  one '.'; no exponent, no `inf`/`nan`, no digit underscores), exact `real`
  values instead of binary floats, and the dynamic property values
  (`None`, `int`, `float`, `str`, and the `bool` an IFC boolean or logical
  property wraps) kept in property maps.
 */
module Numbers {
  import opened Wrappers
  import opened Text

  /** A property value as the parsers store it. */
  datatype Value = Null | IntV(i: int) | RealV(r: real) | StrV(s: string) | BoolV(b: bool)

  /** `abs(x)`. */
  function Abs(x: real): (r: real)
    ensures r >= 0.0 && (r == x || r == -x)
  {
    if x < 0.0 then -x else x
  }

  predicate IsDigit(c: char)
  {
    '0' <= c <= '9'
  }

  predicate AllDigits(s: string)
  {
    forall k :: 0 <= k < |s| ==> IsDigit(s[k])
  }

  function DigitValue(c: char): nat
    requires IsDigit(c)
  {
    c as int - '0' as int
  }

  /** The natural number written by a run of decimal digits (0 for none). */
  function DigitsValue(s: string): nat
    requires AllDigits(s)
  {
    if |s| == 0 then 0 else 10 * DigitsValue(s[..|s| - 1]) + DigitValue(s[|s| - 1])
  }

  function Pow10(n: nat): (r: nat)
    ensures r >= 1
  {
    if n == 0 then 1 else 10 * Pow10(n - 1)
  }

  /** An optional leading '+' or '-', as a factor and the text after it. */
  function SplitSign(s: string): (int, string)
  {
    if |s| > 0 && s[0] == '-' then (-1, s[1..])
    else if |s| > 0 && s[0] == '+' then (1, s[1..])
    else (1, s)
  }

  /** `int(s)` on text that has already been stripped. */
  function ParseInt(s: string): (r: Option<int>)
    ensures r.Some? <==> SplitSign(s).1 != [] && AllDigits(SplitSign(s).1)
  {
    var (sign, body) := SplitSign(s);
    if body != [] && AllDigits(body) then Some(sign * DigitsValue(body)) else None
  }

  /** `float(s)` on text that has already been stripped. */
  function ParseDecimal(s: string): (r: Option<real>)
    ensures '.' !in s ==> r == (match ParseInt(s) case Some(n) => Some(n as real) case None => None)
  {
    var (sign, body) := SplitSign(s);
    if '.' in body then
      var i := IndexOf(body, '.');
      var whole := body[..i];
      var frac := body[i + 1..];
      if AllDigits(whole) && AllDigits(frac) && (whole != [] || frac != [])
      then Some(FixedValue(sign, DigitsValue(whole), DigitsValue(frac), Pow10(|frac|)))
      else None
    else if body != [] && AllDigits(body) then Some((sign * DigitsValue(body)) as real)
    else None
  }

  /** The value of a signed decimal with integral part `w` and fraction digits worth `f / p`. */
  function FixedValue(sign: int, w: nat, f: nat, p: nat): real
    requires p >= 1
  {
    sign as real * (w as real + f as real / p as real)
  }

  /** Python's `float(x)` on text: surrounding whitespace is allowed. */
  function PyFloat(s: string): Option<real>
  {
    ParseDecimal(Strip(s))
  }

  /** Python's `float(v)` on a stored value; `None` stands for the raised error. */
  function ToFloat(v: Value): Option<real>
  {
    match v
    case Null => None
    case IntV(i) => Some(i as real)
    case RealV(r) => Some(r)
    case StrV(s) => PyFloat(s)
    case BoolV(b) => Some(if b then 1.0 else 0.0)
  }

  /**
    `str(v)` where a text comparison can use it: a text is itself and a
    bool is `True` or `False`. A number has no entry: its own text reads as
    a number, so it only meets a text comparison against a text that does
    not read as a number, and those two texts cannot be equal.
   */
  function PyText(v: Value): Option<string>
  {
    match v
    case StrV(s) => Some(s)
    case BoolV(b) => Some(if b then "True" else "False")
    case _ => None
  }

  function DigitChar(d: nat): (c: char)
    requires d < 10
    ensures IsDigit(c) && DigitValue(c) == d
  {
    ('0' as int + d) as char
  }

  /** `str(n)` for a natural number. */
  function NatToString(n: nat): (s: string)
    ensures s != [] && AllDigits(s)
  {
    if n < 10 then [DigitChar(n)] else NatToString(n / 10) + [DigitChar(n % 10)]
  }

  /** `str(n)` for an integer. */
  function IntToString(n: int): string
  {
    if n < 0 then "-" + NatToString(-n) else NatToString(n)
  }

  lemma {:induction false} NatToStringValue(n: nat)
    ensures DigitsValue(NatToString(n)) == n
    decreases n
  {
    if n >= 10 {
      var s := NatToString(n);
      NatToStringValue(n / 10);
      assert s[..|s| - 1] == NatToString(n / 10);
    }
  }

  /** Reading back an integer's decimal rendering gives the integer. */
  lemma ParseIntRoundTrip(n: int)
    ensures ParseInt(IntToString(n)) == Some(n)
    ensures ParseDecimal(IntToString(n)) == Some(n as real)
  {
    var s := IntToString(n);
    if n < 0 {
      NatToStringValue(-n);
      assert SplitSign(s).1 == NatToString(-n);
    } else {
      NatToStringValue(n);
      assert SplitSign(s).1 == NatToString(n);
    }
    assert '.' !in s by {
      if n < 0 { assert s == "-" + NatToString(-n); }
    }
  }

  /** One more digit on the right of `a + b'`: the arithmetic step of `DigitsValueConcat`. */
  lemma ShiftDigit(x: int, y: int, d: int, p: int)
    ensures 10 * (x * p + y) + d == x * (10 * p) + (10 * y + d)
  {
  }

  lemma AllDigitsConcat(a: string, b: string)
    requires AllDigits(a) && AllDigits(b)
    ensures AllDigits(a + b)
  {
    assert forall k :: 0 <= k < |a + b| ==> (a + b)[k] == if k < |a| then a[k] else b[k - |a|];
  }

  lemma {:induction false} DigitsValueConcat(a: string, b: string)
    requires AllDigits(a) && AllDigits(b)
    ensures AllDigits(a + b)
    ensures DigitsValue(a + b) == DigitsValue(a) * Pow10(|b|) + DigitsValue(b)
    decreases |b|
  {
    AllDigitsConcat(a, b);
    if |b| > 0 {
      var ab := a + b;
      var b' := b[..|b| - 1];
      var d := DigitValue(b[|b| - 1]);
      assert ab[..|ab| - 1] == a + b';
      assert ab[|ab| - 1] == b[|b| - 1];
      DigitsValueConcat(a, b');
      assert DigitsValue(ab) == 10 * DigitsValue(a + b') + d;
      assert DigitsValue(b) == 10 * DigitsValue(b') + d;
      assert Pow10(|b|) == 10 * Pow10(|b'|);
      ShiftDigit(DigitsValue(a), DigitsValue(b'), d, Pow10(|b'|));
    } else {
      assert a + b == a;
    }
  }

  function Zeros(n: nat): (s: string)
    ensures |s| == n && AllDigits(s)
  {
    if n == 0 then "" else "0" + Zeros(n - 1)
  }

  lemma {:induction false} ZerosValue(n: nat)
    ensures DigitsValue(Zeros(n)) == 0
  {
    if n > 0 {
      assert Zeros(n) == Zeros(n - 1) + "0" by { ZerosSnoc(n); }
      assert Zeros(n)[..n - 1] == Zeros(n - 1);
      ZerosValue(n - 1);
    }
  }

  lemma {:induction false} ZerosSnoc(n: nat)
    requires n > 0
    ensures Zeros(n) == Zeros(n - 1) + "0"
  {
    if n > 1 {
      ZerosSnoc(n - 1);
    }
  }

  lemma {:induction false} NatToStringLength(n: nat, k: nat)
    requires k >= 1 && n < Pow10(k)
    ensures |NatToString(n)| <= k
    decreases k
  {
    if n >= 10 {
      NatToStringLength(n / 10, k - 1);
    }
  }

  /** `s` left-padded with zeros to `k` digits. */
  function PadDigits(s: string, k: nat): (r: string)
    requires AllDigits(s)
    ensures AllDigits(r) && |r| == if |s| >= k then |s| else k
    ensures DigitsValue(r) == DigitsValue(s)
  {
    if |s| >= k then s
    else
      DigitsValueConcat(Zeros(k - |s|), s);
      ZerosValue(k - |s|);
      Zeros(k - |s|) + s
  }

  /**
    The fixed-point rendering of `m / 10^k` with exactly `k` fraction digits,
    as Python's `f"{x:.kf}"` prints a value that has at most `k` of them.
   */
  function FormatFixed(m: int, k: nat): string
  {
    if k == 0 then IntToString(m)
    else
      var qr := DivMod(if m < 0 then -m else m, Pow10(k));
      FixedText(m < 0, qr.0, qr.1, k)
  }

  /** A sign, the whole part `q`, a point, and the fraction `r` padded to `k` digits. */
  function FixedText(neg: bool, q: nat, r: nat, k: nat): string
  {
    (if neg then "-" else "") + NatToString(q) + "." + PadDigits(NatToString(r), k)
  }

  /** Quotient and remainder of a natural division. */
  function DivMod(a: nat, p: nat): (qr: (nat, nat))
    requires p >= 1
    ensures a == qr.0 * p + qr.1 && qr.1 < p
  {
    (a / p, a % p)
  }

  /** Reading a signed "whole.frac" text gives whole + frac / 10^|frac|. */
  lemma ParseFixedText(neg: bool, whole: string, frac: string)
    requires whole != [] && AllDigits(whole) && AllDigits(frac)
    ensures ParseDecimal((if neg then "-" else "") + (whole + "." + frac))
         == Some(FixedValue(if neg then -1 else 1, DigitsValue(whole), DigitsValue(frac), Pow10(|frac|)))
  {
    var body := whole + "." + frac;
    var s := (if neg then "-" else "") + body;
    assert SplitSign(s).1 == body by {
      if neg { assert s == "-" + body; } else { assert s == body; assert body[0] == whole[0]; }
    }
    assert '.' !in whole by {
      forall c | c in whole ensures c != '.' { }
    }
    IndexOfAfterPrefix(whole, frac, '.');
    assert body[..|whole|] == whole;
    assert body[|whole| + 1..] == frac;
  }

  lemma DivModReal(neg: bool, a: nat, p: nat, q: nat, r: nat)
    requires p >= 1 && a == q * p + r
    ensures FixedValue(if neg then -1 else 1, q, r, p) == (if neg then -(a as real) else a as real) / (p as real)
  {
    assert (a as real) == (q as real) * (p as real) + (r as real);
    assert (q as real) + (r as real) / (p as real) == (a as real) / (p as real);
  }

  lemma FixedTextParses(neg: bool, q: nat, r: nat, k: nat)
    requires k >= 1 && r < Pow10(k)
    ensures ParseDecimal(FixedText(neg, q, r, k)) == Some(FixedValue(if neg then -1 else 1, q, r, Pow10(k)))
  {
    NatToStringLength(r, k);
    var frac := PadDigits(NatToString(r), k);
    assert FixedText(neg, q, r, k) == (if neg then "-" else "") + (NatToString(q) + "." + frac);
    NatToStringValue(q);
    NatToStringValue(r);
    ParseFixedText(neg, NatToString(q), frac);
  }

  lemma FormatFixedParses(m: int, k: nat)
    requires k >= 1
    ensures var a: nat := if m < 0 then -m else m;
            var qr := DivMod(a, Pow10(k));
            ParseDecimal(FormatFixed(m, k)) == Some(FixedValue(if m < 0 then -1 else 1, qr.0, qr.1, Pow10(k)))
  {
    var a: nat := if m < 0 then -m else m;
    var qr := DivMod(a, Pow10(k));
    FixedTextParses(m < 0, qr.0, qr.1, k);
  }

  /** Reading back a fixed-point rendering gives the exact value. */
  lemma FormatFixedRoundTrip(m: int, k: nat)
    ensures ParseDecimal(FormatFixed(m, k)) == Some(m as real / Pow10(k) as real)
  {
    if k == 0 {
      ParseIntRoundTrip(m);
    } else {
      var p := Pow10(k);
      var a: nat := if m < 0 then -m else m;
      var qr := DivMod(a, p);
      FormatFixedParses(m, k);
      DivModReal(m < 0, a, p, qr.0, qr.1);
      assert (if m < 0 then -(a as real) else a as real) == m as real;
    }
  }

  /** The characters a number rendering is made of. */
  predicate NumberChar(c: char)
  {
    IsDigit(c) || c == '-' || c == '.'
  }

  predicate NumberText(s: string)
  {
    s != [] && (IsDigit(s[0]) || s[0] == '-') && IsDigit(s[|s| - 1])
    && forall i :: 0 <= i < |s| ==> NumberChar(s[i])
  }

  lemma IntToStringShape(n: int)
    ensures NumberText(IntToString(n)) && '.' !in IntToString(n)
  {
    var d := NatToString(if n < 0 then -n else n);
    assert forall i :: 0 <= i < |d| ==> IsDigit(d[i]);
  }

  /** A fixed-point rendering is a signed digit string with a point exactly when `k >= 1`. */
  lemma FormatFixedShape(m: int, k: nat)
    ensures NumberText(FormatFixed(m, k))
    ensures '.' in FormatFixed(m, k) <==> k >= 1
  {
    if k == 0 {
      IntToStringShape(m);
    } else {
      var qr := DivMod(if m < 0 then -m else m, Pow10(k));
      FixedTextShape(m < 0, qr.0, qr.1, k);
    }
  }

  lemma FixedTextShape(neg: bool, q: nat, r: nat, k: nat)
    requires k >= 1
    ensures NumberText(FixedText(neg, q, r, k)) && '.' in FixedText(neg, q, r, k)
  {
    var w := NatToString(q);
    var f := PadDigits(NatToString(r), k);
    var s := (if neg then "-" else "") + w + "." + f;
    assert FixedText(neg, q, r, k) == s;
    assert s[|s| - 1] == f[|f| - 1];
    assert s[0] == if neg then '-' else w[0];
    assert s[|s| - |f| - 1] == '.';
  }

  /** Number renderings hold no whitespace, no comma and none of the record separators. */
  lemma NumberTextPlain(s: string)
    requires NumberText(s)
    ensures !IsSpace(s[0]) && !IsSpace(s[|s| - 1])
    ensures ',' !in s && '|' !in s && '\\' !in s && '#' !in s
  {
    assert NumberChar(s[0]) && NumberChar(s[|s| - 1]);
  }
}
