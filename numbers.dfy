/** Python's `int(s)`, `float(s)` and `str(n)` on the decimal notation the sensors send. */
module Numbers {
  import opened Wrappers
  import opened Strings

  predicate IsDigit(c: char)
  {
    '0' <= c <= '9'
  }

  predicate AllDigits(s: string)
  {
    forall i :: 0 <= i < |s| ==> IsDigit(s[i])
  }

  function DigitValue(c: char): nat
    requires IsDigit(c)
  {
    c as int - '0' as int
  }

  function DigitChar(d: nat): (c: char)
    requires d < 10
    ensures IsDigit(c) && DigitValue(c) == d
  {
    ('0' as int + d) as char
  }

  /** The value of a string of decimal digits, most significant first. */
  function DigitsValue(s: string): nat
    requires AllDigits(s)
  {
    if s == [] then 0 else 10 * DigitsValue(s[..|s| - 1]) + DigitValue(s[|s| - 1])
  }

  function Pow10(k: nat): (p: nat)
    ensures p >= 1
  {
    if k == 0 then 1 else 10 * Pow10(k - 1)
  }

  /** Python's `str(n)` for a non-negative integer: decimal digits, no leading zero. */
  function NatToString(n: nat): (s: string)
    ensures s != [] && AllDigits(s)
    ensures |s| > 1 ==> s[0] != '0'
  {
    if n < 10 then [DigitChar(n)] else NatToString(n / 10) + [DigitChar(n % 10)]
  }

  /** Python's `str(n)` for any integer. */
  function IntToString(n: int): (s: string)
    ensures s != [] && (s[0] == '-' <==> n < 0)
    ensures n >= 0 ==> AllDigits(s)
    ensures n < 0 ==> AllDigits(s[1..])
  {
    if n < 0 then "-" + NatToString(-n) else NatToString(n)
  }

  /** Reading back the digits `str(n)` writes gives `n`. */
  lemma {:induction false} DigitsRoundTrip(n: nat)
    ensures DigitsValue(NatToString(n)) == n
  {
    if n >= 10 {
      var s := NatToString(n);
      assert s[..|s| - 1] == NatToString(n / 10);
      DigitsRoundTrip(n / 10);
    }
  }

  /** A non-empty run of digits, as `int()` and `float()` accept it. */
  function ParseDigits(s: string): (r: Option<nat>)
    ensures r.Some? <==> s != [] && AllDigits(s)
  {
    if s != [] && AllDigits(s) then Some(DigitsValue(s)) else None
  }

  /** Digits written one after the other: the front part's value is shifted left by the back part's length. */
  lemma {:induction false} DigitsValueConcat(w: string, f: string)
    requires AllDigits(w) && AllDigits(f)
    ensures AllDigits(w + f)
    ensures DigitsValue(w + f) == DigitsValue(w) * Pow10(|f|) + DigitsValue(f)
    decreases |f|
  {
    if f == [] {
      assert w + f == w;
    } else {
      var g := f[..|f| - 1];
      assert (w + f)[..|w + f| - 1] == w + g;
      assert (w + f)[|w + f| - 1] == f[|f| - 1];
      DigitsValueConcat(w, g);
      ShiftStep(DigitsValue(w), Pow10(|g|), DigitsValue(g), DigitValue(f[|f| - 1]));
    }
  }

  /** Appending a digit `d` multiplies by ten and adds `d`, whether or not a front part is shifted in. */
  lemma ShiftStep(v: int, p: int, g: int, d: int)
    ensures 10 * (v * p + g) + d == v * (10 * p) + (10 * g + d)
  {
  }

  /** The digits of `str(n)` parse back to `n`. */
  lemma ParseDigitsOfNat(n: nat)
    ensures ParseDigits(NatToString(n)) == Some(n)
  {
    DigitsRoundTrip(n);
  }

  /** Leading zeros do not change the value read, as in `int("007") == 7`. */
  lemma LeadingZeroIgnored(s: string)
    requires s != []
    ensures ParseDigits("0" + s) == ParseDigits(s)
  {
    if AllDigits(s) {
      DigitsValueConcat("0", s);
    } else {
      var i :| 0 <= i < |s| && !IsDigit(s[i]);
      assert ("0" + s)[i + 1] == s[i];
    }
  }

  /** Python's `int(s)` on an already stripped payload: an optional sign and at least one digit. */
  function ParseInt(s: string): (r: Option<int>)
    ensures r.Some? <==> || (s != [] && AllDigits(s))
                         || (|s| > 1 && (s[0] == '+' || s[0] == '-') && AllDigits(s[1..]))
    ensures r.Some? && r.value < 0 ==> s[0] == '-'
  {
    if s != [] && (s[0] == '+' || s[0] == '-') then
      match ParseDigits(s[1..])
      case None => None
      case Some(n) => var v: int := n; Some(if s[0] == '-' then -v else v)
    else
      match ParseDigits(s)
      case None => None
      case Some(n) => Some(n)
  }

  /** Plain unsigned decimal notation: digits and points only, at most one point, at least one digit. */
  predicate PlainUnsigned(s: string)
  {
    && (forall i :: 0 <= i < |s| ==> IsDigit(s[i]) || s[i] == '.')
    && (forall i, j :: 0 <= i < j < |s| && s[i] == '.' ==> s[j] != '.')
    && (exists i :: 0 <= i < |s| && IsDigit(s[i]))
  }

  /** Plain decimal notation: an optional sign in front of plain unsigned notation. */
  predicate PlainDecimal(s: string)
  {
    || PlainUnsigned(s)
    || (s != [] && (s[0] == '+' || s[0] == '-') && PlainUnsigned(s[1..]))
  }

  /** Python's `float(s)` on an already stripped payload in plain decimal notation: an optional sign,
      digits, optionally a point and more digits, with at least one digit in all. */
  function ParseDecimal(s: string): (r: Option<real>)
    ensures r.Some? <==> PlainDecimal(s)
    ensures r.Some? ==> s != []
    ensures r.Some? && r.value < 0.0 ==> s[0] == '-'
  {
    UnsignedIsPlain(s);
    if s != [] && (s[0] == '+' || s[0] == '-') then
      UnsignedIsPlain(s[1..]);
      match ParseUnsignedDecimal(s[1..])
      case None => None
      case Some(x) => Some(if s[0] == '-' then -x else x)
    else
      ParseUnsignedDecimal(s)
  }

  /** `n` written after the point in `k` digits: `n / 10^k`. */
  function Scaled(n: nat, k: nat): real
  {
    n as real / Pow10(k) as real
  }

  function ParseUnsignedDecimal(s: string): (r: Option<real>)
    ensures r.Some? ==> r.value >= 0.0
  {
    var whole := BeforeFirst(s, '.');
    if |whole| == |s| then
      match ParseDigits(s)
      case None => None
      case Some(n) => Some(n as real)
    else
      var fraction := s[|whole| + 1..];
      if AllDigits(whole) && AllDigits(fraction) && |whole| + |fraction| > 0 then
        Some(DigitsValue(whole) as real + Scaled(DigitsValue(fraction), |fraction|))
      else
        None
  }

  /** The unsigned reading accepts exactly plain unsigned notation. */
  lemma UnsignedIsPlain(s: string)
    ensures ParseUnsignedDecimal(s).Some? <==> PlainUnsigned(s)
  {
    PlainUnsignedSplit(s);
  }

  /** Plain unsigned notation, read at its first point: digits only when there is no point, and
      digits on both sides of it, not both empty, when there is one. */
  lemma {:induction false} PlainUnsignedSplit(s: string)
    ensures var whole := BeforeFirst(s, '.');
            PlainUnsigned(s) <==>
              if |whole| == |s| then s != [] && AllDigits(s)
              else AllDigits(whole) && AllDigits(s[|whole| + 1..]) && |whole| + |s[|whole| + 1..]| > 0
  {
    var whole := BeforeFirst(s, '.');
    if |whole| == |s| {
      assert whole == s;
      if s != [] && AllDigits(s) {
        assert IsDigit(s[0]);
      }
    } else {
      var k := |whole|;
      var fraction := s[k + 1..];
      if PlainUnsigned(s) {
        assert forall i :: 0 <= i < k ==> whole[i] == s[i];
        assert forall i :: 0 <= i < |fraction| ==> fraction[i] == s[k + 1 + i];
        var d :| 0 <= d < |s| && IsDigit(s[d]);
        assert d != k;
      }
      if AllDigits(whole) && AllDigits(fraction) && k + |fraction| > 0 {
        PlainAroundPoint(s, k);
      }
    }
  }

  /** A string that is digits, a point at `k`, and digits, with some digit, is plain unsigned notation. */
  lemma PlainAroundPoint(s: string, k: nat)
    requires k < |s| && s[k] == '.' && k + |s[k + 1..]| > 0
    requires AllDigits(s[..k]) && AllDigits(s[k + 1..])
    ensures PlainUnsigned(s)
  {
    forall i | 0 <= i < |s| && i != k
      ensures IsDigit(s[i])
    {
      if i < k {
        assert s[..k][i] == s[i];
      } else {
        assert s[k + 1..][i - k - 1] == s[i];
      }
    }
    var d := if k > 0 then 0 else k + 1;
    assert IsDigit(s[d]);
  }

  /** `int()` reads back what `str()` writes, for every integer. */
  lemma IntRoundTrip(n: int)
    ensures ParseInt(IntToString(n)) == Some(n)
  {
    var digits := NatToString(if n < 0 then -n else n);
    DigitsRoundTrip(if n < 0 then -n else n);
    if n < 0 {
      assert IntToString(n)[1..] == digits;
    } else {
      assert digits[0] != '+' && digits[0] != '-';
    }
  }

  /** `float()` agrees with `int()` on every payload `int()` accepts. */
  lemma DecimalExtendsInt(s: string)
    requires ParseInt(s).Some?
    ensures ParseDecimal(s) == Some(ParseInt(s).value as real)
  {
    if s[0] == '+' || s[0] == '-' {
      UnsignedDigits(s[1..]);
    } else {
      UnsignedDigits(s);
    }
  }

  /** Digits with no point read as the integer they spell. */
  lemma UnsignedDigits(s: string)
    requires s != [] && AllDigits(s)
    ensures ParseUnsignedDecimal(s) == Some(DigitsValue(s) as real)
  {
    assert !IsDigit('.');
    BeforeFirstAll(s, '.');
  }

  /** `float()` on digits, a point and more digits: the digits read as one number, scaled down by
      ten for every digit after the point, as `float("24.99") == 2499 / 100`. */
  lemma {:induction false} ParseDecimalFraction(w: string, f: string)
    requires AllDigits(w) && AllDigits(f) && |w| + |f| > 0
    ensures ParseDecimal(w + "." + f) == Some(Scaled(DigitsValue(w + f), |f|))
  {
    UnsignedFraction(w, f);
    DigitsValueConcat(w, f);
    ScaledSum(ParseDecimal(w + "." + f), DigitsValue(w), DigitsValue(f), DigitsValue(w + f), |f|);
  }

  /** A sign in front of digits, a point and digits: '-' negates the reading `x` and '+' keeps it,
      as `float("-0.5") == -0.5` and `float("+24.5") == 24.5`. */
  lemma SignedFraction(w: string, f: string, x: real)
    requires AllDigits(w) && AllDigits(f) && |w| + |f| > 0 && x == Scaled(DigitsValue(w + f), |f|)
    ensures ParseDecimal("-" + (w + "." + f)) == Some(-x)
    ensures ParseDecimal("+" + (w + "." + f)) == Some(x)
  {
    UnsignedStart(w, f);
    SignInFront(w + "." + f, x);
  }

  /** Digits, a point and digits start with no sign, and read as in `ParseDecimalFraction`. */
  lemma UnsignedStart(w: string, f: string)
    requires AllDigits(w) && AllDigits(f) && |w| + |f| > 0
    ensures var s := w + "." + f;
            && s != [] && s[0] != '+' && s[0] != '-'
            && ParseDecimal(s) == Some(Scaled(DigitsValue(w + f), |f|))
  {
    ParseDecimalFraction(w, f);
    PointSplit(w, f);
  }

  /** A sign put in front of an unsigned payload that reads as `x`: '-' gives `-x` and '+' gives `x`. */
  lemma SignInFront(s: string, x: real)
    requires s != [] && s[0] != '+' && s[0] != '-' && ParseDecimal(s) == Some(x)
    ensures ParseDecimal("-" + s) == Some(-x)
    ensures ParseDecimal("+" + s) == Some(x)
  {
    Unsigned(s);
    assert ("-" + s)[1..] == s && ("+" + s)[1..] == s;
  }

  /** A reading with whole part `a` and a `k`-digit fraction `b` is `v == a * 10^k + b` scaled down. */
  lemma ScaledSum(x: Option<real>, a: nat, b: nat, v: nat, k: nat)
    requires x == Some(a as real + Scaled(b, k)) && v == a * Pow10(k) + b
    ensures x == Some(Scaled(v, k))
  {
    ScaleDown(a, b, k);
  }

  /** The unsigned reading of `w + "." + f`: the whole part plus the scaled fraction. */
  lemma UnsignedFraction(w: string, f: string)
    requires AllDigits(w) && AllDigits(f) && |w| + |f| > 0
    ensures ParseDecimal(w + "." + f) == Some(DigitsValue(w) as real + Scaled(DigitsValue(f), |f|))
  {
    var s := w + "." + f;
    PointSplit(w, f);
    Unsigned(s);
    UnsignedSplit(s, w, f);
  }

  /** Without a sign in front, `float()` is the unsigned reading. */
  lemma Unsigned(s: string)
    requires s != [] && s[0] != '+' && s[0] != '-'
    ensures ParseDecimal(s) == ParseUnsignedDecimal(s)
  {
  }

  /** The unsigned reading of a payload whose part before the first point is `w` and after it `f`. */
  lemma {:induction false} UnsignedSplit(s: string, w: string, f: string)
    requires AllDigits(w) && AllDigits(f) && |w| + |f| > 0
    requires |w| < |s| && BeforeFirst(s, '.') == w && s[|w| + 1..] == f
    ensures ParseUnsignedDecimal(s) == Some(DigitsValue(w) as real + Scaled(DigitsValue(f), |f|))
  {
  }

  /** `w + "." + f` with digits in front splits at that point, and starts with no sign. */
  lemma PointSplit(w: string, f: string)
    requires AllDigits(w)
    ensures var s := w + "." + f;
            && s[0] != '+' && s[0] != '-'
            && |w| < |s| && BeforeFirst(s, '.') == w && s[|w| + 1..] == f
  {
    var s := w + "." + f;
    if w != [] {
      assert s[0] == w[0];
    }
    assert s == w + ("." + f);
    BeforeFirstConcat(w, "." + f, '.');
  }

  /** Scaling `a * 10^k + b` down by `10^k` gives `a` plus `b` scaled down. */
  lemma ScaleDown(a: nat, b: nat, k: nat)
    ensures Scaled(a * Pow10(k) + b, k) == a as real + Scaled(b, k)
  {
    var p := Pow10(k) as real;
    assert (a * Pow10(k) + b) as real == a as real * p + b as real;
    assert (a as real * p + b as real) / p == a as real + b as real / p;
  }

  /** A payload with two points is refused, as `float("1.2.3")` raises. */
  lemma TwoPointsRefused(s: string, i: nat, j: nat)
    requires i < j < |s| && s[i] == '.' && s[j] == '.'
    ensures ParseDecimal(s) == None
  {
    if s[0] == '+' || s[0] == '-' {
      assert s[1..][i - 1] == s[i] && s[1..][j - 1] == s[j];
    }
  }

  /** Characters Python's `float()` refuses wherever they stand: ASCII, and not a digit, white space,
      a sign, a point, an exponent mark, an underscore, or a letter of "inf", "infinity" or "nan". */
  predicate FloatNeverAccepts(c: char)
  {
    c < '\U{80}' && !IsDigit(c) && !IsSpace(c) && c !in "+-.eE_iInNfFtTyYaA"
  }

  /** A payload holding a character that `float()` never accepts is refused. */
  lemma DecimalRefusesText(s: string, i: nat)
    requires i < |s| && FloatNeverAccepts(s[i])
    ensures ParseDecimal(s) == None
  {
    var body := if s[0] == '+' || s[0] == '-' then s[1..] else s;
    var j := if s[0] == '+' || s[0] == '-' then i - 1 else i;
    assert body[j] == s[i];
    var whole := BeforeFirst(body, '.');
    if |whole| < |body| {
      if j < |whole| {
        assert whole[j] == body[j];
      } else {
        assert body[|whole| + 1..][j - |whole| - 1] == body[j];
      }
    }
  }
}
