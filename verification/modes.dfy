/**
 The experiment mode string of the ablation script
 (`regular`, `regular_orig`, `sena_<k>`, `sena_delta_<k>`, `l1_<k>`) and
 the Python string and number conversions its dispatch goes through:
 `str.split`, the `in` substring test, `float()`, `int()` and
 `eval('1e-' + str(n))`.
 */
module Modes {
  import opened Failures

  // ---------------------------------------------------------------------
  // str.split and the substring test
  // ---------------------------------------------------------------------

  /** `s.split(sep)`: the fields between separators, one more than there are separators. */
  function Split(s: string, sep: char): (r: seq<string>)
    ensures |r| >= 1
  {
    if |s| == 0 then [""]
    else
      var rest := Split(s[1..], sep);
      if s[0] == sep then [""] + rest
      else [[s[0]] + rest[0]] + rest[1..]
  }

  /** `sep.join(fields)`. */
  function Join(fields: seq<string>, sep: char): string
  {
    if |fields| == 0 then ""
    else if |fields| == 1 then fields[0]
    else fields[0] + [sep] + Join(fields[1..], sep)
  }

  /** Joining the fields with the separator gives back the split string. */
  lemma {:induction false} JoinSplit(s: string, sep: char)
    ensures Join(Split(s, sep), sep) == s
    decreases |s|
  {
    if |s| > 0 {
      var rest := Split(s[1..], sep);
      JoinSplit(s[1..], sep);
      if s[0] == sep {
        assert s == [sep] + s[1..];
      } else {
        var r := [[s[0]] + rest[0]] + rest[1..];
        if |rest| == 1 {
          assert s == [s[0]] + s[1..];
        } else {
          assert rest == [rest[0]] + rest[1..];
          assert Join(rest, sep) == rest[0] + [sep] + Join(rest[1..], sep);
          assert r[1..] == rest[1..];
          assert s == [s[0]] + s[1..];
        }
      }
    }
  }

  /** No field of a split contains the separator. */
  lemma {:induction false} SplitFieldsFree(s: string, sep: char)
    ensures forall i | 0 <= i < |Split(s, sep)| :: sep !in Split(s, sep)[i]
    decreases |s|
  {
    if |s| > 0 {
      SplitFieldsFree(s[1..], sep);
    }
  }

  lemma {:induction false} SplitNoSeparator(s: string, sep: char)
    requires sep !in s
    ensures Split(s, sep) == [s]
    decreases |s|
  {
    if |s| > 0 {
      SplitNoSeparator(s[1..], sep);
      assert s == [s[0]] + s[1..];
    }
  }

  lemma {:induction false} SplitAfterField(a: string, sep: char, b: string)
    requires sep !in a
    ensures Split(a + [sep] + b, sep) == [a] + Split(b, sep)
    decreases |a|
  {
    if |a| == 0 {
      assert a + [sep] + b == [sep] + b;
      assert ([sep] + b)[1..] == b;
    } else {
      var s := a + [sep] + b;
      assert s[1..] == a[1..] + [sep] + b;
      SplitAfterField(a[1..], sep, b);
      assert [a[0]] + a[1..] == a;
    }
  }

  /** Python's `sub in s` for strings. */
  predicate Contains(s: string, sub: string)
    decreases |s|
  {
    sub <= s || (|s| > 0 && Contains(s[1..], sub))
  }

  /** `sub` occurs in `s` starting at offset `i`. */
  predicate OccursAt(s: string, sub: string, i: int)
  {
    0 <= i <= |s| - |sub| && s[i..i + |sub|] == sub
  }

  /** An occurrence at offset `i` is an occurrence at `i - 1` of the tail. */
  lemma OccursInTail(s: string, sub: string, i: int)
    requires |s| > 0 && i >= 1
    ensures OccursAt(s, sub, i) <==> OccursAt(s[1..], sub, i - 1)
  {
    if 0 <= i - 1 <= |s| - 1 - |sub| {
      assert s[1..][i - 1..i - 1 + |sub|] == s[i..i + |sub|];
    }
  }

  /** An occurrence at any offset makes the substring test succeed. */
  lemma {:induction false} OccursContains(s: string, sub: string, i: int)
    requires OccursAt(s, sub, i)
    ensures Contains(s, sub)
    decreases i
  {
    if i > 0 {
      OccursInTail(s, sub, i);
      OccursContains(s[1..], sub, i - 1);
    } else {
      assert s[..|sub|] == sub;
    }
  }

  /** A successful substring test has an offset where `sub` occurs. */
  lemma {:induction false} ContainsOccurs(s: string, sub: string) returns (i: int)
    requires Contains(s, sub)
    ensures OccursAt(s, sub, i)
    decreases |s|
  {
    if sub <= s {
      assert s[0..|sub|] == sub;
      i := 0;
    } else {
      var j := ContainsOccurs(s[1..], sub);
      OccursInTail(s, sub, j + 1);
      i := j + 1;
    }
  }

  /** The substring test holds exactly when `sub` occurs at some offset. */
  lemma ContainsOffset(s: string, sub: string)
    ensures Contains(s, sub) <==> exists i :: OccursAt(s, sub, i)
  {
    if Contains(s, sub) {
      var i := ContainsOccurs(s, sub);
    }
    if exists i :: OccursAt(s, sub, i) {
      var i :| OccursAt(s, sub, i);
      OccursContains(s, sub, i);
    }
  }

  // ---------------------------------------------------------------------
  // float(), int() and eval('1e-' + str(n))
  // ---------------------------------------------------------------------

  /** A Python float: a finite value (kept exact) or one of the special values. */
  datatype PyFloat = Finite(v: real) | PosInf | NegInf | NaN

  predicate IsDigit(c: char)
  {
    '0' <= c <= '9'
  }

  predicate AllDigits(s: string)
  {
    forall i | 0 <= i < |s| :: IsDigit(s[i])
  }

  /** ASCII whitespace as `str.strip()` and `float()` see it. */
  predicate IsSpace(c: char)
  {
    c == ' ' || 9 <= c as int <= 13 || 28 <= c as int <= 31
  }

  function StripLeft(s: string): (r: string)
    ensures |r| == 0 || !IsSpace(r[0])
    ensures r <= s || exists k :: 0 <= k <= |s| && r == s[k..]
  {
    if |s| > 0 && IsSpace(s[0]) then StripLeft(s[1..]) else s
  }

  function StripRight(s: string): string
  {
    if |s| > 0 && IsSpace(s[|s| - 1]) then StripRight(s[..|s| - 1]) else s
  }

  function Strip(s: string): string
  {
    StripRight(StripLeft(s))
  }

  function DigitValue(c: char): nat
    requires IsDigit(c)
  {
    (c as int) - ('0' as int)
  }

  /** The value of a decimal numeral, most significant digit first. */
  function DigitsValue(s: string): nat
    requires AllDigits(s)
  {
    if |s| == 0 then 0 else DigitsValue(s[..|s| - 1]) * 10 + DigitValue(s[|s| - 1])
  }

  function Pow10(n: nat): (p: nat)
    ensures p >= 1
  {
    if n == 0 then 1 else 10 * Pow10(n - 1)
  }

  /** 10^-n, by repeated division so that the arithmetic stays linear. */
  function Tenth(n: nat): (t: real)
    ensures 0.0 < t <= 1.0
  {
    if n == 0 then 1.0 else Tenth(n - 1) / 10.0
  }

  /** 10^-n is the inverse of 10^n. */
  lemma {:induction false} TenthInverse(n: nat)
    ensures Tenth(n) * (Pow10(n) as real) == 1.0
  {
    if n > 0 {
      TenthInverse(n - 1);
      var t := Tenth(n - 1);
      var p := Pow10(n - 1) as real;
      assert Tenth(n) * (Pow10(n) as real) == (t / 10.0) * (10.0 * p);
      assert (t / 10.0) * (10.0 * p) == t * p;
    }
  }

  /** The value of the digits after a decimal point: 0.d1 d2 d3 ... */
  function FracValue(s: string): real
    requires AllDigits(s)
  {
    if |s| == 0 then 0.0 else (DigitValue(s[0]) as real + FracValue(s[1..])) / 10.0
  }

  /** ASCII lower-casing, enough to recognise `inf`, `infinity` and `nan`. */
  function Lower(s: string): (r: string)
    ensures |r| == |s|
    ensures forall i | 0 <= i < |s| :: IsDigit(s[i]) ==> r[i] == s[i]
  {
    if |s| == 0 then ""
    else [if 'A' <= s[0] <= 'Z' then (s[0] as int + 32) as char else s[0]] + Lower(s[1..])
  }

  /** The first index holding `a` or `b`, or `|s|` when there is none. */
  function IndexOfEither(s: string, a: char, b: char): (i: nat)
    ensures i <= |s|
    ensures forall j | 0 <= j < i :: s[j] != a && s[j] != b
    ensures i < |s| ==> s[i] == a || s[i] == b
  {
    if |s| == 0 || s[0] == a || s[0] == b then 0 else 1 + IndexOfEither(s[1..], a, b)
  }

  /** A decimal exponent: an optional sign followed by at least one digit. */
  function ParseExponent(s: string): Option<int>
  {
    var neg := |s| > 0 && s[0] == '-';
    var digits := if |s| > 0 && (s[0] == '+' || s[0] == '-') then s[1..] else s;
    if |digits| > 0 && AllDigits(digits) then
      Some(if neg then -(DigitsValue(digits) as int) else DigitsValue(digits))
    else None
  }

  /** `v * 10**e`, exactly, one factor of ten at a time. */
  function Scale(v: real, e: int): real
    decreases if e >= 0 then e else -e
  {
    if e == 0 then v
    else if e > 0 then Scale(v, e - 1) * 10.0
    else Scale(v, e + 1) / 10.0
  }

  /** An unsigned float literal: `inf`, `infinity`, `nan` or a decimal with optional exponent. */
  function ParseUnsignedFloat(u: string): Option<PyFloat>
  {
    var low := Lower(u);
    if low == "inf" || low == "infinity" then Some(PosInf)
    else if low == "nan" then Some(NaN)
    else ParseDecimal(u)
  }

  /** Digits with an optional point, then an optional exponent after `e` or `E`. */
  function ParseDecimal(u: string): Option<PyFloat>
  {
    var e := IndexOfEither(u, 'e', 'E');
    ParseMantissa(u[..e], if e < |u| then ParseExponent(u[e + 1..]) else Some(0))
  }

  /** Digits with an optional point and at least one digit, scaled by the exponent. */
  function ParseMantissa(mantissa: string, exponent: Option<int>): Option<PyFloat>
  {
    var d := IndexOfEither(mantissa, '.', '.');
    var whole := mantissa[..d];
    var frac := if d < |mantissa| then mantissa[d + 1..] else "";
    if AllDigits(whole) && AllDigits(frac) && |whole| + |frac| > 0 && exponent.Some? then
      var v := DigitsValue(whole) as real + FracValue(frac);
      Some(Finite(Scale(v, exponent.value)))
    else None
  }

  function Negate(f: PyFloat): PyFloat
  {
    match f
    case Finite(v) => Finite(-v)
    case PosInf => NegInf
    case NegInf => PosInf
    case NaN => NaN
  }

  /** `float(s)`: surrounding whitespace is ignored; anything unparsable raises ValueError. */
  function ParseFloat(s: string): Result<PyFloat>
  {
    var t := Strip(s);
    var signed := |t| > 0 && (t[0] == '+' || t[0] == '-');
    match ParseUnsignedFloat(if signed then t[1..] else t)
    case None => Failure(ValueError)
    case Some(f) => Success(if signed && t[0] == '-' then Negate(f) else f)
  }

  /** Truncation toward zero, as `int()` does for a finite float. */
  function Trunc(v: real): int
  {
    if v >= 0.0 then v.Floor else -((-v).Floor)
  }

  /** `int(f)`: infinities overflow, NaN is a ValueError. */
  function PyInt(f: PyFloat): Result<int>
  {
    match f
    case Finite(v) => Success(Trunc(v))
    case PosInf => Failure(OverflowError)
    case NegInf => Failure(OverflowError)
    case NaN => Failure(ValueError)
  }

  /** `f > 0` on a Python float (every comparison with NaN is false). */
  predicate IsPositive(f: PyFloat)
  {
    match f
    case Finite(v) => v > 0.0
    case PosInf => true
    case NegInf => false
    case NaN => false
  }

  /**
   `eval(f'1e-{n}')`: for n >= 0 the literal 10^-n; for a negative n the
   text reads `1e--…`, which is not a valid literal.
   */
  function OneEMinus(n: int): (r: Result<real>)
    ensures n >= 0 <==> r.Success?
    ensures r.Success? ==> 0.0 < r.value <= 1.0
  {
    if n >= 0 then Success(Tenth(n)) else Failure(SyntaxError)
  }

  /** The evaluated literal `1e-<n>` times 10^n is exactly 1. */
  lemma OneEMinusInverse(n: int)
    requires n >= 0
    ensures OneEMinus(n).value * (Pow10(n) as real) == 1.0
  {
    TenthInverse(n);
  }

  // ---------------------------------------------------------------------
  // The mode dispatch of run_model
  // ---------------------------------------------------------------------

  /** What a mode string selects, with its relaxation probability or L1 weight. */
  datatype Mode =
    | Regular
    | RegularOrig
    | Sena(sp: real)
    | SenaDelta(sp: real)
    | L1(lambda: real)

  /** `fields[i]`, which raises IndexError past the end. */
  function Field(fields: seq<string>, i: nat): (r: Result<string>)
    ensures r.Success? <==> i < |fields|
  {
    if i < |fields| then Success(fields[i]) else Failure(IndexError)
  }

  /**
   The relaxation probability of a sena mode: `1e-int(k)` when the parsed
   suffix is positive, exactly 0 otherwise.
   */
  function SparsityOf(field: string): Result<real>
  {
    var num :- ParseFloat(field);
    if IsPositive(num) then
      var n :- PyInt(num);
      OneEMinus(n)
    else Success(0.0)
  }

  /** The L1 weight of an `l1_<k>` mode: `1e-int(k)`, with no guard for k <= 0. */
  function L1WeightOf(field: string): Result<real>
  {
    var num :- ParseFloat(field);
    var n :- PyInt(num);
    OneEMinus(n)
  }

  /**
   The mode branch of run_model. A string no branch accepts leaves the model
   unbound, so the first use of it raises NameError.
   */
  function ParseMode(mode: string): (r: Result<Mode>)
    ensures r.Success? && (r.value.Sena? || r.value.SenaDelta?) ==> 0.0 <= r.value.sp <= 1.0
    ensures r.Success? && r.value.L1? ==> 0.0 < r.value.lambda <= 1.0
  {
    if mode == "regular" then Success(Regular)
    else if mode == "regular_orig" then Success(RegularOrig)
    else if "sena" <= mode then
      if Contains(mode, "delta") then
        var field :- Field(Split(mode, '_'), 2);
        var sp :- SparsityOf(field);
        Success(SenaDelta(sp))
      else
        var field :- Field(Split(mode, '_'), 1);
        var sp :- SparsityOf(field);
        Success(Sena(sp))
    else if "l1" <= mode then
      var field :- Field(Split(mode, '_'), 1);
      var lambda :- L1WeightOf(field);
      Success(L1(lambda))
    else Failure(NameError)
  }

  // ---------------------------------------------------------------------
  // What the dispatch promises
  // ---------------------------------------------------------------------

  function DigitChar(d: nat): (c: char)
    requires d < 10
    ensures IsDigit(c) && DigitValue(c) == d
  {
    ('0' as int + d) as char
  }

  /** `str(n)` for a natural number. */
  function NatToString(n: nat): (s: string)
    ensures |s| >= 1 && AllDigits(s)
  {
    if n < 10 then [DigitChar(n)] else NatToString(n / 10) + [DigitChar(n % 10)]
  }

  lemma {:induction false} NatToStringValue(n: nat)
    ensures DigitsValue(NatToString(n)) == n
  {
    var s := NatToString(n);
    if n < 10 {
      assert s[..0] == "";
    } else {
      NatToStringValue(n / 10);
      assert s[..|s| - 1] == NatToString(n / 10);
    }
  }

  lemma {:induction false} DigitsHaveNoSpace(s: string)
    requires |s| >= 1 && AllDigits(s)
    ensures Strip(s) == s
  {
    assert StripLeft(s) == s;
  }

  lemma {:induction false} DigitsFindNone(s: string, a: char, b: char)
    requires AllDigits(s) && !IsDigit(a) && !IsDigit(b)
    ensures IndexOfEither(s, a, b) == |s|
  {
  }

  lemma {:induction false} ParseMantissaDigits(s: string)
    requires |s| >= 1 && AllDigits(s)
    ensures ParseMantissa(s, Some(0)) == Some(Finite(DigitsValue(s) as real))
  {
    DigitsFindNone(s, '.', '.');
    var whole := s[..IndexOfEither(s, '.', '.')];
    assert whole == s;
    assert AllDigits("");
    assert DigitsValue("") == 0;
    var v := DigitsValue(whole) as real + FracValue("");
    assert v == DigitsValue(s) as real;
    assert Scale(v, 0) == v;
  }

  lemma {:induction false} ParseUnsignedDigits(s: string)
    requires |s| >= 1 && AllDigits(s)
    ensures ParseUnsignedFloat(s) == Some(Finite(DigitsValue(s) as real))
  {
    assert Lower(s) == s;
    assert IsDigit(s[0]);
    assert s != "inf" && s != "infinity" && s != "nan";
    DigitsFindNone(s, 'e', 'E');
    assert s[..|s|] == s;
    ParseMantissaDigits(s);
  }

  /** `float(str(n))` is `n`. */
  lemma ParseFloatNatToString(n: nat)
    ensures ParseFloat(NatToString(n)) == Success(Finite(n as real))
  {
    var s := NatToString(n);
    DigitsHaveNoSpace(s);
    NatToStringValue(n);
    assert IsDigit(s[0]);
    ParseUnsignedDigits(s);
  }

  /** The mode strings the experiments are run with, by their parameters. */
  datatype ModeName =
    | RegularName
    | RegularOrigName
    | SenaName(k: nat)
    | SenaDeltaName(k: nat)
    | L1Name(k: nat)

  /** The command-line text of a mode. */
  function ModeText(m: ModeName): string
  {
    match m
    case RegularName => "regular"
    case RegularOrigName => "regular_orig"
    case SenaName(k) => "sena_" + NatToString(k)
    case SenaDeltaName(k) => "sena_delta_" + NatToString(k)
    case L1Name(k) => "l1_" + NatToString(k)
  }

  /**
   The configuration a mode stands for, written out independently of the
   parser: sena suffix 0 means strict masking, suffix k > 0 means 10^-k;
   the L1 weight is 10^-k for every k, so `l1_0` weighs the penalty by 1.
   */
  function Intended(m: ModeName): Mode
  {
    match m
    case RegularName => Regular
    case RegularOrigName => RegularOrig
    case SenaName(k) => Sena(if k == 0 then 0.0 else Tenth(k))
    case SenaDeltaName(k) => SenaDelta(if k == 0 then 0.0 else Tenth(k))
    case L1Name(k) => L1(Tenth(k))
  }

  /** A string without the first character of `sub` does not contain `sub`. */
  lemma {:induction false} MissingFirstChar(s: string, sub: string)
    requires |sub| > 0 && sub[0] !in s
    ensures !Contains(s, sub)
    decreases |s|
  {
    if |s| > 0 {
      MissingFirstChar(s[1..], sub);
      assert s[0] in s;
    }
  }

  lemma {:induction false} DigitsHaveNoUnderscore(d: string)
    requires AllDigits(d)
    ensures '_' !in d
  {
  }

  /** `sena_<digits>` splits into `sena` and the digits, and does not contain `delta`. */
  lemma {:induction false} SenaTextShape(d: string)
    requires |d| >= 1 && AllDigits(d)
    ensures Split("sena_" + d, '_') == ["sena", d]
    ensures !Contains("sena_" + d, "delta")
    ensures "sena" <= "sena_" + d
  {
    var t := "sena_" + d;
    assert t == "sena" + ['_'] + d;
    DigitsHaveNoUnderscore(d);
    SplitAfterField("sena", '_', d);
    SplitNoSeparator(d, '_');
    assert 'd' !in t by {
      forall i | 0 <= i < |t| ensures t[i] != 'd' {
        if i >= 5 {
          assert t[i] == d[i - 5];
          assert IsDigit(d[i - 5]);
        }
      }
    }
    MissingFirstChar(t, "delta");
    assert t[..4] == "sena";
  }

  /** `sena_delta_<digits>` splits into `sena`, `delta` and the digits. */
  lemma {:induction false} SenaDeltaTextShape(d: string)
    requires |d| >= 1 && AllDigits(d)
    ensures Split("sena_delta_" + d, '_') == ["sena", "delta", d]
    ensures Contains("sena_delta_" + d, "delta")
    ensures "sena" <= "sena_delta_" + d
  {
    var t := "sena_delta_" + d;
    assert t == "sena" + ['_'] + ("delta" + ['_'] + d);
    DigitsHaveNoUnderscore(d);
    SplitAfterField("sena", '_', "delta" + ['_'] + d);
    SplitAfterField("delta", '_', d);
    SplitNoSeparator(d, '_');
    assert t[5..10] == "delta";
    OccursContains(t, "delta", 5);
    assert t[..4] == "sena";
  }

  /** `l1_<digits>` splits into `l1` and the digits. */
  lemma {:induction false} L1TextShape(d: string)
    requires |d| >= 1 && AllDigits(d)
    ensures Split("l1_" + d, '_') == ["l1", d]
    ensures "l1" <= "l1_" + d
  {
    var t := "l1_" + d;
    assert t == "l1" + ['_'] + d;
    DigitsHaveNoUnderscore(d);
    SplitAfterField("l1", '_', d);
    SplitNoSeparator(d, '_');
    assert t[..2] == "l1";
  }

  lemma {:induction false} ParseSenaText(k: nat)
    ensures ParseMode("sena_" + NatToString(k)) == Success(Intended(SenaName(k)))
  {
    var d := NatToString(k);
    SenaTextShape(d);
    ParseFloatNatToString(k);
    assert Trunc(k as real) == k;
    SenaSparsityRule("sena_" + d, k as real);
  }

  lemma {:induction false} ParseSenaDeltaText(k: nat)
    ensures ParseMode("sena_delta_" + NatToString(k)) == Success(Intended(SenaDeltaName(k)))
  {
    var d := NatToString(k);
    SenaDeltaTextShape(d);
    ParseFloatNatToString(k);
    assert Trunc(k as real) == k;
    SenaDeltaSparsityRule("sena_delta_" + d, k as real);
  }

  lemma {:induction false} ParseL1Text(k: nat)
    ensures ParseMode("l1_" + NatToString(k)) == Success(Intended(L1Name(k)))
  {
    var d := NatToString(k);
    L1TextShape(d);
    ParseFloatNatToString(k);
    assert Trunc(k as real) == k;
    L1WeightRule("l1_" + d, k as real);
  }

  /** Every mode text parses to the configuration it stands for. */
  lemma ParseModeText(m: ModeName)
    ensures ParseMode(ModeText(m)) == Success(Intended(m))
  {
    match m
    case RegularName =>
    case RegularOrigName =>
    case SenaName(k) => ParseSenaText(k);
    case SenaDeltaName(k) => ParseSenaDeltaText(k);
    case L1Name(k) => ParseL1Text(k);
  }

  /** The worked example `sena_3`: strict masking relaxed with probability 1e-3. */
  lemma {:induction false} SenaThreeExample()
    ensures ParseMode("sena_3") == Success(Sena(0.001))
  {
    assert NatToString(3) == "3";
    assert "sena_" + "3" == "sena_3";
    assert Tenth(3) == 0.001;
    ParseSenaText(3);
  }

  /** The worked example `sena_delta_0`: suffix 0 means strict masking, sp = 0 exactly. */
  lemma {:induction false} SenaDeltaZeroExample()
    ensures ParseMode("sena_delta_0") == Success(SenaDelta(0.0))
  {
    assert NatToString(0) == "0";
    assert "sena_delta_" + "0" == "sena_delta_0";
    ParseSenaDeltaText(0);
  }

  /** The worked example `l1_2`: L1 weight 1e-2. */
  lemma {:induction false} L1TwoExample()
    ensures ParseMode("l1_2") == Success(L1(0.01))
  {
    ParseL1Text(2);
    assert NatToString(2) == "2";
    assert "l1_" + NatToString(2) == "l1_2";
    assert Intended(L1Name(2)) == L1(0.01) by {
      assert Tenth(2) == 0.01;
    }
  }

  /** `l1_0` has no zero guard: the weight is 1e-0 = 1. */
  lemma {:induction false} L1ZeroExample()
    ensures ParseMode("l1_0") == Success(L1(1.0))
  {
    assert NatToString(0) == "0";
    assert "l1_" + "0" == "l1_0";
    ParseL1Text(0);
  }

  /**
   Which variant a parsed mode is depends only on its prefix and on whether
   it contains `delta`; in particular the L1 variant is exactly the modes
   whose text starts with `l1`.
   */
  lemma ModeVariantByText(mode: string)
    requires ParseMode(mode).Success?
    ensures ParseMode(mode).value.Regular? <==> mode == "regular"
    ensures ParseMode(mode).value.RegularOrig? <==> mode == "regular_orig"
    ensures ParseMode(mode).value.Sena? <==> "sena" <= mode && !Contains(mode, "delta")
    ensures ParseMode(mode).value.SenaDelta? <==> "sena" <= mode && Contains(mode, "delta")
    ensures ParseMode(mode).value.L1? <==> "l1" <= mode
  {
    if "l1" <= mode {
      assert mode[0] == 'l';
    }
    if "sena" <= mode {
      assert mode[0] == 's';
    }
  }

  /**
   A sena mode without `delta` reads its suffix from the second field:
   the probability is 10^-trunc(k) for k > 0 and exactly 0 otherwise.
   */
  lemma SenaSparsityRule(mode: string, v: real)
    requires "sena" <= mode && !Contains(mode, "delta")
    requires |Split(mode, '_')| >= 2 && ParseFloat(Split(mode, '_')[1]) == Success(Finite(v))
    ensures ParseMode(mode) == Success(Sena(if v > 0.0 then Tenth(Trunc(v)) else 0.0))
  {
    assert mode[0] == 's';
  }

  /** A sena mode containing `delta` reads the same rule from the third field. */
  lemma SenaDeltaSparsityRule(mode: string, v: real)
    requires "sena" <= mode && Contains(mode, "delta")
    requires |Split(mode, '_')| >= 3 && ParseFloat(Split(mode, '_')[2]) == Success(Finite(v))
    ensures ParseMode(mode) == Success(SenaDelta(if v > 0.0 then Tenth(Trunc(v)) else 0.0))
  {
    assert mode[0] == 's';
  }

  /** An l1 mode has weight 10^-trunc(k) with no zero guard; a negative truncation cannot be evaluated. */
  lemma L1WeightRule(mode: string, v: real)
    requires "l1" <= mode
    requires |Split(mode, '_')| >= 2 && ParseFloat(Split(mode, '_')[1]) == Success(Finite(v))
    ensures Trunc(v) >= 0 ==> ParseMode(mode) == Success(L1(Tenth(Trunc(v))))
    ensures Trunc(v) < 0 ==> ParseMode(mode) == Failure(SyntaxError)
  {
    assert mode[0] == 'l';
  }

  /** A suffix `float()` rejects makes the whole dispatch fail; nothing defaults. */
  lemma NonNumericSuffixFails(mode: string, i: nat)
    requires ("sena" <= mode && Contains(mode, "delta") && i == 2)
          || ("sena" <= mode && !Contains(mode, "delta") && i == 1)
          || ("l1" <= mode && i == 1)
    requires i < |Split(mode, '_')| && ParseFloat(Split(mode, '_')[i]).Failure?
    ensures ParseMode(mode) == Failure(ValueError)
  {
    var field := Split(mode, '_')[i];
    assert ParseFloat(field) == Failure(ValueError);
    assert mode != "regular" && mode != "regular_orig" by {
      assert mode[0] == 's' || mode[0] == 'l';
    }
    assert Field(Split(mode, '_'), i) == Success(field);
    if "sena" <= mode {
      assert SparsityOf(field) == Failure(ValueError);
    } else {
      assert L1WeightOf(field) == Failure(ValueError);
    }
  }

  /** A missing suffix field is an IndexError. */
  lemma MissingSuffixFails(mode: string)
    requires "sena" <= mode || "l1" <= mode
    requires |Split(mode, '_')| == 1
    ensures ParseMode(mode) == Failure(IndexError)
  {
    assert mode[0] == 's' || mode[0] == 'l';
  }

  /** A fractional sena suffix in (0, 1) truncates to 0 and so relaxes fully: sp = 1e-0 = 1. */
  lemma SparsityFractionQuirk(field: string, v: real)
    requires ParseFloat(field) == Success(Finite(v)) && 0.0 < v < 1.0
    ensures SparsityOf(field) == Success(1.0)
  {
    assert Trunc(v) == 0;
  }
}
