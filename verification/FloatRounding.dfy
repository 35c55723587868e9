/** Turning float literals into integer text by moving and rounding decimal digits, never through a
    binary float. */
module FloatRounding {
  import opened Common
  import opened Decimal
  import opened FloatPrefix

  // ------------------------------------------------------------- integer text

  function SignLen(s: string): (n: nat)
    ensures n <= 1 && n <= |s|
  {
    if s != "" && IsSignChar(s[0]) then 1 else 0
  }

  function Body(s: string): string {
    s[SignLen(s)..]
  }

  predicate IsNegative(s: string) {
    s != "" && s[0] == '-'
  }

  /** sign? d+ */
  predicate IsIntText(s: string) {
    Body(s) != "" && AllDigits(Body(s))
  }

  function IntValue(s: string): int
    requires IsIntText(s)
  {
    Signed(IsNegative(s), Value(Body(s)))
  }

  // ------------------------------------------------------------- rounding

  /** `n` is `mantissa * 10^scale` rounded to the nearest integer, halves away from zero. */
  ghost predicate RoundsTo(mantissa: nat, scale: int, n: nat) {
    if scale >= 0 then n == mantissa * Pow10(scale)
    else (2 * n - 1) * Pow10(-scale) <= 2 * mantissa < (2 * n + 1) * Pow10(-scale)
  }

  /** `k` digits appended, or dropped, on the right. */
  function Shift(m: nat, k: nat): nat {
    if k == 0 then m else 10 * Shift(m, k - 1)
  }

  function Drop(m: nat, k: nat): nat {
    if k == 0 then m else Drop(m / 10, k - 1)
  }

  /** Rounding one digit at a time: the first dropped digit decides. */
  function Rounded(mantissa: nat, scale: int): nat {
    if scale >= 0 then Shift(mantissa, scale) else (Drop(mantissa, -scale - 1) + 5) / 10
  }

  lemma TimesTen(m: nat, p: nat)
    ensures 10 * (m * p) == m * (10 * p)
  { }

  lemma {:induction false} ShiftIsProduct(m: nat, k: nat)
    ensures Shift(m, k) == m * Pow10(k)
  {
    if k > 0 {
      ShiftIsProduct(m, k - 1);
      TimesTen(m, Pow10(k - 1));
    }
  }

  lemma {:induction false} DropIsQuotient(m: nat, k: nat) returns (rest: nat)
    ensures m == Drop(m, k) * Pow10(k) + rest && rest < Pow10(k)
    decreases k
  {
    if k == 0 {
      rest := 0;
    } else {
      rest := DropIsQuotient(m / 10, k - 1);
      rest := 10 * rest + m % 10;
      TimesTen(Drop(m, k), Pow10(k - 1));
    }
  }

  lemma MulMonotone(a: int, b: int, p: nat)
    requires a <= b
    ensures a * p <= b * p
  { }

  lemma Regroup(a: int, p: nat)
    ensures a * (10 * p) == (10 * a) * p
  { }

  lemma HalfUp(m: nat, d: nat, rest: nat, p: nat, n: nat)
    requires m == d * p + rest && rest < p && n == (d + 5) / 10
    ensures (2 * n - 1) * (10 * p) <= 2 * m < (2 * n + 1) * (10 * p)
  {
    Regroup(2 * n - 1, p);
    Regroup(2 * n + 1, p);
    MulMonotone(20 * n - 10, 2 * d, p);
    MulMonotone(2 * d + 2, 20 * n + 10, p);
    Doubled(d, p);
  }

  lemma Doubled(d: nat, p: nat)
    ensures (2 * d) * p == 2 * (d * p) && (2 * d + 2) * p == 2 * (d * p) + 2 * p
  { }

  /** Looking at one digit only is rounding to the nearest integer, halves away from zero, and there is no
      other nearest integer. */
  lemma RoundedIsNearest(mantissa: nat, scale: int, n: nat)
    ensures RoundsTo(mantissa, scale, n) <==> n == Rounded(mantissa, scale)
  {
    var r := Rounded(mantissa, scale);
    if scale >= 0 {
      ShiftIsProduct(mantissa, scale);
    } else {
      var k: nat := -scale - 1;
      var rest := DropIsQuotient(mantissa, k);
      HalfUp(mantissa, Drop(mantissa, k), rest, Pow10(k), r);
      assert RoundsTo(mantissa, scale, r);
      if RoundsTo(mantissa, scale, n) {
        NearestIsUnique(mantissa, Pow10(-scale), n, r);
      }
    }
  }

  lemma NearestIsUnique(m: nat, p: nat, a: nat, b: nat)
    requires (2 * a - 1) * p <= 2 * m < (2 * a + 1) * p && (2 * b - 1) * p <= 2 * m < (2 * b + 1) * p
    ensures a == b
  {
    if a < b {
      MulMonotone(2 * a + 1, 2 * b - 1, p);
    } else if b < a {
      MulMonotone(2 * b + 1, 2 * a - 1, p);
    }
  }

  function Carry(ds: string, p: nat): nat {
    if p < |ds| && ds[p] >= '5' then 1 else 0
  }

  lemma {:induction false} DropDigits(ds: string, p: nat)
    requires AllDigits(ds) && p <= |ds|
    ensures Drop(Value(ds), |ds| - p) == Value(ds[..p])
    decreases |ds|
  {
    if p < |ds| {
      var front := ds[..|ds| - 1];
      DropDigits(front, p);
      assert front[..p] == ds[..p];
    } else {
      assert ds[..p] == ds;
    }
  }

  lemma NextDigitDecides(v: nat, d: nat)
    requires d < 10
    ensures (10 * v + d + 5) / 10 == v + if d >= 5 then 1 else 0
  { }

  lemma KeepSome(ds: string, p: nat)
    requires AllDigits(ds) && p < |ds|
    ensures Rounded(Value(ds), p - |ds|) == (10 * Value(ds[..p]) + DigitOf(ds[p]) + 5) / 10
  {
    DropDigits(ds, p + 1);
    ValueSnoc(ds[..p], ds[p]);
    assert ds[..p + 1] == ds[..p] + [ds[p]];
  }

  /** Keeping the first `p` digits and carrying by the next one rounds half away from zero. */
  lemma KeepAndCarry(ds: string, p: nat)
    requires AllDigits(ds) && p <= |ds|
    ensures Value(ds[..p]) + Carry(ds, p) == Rounded(Value(ds), p - |ds|)
  {
    if p < |ds| {
      KeepSome(ds, p);
      NextDigitDecides(Value(ds[..p]), DigitOf(ds[p]));
    } else {
      assert ds[..p] == ds;
    }
  }

  lemma {:induction false} DropAll(ds: string, k: nat)
    requires AllDigits(ds) && k >= |ds|
    ensures Drop(Value(ds), k) == 0
    decreases k
  {
    if k > 0 {
      DropAll(if ds == "" then "" else ds[..|ds| - 1], k - 1);
    }
  }

  /** With the point left of every digit and at least one zero between, nothing remains. */
  lemma TooSmallToCount(ds: string, p: int)
    requires AllDigits(ds) && p < 0
    ensures Rounded(Value(ds), p - |ds|) == 0
  {
    DropAll(ds, |ds| - p - 1);
  }

  lemma {:induction false} PaddingIsExact(ds: string, n: nat)
    requires AllDigits(ds)
    ensures AllDigits(ds + Zeros(n)) && Value(ds + Zeros(n)) == Rounded(Value(ds), n)
    decreases n
  {
    if n > 0 {
      PaddingIsExact(ds, n - 1);
      ValueSnoc(ds + Zeros(n - 1), '0');
      assert ds + Zeros(n) == ds + Zeros(n - 1) + ['0'];
    } else {
      assert ds + Zeros(0) == ds;
    }
  }

  // ------------------------------------------------------------- carrying on text

  function Next(c: char): (r: char)
    requires IsDigit(c) && c != '9'
    ensures IsDigit(r) && DigitOf(r) == DigitOf(c) + 1
  {
    CharOf(DigitOf(c) + 1)
  }

  lemma Increment(front: string, c: char, nines: string)
    requires AllDigits(front) && IsDigit(c) && c != '9' && AllNines(nines)
    ensures AllDigits(front + [c] + nines) && AllDigits(front + [Next(c)] + Zeros(|nines|))
    ensures Value(front + [Next(c)] + Zeros(|nines|)) == Value(front + [c] + nines) + 1
  {
    ValueSnoc(front, c);
    ValueSnoc(front, Next(c));
    NinesToZeros(front + [c], front + [Next(c)], nines);
  }

  lemma NineToZero(x: string, y: string)
    requires AllDigits(x) && AllDigits(y) && Value(y) == Value(x) + 1
    ensures AllDigits(x + ['9']) && AllDigits(y + ['0']) && Value(y + ['0']) == Value(x + ['9']) + 1
  {
    ValueSnoc(x, '9');
    ValueSnoc(y, '0');
  }

  lemma {:induction false} NinesToZeros(a: string, b: string, nines: string)
    requires AllDigits(a) && AllDigits(b) && Value(b) == Value(a) + 1 && AllNines(nines)
    ensures AllDigits(a + nines) && AllDigits(b + Zeros(|nines|))
    ensures Value(b + Zeros(|nines|)) == Value(a + nines) + 1
    decreases |nines|
  {
    if nines == "" {
      assert a + nines == a && b + Zeros(0) == b;
    } else {
      var k := |nines| - 1;
      var x, y := a + nines[..k], b + Zeros(k);
      NinesToZeros(a, b, nines[..k]);
      NineToZero(x, y);
      assert a + nines == x + ['9'];
      assert b + Zeros(|nines|) == y + ['0'];
    }
  }

  lemma IncrementNines(nines: string)
    requires AllNines(nines)
    ensures AllDigits(nines) && AllDigits(['1'] + Zeros(|nines|)) && Value(['1'] + Zeros(|nines|)) == Value(nines) + 1
  {
    var none := nines[..0];
    OneDigit('1');
    NinesToZeros(none, ['1'], nines);
    assert none + nines == nines;
  }

  predicate AllNines(s: string) {
    forall i :: 0 <= i < |s| ==> s[i] == '9'
  }

  lemma SplitAround(s: string, b: nat, idx: nat)
    requires b <= idx < |s| && AllDigits(s[b..])
    requires forall i :: idx < i < |s| ==> s[i] == '9'
    ensures s[b..] == s[b..idx] + [s[idx]] + s[idx + 1..]
    ensures AllDigits(s[b..idx]) && IsDigit(s[idx]) && AllNines(s[idx + 1..])
  {
    assert forall i :: b <= i < |s| ==> s[i] == s[b..][i - b];
  }

  /** `r` is `s` with its magnitude raised by one. */
  ghost predicate Incremented(s: string, r: string) {
    && AllDigits(Body(s)) && AllDigits(Body(r))
    && SignLen(r) == SignLen(s) && s[..SignLen(s)] == r[..SignLen(s)]
    && Value(Body(r)) == Value(Body(s)) + 1
    && |r| == |s| + if AllNines(Body(s)) then 1 else 0
  }

  lemma CarryStops(s: string, idx: nat, r: string)
    requires AllDigits(Body(s)) && SignLen(s) <= idx < |s| && s[idx] != '9'
    requires forall i :: idx < i < |s| ==> s[i] == '9'
    requires IsDigit(s[idx]) && s[idx] != '9' && r == s[..idx] + [Next(s[idx])] + Zeros(|s| - idx - 1)
    ensures Incremented(s, r)
  {
    var b := SignLen(s);
    SplitAround(s, b, idx);
    Increment(s[b..idx], s[idx], s[idx + 1..]);
    SignKept(s, idx, r);
    assert Body(s)[idx - b] == s[idx];
  }

  lemma SignKept(s: string, idx: nat, r: string)
    requires SignLen(s) <= idx < |s| && IsDigit(s[idx]) && s[idx] != '9'
    requires r == s[..idx] + [Next(s[idx])] + Zeros(|s| - idx - 1)
    ensures SignLen(r) == SignLen(s) && s[..SignLen(s)] == r[..SignLen(s)]
    ensures Body(r) == s[SignLen(s)..idx] + [Next(s[idx])] + Zeros(|s| - idx - 1)
  {
    var b := SignLen(s);
    assert idx > 0 ==> r[0] == s[0];
    assert SignLen(r) == b;
  }

  lemma CarryRunsOut(s: string, r: string)
    requires AllNines(Body(s)) && r == s[..SignLen(s)] + (['1'] + Zeros(|s| - SignLen(s)))
    ensures Incremented(s, r)
  {
    IncrementNines(Body(s));
    assert Body(r) == ['1'] + Zeros(|s| - SignLen(s));
  }

  method AppendZeros(s: string, count: nat) returns (r: string)
    ensures r == s + Zeros(count)
  {
    r := s;
    for i := 0 to count
      invariant r == s + Zeros(i)
    {
      assert Zeros(i) + ['0'] == Zeros(i + 1);
      r := r + ['0'];
    }
  }

  /** Adds one to the magnitude of `s` when the digit after the point is 5 or more, keeping the sign. */
  method RoundIntStr(numNextDot: char, s: string) returns (r: string)
    requires AllDigits(Body(s))
    ensures if numNextDot < '5' then r == s else Incremented(s, r)
  {
    if numNextDot < '5' {
      return s;
    }
    var b := SignLen(s);
    assert forall i :: b <= i < |s| ==> s[i] == Body(s)[i - b];
    var idx := |s| - 1;
    while idx >= 0 && (s[idx] == '9' || s[idx] == '+' || s[idx] == '-')
      invariant -1 <= idx < |s|
      invariant forall i :: idx < i < |s| && i >= b ==> s[i] == '9'
    {
      idx := idx - 1;
    }
    if idx >= 0 {
      assert IsDigit(s[idx]) by {
        assert idx >= b && Body(s)[idx - b] == s[idx];
      }
      var nextChar := Next(s[idx]);
      r := s[..idx] + [nextChar];
      r := AppendZeros(r, |s| - (idx + 1));
      CarryStops(s, idx, r);
    } else {
      r := s[..b] + ['1'];
      r := AppendZeros(r, |s| - b);
      assert r == s[..b] + (['1'] + Zeros(|s| - b));
      CarryRunsOut(s, r);
    }
  }

  // ------------------------------------------------------------- literals by position

  /** A mantissa: sign?, digits, and a dot at `dot` if there is one. */
  predicate IsSignedMantissa(m: string, dot: Option<nat>) {
    var b := SignLen(m);
    match dot
    case None => b < |m| && AllDigits(m[b..])
    case Some(d) =>
      b <= d < |m| && m[d] == '.' && AllDigits(m[b..d]) && AllDigits(m[d + 1..]) && b + 2 <= |m|
  }

  function MantissaDigits(m: string, dot: Option<nat>): (ds: string)
    requires IsSignedMantissa(m, dot)
    ensures ds != "" && AllDigits(ds)
  {
    match dot
    case None => m[SignLen(m)..]
    case Some(d) => m[SignLen(m)..d] + m[d + 1..]
  }

  function FractionLength(m: string, dot: Option<nat>): nat
    requires IsSignedMantissa(m, dot)
  {
    match dot
    case None => 0
    case Some(d) => |m| - d - 1
  }

  predicate IsExpLiteral(v: string, eIdx: nat, dot: Option<nat>) {
    && eIdx < |v| && IsExpChar(v[eIdx])
    && IsSignedMantissa(v[..eIdx], dot)
    && IsIntText(v[eIdx + 1..])
  }

  /** The literal's exact value is `sign * Mantissa * 10^Scale`. */
  function Mantissa(v: string, eIdx: nat, dot: Option<nat>): nat
    requires IsExpLiteral(v, eIdx, dot)
  {
    Value(MantissaDigits(v[..eIdx], dot))
  }

  function Scale(v: string, eIdx: nat, dot: Option<nat>): int
    requires IsExpLiteral(v, eIdx, dot)
  {
    IntValue(v[eIdx + 1..]) - FractionLength(v[..eIdx], dot)
  }

  /** Characters of the mantissa left of the point, a possible sign included. */
  function Point(eIdx: nat, dot: Option<nat>): nat {
    match dot
    case None => eIdx
    case Some(d) => d
  }

  /** An exact decimal number: `sign * mantissa * 10^scale`. */
  datatype Number = Number(negative: bool, mantissa: nat, scale: int)

  /** What a literal with an exponent denotes. */
  function ExpNumber(v: string, eIdx: nat, dot: Option<nat>): Number
    requires IsExpLiteral(v, eIdx, dot)
  {
    Number(IsNegative(v), Mantissa(v, eIdx, dot), Scale(v, eIdx, dot))
  }

  /** How many mantissa digits end up left of the point. */
  function KeptByExp(v: string, eIdx: nat, dot: Option<nat>): int
    requires IsExpLiteral(v, eIdx, dot)
  {
    Point(eIdx, dot) + IntValue(v[eIdx + 1..]) - SignLen(v)
  }

  /** What a literal with a dot and no exponent denotes. */
  function PlainNumber(v: string, dot: nat): Number
    requires IsSignedMantissa(v, Some(dot))
  {
    Number(IsNegative(v), Value(MantissaDigits(v, Some(dot))), 0 - FractionLength(v, Some(dot)))
  }

  /** Digits with the point after the first `intCnt` characters, a possible sign included. */
  function WithPoint(digits: string, intCnt: int): Number
    requires IsIntText(digits)
  {
    Number(IsNegative(digits), Value(Body(digits)), intCnt - |digits|)
  }

  /** `text` denotes the number rounded half away from zero. */
  ghost predicate DenotesRounded(text: string, x: Number) {
    && IsIntText(text)
    && Value(Body(text)) == Rounded(x.mantissa, x.scale)
    && IntValue(text) == Signed(x.negative, Value(Body(text)))
  }

  /** The same against the definition of rounding. */
  lemma DenotesNearest(text: string, x: Number)
    ensures DenotesRounded(text, x) <==>
            IsIntText(text) && RoundsTo(x.mantissa, x.scale, Value(Body(text))) &&
            IntValue(text) == Signed(x.negative, Value(Body(text)))
  {
    if IsIntText(text) {
      RoundedIsNearest(x.mantissa, x.scale, Value(Body(text)));
    }
  }

  /** Every float literal with an exponent has the layout the conversion expects. */
  lemma ExpLiteralOf(v: string) returns (eIdx: nat, dot: Option<nat>)
    requires IsFloat(v) && HasExp(v, |v|)
    ensures IsExpLiteral(v, eIdx, dot)
  {
    var i, j, d, x := FloatIsLaid(v);
    eIdx := j;
    assert j < |v|;
    dot := LaidMantissa(v, i, j, d, x);
    LaidExponent(v, i, j, d, x);
  }

  lemma LaidMantissa(v: string, i: nat, j: nat, d: int, x: nat) returns (dot: Option<nat>)
    requires Laid(v, i, j, d, x)
    ensures IsSignedMantissa(v[..j], dot)
    ensures dot == if i <= d < j then Some(d) else None
  {
    dot := if i <= d < j then Some(d) else None;
    LaidSign(v, i, j, d, x);
    if dot.None? {
      LaidDigits(v, i, j, d, x, i, j);
    } else {
      LaidDigits(v, i, j, d, x, i, d);
      LaidDigits(v, i, j, d, x, d + 1, j);
      assert v[..j][d] == '.' && v[x] != '.';
    }
  }

  lemma LaidDigits(v: string, i: nat, j: nat, d: int, x: nat, a: nat, b: nat)
    requires Laid(v, i, j, d, x) && i <= a <= b <= j && !(a <= d < b)
    ensures AllDigits(v[..j][a..b]) && (b == j ==> v[..j][a..] == v[..j][a..b])
  {
    forall k | 0 <= k < b - a ensures IsDigit(v[..j][a..b][k]) {
      assert v[..j][a..b][k] == v[a + k];
    }
  }

  lemma LaidSign(v: string, i: nat, j: nat, d: int, x: nat)
    requires Laid(v, i, j, d, x)
    ensures SignLen(v[..j]) == i
  {
    assert v[..j][0] == v[0] && (i == 0 && d != 0 ==> IsDigit(v[0]));
  }

  lemma LaidExponent(v: string, i: nat, j: nat, d: int, x: nat)
    requires Laid(v, i, j, d, x) && j < |v|
    ensures IsIntText(v[j + 1..])
  {
    var e := v[j + 1..];
    assert forall k :: 0 <= k < |e| ==> e[k] == v[j + 1 + k];
    assert IsDigit(e[|e| - 1]);
  }

  /** So has every literal with a dot and no exponent. */
  lemma PlainLiteralOf(v: string) returns (dot: nat)
    requires IsFloat(v) && !HasExp(v, |v|) && HasDot(v, |v|)
    ensures IsSignedMantissa(v, Some(dot))
  {
    var i, j, d, x := FloatIsLaid(v);
    assert j == |v| && v[..j] == v;
    var k :| 0 <= k < |v| && v[k] == '.';
    assert k == d;
    var found := LaidMantissa(v, i, j, d, x);
    dot := found.value;
  }

  // ------------------------------------------------------------- the conversions

  lemma Denotes(text: string, x: Number)
    requires IsIntText(text) && Value(Body(text)) == Rounded(x.mantissa, x.scale)
    requires IsNegative(text) == x.negative || Value(Body(text)) == 0
    ensures DenotesRounded(text, x)
  { }

  /** A text whose magnitude is the first `p` digits plus the carry denotes the rounded value. */
  lemma CarriedDenotes(text: string, negative: bool, ds: string, p: nat)
    requires AllDigits(ds) && p <= |ds| && IsIntText(text)
    requires Value(Body(text)) == Value(ds[..p]) + Carry(ds, p)
    requires IsNegative(text) == negative || Value(Body(text)) == 0
    ensures DenotesRounded(text, Number(negative, Value(ds), p - |ds|))
  {
    KeepAndCarry(ds, p);
    Denotes(text, Number(negative, Value(ds), p - |ds|));
  }

  predicate IsZeroText(s: string) {
    |s| == 1 && s[0] == '0'
  }

  predicate IsSignedZero(s: string, sign: char) {
    |s| == 2 && s[0] == sign && s[1] == '0'
  }

  lemma ZeroText(s: string)
    requires IsZeroText(s)
    ensures IsIntText(s) && !IsNegative(s) && Body(s) == s && Value(s) == 0 && !AllNines(s)
  {
    OneDigit(s[0]);
    assert s == [s[0]];
  }

  // ------------------------------------------------------------- the spelling of the answers

  function Sign(s: string): string {
    s[..SignLen(s)]
  }

  /** Digits in the answer when the first `p` of `ds` are kept: at least one, and one more if a carry runs out
      of nines. */
  function Width(ds: string, p: int): nat {
    if p <= 0 then 1 else if p < |ds| && ds[p] >= '5' && AllNines(ds[..p]) then p + 1 else p
  }

  /** With an exponent the literal's sign is kept, plus or minus, unless no digit is left of the point and the
      answer is 0. */
  predicate ExpSpelling(text: string, sign: string, ds: string, p: int)
    requires IsIntText(text)
  {
    |Body(text)| == Width(ds, p) && Sign(text) == if p > 0 || Value(Body(text)) != 0 then sign else []
  }

  /** Without an exponent only a minus is kept, unless the answer is 0 in a single digit. */
  predicate PlainSpelling(text: string, negative: bool, ds: string, p: int)
    requires IsIntText(text)
  {
    && |Body(text)| == Width(ds, p)
    && Sign(text) == if negative && (|Body(text)| > 1 || Value(Body(text)) != 0) then ['-'] else []
  }

  lemma {:induction false} DigitsByValue(a: string, b: string)
    requires AllDigits(a) && AllDigits(b) && |a| == |b| && Value(a) == Value(b)
    ensures a == b
    decreases |a|
  {
    if a != "" {
      var n := |a| - 1;
      DigitsByValue(a[..n], b[..n]);
      assert a == a[..n] + [a[n]] && b == b[..n] + [b[n]];
    }
  }

  lemma SignAndBody(s: string)
    ensures s == Sign(s) + Body(s)
  { }

  /** Value and spelling leave a single text. */
  lemma SpellingIsUnique(a: string, b: string, x: Number, sign: string, ds: string, p: int)
    requires DenotesRounded(a, x) && DenotesRounded(b, x)
    requires (ExpSpelling(a, sign, ds, p) && ExpSpelling(b, sign, ds, p)) ||
             (PlainSpelling(a, x.negative, ds, p) && PlainSpelling(b, x.negative, ds, p))
    ensures a == b
  {
    DigitsByValue(Body(a), Body(b));
    SignAndBody(a);
    SignAndBody(b);
  }

  /** Without an exponent the answer is never a signed zero, has a minus exactly if the literal has one and the
      answer is not 0, and never has a plus. */
  lemma PlainSigns(text: string, negative: bool, ds: string, p: int)
    requires IsIntText(text) && PlainSpelling(text, negative, ds, p)
    ensures text != "-0" && (IsNegative(text) <==> negative && text != "0") && (text[0] != '+')
  {
    var body := Body(text);
    SignAndBody(text);
    if |body| == 1 {
      OneDigit(body[0]);
      assert body == [body[0]];
    }
  }

  /** `asIs`: the literal is too long for any integer type and is returned as it is. */
  method ExpFloatStrToIntStr(validFloat: string, eIdx: nat, dotIdx: Option<nat>)
    returns (r: string, asIs: bool)
    requires IsExpLiteral(validFloat, eIdx, dotIdx)
    ensures asIs <==>
      !FitsI64(IntValue(validFloat[eIdx + 1..])) || Point(eIdx, dotIdx) + IntValue(validFloat[eIdx + 1..]) > 21
    ensures asIs ==> r == validFloat
    ensures !asIs ==> DenotesRounded(r, ExpNumber(validFloat, eIdx, dotIdx))
    ensures !asIs ==>
      ExpSpelling(r, Sign(validFloat), MantissaDigits(validFloat[..eIdx], dotIdx), KeptByExp(validFloat, eIdx, dotIdx))
  {
    var digits, intCnt := MantissaText(validFloat, eIdx, dotIdx);
    var exp := IntValue(validFloat[eIdx + 1..]);
    if !FitsI64(exp) {
      return validFloat, true;
    }
    intCnt := intCnt + exp;
    if intCnt > 21 {
      return validFloat, true;
    }
    asIs := false;
    r := PlaceDigits(digits, intCnt);
  }

  /** The mantissa without its point, a sign included, and where the point was. */
  method MantissaText(validFloat: string, eIdx: nat, dotIdx: Option<nat>) returns (digits: string, intCnt: int)
    requires IsExpLiteral(validFloat, eIdx, dotIdx)
    ensures IsIntText(digits) && intCnt == Point(eIdx, dotIdx)
    ensures WithPoint(digits, intCnt + IntValue(validFloat[eIdx + 1..])) == ExpNumber(validFloat, eIdx, dotIdx)
    ensures Sign(digits) == Sign(validFloat) && Body(digits) == MantissaDigits(validFloat[..eIdx], dotIdx)
  {
    digits := "";
    match dotIdx {
      case None =>
        digits := validFloat[..eIdx];
        intCnt := |digits|;
      case Some(d) =>
        digits := validFloat[..d];
        intCnt := |digits|;
        digits := digits + validFloat[d + 1..eIdx];
    }
    MantissaTextIs(validFloat, eIdx, dotIdx, digits);
  }

  lemma MantissaTextIs(v: string, eIdx: nat, dot: Option<nat>, digits: string)
    requires IsExpLiteral(v, eIdx, dot)
    requires digits == if dot.Some? then v[..dot.value] + v[dot.value + 1..eIdx] else v[..eIdx]
    ensures IsIntText(digits)
    ensures WithPoint(digits, Point(eIdx, dot) + IntValue(v[eIdx + 1..])) == ExpNumber(v, eIdx, dot)
    ensures Sign(digits) == Sign(v) && Body(digits) == MantissaDigits(v[..eIdx], dot)
  {
    DigitsWithoutDot(v, eIdx, dot, digits);
    TextWithoutDot(v, eIdx, dot, digits);
  }

  lemma TextWithoutDot(v: string, eIdx: nat, dot: Option<nat>, digits: string)
    requires IsExpLiteral(v, eIdx, dot)
    requires digits == if dot.Some? then v[..dot.value] + v[dot.value + 1..eIdx] else v[..eIdx]
    ensures Sign(digits) == Sign(v) && Body(digits) == MantissaDigits(v[..eIdx], dot)
  {
    var m := v[..eIdx];
    assert m[0] == v[0];
    if dot.Some? {
      assert m[..dot.value] == v[..dot.value] && m[dot.value + 1..] == v[dot.value + 1..eIdx];
      RemoveDot(m, dot.value);
      SignByNegative(digits, m);
    }
  }

  lemma SignByNegative(a: string, b: string)
    requires SignLen(a) == SignLen(b) && (SignLen(b) == 1 ==> a[0] == b[0])
    ensures Sign(a) == Sign(b)
  { }

  lemma RemoveDot(m: string, d: nat)
    requires IsSignedMantissa(m, Some(d))
    ensures var digits, b := m[..d] + m[d + 1..], SignLen(m);
      && SignLen(digits) == b && digits[b..] == m[b..d] + m[d + 1..] && (b == 1 ==> digits[0] == m[0])
      && IsNegative(digits) == IsNegative(m)
  {
    var digits, b := m[..d] + m[d + 1..], SignLen(m);
    if d > b {
      assert IsDigit(m[b..d][0]);
    } else {
      assert IsDigit(m[d + 1..][0]);
    }
  }

  lemma DigitsWithoutDot(v: string, eIdx: nat, dot: Option<nat>, digits: string)
    requires IsExpLiteral(v, eIdx, dot)
    requires digits == if dot.Some? then v[..dot.value] + v[dot.value + 1..eIdx] else v[..eIdx]
    ensures IsIntText(digits) && IsNegative(digits) == IsNegative(v)
    ensures Value(Body(digits)) == Mantissa(v, eIdx, dot)
    ensures Scale(v, eIdx, dot) == IntValue(v[eIdx + 1..]) + Point(eIdx, dot) - |digits|
  {
    TextWithoutDot(v, eIdx, dot, digits);
    NegativeBySign(digits, v);
    FractionOf(v, eIdx, dot);
  }

  lemma NegativeBySign(a: string, b: string)
    requires Sign(a) == Sign(b)
    ensures IsNegative(a) == IsNegative(b)
  {
    assert |Sign(a)| == SignLen(a) && |Sign(b)| == SignLen(b);
    SameSign(a, b);
  }

  lemma FractionOf(v: string, eIdx: nat, dot: Option<nat>)
    requires IsExpLiteral(v, eIdx, dot)
    ensures FractionLength(v[..eIdx], dot) == if dot.Some? then eIdx - dot.value - 1 else 0
    ensures dot.Some? ==> dot.value < eIdx
  { }

  /** The point falls after the first `intCnt` characters of `digits`, a possible sign included. */
  method PlaceDigits(digits: string, intCnt: int) returns (r: string)
    requires IsIntText(digits)
    ensures DenotesRounded(r, WithPoint(digits, intCnt))
    ensures ExpSpelling(r, Sign(digits), Body(digits), intCnt - SignLen(digits))
  {
    if intCnt <= 0 {
      r := PlaceBeforeDigits(digits, intCnt);
    } else if intCnt == 1 && (digits[0] == '-' || digits[0] == '+') {
      r := PlaceAfterSign(digits);
    } else if intCnt <= |digits| {
      r := KeepFront(digits, intCnt);
    } else {
      r := "";
      for i := 0 to |digits|
        invariant r == digits[..i]
      {
        r := r + [digits[i]];
      }
      assert digits[..|digits|] == digits;
      r := AppendZeros(r, intCnt - |digits|);
      PaddedDenotes(digits, intCnt - |digits|);
      PaddedSpelling(digits, intCnt - |digits|);
    }
  }

  lemma PaddedDenotes(digits: string, n: nat)
    requires IsIntText(digits)
    ensures DenotesRounded(digits + Zeros(n), WithPoint(digits, |digits| + n))
  {
    var r, ds := digits + Zeros(n), Body(digits);
    PaddingIsExact(ds, n);
    assert r[0] == digits[0];
    assert Body(r) == ds + Zeros(n);
  }

  lemma PaddedSpelling(digits: string, n: nat)
    requires IsIntText(digits) && IsIntText(digits + Zeros(n))
    ensures ExpSpelling(digits + Zeros(n), Sign(digits), Body(digits), |digits| + n - SignLen(digits))
  {
    var r := digits + Zeros(n);
    assert r[0] == digits[0];
    SignByNegative(r, digits);
  }

  /** The point falls before everything. */
  method PlaceBeforeDigits(digits: string, intCnt: int) returns (r: string)
    requires IsIntText(digits) && intCnt <= 0
    ensures DenotesRounded(r, WithPoint(digits, intCnt))
    ensures ExpSpelling(r, Sign(digits), Body(digits), intCnt - SignLen(digits))
  {
    var zero := "0";
    ZeroText(zero);
    if intCnt == 0 && digits != "" && IsDigit(digits[0]) {
      r := RoundIntStr(digits[0], zero);
      RightBeforeDenotes(digits, zero, r);
      RightBeforeSpelling(digits, zero, r);
    } else {
      r := zero;
      FarBeforeDenotes(digits, intCnt, r);
    }
  }

  lemma RightBeforeSpelling(digits: string, zero: string, r: string)
    requires IsIntText(digits) && IsDigit(digits[0]) && IsZeroText(zero) && IsIntText(r)
    requires if digits[0] < '5' then r == zero else Incremented(zero, r)
    ensures ExpSpelling(r, Sign(digits), Body(digits), 0)
  {
    BodyLength(digits);
    ZeroText(zero);
    if digits[0] >= '5' {
      UnsignedIncrement(zero, r);
    }
    OneCharacterSpelling(r, Sign(digits), Body(digits));
  }

  lemma OneCharacterSpelling(r: string, sign: string, ds: string)
    requires IsIntText(r) && |r| == 1 && SignLen(r) == 0 && sign == []
    ensures ExpSpelling(r, sign, ds, 0)
  { }

  lemma BodyLength(digits: string)
    requires IsIntText(digits)
    ensures |Body(digits)| == |digits| - SignLen(digits)
    ensures IsDigit(digits[0]) <==> SignLen(digits) == 0
  {
    assert SignLen(digits) == 0 ==> digits[0] == Body(digits)[0];
  }

  lemma FarBeforeDenotes(digits: string, intCnt: int, r: string)
    requires IsIntText(digits) && intCnt <= 0 && (intCnt < 0 || !IsDigit(digits[0])) && IsZeroText(r)
    ensures DenotesRounded(r, WithPoint(digits, intCnt))
  {
    BodyLength(digits);
    FarBeforeIsZero(digits, intCnt);
    ZeroDenotes(r, WithPoint(digits, intCnt));
  }

  lemma FarBeforeIsZero(digits: string, intCnt: int)
    requires IsIntText(digits) && intCnt <= 0 && (intCnt < 0 || SignLen(digits) == 1)
    ensures Rounded(Value(Body(digits)), intCnt - |digits|) == 0
  {
    TooSmallToCount(Body(digits), intCnt - SignLen(digits));
  }

  lemma ZeroDenotes(r: string, x: Number)
    requires IsZeroText(r) && Rounded(x.mantissa, x.scale) == 0
    ensures DenotesRounded(r, x)
  {
    ZeroText(r);
    Denotes(r, x);
  }

  lemma RightBeforeDenotes(digits: string, zero: string, r: string)
    requires IsIntText(digits) && IsDigit(digits[0]) && IsZeroText(zero)
    requires if digits[0] < '5' then r == zero else Incremented(zero, r)
    ensures DenotesRounded(r, WithPoint(digits, 0))
  {
    RightBeforeIsCarry(digits);
    if digits[0] >= '5' {
      UnsignedIncrement(zero, r);
      OneDenotes(r, WithPoint(digits, 0));
    } else {
      ZeroDenotes(r, WithPoint(digits, 0));
    }
  }

  lemma OneDenotes(r: string, x: Number)
    requires IsIntText(r) && !IsNegative(r) && Value(Body(r)) == 1
    requires !x.negative && Rounded(x.mantissa, x.scale) == 1
    ensures DenotesRounded(r, x)
  {
    Denotes(r, x);
  }

  lemma RightBeforeIsCarry(digits: string)
    requires IsIntText(digits) && IsDigit(digits[0])
    ensures !WithPoint(digits, 0).negative
    ensures Rounded(WithPoint(digits, 0).mantissa, WithPoint(digits, 0).scale) == if digits[0] < '5' then 0 else 1
  {
    BodyLength(digits);
    assert Body(digits) == digits;
    KeepAndCarry(digits, 0);
  }

  lemma UnsignedIncrement(zero: string, r: string)
    requires IsZeroText(zero) && Incremented(zero, r)
    ensures IsIntText(r) && !IsNegative(r) && Value(Body(r)) == 1 && SignLen(r) == 0 && |r| == 1
  {
    ZeroText(zero);
    assert SignLen(r) == 0 && |r| == 1;
  }

  /** The point falls right after the sign. */
  method PlaceAfterSign(digits: string) returns (r: string)
    requires IsIntText(digits) && SignLen(digits) == 1
    ensures DenotesRounded(r, WithPoint(digits, 1))
    ensures ExpSpelling(r, Sign(digits), Body(digits), 0)
  {
    var intStr := if digits[0] == '+' then "+0" else "-0";
    var res := intStr;
    SignedZeroText(intStr);
    if |digits| > 1 {
      res := RoundIntStr(digits[1], intStr);
    }
    SignedIncrement(digits, intStr, res);
    if res[0..2] == "+0" || res[0..2] == "-0" {
      assert res[0..2][1] == res[1] && "+0"[1] == '0' && "-0"[1] == '0';
      r := "0";
    } else {
      TwoCharacters(res);
      r := res;
    }
    AfterSignDenotes(digits, res, r);
    AfterSignSpelling(digits, res, r);
  }

  lemma AfterSignSpelling(digits: string, res: string, r: string)
    requires IsIntText(digits) && SignLen(digits) == 1 && SignedCarry(digits, res) && IsIntText(r)
    requires if res[1] == '0' then IsZeroText(r) else r == res
    ensures ExpSpelling(r, Sign(digits), Body(digits), 0)
  {
    if res[1] == '0' {
      ZeroText(r);
    } else {
      SignedDigit(res);
      SignByNegative(res, digits);
    }
  }

  lemma SignedZeroText(s: string)
    requires IsSignedZero(s, '+') || IsSignedZero(s, '-')
    ensures IsIntText(s) && Body(s) == [s[1]] && Value(Body(s)) == 0 && !AllNines(Body(s)) && SignLen(s) == 1
  {
    OneDigit(s[1]);
    assert Body(s) == [s[1]];
  }

  lemma TwoCharacters(res: string)
    requires |res| == 2 && IsSignChar(res[0]) && res[0..2] != "+0" && res[0..2] != "-0"
    ensures res[1] != '0'
  {
    assert res[0..2] == [res[0], res[1]];
    assert "+0" == ['+', '0'] && "-0" == ['-', '0'];
  }

  /** A signed zero that is raised by one, or not. */
  ghost predicate SignedCarry(digits: string, res: string)
    requires IsIntText(digits) && SignLen(digits) == 1
  {
    && |res| == 2 && res[0] == digits[0] && IsDigit(res[1])
    && DigitOf(res[1]) == Carry(Body(digits), 0)
  }

  lemma IncrementedZero(intStr: string, res: string)
    requires (IsSignedZero(intStr, '+') || IsSignedZero(intStr, '-')) && Incremented(intStr, res)
    ensures |res| == 2 && res[0] == intStr[0] && res[1] == '1'
  {
    SignedZeroText(intStr);
    assert |res| == 2 && res[..1] == intStr[..1];
    assert res[0] == res[..1][0] && intStr[0] == intStr[..1][0];
    assert Body(res) == [res[1]] && IsDigit(Body(res)[0]);
    OneDigit(res[1]);
  }

  lemma SignedIncrement(digits: string, intStr: string, res: string)
    requires IsIntText(digits) && SignLen(digits) == 1
    requires IsSignedZero(intStr, digits[0])
    requires if digits[1] < '5' then res == intStr else Incremented(intStr, res)
    ensures SignedCarry(digits, res)
  {
    assert Body(digits)[0] == digits[1];
    if digits[1] >= '5' {
      IncrementedZero(intStr, res);
    }
  }

  lemma SignedDigit(res: string)
    requires |res| == 2 && IsSignChar(res[0]) && IsDigit(res[1])
    ensures IsIntText(res) && Value(Body(res)) == DigitOf(res[1])
  {
    OneDigit(res[1]);
    assert Body(res) == [res[1]];
  }

  lemma AfterSignDenotes(digits: string, res: string, r: string)
    requires IsIntText(digits) && SignLen(digits) == 1 && SignedCarry(digits, res)
    requires if res[1] == '0' then IsZeroText(r) else r == res
    ensures DenotesRounded(r, WithPoint(digits, 1))
  {
    BodyLength(digits);
    KeepAndCarry(Body(digits), 0);
    if res[1] == '0' {
      ZeroText(r);
    } else {
      SignedDigit(res);
    }
    Denotes(r, WithPoint(digits, 1));
  }

  /** The point falls inside or after the digits. */
  method KeepFront(digits: string, intCnt: nat) returns (r: string)
    requires IsIntText(digits) && SignLen(digits) < intCnt <= |digits|
    ensures DenotesRounded(r, WithPoint(digits, intCnt))
    ensures ExpSpelling(r, Sign(digits), Body(digits), intCnt - SignLen(digits))
  {
    ghost var b, ds := SignLen(digits), Body(digits);
    var intStr := digits[..intCnt];
    assert intStr[0] == digits[0];
    assert Body(intStr) == ds[..intCnt - b];
    r := intStr;
    if intCnt < |digits| {
      assert digits[intCnt] == ds[intCnt - b];
      r := RoundIntStr(digits[intCnt], intStr);
      SameSign(r, intStr);
    }
    CarriedDenotes(r, IsNegative(digits), ds, intCnt - b);
    SignByNegative(intStr, digits);
  }

  lemma SameSign(r: string, s: string)
    requires SignLen(r) == SignLen(s) && s[..SignLen(s)] == r[..SignLen(s)]
    ensures IsNegative(r) == IsNegative(s)
  {
    if SignLen(s) == 1 {
      assert s[..1][0] == s[0] && r[..1][0] == r[0];
    }
  }

  /** A literal with a dot and no exponent. */
  method NoExpFloatStrToIntStr(validFloat: string, dotIndex: nat) returns (r: string)
    requires IsSignedMantissa(validFloat, Some(dotIndex))
    ensures DenotesRounded(r, PlainNumber(validFloat, dotIndex))
    ensures PlainSpelling(r, IsNegative(validFloat), MantissaDigits(validFloat, Some(dotIndex)),
                          dotIndex - SignLen(validFloat))
  {
    var digits, dotIdx := validFloat, dotIndex;
    if IsSignChar(validFloat[0]) {
      dotIdx := dotIdx - 1;
      digits := validFloat[1..];
    }
    var intStr;
    if validFloat[0] == '-' {
      intStr := if dotIdx == 0 then "-0" else validFloat[..dotIdx + 1];
    } else {
      intStr := if dotIdx == 0 then "0" else digits[..dotIdx];
    }
    IntegerPart(validFloat, dotIndex, intStr);
    var res := intStr;
    if |digits| > dotIdx + 1 {
      res := RoundIntStr(digits[dotIdx + 1], intStr);
    }
    SignedZeroIs(res);
    r := if res == "-0" then res[1..] else res;
    NoExpDenotes(validFloat, dotIndex, intStr, res, r);
    NoExpSpelling(validFloat, dotIndex, intStr, res, r);
  }

  lemma NoExpSpelling(v: string, dotIndex: nat, intStr: string, res: string, r: string)
    requires IsSignedMantissa(v, Some(dotIndex)) && IsIntegerPart(v, dotIndex, intStr) && IsIntText(r)
    requires if dotIndex + 1 < |v| && v[dotIndex + 1] >= '5' then Incremented(intStr, res) else res == intStr
    requires if IsSignedZero(res, '-') then IsZeroText(r) else r == res
    ensures PlainSpelling(r, IsNegative(v), MantissaDigits(v, Some(dotIndex)), dotIndex - SignLen(v))
  {
    IntegerPartSpelling(v, dotIndex, intStr);
    CarriedSpelling(v, dotIndex, intStr, res);
    RoundedIntegerPart(v, dotIndex, intStr, res);
    if IsSignedZero(res, '-') {
      ZeroText(r);
      SignedZeroText(res);
    } else if IsNegative(v) {
      NoSignedZero(res);
    }
  }

  lemma NoSignedZero(res: string)
    requires IsIntText(res) && !IsSignedZero(res, '-') && Sign(res) == ['-']
    ensures |Body(res)| > 1 || Value(Body(res)) != 0
  {
    if |Body(res)| == 1 {
      OneDigit(res[1]);
      assert Body(res) == [res[1]];
    }
  }

  lemma CarriedSpelling(v: string, dotIndex: nat, intStr: string, res: string)
    requires IsSignedMantissa(v, Some(dotIndex)) && AllDigits(Body(intStr))
    requires if dotIndex + 1 < |v| && v[dotIndex + 1] >= '5' then Incremented(intStr, res) else res == intStr
    requires if dotIndex == SignLen(v) then |Body(intStr)| == 1 && !AllNines(Body(intStr))
             else Body(intStr) == v[SignLen(v)..dotIndex]
    ensures Sign(res) == Sign(intStr)
    ensures |Body(res)| == Width(MantissaDigits(v, Some(dotIndex)), dotIndex - SignLen(v))
  {
    SplitAtDot(v, dotIndex);
  }

  lemma IntegerPartSpelling(v: string, dotIndex: nat, intStr: string)
    requires IsSignedMantissa(v, Some(dotIndex)) && IsIntegerPart(v, dotIndex, intStr)
    ensures Sign(intStr) == if IsNegative(v) then ['-'] else []
    ensures IsIntText(intStr)
    ensures if dotIndex == SignLen(v) then |Body(intStr)| == 1 && !AllNines(Body(intStr))
            else Body(intStr) == v[SignLen(v)..dotIndex]
  {
    if dotIndex == SignLen(v) {
      if v[0] == '-' {
        SignedZeroText(intStr);
      } else {
        ZeroText(intStr);
      }
    } else {
      KeptText(v, dotIndex, intStr);
    }
  }

  lemma SignedZeroIs(res: string)
    ensures IsSignedZero(res, '-') <==> res == "-0"
  {
    if |res| == 2 {
      assert res == [res[0], res[1]];
    }
  }

  predicate IsIntegerPart(v: string, dotIndex: nat, intStr: string)
    requires IsSignedMantissa(v, Some(dotIndex))
  {
    if v[0] == '-' then (if dotIndex == 1 then IsSignedZero(intStr, '-') else intStr == v[..dotIndex])
    else if dotIndex == SignLen(v) then IsZeroText(intStr) else intStr == v[SignLen(v)..dotIndex]
  }

  lemma NoExpDenotes(v: string, dotIndex: nat, intStr: string, res: string, r: string)
    requires IsSignedMantissa(v, Some(dotIndex)) && IsIntegerPart(v, dotIndex, intStr)
    requires if dotIndex + 1 < |v| && v[dotIndex + 1] >= '5' then Incremented(intStr, res) else res == intStr
    requires if IsSignedZero(res, '-') then IsZeroText(r) else r == res
    ensures DenotesRounded(r, PlainNumber(v, dotIndex))
  {
    RoundedIntegerPart(v, dotIndex, intStr, res);
    if IsSignedZero(res, '-') {
      ZeroText(r);
      SignedZeroText(res);
    }
    Denotes(r, PlainNumber(v, dotIndex));
  }

  lemma RoundedIntegerPart(v: string, dotIndex: nat, intStr: string, res: string)
    requires IsSignedMantissa(v, Some(dotIndex)) && IsIntegerPart(v, dotIndex, intStr)
    requires if dotIndex + 1 < |v| && v[dotIndex + 1] >= '5' then Incremented(intStr, res) else res == intStr
    ensures IsIntText(res) && IsNegative(res) == IsNegative(v)
    ensures Value(Body(res)) == Rounded(PlainNumber(v, dotIndex).mantissa, PlainNumber(v, dotIndex).scale)
  {
    KeepLeftOfDot(v, dotIndex);
    IntegerPart(v, dotIndex, intStr);
    SameSign(res, intStr);
  }

  lemma KeepLeftOfDot(v: string, dotIndex: nat)
    requires IsSignedMantissa(v, Some(dotIndex))
    ensures Rounded(PlainNumber(v, dotIndex).mantissa, PlainNumber(v, dotIndex).scale) ==
            Value(v[SignLen(v)..dotIndex]) + if dotIndex + 1 < |v| && v[dotIndex + 1] >= '5' then 1 else 0
  {
    SplitAtDot(v, dotIndex);
    KeepAndCarry(MantissaDigits(v, Some(dotIndex)), dotIndex - SignLen(v));
  }

  lemma SplitAtDot(v: string, dotIndex: nat)
    requires IsSignedMantissa(v, Some(dotIndex))
    ensures var b, ds := SignLen(v), MantissaDigits(v, Some(dotIndex));
      && |ds| == |v| - b - 1
      && ds[..dotIndex - b] == v[b..dotIndex]
      && (dotIndex + 1 < |v| ==> ds[dotIndex - b] == v[dotIndex + 1])
  { }

  lemma IntegerPart(v: string, dotIndex: nat, intStr: string)
    requires IsSignedMantissa(v, Some(dotIndex)) && IsIntegerPart(v, dotIndex, intStr)
    ensures IsIntText(intStr) && IsNegative(intStr) == IsNegative(v)
    ensures Value(Body(intStr)) == Value(v[SignLen(v)..dotIndex])
  {
    var b := SignLen(v);
    if dotIndex == b {
      NoIntegerPart(v, dotIndex, intStr);
    } else {
      KeptText(v, dotIndex, intStr);
    }
  }

  lemma NoIntegerPart(v: string, dotIndex: nat, intStr: string)
    requires IsSignedMantissa(v, Some(dotIndex)) && IsIntegerPart(v, dotIndex, intStr) && dotIndex == SignLen(v)
    ensures IsIntText(intStr) && IsNegative(intStr) == IsNegative(v) && Value(Body(intStr)) == 0
  {
    if v[0] == '-' {
      SignedZeroText(intStr);
    } else {
      ZeroText(intStr);
    }
  }

  lemma KeptText(v: string, dotIndex: nat, intStr: string)
    requires IsSignedMantissa(v, Some(dotIndex)) && IsIntegerPart(v, dotIndex, intStr) && dotIndex > SignLen(v)
    ensures IsIntText(intStr) && IsNegative(intStr) == IsNegative(v) && Body(intStr) == v[SignLen(v)..dotIndex]
  {
    assert IsDigit(v[SignLen(v)..dotIndex][0]);
    assert Body(intStr) == v[SignLen(v)..dotIndex];
  }
}
