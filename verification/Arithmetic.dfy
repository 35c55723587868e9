/** Checked arithmetic on signed and unsigned 64-bit integers in every mix. Machine operations that the
    build does not check wrap around. */
module Arithmetic {
  import opened Common

  datatype Num = I64(i: i64) | U64(u: u64) {
    function Val(): int {
      match this
      case I64(i) => i
      case U64(u) => u
    }
  }

  datatype Outcome = Got(n: Num) | Null | Overflow | Panic

  /** The mathematical result `v`, if the result type can hold it. */
  function Exact(signed: bool, v: int): Outcome {
    if signed then (if FitsI64(v) then Got(I64(v)) else Overflow)
    else (if FitsU64(v) then Got(U64(v)) else Overflow)
  }

  /** Of two operands the result is signed only if both are. */
  predicate BothSigned(l: Num, r: Num) {
    l.I64? && r.I64?
  }

  function FromI64(v: Option<i64>): Outcome {
    if v.Some? then Got(I64(v.value)) else Overflow
  }

  function FromU64(v: Option<u64>): Outcome {
    if v.Some? then Got(U64(v.value)) else Overflow
  }

  function WrappingAddU64(l: u64, r: u64): u64 {
    ((l as int) + (r as int)) % TWO_64
  }

  // ------------------------------------------------------------- addition, subtraction, multiplication

  /** The first branch adds without a check. */
  function CheckedAddI64(l: u64, r: i64): Option<u64> {
    if r as int >= 0 then Some(WrappingAddU64(l, AsU64(r)))
    else CheckedU64(l as int - AsU64(WrappingNeg(r)) as int)
  }

  function CheckedAdd(l: Num, d: Num): Outcome {
    match (l, d)
    case (I64(a), I64(b)) => FromI64(CheckedI64(a as int + b as int))
    case (I64(a), U64(b)) => FromU64(CheckedAddI64(b, a))
    case (U64(a), I64(b)) => FromU64(CheckedAddI64(a, b))
    case (U64(a), U64(b)) => FromU64(CheckedU64(a as int + b as int))
  }

  function CheckedMinus(l: Num, d: Num): Outcome {
    match (l, d)
    case (I64(a), I64(b)) => FromI64(CheckedI64(a as int - b as int))
    case (I64(a), U64(b)) => if a as int < 0 then Overflow else FromU64(CheckedU64(AsU64(a) as int - b as int))
    case (U64(a), I64(b)) =>
      if b as int < 0 then FromU64(CheckedU64(a as int + AsU64(WrappingNeg(b)) as int))
      else FromU64(CheckedU64(a as int - AsU64(b) as int))
    case (U64(a), U64(b)) => FromU64(CheckedU64(a as int - b as int))
  }

  function CheckedMul(l: Num, d: Num): Outcome {
    match (l, d)
    case (I64(a), I64(b)) => FromI64(CheckedI64((a as int) * (b as int)))
    case (I64(a), U64(b)) => MulMixed(a, b)
    case (U64(a), I64(b)) => MulMixed(b, a)
    case (U64(a), U64(b)) => FromU64(CheckedU64((a as int) * (b as int)))
  }

  function MulMixed(l: i64, r: u64): Outcome {
    if l as int < 0 then Overflow else FromU64(CheckedU64((r as int) * (AsU64(l) as int)))
  }

  /** A mixed sum past the unsigned range with nothing to subtract. */
  predicate WrapsOnAdd(l: Num, d: Num) {
    l.I64? != d.I64? && l.Val() >= 0 && d.Val() >= 0 && l.Val() + d.Val() > U64_MAX
  }

  /** Addition is exact, with overflow reported, unless a mixed sum of non-negative operands leaves the
      unsigned range; it then silently wraps. */
  lemma AddIsExactIffNoWrap(l: Num, d: Num)
    ensures CheckedAdd(l, d) == Exact(BothSigned(l, d), l.Val() + d.Val()) <==> !WrapsOnAdd(l, d)
    ensures WrapsOnAdd(l, d) ==> CheckedAdd(l, d) == Got(U64(l.Val() + d.Val() - TWO_64))
  { }

  /** The silent wrap, at its smallest. */
  lemma AddWraps()
    ensures CheckedAdd(U64(U64_MAX), I64(1)) == Got(U64(0))
  { }

  lemma MinusIsExact(l: Num, d: Num)
    ensures CheckedMinus(l, d) == Exact(BothSigned(l, d), l.Val() - d.Val())
  { }

  lemma SignOfProduct(a: int, b: int)
    requires a < 0 && b > 0
    ensures a * b < 0 && b * a == a * b
  { }

  lemma MulMixedIsExact(l: i64, r: u64)
    ensures MulMixed(l, r) == Exact(false, (l as int) * (r as int)) <==> !((l as int) < 0 && (r as int) == 0)
  {
    if (l as int) < 0 && (r as int) > 0 {
      SignOfProduct(l, r);
    } else {
      assert (r as int) * (l as int) == (l as int) * (r as int);
    }
  }

  /** Multiplication is exact, except that a negative signed operand times an unsigned zero is refused. */
  lemma MulIsExactIffNoNegativeTimesZero(l: Num, d: Num)
    ensures CheckedMul(l, d) == Exact(BothSigned(l, d), l.Val() * d.Val()) <==>
            !((l.I64? && d.U64? && l.Val() < 0 && d.Val() == 0) || (l.U64? && d.I64? && l.Val() == 0 && d.Val() < 0))
  {
    match (l, d)
    case (I64(a), U64(b)) => MulMixedIsExact(a, b);
    case (U64(a), I64(b)) => MulMixedIsExact(b, a);
    case _ =>
  }

  // ------------------------------------------------------------- division

  /** Division toward zero, and the remainder that goes with it. */
  function TruncDiv(a: int, b: int): int
    requires b != 0
  {
    var q := Abs(a) / Abs(b);
    if (a < 0) == (b < 0) then q else 0 - q
  }

  function TruncRem(a: int, b: int): int
    requires b != 0
  {
    var m := Abs(a) % Abs(b);
    if a < 0 then 0 - m else m
  }

  /** Machine remainder of a signed pair; the least value by -1 panics although the remainder is 0. */
  function CheckedRem(l: Num, d: Num): Outcome {
    if d.Val() == 0 then Null
    else match (l, d)
         case (I64(a), I64(b)) =>
           if a as int == I64_MIN && b as int == -1 then Panic else Got(I64(RemI64(a, b)))
         case (I64(a), U64(b)) =>
           if a as int < 0 then Got(I64(WrappingNeg(AsI64(RemU64(AsU64(WrappingNeg(a)), b)))))
           else Got(I64(AsI64(RemU64(AsU64(a), b))))
         case (U64(a), I64(b)) => Got(U64(RemU64(a, AbsU64(b))))
         case (U64(a), U64(b)) => Got(U64(RemU64(a, b)))
  }

  function RemI64(a: i64, b: i64): i64
    requires b as int != 0
  {
    TruncRem(a, b)
  }

  function RemU64(a: u64, b: u64): u64
    requires b as int != 0
  {
    (a as int) % (b as int)
  }

  function DivU64(a: u64, b: u64): (r: u64)
    requires b as int != 0
  {
    QuotientIsSmaller(a, b);
    (a as int) / (b as int)
  }

  /** `overflowing_abs().0 as u64`. */
  function AbsU64(x: i64): u64 {
    if x as int < 0 then AsU64(WrappingNeg(x)) else AsU64(x)
  }

  function CheckedIntDiv(l: Num, d: Num): Outcome {
    if d.Val() == 0 then Null
    else match (l, d)
         case (I64(a), I64(b)) => FromI64(CheckedI64(TruncDiv(a, b)))
         case (I64(a), U64(b)) =>
           if a as int < 0 then
             if AsU64(WrappingNeg(a)) as int >= b as int then Overflow else Got(U64(0))
           else Got(U64(DivU64(AsU64(a), b)))
         case (U64(a), I64(b)) =>
           if b as int < 0 then
             if a as int != 0 && AsU64(WrappingNeg(b)) as int <= a as int then Overflow else Got(U64(0))
           else Got(U64(DivU64(a, AsU64(b))))
         case (U64(a), U64(b)) => Got(U64(DivU64(a, b)))
  }

  lemma QuotientTimesDivisor(q: int, b: int, m: int)
    requires b > 0 && 0 <= m < b && q * b + m >= 0
    ensures 0 <= q <= q * b && (q == 0 || q * b >= b)
  {
    assert q < 0 ==> q * b <= -1 * b;
    assert q > 0 ==> q * b >= 1 * b && q * b >= q * 1;
  }

  lemma QuotientIsSmaller(a: int, b: int)
    requires a >= 0 && b > 0
    ensures 0 <= a / b <= a && (a / b == 0 <==> a < b)
    ensures a == (a / b) * b + a % b && 0 <= a % b < b && a % b <= a
  {
    QuotientTimesDivisor(a / b, b, a % b);
  }

  /** Truncated division is the one with a remainder smaller than the divisor and of the dividend's sign. */
  lemma TruncatedDivision(a: int, b: int)
    requires b != 0
    ensures a == TruncDiv(a, b) * b + TruncRem(a, b)
    ensures Abs(TruncRem(a, b)) < Abs(b) && (TruncRem(a, b) == 0 || (TruncRem(a, b) < 0 <==> a < 0))
  {
    QuotientIsSmaller(Abs(a), Abs(b));
    var q, m := Abs(a) / Abs(b), Abs(a) % Abs(b);
    assert q * (0 - b) == 0 - q * b && (0 - q) * b == 0 - q * b;
  }

  /** Integer division fails exactly when the truncated quotient does not fit the result type. */
  lemma IntDivIsExact(l: Num, d: Num)
    requires d.Val() != 0
    ensures CheckedIntDiv(l, d) == Exact(BothSigned(l, d), TruncDiv(l.Val(), d.Val()))
  {
    QuotientIsSmaller(Abs(l.Val()), Abs(d.Val()));
  }

  /** The remainder has the type of the left operand, and is exact but for one panicking pair. */
  lemma RemIsExactIffNoPanic(l: Num, d: Num)
    requires d.Val() != 0
    ensures CheckedRem(l, d) == Exact(l.I64?, TruncRem(l.Val(), d.Val())) <==>
            !(BothSigned(l, d) && l.Val() == I64_MIN && d.Val() == -1)
  {
    QuotientIsSmaller(Abs(l.Val()), Abs(d.Val()));
  }

  /** The two operations agree: a quotient and the remainder of the same operands recompose the dividend. */
  lemma DivisionAndRemainderAgree(l: Num, d: Num)
    requires CheckedIntDiv(l, d).Got?
    ensures CheckedRem(l, d).Got?
    ensures var q, r := CheckedIntDiv(l, d).n.Val(), CheckedRem(l, d).n.Val();
      l.Val() == q * d.Val() + r && Abs(r) < Abs(d.Val()) && (r == 0 || (r < 0 <==> l.Val() < 0))
  {
    IntDivIsExact(l, d);
    RemIsExactIffNoPanic(l, d);
    TruncatedDivision(l.Val(), d.Val());
    assert TruncDiv(I64_MIN, -1) == TWO_63;
  }

  lemma ZeroDivisorYieldsNull(l: Num, d: Num)
    ensures CheckedIntDiv(l, d) == Null <==> d.Val() == 0
    ensures CheckedRem(l, d) == Null <==> d.Val() == 0
  { }
}
