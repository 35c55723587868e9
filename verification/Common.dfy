/** Vocabulary shared by every model: results, orderings and machine integer ranges. */
module Common {

  datatype Option<+T> = None | Some(value: T) {
    function GetOr(default: T): T {
      match this
      case None => default
      case Some(v) => v
    }
  }

  datatype Result<+T, +E> = Ok(value: T) | Err(error: E)

  /** Rust's three-way comparison result (spelled `Partitioning` in this fork). */
  datatype Ordering = Less | Equal | Greater {
    function Reverse(): Ordering {
      match this
      case Less => Greater
      case Equal => Equal
      case Greater => Less
    }

    /** Lexicographic chaining: the next comparison decides only a tie. */
    function Then(next: Ordering): Ordering {
      if this.Equal? then next else this
    }
  }

  function CompareInt(a: int, b: int): Ordering {
    if a < b then Less else if a == b then Equal else Greater
  }

  const TWO_63: int := 0x8000_0000_0000_0000
  const TWO_64: int := 0x1_0000_0000_0000_0000
  const I64_MIN: int := -TWO_63
  const I64_MAX: int := TWO_63 - 1
  const U64_MAX: int := TWO_64 - 1

  predicate FitsI64(x: int) { -TWO_63 <= x < TWO_63 }

  predicate FitsU64(x: int) { 0 <= x < TWO_64 }

  type i64 = x: int | -TWO_63 <= x < TWO_63
  type u64 = x: int | 0 <= x < TWO_64

  /** The result of a checked machine operation: `None` if the value does not fit. */
  function CheckedI64(x: int): Option<i64> {
    if FitsI64(x) then Some(x) else None
  }

  function CheckedU64(x: int): Option<u64> {
    if FitsU64(x) then Some(x) else None
  }

  /** The cast `x as u64` of a signed value: two's complement reinterpretation. */
  function AsU64(x: i64): u64 {
    var n: int := x;
    if n < 0 then n + TWO_64 else n
  }

  /** The cast `x as i64` of an unsigned value. */
  function AsI64(x: u64): i64 {
    var n: int := x;
    if n > I64_MAX then n - TWO_64 else n
  }

  /** `overflowing_neg().0`: only the least value is its own negation. */
  function WrappingNeg(x: i64): i64 {
    var n: int := x;
    if n == I64_MIN then n else -n
  }

  function Abs(x: int): nat {
    if x < 0 then -x else x
  }

  lemma Associative<T>(a: seq<T>, b: seq<T>, c: seq<T>)
    ensures a + b + c == a + (b + c)
  { }

  /** The two sequences agree before `k` and not at `k`, where one of them may end. */
  ghost predicate FirstDifference<T>(a: seq<T>, b: seq<T>, k: nat) {
    k <= |a| && k <= |b| && a[..k] == b[..k] && (k < |a| && k < |b| ==> a[k] != b[k])
  }

  lemma {:induction false} HasFirstDifference<T>(a: seq<T>, b: seq<T>) returns (k: nat)
    ensures FirstDifference(a, b, k) && (a == b <==> k == |a| == |b|)
    decreases |a|
  {
    if a == [] || b == [] || a[0] != b[0] {
      k := 0;
    } else {
      k := HasFirstDifference(a[1..], b[1..]);
      k := k + 1;
      assert a == [a[0]] + a[1..] && b == [b[0]] + b[1..];
      assert a[..k] == [a[0]] + a[1..][..k - 1] && b[..k] == [b[0]] + b[1..][..k - 1];
    }
  }

  lemma DifferenceInTail<T>(a: seq<T>, b: seq<T>, k: nat)
    requires FirstDifference(a, b, k) && k > 0
    ensures a[0] == b[0] && FirstDifference(a[1..], b[1..], k - 1)
  {
    assert a[0] == a[..k][0] && b[0] == b[..k][0];
    assert a[1..][..k - 1] == a[..k][1..] && b[1..][..k - 1] == b[..k][1..];
  }

  lemma PickAny<T>(keys: set<T>) returns (x: T)
    requires keys != {}
    ensures x in keys
  {
    x :| x in keys;
  }

  lemma {:induction false} SubsetSize<T>(a: set<T>, b: set<T>)
    requires a <= b
    ensures |a| <= |b|
    decreases |b|
  {
    if a != b {
      var x :| x in b && x !in a;
      SubsetSize(a, b - {x});
    }
  }
}
