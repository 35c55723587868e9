/** The byte formats a datum's payload is written in: fixed-width integers, variable-width integers,
    order-preserving byte strings and length-prefixed byte strings. */
module Payloads {
  import opened Common

  type byte = x: int | 0 <= x < 256
  type Bytes = seq<byte>

  /** A reader's result: the value and what is left of the input, or `None` for malformed input. */
  type Reading<+T> = Option<(T, Bytes)>

  // ------------------------------------------------------------- fixed width

  function Pow256(k: nat): (r: nat)
    ensures r >= 1
  {
    if k == 0 then 1 else 256 * Pow256(k - 1)
  }

  /** The last `k` base-256 digits, most significant first. */
  function BigEndian(n: nat, k: nat): (r: Bytes)
    ensures |r| == k
    decreases k
  {
    if k == 0 then [] else BigEndian(n / 256, k - 1) + [n % 256]
  }

  function FromBigEndian(bs: Bytes): (r: nat)
    ensures r < Pow256(|bs|)
  {
    if bs == [] then 0 else 256 * FromBigEndian(bs[..|bs| - 1]) + bs[|bs| - 1]
  }

  lemma {:induction false} BigEndianRoundTrip(n: nat, k: nat)
    requires n < Pow256(k)
    ensures FromBigEndian(BigEndian(n, k)) == n
    decreases k
  {
    if k > 0 {
      BigEndianRoundTrip(n / 256, k - 1);
      assert BigEndian(n, k)[..k - 1] == BigEndian(n / 256, k - 1);
    }
  }

  lemma {:induction false} BigEndianOfRead(bs: Bytes)
    ensures BigEndian(FromBigEndian(bs), |bs|) == bs
    decreases |bs|
  {
    if bs != [] {
      var front, last := bs[..|bs| - 1], bs[|bs| - 1];
      BigEndianOfRead(front);
      DivideBack(FromBigEndian(front), last);
      assert bs == front + [last];
    }
  }

  lemma DivideBack(n: nat, b: byte)
    ensures (256 * n + b) / 256 == n && (256 * n + b) % 256 == b
  { }

  lemma EightBytes()
    ensures Pow256(8) == TWO_64
  {
    assert Pow256(4) == 0x1_0000_0000;
    assert Pow256(8) == 256 * (256 * (256 * (256 * Pow256(4))));
  }

  function EncodeU64(v: u64): (r: Bytes)
    ensures |r| == 8
  {
    BigEndian(v, 8)
  }

  /** The sign bit is flipped so that the bytes order like the values. */
  function EncodeI64(v: i64): (r: Bytes)
    ensures |r| == 8
  {
    BigEndian(v as int + TWO_63, 8)
  }

  function ReadU64(buf: Bytes): Reading<u64> {
    EightBytes();
    if |buf| < 8 then None else Some((FromBigEndian(buf[..8]), buf[8..]))
  }

  function ReadI64(buf: Bytes): Reading<i64> {
    EightBytes();
    if |buf| < 8 then None else Some((FromBigEndian(buf[..8]) - TWO_63, buf[8..]))
  }

  lemma FixedRoundTrip(n: nat, k: nat, rest: Bytes)
    requires n < Pow256(k)
    ensures var buf := BigEndian(n, k) + rest; FromBigEndian(buf[..k]) == n && buf[k..] == rest
  {
    BigEndianRoundTrip(n, k);
    assert (BigEndian(n, k) + rest)[..k] == BigEndian(n, k);
  }

  lemma U64RoundTrip(v: u64, rest: Bytes)
    ensures ReadU64(EncodeU64(v) + rest) == Some((v, rest))
  {
    EightBytes();
    FixedRoundTrip(v, 8, rest);
  }

  lemma I64RoundTrip(v: i64, rest: Bytes)
    ensures ReadI64(EncodeI64(v) + rest) == Some((v, rest))
  {
    EightBytes();
    FixedRoundTrip(v as int + TWO_63, 8, rest);
  }

  // ------------------------------------------------------------- variable width

  const MAX_VARINT64_LENGTH: nat := 10

  /** Seven bits a byte, least significant first; the top bit says that more follow. */
  function EncodeVarU64(n: nat): (r: Bytes)
    ensures r != []
  {
    if n < 128 then [n] else [128 + n % 128] + EncodeVarU64(n / 128)
  }

  /** At most `k` bytes are looked at. */
  function ReadVar(buf: Bytes, k: nat): (r: Reading<nat>)
    ensures r.Some? ==> |r.value.1| < |buf|
    decreases k
  {
    if k == 0 || buf == [] then None
    else if buf[0] < 128 then Some((buf[0] as nat, buf[1..]))
    else match ReadVar(buf[1..], k - 1)
         case None => None
         case Some((n, rest)) => Some((buf[0] - 128 + 128 * n, rest))
  }

  function ReadVarU64(buf: Bytes): Reading<u64> {
    match ReadVar(buf, MAX_VARINT64_LENGTH)
    case None => None
    case Some((n, rest)) => if n >= TWO_64 then None else Some((n, rest))
  }

  /** Zigzag: small absolute values get small codes. */
  function ZigZag(v: i64): u64 {
    if v as int >= 0 then 2 * v as int else -2 * v as int - 1
  }

  function UnZigZag(u: u64): i64 {
    if u as int % 2 == 0 then u as int / 2 else -((u as int + 1) / 2)
  }

  function EncodeVarI64(v: i64): Bytes {
    EncodeVarU64(ZigZag(v))
  }

  function ReadVarI64(buf: Bytes): Reading<i64> {
    match ReadVarU64(buf)
    case None => None
    case Some((u, rest)) => Some((UnZigZag(u), rest))
  }

  function Pow128(k: nat): (r: nat)
    ensures r >= 1
  {
    if k == 0 then 1 else 128 * Pow128(k - 1)
  }

  lemma TenGroups()
    ensures Pow128(10) > TWO_64
  {
    assert Pow128(5) == 128 * (128 * (128 * (128 * 128)));
    assert Pow128(10) == 128 * (128 * (128 * (128 * (128 * Pow128(5)))));
  }

  lemma {:induction false} VarRoundTrip(n: nat, k: nat, rest: Bytes)
    requires k > 0 && n < Pow128(k)
    ensures |EncodeVarU64(n)| <= k && ReadVar(EncodeVarU64(n) + rest, k) == Some((n, rest))
    decreases n
  {
    if n < 128 {
      assert ([n] + rest)[1..] == rest;
    } else {
      assert k > 1 by {
        assert Pow128(1) == 128;
      }
      VarRoundTrip(n / 128, k - 1, rest);
      assert (EncodeVarU64(n) + rest)[1..] == EncodeVarU64(n / 128) + rest;
    }
  }

  lemma VarU64RoundTrip(v: u64, rest: Bytes)
    ensures |EncodeVarU64(v)| <= MAX_VARINT64_LENGTH && ReadVarU64(EncodeVarU64(v) + rest) == Some((v, rest))
  {
    TenGroups();
    VarRoundTrip(v, 10, rest);
  }

  lemma VarI64RoundTrip(v: i64, rest: Bytes)
    ensures |EncodeVarI64(v)| <= MAX_VARINT64_LENGTH && ReadVarI64(EncodeVarI64(v) + rest) == Some((v, rest))
  {
    VarU64RoundTrip(ZigZag(v), rest);
  }

  lemma {:induction false} LargeTakesLong(n: nat, k: nat)
    requires n >= Pow128(k)
    ensures |EncodeVarU64(n)| > k
    decreases k
  {
    if k > 0 {
      assert n / 128 >= Pow128(k - 1);
      LargeTakesLong(n / 128, k - 1);
    }
  }

  lemma NineGroups()
    ensures Pow128(9) == TWO_63
  {
    assert Pow128(4) == 128 * (128 * (128 * 128));
    assert Pow128(9) == 128 * (128 * (128 * (128 * (128 * Pow128(4)))));
  }

  /** All ten bytes are used exactly from half the range on. */
  lemma TenBytesIffLarge(v: u64)
    ensures |EncodeVarU64(v)| == MAX_VARINT64_LENGTH <==> v as int >= TWO_63
  {
    NineGroups();
    VarU64RoundTrip(v, []);
    if v as int >= TWO_63 {
      LargeTakesLong(v, 9);
    } else {
      VarRoundTrip(v, 9, []);
    }
  }

  /** Length of the first variable-width integer of a buffer; of all of it if the integer does not end. */
  function FirstVarLen(buf: Bytes, k: nat): (r: nat)
    ensures r <= |buf|
    decreases k
  {
    if k == 0 || buf == [] then 0 else if buf[0] < 128 then 1 else 1 + FirstVarLen(buf[1..], k - 1)
  }

  lemma {:induction false} FirstVarLenIsExact(n: nat, k: nat, rest: Bytes)
    requires k > 0 && n < Pow128(k)
    ensures FirstVarLen(EncodeVarU64(n) + rest, k) == |EncodeVarU64(n)|
    decreases n
  {
    if n >= 128 {
      assert k > 1 by {
        assert Pow128(1) == 128;
      }
      FirstVarLenIsExact(n / 128, k - 1, rest);
      assert (EncodeVarU64(n) + rest)[1..] == EncodeVarU64(n / 128) + rest;
    }
  }

  // ------------------------------------------------------------- order-preserving byte strings

  function Zeros(k: nat): (r: Bytes)
    ensures |r| == k
  {
    seq(k, _ => 0)
  }

  /** Groups of eight bytes, each followed by 255 less its padding. A group with padding ends the string. */
  function EncodeComparable(bs: Bytes): (r: Bytes)
    ensures |r| == (|bs| / 8 + 1) * 9
  {
    if |bs| >= 8 then bs[..8] + [255] + EncodeComparable(bs[8..])
    else bs + Zeros(8 - |bs|) + [247 + |bs|]
  }

  function ReadComparable(buf: Bytes): (r: Reading<Bytes>)
    ensures r.Some? ==> |r.value.1| < |buf|
  {
    if |buf| < 9 || buf[8] < 247 then None
    else if buf[8] == 255 then
      match ReadComparable(buf[9..])
      case None => None
      case Some((bs, rest)) => Some((buf[..8] + bs, rest))
    else
      var n := buf[8] - 247;
      if buf[n..8] == Zeros(8 - n) then Some((buf[..n], buf[9..])) else None
  }

  lemma {:induction false} ComparableRoundTrip(bs: Bytes, rest: Bytes)
    ensures ReadComparable(EncodeComparable(bs) + rest) == Some((bs, rest))
    decreases |bs|
  {
    var buf := EncodeComparable(bs) + rest;
    if |bs| >= 8 {
      ComparableRoundTrip(bs[8..], rest);
      assert buf[9..] == EncodeComparable(bs[8..]) + rest;
      assert buf[..8] + bs[8..] == bs;
    } else {
      assert buf[|bs|..8] == Zeros(8 - |bs|);
      assert buf[..|bs|] == bs && buf[9..] == rest;
    }
  }

  /** Whatever is read was written by the writer: padding is checked. */
  lemma {:induction false} ComparableOfRead(buf: Bytes)
    requires ReadComparable(buf).Some?
    ensures EncodeComparable(ReadComparable(buf).value.0) + ReadComparable(buf).value.1 == buf
    decreases |buf|
  {
    var (bs, rest) := ReadComparable(buf).value;
    if buf[8] == 255 {
      ComparableOfRead(buf[9..]);
      var tail := ReadComparable(buf[9..]).value.0;
      assert bs[..8] == buf[..8] && bs[8..] == tail;
      assert buf == buf[..8] + [255] + buf[9..];
      assert EncodeComparable(bs) == buf[..8] + [255] + EncodeComparable(tail);
      Associative(buf[..8] + [255], EncodeComparable(tail), rest);
    } else {
      var n := buf[8] - 247;
      assert buf == buf[..n] + buf[n..8] + [buf[8]] + buf[9..];
    }
  }

  /** Length of the first order-preserving string of a buffer; of all of it if the string does not end. */
  function FirstComparableLen(buf: Bytes): (r: nat)
    ensures r <= |buf|
  {
    if |buf| < 9 then |buf| else if buf[8] != 255 then 9 else 9 + FirstComparableLen(buf[9..])
  }

  lemma {:induction false} FirstComparableLenIsExact(bs: Bytes, rest: Bytes)
    ensures FirstComparableLen(EncodeComparable(bs) + rest) == |EncodeComparable(bs)|
    decreases |bs|
  {
    if |bs| >= 8 {
      FirstComparableLenIsExact(bs[8..], rest);
      assert (EncodeComparable(bs) + rest)[9..] == EncodeComparable(bs[8..]) + rest;
    }
  }

  // ------------------------------------------------------------- length-prefixed byte strings

  /** No byte string in memory is longer. */
  predicate Addressable(bs: Bytes) { |bs| <= I64_MAX }

  function EncodeCompact(bs: Bytes): Bytes
    requires Addressable(bs)
  {
    EncodeVarI64(|bs|) + bs
  }

  function ReadCompact(buf: Bytes): Reading<Bytes> {
    match ReadVarI64(buf)
    case None => None
    case Some((n, rest)) => if 0 <= n as int <= |rest| then Some((rest[..n], rest[n..])) else None
  }

  lemma CompactRoundTrip(bs: Bytes, rest: Bytes)
    requires Addressable(bs)
    ensures ReadCompact(EncodeCompact(bs) + rest) == Some((bs, rest))
    ensures |EncodeCompact(bs)| <= |bs| + MAX_VARINT64_LENGTH
  {
    VarI64RoundTrip(|bs|, bs + rest);
    assert EncodeCompact(bs) + rest == EncodeVarI64(|bs|) + (bs + rest);
    assert (bs + rest)[..|bs|] == bs && (bs + rest)[|bs|..] == rest;
  }

  function FirstCompactLen(buf: Bytes): (r: nat)
    ensures r <= |buf|
  {
    var k := FirstVarLen(buf, MAX_VARINT64_LENGTH);
    match ReadVarI64(buf)
    case None => |buf|
    case Some((n, _)) => if 0 <= n as int <= |buf| - k then k + n as int else |buf|
  }

  lemma FirstCompactLenIsExact(bs: Bytes, rest: Bytes)
    requires Addressable(bs)
    ensures FirstCompactLen(EncodeCompact(bs) + rest) == |EncodeCompact(bs)|
  {
    VarI64RoundTrip(|bs|, bs + rest);
    TenGroups();
    FirstVarLenIsExact(ZigZag(|bs|), MAX_VARINT64_LENGTH, bs + rest);
    assert EncodeCompact(bs) + rest == EncodeVarI64(|bs|) + (bs + rest);
  }
}
