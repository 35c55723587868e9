/** Lists of datums as bytes: a flag per datum, then its payload. Comparable mode keeps the order of keys,
    compact mode saves space. Floats, decimals, times and JSON are outside this model. */
module Datums {
  import opened Common
  import opened Payloads
  import Arithmetic

  const NIL_FLAG: byte := 0
  const BYTES_FLAG: byte := 1
  const COMPACT_BYTES_FLAG: byte := 2
  const INT_FLAG: byte := 3
  const UINT_FLAG: byte := 4
  const FLOAT_FLAG: byte := 5
  const DECIMAL_FLAG: byte := 6
  const DURATION_FLAG: byte := 7
  const VAR_INT_FLAG: byte := 8
  const VAR_UINT_FLAG: byte := 9
  const JSON_FLAG: byte := 10
  const MAX_FLAG: byte := 250

  /** A duration is its nanoseconds: equality and order look at nothing else. */
  datatype AnyDatum =
    | Null
    | I64(i: i64)
    | U64(u: u64)
    | Bytes(bs: Payloads.Bytes)
    | Dur(nanos: i64)
    | Min
    | Max

  /** Datums whose bytes fit in memory. */
  type Datum = d: AnyDatum | d.Bytes? ==> Addressable(d.bs) witness Null

  datatype Failure = Malformed | OtherType

  // ------------------------------------------------------------- writing

  function EncodedDatum(v: Datum, comparable: bool): (r: Payloads.Bytes)
    ensures r != []
  {
    match v
    case Null => [NIL_FLAG]
    case I64(i) => if comparable then [INT_FLAG] + EncodeI64(i) else [VAR_INT_FLAG] + EncodeVarI64(i)
    case U64(u) => if comparable then [UINT_FLAG] + EncodeU64(u) else [VAR_UINT_FLAG] + EncodeVarU64(u)
    case Bytes(bs) =>
      if comparable then [BYTES_FLAG] + EncodeComparable(bs) else [COMPACT_BYTES_FLAG] + EncodeCompact(bs)
    case Dur(nanos) => [DURATION_FLAG] + EncodeI64(nanos)
    case Min => [BYTES_FLAG]
    case Max => [MAX_FLAG]
  }

  /** The first byte tells the type, and for integers and byte strings the format. */
  lemma FirstByte(v: Datum, comparable: bool)
    ensures EncodedDatum(v, comparable)[0] ==
            match v
            case Null => 0
            case I64(_) => if comparable then 3 else 8
            case U64(_) => if comparable then 4 else 9
            case Bytes(_) => if comparable then 1 else 2
            case Dur(_) => 7
            case Min => 1
            case Max => 250
  { }

  function Encoded(vs: seq<Datum>, comparable: bool): Payloads.Bytes {
    if vs == [] then [] else EncodedDatum(vs[0], comparable) + Encoded(vs[1..], comparable)
  }

  predicate MinOnlyLast(vs: seq<Datum>) {
    forall k :: 0 <= k < |vs| - 1 ==> vs[k] != Min
  }

  /** A list up to and with the first `stop`. */
  function Through<T(==)>(xs: seq<T>, stop: T): seq<T> {
    if xs == [] then [] else if xs[0] == stop then [stop] else [xs[0]] + Through(xs[1..], stop)
  }

  /** The values written before the writer gives up: all of them, or up to the first `Min`. */
  function UpToMin(vs: seq<Datum>): seq<Datum> {
    Through<Datum>(vs, Min)
  }

  predicate Lacks<T(==)>(xs: seq<T>, stop: T, n: nat) {
    n <= |xs| && forall k :: 0 <= k < n ==> xs[k] != stop
  }

  lemma {:induction false} ThroughAll<T>(xs: seq<T>, stop: T)
    requires Lacks(xs, stop, |xs|)
    ensures Through(xs, stop) == xs
  {
    if xs != [] {
      ThroughAll(xs[1..], stop);
      assert xs == [xs[0]] + xs[1..];
    }
  }

  lemma {:induction false} ThroughPart<T>(xs: seq<T>, stop: T, n: nat)
    requires n < |xs| && Lacks(xs, stop, n) && xs[n] == stop
    ensures Through(xs, stop) == xs[..n + 1]
    decreases n
  {
    if n > 0 {
      ThroughPart(xs[1..], stop, n - 1);
      assert xs[..n + 1] == [xs[0]] + xs[1..][..n];
    }
  }

  lemma {:induction false} EncodedSnoc(vs: seq<Datum>, v: Datum, comparable: bool)
    ensures Encoded(vs + [v], comparable) == Encoded(vs, comparable) + EncodedDatum(v, comparable)
  {
    if vs == [] {
      assert Encoded([v], comparable) == EncodedDatum(v, comparable) + Encoded([], comparable);
    } else {
      assert (vs + [v])[1..] == vs[1..] + [v];
      EncodedSnoc(vs[1..], v, comparable);
    }
  }

  lemma EncodedOneMore(vs: seq<Datum>, n: nat, comparable: bool, start: Payloads.Bytes)
    requires n < |vs|
    ensures start + Encoded(vs[..n], comparable) + EncodedDatum(vs[n], comparable) == start + Encoded(vs[..n + 1], comparable)
  {
    EncodedSnoc(vs[..n], vs[n], comparable);
    assert vs[..n + 1] == vs[..n] + [vs[n]];
    Associative(start, Encoded(vs[..n], comparable), EncodedDatum(vs[n], comparable));
  }

  /** The state of the writer's loop before value `n`. */
  ghost predicate FlagIsRight(vs: seq<Datum>, n: nat, findMin: bool) {
    if findMin then 0 < n <= |vs| && vs[n - 1] == Min && Lacks<Datum>(vs, Min, n - 1) else Lacks<Datum>(vs, Min, n)
  }

  lemma FlagStops(vs: seq<Datum>, n: nat)
    requires n < |vs| && FlagIsRight(vs, n, true)
    ensures !MinOnlyLast(vs) && UpToMin(vs) == vs[..n]
  {
    ThroughPart<Datum>(vs, Min, n - 1);
  }

  lemma FlagAtEnd(vs: seq<Datum>, findMin: bool)
    requires FlagIsRight(vs, |vs|, findMin)
    ensures MinOnlyLast(vs) && UpToMin(vs) == vs
  {
    if findMin {
      ThroughPart<Datum>(vs, Min, |vs| - 1);
    } else {
      ThroughAll<Datum>(vs, Min);
    }
  }

  class Buffer {
    var data: Payloads.Bytes

    constructor ()
      ensures data == []
    {
      data := [];
    }

    method Write(bs: Payloads.Bytes)
      modifies this
      ensures data == old(data) + bs
    {
      data := data + bs;
    }

    method WriteFlagged(flag: byte, payload: Payloads.Bytes)
      modifies this
      ensures data == old(data) + ([flag] + payload)
    {
      Write([flag]);
      Write(payload);
    }

    /** Fails exactly if a `Min` is followed by another datum; what came before it is then in the buffer. */
    method WriteDatum(vs: seq<Datum>, comparable: bool) returns (ok: bool)
      modifies this
      ensures ok <==> MinOnlyLast(vs)
      ensures data == old(data) + Encoded(UpToMin(vs), comparable)
    {
      var findMin := false;
      ghost var start := data;
      for n := 0 to |vs|
        invariant FlagIsRight(vs, n, findMin)
        invariant data == start + Encoded(vs[..n], comparable)
      {
        if findMin {
          FlagStops(vs, n);
          return false;
        }
        EncodedOneMore(vs, n, comparable, start);
        WriteOne(vs[n], comparable);
        findMin := vs[n] == Min;
      }
      assert vs[..|vs|] == vs;
      FlagAtEnd(vs, findMin);
      return true;
    }

    /** The arm of one datum. */
    method WriteOne(v: Datum, comparable: bool)
      modifies this
      ensures data == old(data) + EncodedDatum(v, comparable)
    {
      match v {
        case I64(i) =>
          if comparable {
            WriteFlagged(INT_FLAG, EncodeI64(i));
          } else {
            WriteFlagged(VAR_INT_FLAG, EncodeVarI64(i));
          }
        case U64(u) =>
          if comparable {
            WriteFlagged(UINT_FLAG, EncodeU64(u));
          } else {
            WriteFlagged(VAR_UINT_FLAG, EncodeVarU64(u));
          }
        case Bytes(bs) =>
          if comparable {
            WriteFlagged(BYTES_FLAG, EncodeComparable(bs));
          } else {
            WriteFlagged(COMPACT_BYTES_FLAG, EncodeCompact(bs));
          }
        case Null => Write([NIL_FLAG]);
        case Min => Write([BYTES_FLAG]);
        case Max => Write([MAX_FLAG]);
        case Dur(nanos) => WriteFlagged(DURATION_FLAG, EncodeI64(nanos));
      }
    }
  }

  /** `encode`: a fresh buffer, lost on failure. */
  method Encode(vs: seq<Datum>, comparable: bool) returns (r: Option<Payloads.Bytes>)
    ensures r == if MinOnlyLast(vs) then Some(Encoded(vs, comparable)) else None
  {
    var buf := new Buffer();
    var ok := buf.WriteDatum(vs, comparable);
    if !ok {
      return None;
    }
    MinLastIsAll(vs);
    assert [] + Encoded(vs, comparable) == Encoded(vs, comparable);
    return Some(buf.data);
  }

  lemma MinLastIsAll(vs: seq<Datum>)
    requires MinOnlyLast(vs)
    ensures UpToMin(vs) == vs
  {
    FlagAtEnd(vs, vs != [] && vs[|vs| - 1] == Min);
  }

  // ------------------------------------------------------------- reading

  const MAX_NANOS: int := ((838 * 3600) + 59 * 60 + 59) * 1_000_000_000 + 999_999_999

  const STEP: int := 1000

  /** Durations are read at six fractional digits: the range is checked, before and after rounding. */
  function CheckedRound(nanos: i64): Option<i64> {
    if Abs(nanos) > MAX_NANOS then None
    else
      var rem := Arithmetic.TruncRem(nanos, STEP);
      var n := if Abs(rem) < STEP / 2 then nanos - rem else nanos - rem + (if nanos as int > 0 then STEP else -STEP);
      if Abs(n) > MAX_NANOS then None else Some(n)
  }

  predicate WholeMicros(nanos: i64) {
    Abs(nanos) <= MAX_NANOS && nanos as int % STEP == 0
  }

  /** A duration survives reading if and only if it is a whole number of microseconds in range. */
  lemma DurationKeptIffWholeMicros(nanos: i64)
    ensures CheckedRound(nanos) == Some(nanos) <==> WholeMicros(nanos)
  {
    RemainderOfStep(nanos);
  }

  /** Reading rounds to the nearest whole microsecond, halves away from zero, and fails exactly if the duration is
      out of range or would be rounded out of it. */
  lemma DurationIsRounded(nanos: i64)
    ensures CheckedRound(nanos).Some? <==> Abs(nanos) <= MAX_NANOS - 500
    ensures CheckedRound(nanos).Some? ==> var n: int := CheckedRound(nanos).value;
      && n % 1000 == 0 && Abs(n - nanos as int) <= 500
      && (Abs(n - nanos as int) == 500 ==> Abs(n) > Abs(nanos))
  {
    var q := WholeSteps(nanos);
    var rem := Arithmetic.TruncRem(nanos, STEP);
    var steps := if Abs(rem) < 500 then q else if nanos as int > 0 then q + 1 else q - 1;
    NearestStep(nanos, q, rem, steps);
    assert CheckedRound(nanos) ==
           if Abs(nanos) <= MAX_NANOS && Abs(1000 * steps) <= MAX_NANOS then Some(1000 * steps) else None;
    StepsAreWhole(steps);
  }

  lemma NearestStep(n: int, q: int, rem: int, steps: int)
    requires n == 1000 * q + rem && Abs(rem) < 1000 && if n < 0 then rem <= 0 else rem >= 0
    requires steps == if Abs(rem) < 500 then q else if n > 0 then q + 1 else q - 1
    ensures Abs(1000 * steps - n) <= 500 && (Abs(1000 * steps - n) == 500 ==> Abs(1000 * steps) > Abs(n))
    ensures Abs(n) <= MAX_NANOS && Abs(1000 * steps) <= MAX_NANOS <==> Abs(n) <= MAX_NANOS - 500
  {
    assert MAX_NANOS == 1000 * 3020399999999 + 999;
  }

  lemma WholeSteps(n: int) returns (q: int)
    ensures n - Arithmetic.TruncRem(n, STEP) == 1000 * q
    ensures Abs(Arithmetic.TruncRem(n, STEP)) < 1000
    ensures if n < 0 then Arithmetic.TruncRem(n, STEP) <= 0 else Arithmetic.TruncRem(n, STEP) >= 0
  {
    q := if n < 0 then 0 - (-n / STEP) else n / STEP;
  }

  lemma StepsAreWhole(q: int)
    ensures (1000 * q) % 1000 == 0
  { }

  lemma RemainderOfStep(n: int)
    ensures var rem := Arithmetic.TruncRem(n, STEP); Abs(rem) < STEP && (rem == 0 <==> n % STEP == 0)
  { }

  /** The clipped duration that the parser makes of a literal out of range cannot be read back. */
  lemma ClippedDurationIsUnreadable()
    ensures CheckedRound(MAX_NANOS) == None && CheckedRound(-MAX_NANOS) == None
  { }

  type DatumReading = Result<(AnyDatum, Payloads.Bytes), Failure>

  function AsDatum<T>(reading: Reading<T>, wrap: T -> AnyDatum): DatumReading {
    match reading
    case None => Err(Malformed)
    case Some((v, rest)) => Ok((wrap(v), rest))
  }

  /** `Duration::from_nanos`. */
  function AsDuration(reading: Reading<i64>): DatumReading {
    match reading
    case None => Err(Malformed)
    case Some((nanos, rest)) =>
      match CheckedRound(nanos)
      case None => Err(Malformed)
      case Some(n) => Ok((Dur(n), rest))
  }

  function ReadPayload(flag: byte, buf: Payloads.Bytes): (r: DatumReading)
    ensures r.Ok? ==> |r.value.1| <= |buf|
  {
    if flag == INT_FLAG then AsDatum(ReadI64(buf), i => I64(i))
    else if flag == UINT_FLAG then AsDatum(ReadU64(buf), u => U64(u))
    else if flag == BYTES_FLAG then AsDatum(ReadComparable(buf), bs => Bytes(bs))
    else if flag == COMPACT_BYTES_FLAG then AsDatum(ReadCompact(buf), bs => Bytes(bs))
    else if flag == NIL_FLAG then Ok((Null, buf))
    else if flag == DURATION_FLAG then AsDuration(ReadI64(buf))
    else if flag == VAR_INT_FLAG then AsDatum(ReadVarI64(buf), i => I64(i))
    else if flag == VAR_UINT_FLAG then AsDatum(ReadVarU64(buf), u => U64(u))
    else if flag == FLOAT_FLAG || flag == DECIMAL_FLAG || flag == JSON_FLAG then Err(OtherType)
    else Err(Malformed)
  }

  function ReadDatum(buf: Payloads.Bytes): (r: DatumReading)
    ensures r.Ok? ==> |r.value.1| < |buf|
  {
    if buf == [] then Err(Malformed) else ReadPayload(buf[0], buf[1..])
  }

  function DecodeAll(data: Payloads.Bytes): Result<seq<AnyDatum>, Failure>
    decreases |data|
  {
    if data == [] then Ok([])
    else match ReadDatum(data)
         case Err(e) => Err(e)
         case Ok((d, rest)) =>
           match DecodeAll(rest)
           case Err(e) => Err(e)
           case Ok(ds) => Ok([d] + ds)
  }

  method Decode(input: Payloads.Bytes) returns (r: Result<seq<AnyDatum>, Failure>)
    ensures r == DecodeAll(input)
  {
    var data, res := input, [];
    forall ds: seq<AnyDatum> ensures res + ds == ds { }
    while data != []
      invariant DecodeAll(input) == match DecodeAll(data) case Err(e) => Err(e) case Ok(ds) => Ok(res + ds)
      decreases |data|
    {
      match ReadDatum(data) {
        case Err(e) =>
          return Err(e);
        case Ok((v, rest)) =>
          forall ds: seq<AnyDatum> ensures res + ([v] + ds) == res + [v] + ds { }
          res := res + [v];
          data := rest;
      }
    }
    assert res + [] == res;
    return Ok(res);
  }

  predicate Readable(v: Datum) {
    v != Min && v != Max && (v.Dur? ==> WholeMicros(v.nanos))
  }

  lemma ReadFlagged(flag: byte, payload: Payloads.Bytes, rest: Payloads.Bytes)
    ensures ReadDatum([flag] + payload + rest) == ReadPayload(flag, payload + rest)
  {
    assert ([flag] + payload + rest)[1..] == payload + rest;
  }

  lemma ReadUndoesWrite(v: Datum, comparable: bool, rest: Payloads.Bytes)
    requires v != Min && v != Max && !v.Dur?
    ensures ReadDatum(EncodedDatum(v, comparable) + rest) == Ok((v, rest))
  {
    match v
    case Null =>
      ReadFlagged(NIL_FLAG, [], rest);
      assert [NIL_FLAG] + [] + rest == [NIL_FLAG] + rest && [] + rest == rest;
    case I64(i) => ReadUndoesWriteI64(i, comparable, rest);
    case U64(u) => ReadUndoesWriteU64(u, comparable, rest);
    case Bytes(bs) => ReadUndoesWriteBytes(bs, comparable, rest);
  }

  lemma ReadUndoesWriteI64(i: i64, comparable: bool, rest: Payloads.Bytes)
    ensures ReadDatum(EncodedDatum(I64(i), comparable) + rest) == Ok((I64(i), rest))
  {
    if comparable {
      ReadFlagged(INT_FLAG, EncodeI64(i), rest);
      I64RoundTrip(i, rest);
    } else {
      ReadFlagged(VAR_INT_FLAG, EncodeVarI64(i), rest);
      VarI64RoundTrip(i, rest);
    }
  }

  lemma ReadUndoesWriteU64(u: u64, comparable: bool, rest: Payloads.Bytes)
    ensures ReadDatum(EncodedDatum(U64(u), comparable) + rest) == Ok((U64(u), rest))
  {
    if comparable {
      ReadFlagged(UINT_FLAG, EncodeU64(u), rest);
      U64RoundTrip(u, rest);
    } else {
      ReadFlagged(VAR_UINT_FLAG, EncodeVarU64(u), rest);
      VarU64RoundTrip(u, rest);
    }
  }

  lemma ReadUndoesWriteBytes(bs: Payloads.Bytes, comparable: bool, rest: Payloads.Bytes)
    requires Addressable(bs)
    ensures ReadDatum(EncodedDatum(Bytes(bs), comparable) + rest) == Ok((Bytes(bs), rest))
  {
    if comparable {
      ReadFlagged(BYTES_FLAG, EncodeComparable(bs), rest);
      ComparableRoundTrip(bs, rest);
    } else {
      ReadFlagged(COMPACT_BYTES_FLAG, EncodeCompact(bs), rest);
      CompactRoundTrip(bs, rest);
    }
  }

  lemma ReadRoundsDuration(nanos: i64, comparable: bool, rest: Payloads.Bytes)
    ensures ReadDatum(EncodedDatum(Dur(nanos), comparable) + rest) ==
            if CheckedRound(nanos).None? then Err(Malformed) else Ok((Dur(CheckedRound(nanos).value), rest))
  {
    ReadFlagged(DURATION_FLAG, EncodeI64(nanos), rest);
    I64RoundTrip(nanos, rest);
  }

  predicate AllReadable(vs: seq<Datum>) {
    forall k :: 0 <= k < |vs| ==> Readable(vs[k])
  }

  lemma DecodeFirst(v: Datum, comparable: bool, rest: Payloads.Bytes)
    requires v == Min ==> rest == []
    ensures var r := ReadDatum(EncodedDatum(v, comparable) + rest);
      if Readable(v) then r == Ok((v, rest)) else r.Err? || r.value.0 != v
  {
    if v == Min || v == Max {
      ReadFlagged(EncodedDatum(v, comparable)[0], [], rest);
      assert EncodedDatum(v, comparable) + rest == EncodedDatum(v, comparable) + [] + rest && [] + rest == rest;
    } else if v.Dur? {
      ReadRoundsDuration(v.nanos, comparable, rest);
      DurationKeptIffWholeMicros(v.nanos);
    } else {
      ReadUndoesWrite(v, comparable, rest);
    }
  }

  /** In both modes decoding gives back the encoded list if and only if the list holds no `Min`, no `Max`
      and only durations of whole microseconds in range. */
  lemma {:induction false} DecodeUndoesEncodeIffReadable(vs: seq<Datum>, comparable: bool)
    requires MinOnlyLast(vs)
    ensures DecodeAll(Encoded(vs, comparable)) == Ok(vs) <==> AllReadable(vs)
  {
    if vs != [] {
      var v, rest := vs[0], Encoded(vs[1..], comparable);
      assert vs == [v] + vs[1..];
      DecodeFirst(v, comparable, rest);
      DecodeUndoesEncodeIffReadable(vs[1..], comparable);
      assert AllReadable(vs) <==> Readable(v) && AllReadable(vs[1..]);
      var d := DecodeAll(Encoded(vs, comparable));
      if Readable(v) && d.Ok? {
        assert d.value == [v] + DecodeAll(rest).value && d.value[1..] == DecodeAll(rest).value;
      }
    }
  }

  predicate KeyFlag(flag: byte) {
    flag == NIL_FLAG || flag == INT_FLAG || flag == UINT_FLAG || flag == BYTES_FLAG
  }

  /** A key that can be read is the one that is written for what was read: no two keys read the same. */
  lemma KeyReadIsKeyWritten(buf: Payloads.Bytes)
    requires Addressable(buf) && ReadDatum(buf).Ok? && KeyFlag(buf[0])
    ensures var (d, rest) := ReadDatum(buf).value;
      (d.Bytes? ==> Addressable(d.bs)) && EncodedDatum(d, true) + rest == buf
  {
    var flag, payload := buf[0], buf[1..];
    var (d, rest) := ReadDatum(buf).value;
    assert buf == [flag] + payload;
    if flag == BYTES_FLAG {
      ComparableOfRead(payload);
      Associative([flag], EncodeComparable(d.bs), rest);
    } else if flag == INT_FLAG || flag == UINT_FLAG {
      BigEndianOfRead(payload[..8]);
      assert payload == payload[..8] + rest;
      Associative([flag], payload[..8], rest);
    }
  }

  // ------------------------------------------------------------- splitting

  function PayloadLen(flag: byte, buf: Payloads.Bytes): nat {
    if flag == BYTES_FLAG then FirstComparableLen(buf)
    else if flag == COMPACT_BYTES_FLAG then FirstCompactLen(buf)
    else if flag == NIL_FLAG then 0
    else if flag == VAR_INT_FLAG || flag == VAR_UINT_FLAG then FirstVarLen(buf, MAX_VARINT64_LENGTH)
    else 8
  }

  /** The first datum of a buffer and the rest; for byte strings in ascending order. */
  function SplitDatum(buf: Payloads.Bytes): Result<(Payloads.Bytes, Payloads.Bytes), Failure> {
    if buf == [] then Err(Malformed)
    else if buf[0] == DECIMAL_FLAG || buf[0] == JSON_FLAG then Err(OtherType)
    else if buf[0] > JSON_FLAG then Err(Malformed)
    else
      var pos := PayloadLen(buf[0], buf[1..]);
      if |buf| < pos + 1 then Err(Malformed) else Ok((buf[..pos + 1], buf[pos + 1..]))
  }

  /** The types whose payload is eight bytes. */
  predicate EightByteFlag(flag: byte) {
    3 <= flag <= 5 || flag == 7
  }

  /** Null, both kinds of byte strings and both kinds of variable-width integers can always be split, a payload of
      eight bytes if these are there. */
  predicate CanBeSplit(buf: Payloads.Bytes) {
    buf != [] && (buf[0] <= 2 || buf[0] == 8 || buf[0] == 9 || (EightByteFlag(buf[0]) && |buf| >= 9))
  }

  lemma SplitsIff(buf: Payloads.Bytes)
    ensures SplitDatum(buf).Ok? <==> CanBeSplit(buf)
    ensures SplitDatum(buf).Ok? ==> SplitDatum(buf).value.0 + SplitDatum(buf).value.1 == buf
    ensures SplitDatum(buf).Ok? && buf[0] == 0 ==> |SplitDatum(buf).value.0| == 1
    ensures SplitDatum(buf).Ok? && EightByteFlag(buf[0]) ==> |SplitDatum(buf).value.0| == 9
  { }

  lemma SplitFlagged(flag: byte, payload: Payloads.Bytes, rest: Payloads.Bytes)
    requires flag <= JSON_FLAG && flag != DECIMAL_FLAG && flag != JSON_FLAG
    requires PayloadLen(flag, payload + rest) == |payload|
    ensures SplitDatum([flag] + payload + rest) == Ok(([flag] + payload, rest))
  {
    var buf := [flag] + payload + rest;
    assert buf[1..] == payload + rest;
    assert buf[..|payload| + 1] == [flag] + payload && buf[|payload| + 1..] == rest;
  }

  lemma SplitCutsInteger(v: Datum, comparable: bool, rest: Payloads.Bytes)
    requires v.I64? || v.U64?
    ensures SplitDatum(EncodedDatum(v, comparable) + rest) == Ok((EncodedDatum(v, comparable), rest))
  {
    var payload := EncodedDatum(v, comparable)[1..];
    TenGroups();
    if !comparable {
      FirstVarLenIsExact(if v.I64? then ZigZag(v.i) else v.u, MAX_VARINT64_LENGTH, rest);
    }
    SplitFlagged(EncodedDatum(v, comparable)[0], payload, rest);
  }

  lemma SplitCutsBytes(bs: Payloads.Bytes, comparable: bool, rest: Payloads.Bytes)
    requires Addressable(bs)
    ensures var enc := EncodedDatum(Bytes(bs), comparable); SplitDatum(enc + rest) == Ok((enc, rest))
  {
    if comparable {
      FirstComparableLenIsExact(bs, rest);
      SplitFlagged(BYTES_FLAG, EncodeComparable(bs), rest);
    } else {
      FirstCompactLenIsExact(bs, rest);
      SplitFlagged(COMPACT_BYTES_FLAG, EncodeCompact(bs), rest);
    }
  }

  lemma SplitCutsOne(v: Datum, comparable: bool, rest: Payloads.Bytes)
    requires v != Max && (v == Min ==> rest == [])
    ensures SplitDatum(EncodedDatum(v, comparable) + rest) == Ok((EncodedDatum(v, comparable), rest))
  {
    match v
    case I64(_) => SplitCutsInteger(v, comparable, rest);
    case U64(_) => SplitCutsInteger(v, comparable, rest);
    case Bytes(bs) => SplitCutsBytes(bs, comparable, rest);
    case Dur(nanos) => SplitFlagged(DURATION_FLAG, EncodeI64(nanos), rest);
    case Null => SplitFlagAlone(NIL_FLAG, rest);
    case Min => SplitFlagAlone(BYTES_FLAG, rest);
    case Max =>
  }

  lemma SplitFlagAlone(flag: byte, rest: Payloads.Bytes)
    requires flag == NIL_FLAG || (flag == BYTES_FLAG && rest == [])
    ensures SplitDatum([flag] + rest) == Ok(([flag], rest))
  {
    var none: Payloads.Bytes := [];
    assert [flag] + none == [flag] && none + rest == rest;
    SplitFlagged(flag, none, rest);
  }

  /** Splitting cuts exactly the first datum off an encoded list, if and only if that datum is not `Max`. */
  lemma SplitCutsFirstDatumIffNotMax(vs: seq<Datum>, comparable: bool)
    requires vs != [] && MinOnlyLast(vs)
    ensures SplitDatum(Encoded(vs, comparable)) == Ok((EncodedDatum(vs[0], comparable), Encoded(vs[1..], comparable)))
            <==> vs[0] != Max
  {
    if vs[0] != Max {
      SplitCutsOne(vs[0], comparable, Encoded(vs[1..], comparable));
    }
  }

  lemma {:induction false} ReadVarLength(buf: Payloads.Bytes, k: nat)
    requires ReadVar(buf, k).Some?
    ensures ReadVar(buf, k).value.1 == buf[FirstVarLen(buf, k)..]
    decreases k
  {
    if buf[0] >= 128 {
      ReadVarLength(buf[1..], k - 1);
    }
  }

  lemma {:induction false} ReadComparableLength(buf: Payloads.Bytes)
    requires ReadComparable(buf).Some?
    ensures ReadComparable(buf).value.1 == buf[FirstComparableLen(buf)..]
    decreases |buf|
  {
    if buf[8] == 255 {
      ReadComparableLength(buf[9..]);
    }
  }

  lemma PayloadLengthAgrees(flag: byte, buf: Payloads.Bytes)
    requires ReadPayload(flag, buf).Ok?
    ensures flag <= JSON_FLAG && flag != DECIMAL_FLAG && flag != JSON_FLAG
    ensures PayloadLen(flag, buf) <= |buf| && ReadPayload(flag, buf).value.1 == buf[PayloadLen(flag, buf)..]
  {
    if flag == BYTES_FLAG {
      ReadComparableLength(buf);
    } else if flag == COMPACT_BYTES_FLAG || flag == VAR_INT_FLAG || flag == VAR_UINT_FLAG {
      ReadVarLength(buf, MAX_VARINT64_LENGTH);
    }
  }

  /** On any bytes at all, splitting and reading agree about where a datum ends. */
  lemma SplitAgreesWithRead(buf: Payloads.Bytes)
    requires ReadDatum(buf).Ok?
    ensures SplitDatum(buf).Ok? && SplitDatum(buf).value.1 == ReadDatum(buf).value.1
    ensures SplitDatum(buf).value.0 + SplitDatum(buf).value.1 == buf
  {
    PayloadLengthAgrees(buf[0], buf[1..]);
  }

  // ------------------------------------------------------------- size

  function ApproximateSizeOf(v: Datum, comparable: bool): nat {
    1 + match v
        case I64(_) => if comparable then 8 else MAX_VARINT64_LENGTH
        case U64(_) => if comparable then 8 else MAX_VARINT64_LENGTH
        case Dur(_) => 8
        case Bytes(bs) => if comparable then (|bs| / 8 + 1) * 9 else |bs| + MAX_VARINT64_LENGTH
        case _ => 0
  }

  function ApproximateSize(vs: seq<Datum>, comparable: bool): nat {
    if vs == [] then 0 else ApproximateSizeOf(vs[0], comparable) + ApproximateSize(vs[1..], comparable)
  }

  lemma OneFits(v: Datum, comparable: bool)
    ensures |EncodedDatum(v, comparable)| <= ApproximateSizeOf(v, comparable)
    ensures comparable ==> |EncodedDatum(v, comparable)| == ApproximateSizeOf(v, comparable)
  {
    if !comparable {
      match v
      case I64(i) => VarI64RoundTrip(i, []);
      case U64(u) => VarU64RoundTrip(u, []);
      case Bytes(bs) => CompactRoundTrip(bs, []);
      case _ =>
    }
  }

  /** The estimate is never too small, and exact in comparable mode. */
  lemma {:induction false} ApproximateSizeBoundsLength(vs: seq<Datum>, comparable: bool)
    ensures |Encoded(vs, comparable)| <= ApproximateSize(vs, comparable)
    ensures comparable ==> |Encoded(vs, comparable)| == ApproximateSize(vs, comparable)
  {
    if vs != [] {
      OneFits(vs[0], comparable);
      ApproximateSizeBoundsLength(vs[1..], comparable);
    }
  }

  /** Values for which the compact format needs all the room that is set aside. */
  predicate TakesAll(v: Datum) {
    match v
    case I64(i) => (i as int) < -(TWO_63 / 2) || (i as int) >= TWO_63 / 2
    case U64(u) => u as int >= TWO_63
    case Bytes(bs) => |bs| >= TWO_63 / 2
    case _ => true
  }

  /** In compact mode too the estimate is the least one can give by type and length: it is reached. */
  lemma EstimateIsReachedIff(v: Datum)
    ensures |EncodedDatum(v, false)| == ApproximateSizeOf(v, false) <==> TakesAll(v)
  {
    match v
    case I64(i) => TenBytesIffLarge(ZigZag(i));
    case U64(u) => TenBytesIffLarge(u);
    case Bytes(bs) => TenBytesIffLarge(ZigZag(|bs|));
    case _ =>
  }
}
