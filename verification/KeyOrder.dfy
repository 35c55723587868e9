/** Comparison of datums, and the proof that comparable encodings order keys the same way. */
module KeyOrder {
  import opened Common
  import opened Payloads
  import opened ByteOrder
  import opened Datums

  /** `cmp_i64` and `cmp_u64` across the two integer types. */
  function CompareMixed(i: i64, u: u64): Ordering {
    if i as int < 0 || u as int > I64_MAX then Less else CompareInt(i, AsI64(u))
  }

  function CompareMixedReversed(u: u64, i: i64): Ordering {
    if i as int < 0 || u as int > I64_MAX then Greater else CompareInt(u, AsU64(i))
  }

  /** Integers of different types compare by value. */
  lemma MixedIsExact(i: i64, u: u64)
    ensures CompareMixed(i, u) == CompareInt(i, u) && CompareMixedReversed(u, i) == CompareInt(u, i)
  { }

  /** How `v` compares to `w`; `None` goes through a conversion to float, decimal or duration. */
  function Cmp(v: Datum, w: Datum): Option<Ordering> {
    match w
    case Null => Some(if v == Null then Equal else Greater)
    case Min => Some(if v == Null then Less else if v == Min then Equal else Greater)
    case Max => Some(if v == Max then Equal else Less)
    case I64(i) =>
      (match v
       case I64(ii) => Some(CompareInt(ii, i))
       case U64(u) => Some(CompareMixedReversed(u, i))
       case _ => CmpFloat(v))
    case U64(u) =>
      (match v
       case I64(i) => Some(CompareMixed(i, u))
       case U64(uu) => Some(CompareInt(uu, u))
       case _ => CmpFloat(v))
    case Bytes(bs) =>
      (match v
       case Null => Some(Less)
       case Min => Some(Less)
       case Max => Some(Greater)
       case Bytes(bss) => Some(Lex(bss, bs))
       case _ => None)
    case Dur(d) =>
      (match v
       case Dur(d2) => Some(CompareInt(d2, d))
       case Bytes(_) => None
       case _ => CmpFloat(v))
  }

  /** Comparison with a float. */
  function CmpFloat(v: Datum): Option<Ordering> {
    match v
    case Null => Some(Less)
    case Min => Some(Less)
    case Max => Some(Greater)
    case _ => None
  }

  /** Of one type, or one of them `Null`, `Min` or `Max`. */
  predicate SameType(v: Datum, w: Datum) {
    || Boundary(v) || Boundary(w)
    || (v.I64? && w.I64?) || (v.U64? && w.U64?) || (v.Bytes? && w.Bytes?) || (v.Dur? && w.Dur?)
  }

  lemma SameTypeCompares(v: Datum, w: Datum)
    requires SameType(v, w)
    ensures Cmp(v, w).Some? && Cmp(w, v) == Some(Cmp(v, w).value.Reverse())
    ensures Cmp(v, w).value == Equal <==> v == w
  {
    if v.Bytes? && w.Bytes? {
      LexReverses(v.bs, w.bs);
      LexEqualIsEqual(v.bs, w.bs);
    }
  }

  predicate IsInteger(v: Datum) {
    v.I64? || v.U64?
  }

  /** The number itself, whatever its type. */
  function IntegerOf(v: Datum): int
    requires IsInteger(v)
  {
    if v.I64? then v.i else v.u
  }

  /** The first byte that differs is smaller, or the string is a proper prefix. */
  ghost predicate BytesPrecede(a: Payloads.Bytes, b: Payloads.Bytes) {
    exists k: nat :: FirstDifference(a, b, k) && if k < |a| && k < |b| then a[k] < b[k] else |a| < |b|
  }

  /** What the order of datums is: null, then the minimum, then everything else by content, then the maximum. */
  ghost predicate Precedes(v: Datum, w: Datum) {
    || (v == Null && w != Null)
    || (v == Min && w != Null && w != Min)
    || (v != Max && w == Max)
    || (IsInteger(v) && IsInteger(w) && IntegerOf(v) < IntegerOf(w))
    || (v.Dur? && w.Dur? && v.nanos as int < w.nanos as int)
    || (v.Bytes? && w.Bytes? && BytesPrecede(v.bs, w.bs))
  }

  lemma BytesPrecedeIsLex(a: Payloads.Bytes, b: Payloads.Bytes)
    ensures BytesPrecede(a, b) <==> Lex(a, b) == Less
  {
    var k := HasFirstDifference(a, b);
    LexAtDifference(a, b, k);
    if k': nat :| FirstDifference(a, b, k') && if k' < |a| && k' < |b| then a[k'] < b[k'] else |a| < |b| {
      LexAtDifference(a, b, k');
    }
  }

  /** Which order the comparison is, in every mix of types, and that it has a result exactly within a type, with
      a boundary, or between two integers. */
  lemma CmpIsTheOrder(v: Datum, w: Datum)
    ensures Cmp(v, w).Some? <==> SameType(v, w) || (IsInteger(v) && IsInteger(w))
    ensures Cmp(v, w) == Some(Less) <==> Precedes(v, w)
    ensures Cmp(v, w) == Some(Greater) <==> Precedes(w, v)
    ensures IsInteger(v) && IsInteger(w) ==> Cmp(v, w) == Some(CompareInt(IntegerOf(v), IntegerOf(w)))
  {
    if v.Bytes? && w.Bytes? {
      BytesPrecedeIsLex(v.bs, w.bs);
      BytesPrecedeIsLex(w.bs, v.bs);
      LexReverses(v.bs, w.bs);
    }
  }

  /** Position by position, and a proper prefix comes first. */
  function CompareKeys(vs: seq<Datum>, ws: seq<Datum>): Ordering
    requires Aligned(vs, ws)
  {
    if vs == [] && ws == [] then Equal
    else if vs == [] then Less
    else if ws == [] then Greater
    else
      SameTypeCompares(vs[0], ws[0]);
      Cmp(vs[0], ws[0]).value.Then(CompareKeys(vs[1..], ws[1..]))
  }

  predicate Aligned(vs: seq<Datum>, ws: seq<Datum>) {
    forall k :: 0 <= k < |vs| && k < |ws| ==> SameType(vs[k], ws[k])
  }

  function Key(v: Datum): Bytes {
    EncodedDatum(v, true)
  }

  lemma DifferentFlags(f: byte, g: byte, x: Bytes, y: Bytes)
    ensures Lex([f] + x, [g] + y) == CompareInt(f, g).Then(Lex(x, y))
  {
    LexConcat([f], [g], x, y);
    LexOne(f, g);
  }

  lemma LexByFlag(f: byte, g: byte, p: Bytes, q: Bytes, x: Bytes, y: Bytes)
    ensures Lex([f] + p + x, [g] + q + y) == CompareInt(f, g).Then(Lex(p + x, q + y))
  {
    DifferentFlags(f, g, p + x, q + y);
    Associative([f], p, x);
    Associative([g], q, y);
  }

  lemma ValueOrder(v: Datum, w: Datum, x: Bytes, y: Bytes)
    requires (v.I64? && w.I64?) || (v.U64? && w.U64?) || (v.Bytes? && w.Bytes?) || (v.Dur? && w.Dur?)
    ensures Lex(Key(v) + x, Key(w) + y) == Cmp(v, w).value.Then(Lex(x, y))
  {
    SameTypeCompares(v, w);
    match v {
      case I64(i) =>
        LexByFlag(INT_FLAG, INT_FLAG, EncodeI64(i), EncodeI64(w.i), x, y);
        I64KeepsOrder(i, w.i);
        LexConcat(EncodeI64(i), EncodeI64(w.i), x, y);
      case U64(u) =>
        LexByFlag(UINT_FLAG, UINT_FLAG, EncodeU64(u), EncodeU64(w.u), x, y);
        U64KeepsOrder(u, w.u);
        LexConcat(EncodeU64(u), EncodeU64(w.u), x, y);
      case Bytes(bs) =>
        LexByFlag(BYTES_FLAG, BYTES_FLAG, EncodeComparable(bs), EncodeComparable(w.bs), x, y);
        ComparableKeepsOrder(bs, w.bs, x, y);
      case Dur(d) =>
        LexByFlag(DURATION_FLAG, DURATION_FLAG, EncodeI64(d), EncodeI64(w.nanos), x, y);
        I64KeepsOrder(d, w.nanos);
        LexConcat(EncodeI64(d), EncodeI64(w.nanos), x, y);
    }
  }

  predicate Boundary(v: Datum) {
    v == Null || v == Min || v == Max
  }

  function Flag(v: Datum): byte {
    match v
    case Null => NIL_FLAG
    case I64(_) => INT_FLAG
    case U64(_) => UINT_FLAG
    case Bytes(_) => BYTES_FLAG
    case Dur(_) => DURATION_FLAG
    case Min => BYTES_FLAG
    case Max => MAX_FLAG
  }

  lemma KeySplits(v: Datum) returns (payload: Bytes)
    ensures Key(v) == [Flag(v)] + payload
    ensures Boundary(v) ==> payload == []
    ensures v.Bytes? ==> payload != []
  {
    payload := Key(v)[1..];
  }

  /** Between `Min` and a byte string the flags tie, and `Min` has no payload. */
  lemma FlagsCompare(v: Datum, w: Datum)
    requires Boundary(v) || Boundary(w)
    ensures Cmp(v, w).Some?
    ensures !(v == Min && w.Bytes?) && !(v.Bytes? && w == Min) ==> Cmp(v, w).value == CompareInt(Flag(v), Flag(w))
    ensures v == Min && w.Bytes? ==> Cmp(v, w).value == Less
    ensures v.Bytes? && w == Min ==> Cmp(v, w).value == Greater
  { }

  lemma BoundaryOrder(v: Datum, w: Datum, x: Bytes, y: Bytes)
    requires Boundary(v) || Boundary(w)
    requires (v == Min ==> x == []) && (w == Min ==> y == [])
    ensures Lex(Key(v) + x, Key(w) + y) == Cmp(v, w).value.Then(Lex(x, y))
  {
    var p := KeySplits(v);
    var q := KeySplits(w);
    LexByFlag(Flag(v), Flag(w), p, q, x, y);
    FlagsCompare(v, w);
    SameTypeCompares(v, w);
    assert [] + x == x && [] + y == y;
  }

  /** Keys are ordered like the lists they encode: byte order of the comparable encodings equals the
      lexicographic order of the lists. */
  lemma {:induction false} EncodingKeepsOrder(vs: seq<Datum>, ws: seq<Datum>)
    requires Aligned(vs, ws) && MinOnlyLast(vs) && MinOnlyLast(ws)
    ensures Lex(Encoded(vs, true), Encoded(ws, true)) == CompareKeys(vs, ws)
  {
    if vs != [] && ws != [] {
      var v, w := vs[0], ws[0];
      var x, y := Encoded(vs[1..], true), Encoded(ws[1..], true);
      assert SameType(v, w);
      EncodingKeepsOrder(vs[1..], ws[1..]);
      if Boundary(v) || Boundary(w) {
        BoundaryOrder(v, w, x, y);
      } else {
        ValueOrder(v, w, x, y);
      }
    }
  }

  /** Between the two integer types the bytes only look at the flag: they order a signed before an unsigned
      integer, which is right if and only if it is the smaller one. */
  lemma MixedKeysOrderedIffSmaller(i: i64, u: u64, x: Bytes, y: Bytes)
    ensures Lex(Key(I64(i)) + x, Key(U64(u)) + y) == Less
    ensures Cmp(I64(i), U64(u)) == Some(Lex(Key(I64(i)) + x, Key(U64(u)) + y)) <==> i as int < u as int
  {
    MixedIsExact(i, u);
    var p := KeySplits(I64(i));
    var q := KeySplits(U64(u));
    LexByFlag(INT_FLAG, UINT_FLAG, p, q, x, y);
  }
}
