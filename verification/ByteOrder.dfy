/** Lexicographic order of byte strings, and the payload formats that respect it. */
module ByteOrder {
  import opened Common
  import opened Payloads

  /** A proper prefix comes first. */
  function Lex(a: Bytes, b: Bytes): Ordering {
    if a == [] && b == [] then Equal
    else if a == [] then Less
    else if b == [] then Greater
    else CompareInt(a[0], b[0]).Then(Lex(a[1..], b[1..]))
  }

  lemma {:induction false} LexReverses(a: Bytes, b: Bytes)
    ensures Lex(b, a) == Lex(a, b).Reverse()
  {
    if a != [] && b != [] {
      LexReverses(a[1..], b[1..]);
    }
  }

  lemma {:induction false} LexEqualIsEqual(a: Bytes, b: Bytes)
    ensures Lex(a, b) == Equal <==> a == b
  {
    if a != [] && b != [] {
      LexEqualIsEqual(a[1..], b[1..]);
      assert a == [a[0]] + a[1..] && b == [b[0]] + b[1..];
    }
  }

  /** The first byte that differs decides, or else the length. */
  lemma {:induction false} LexAtDifference(a: Bytes, b: Bytes, k: nat)
    requires FirstDifference(a, b, k)
    ensures Lex(a, b) == if k < |a| && k < |b| then CompareInt(a[k], b[k]) else CompareInt(|a|, |b|)
    decreases k
  {
    if k > 0 {
      DifferenceInTail(a, b, k);
      LexAtDifference(a[1..], b[1..], k - 1);
    }
  }

  /** After two strings of one length the rest decides ties. */
  lemma {:induction false} LexConcat(a: Bytes, b: Bytes, x: Bytes, y: Bytes)
    requires |a| == |b|
    ensures Lex(a + x, b + y) == Lex(a, b).Then(Lex(x, y))
  {
    if a == [] {
      assert a + x == x && b + y == y;
    } else {
      LexConcat(a[1..], b[1..], x, y);
      assert (a + x)[1..] == a[1..] + x && (b + y)[1..] == b[1..] + y;
    }
  }

  lemma CompareDigits(m: nat, n: nat)
    ensures CompareInt(m, n) == CompareInt(m / 256, n / 256).Then(CompareInt(m % 256, n % 256))
  { }

  lemma LexOne(x: byte, y: byte)
    ensures Lex([x], [y]) == CompareInt(x, y)
  {
    assert [x][1..] == [] && [y][1..] == [];
  }

  lemma {:induction false} BigEndianKeepsOrder(m: nat, n: nat, k: nat)
    requires m < Pow256(k) && n < Pow256(k)
    ensures Lex(BigEndian(m, k), BigEndian(n, k)) == CompareInt(m, n)
    decreases k
  {
    if k > 0 {
      BigEndianKeepsOrder(m / 256, n / 256, k - 1);
      LexConcat(BigEndian(m / 256, k - 1), BigEndian(n / 256, k - 1), [m % 256], [n % 256]);
      LexOne(m % 256, n % 256);
      CompareDigits(m, n);
    }
  }

  lemma U64KeepsOrder(a: u64, b: u64)
    ensures Lex(EncodeU64(a), EncodeU64(b)) == CompareInt(a, b)
  {
    EightBytes();
    BigEndianKeepsOrder(a, b, 8);
  }

  lemma I64KeepsOrder(a: i64, b: i64)
    ensures Lex(EncodeI64(a), EncodeI64(b)) == CompareInt(a, b)
  {
    EightBytes();
    BigEndianKeepsOrder(a as int + TWO_63, b as int + TWO_63, 8);
  }

  // ------------------------------------------------------------- padded groups

  /** A string of at most `n` bytes, padded, and a marker. */
  function Padded(a: Bytes, n: nat, marker: byte): (r: Bytes)
    requires |a| <= n
    ensures |r| == n + 1
  {
    a + Zeros(n - |a|) + [marker]
  }

  lemma PaddedTail(a: Bytes, n: nat, marker: byte)
    requires |a| <= n && n > 0
    ensures Padded(a, n, marker)[0] == if a == [] then 0 else a[0]
    ensures Padded(a, n, marker)[1..] == Padded(if a == [] then [] else a[1..], n - 1, marker)
  {
    assert Zeros(n)[1..] == Zeros(n - 1);
  }

  /** With markers that tell the shorter string apart, padding hides no prefix. */
  lemma {:induction false} EmptyIsLess(b: Bytes, n: nat, p: byte, q: byte)
    requires |b| <= n && p < q
    ensures Lex(Padded([], n, p), Padded(b, n, q)) == Less
    decreases n
  {
    if n == 0 {
      assert Padded([], n, p) == [p] && Padded(b, n, q) == [q];
    } else {
      PaddedTail([], n, p);
      PaddedTail(b, n, q);
      EmptyIsLess(if b == [] then [] else b[1..], n - 1, p, q);
    }
  }

  lemma {:induction false} PaddingKeepsOrder(a: Bytes, b: Bytes, n: nat, p: byte, q: byte)
    requires |a| <= n && |b| <= n && p - |a| == q - |b|
    ensures Lex(Padded(a, n, p), Padded(b, n, q)) == Lex(a, b)
    decreases n
  {
    if a == [] && b == [] {
      LexEqualIsEqual(Padded(a, n, p), Padded(b, n, q));
    } else if a == [] {
      EmptyIsLess(b, n, p, q);
    } else if b == [] {
      EmptyIsLess(a, n, q, p);
      LexReverses(Padded(b, n, q), Padded(a, n, p));
    } else {
      PaddedTail(a, n, p);
      PaddedTail(b, n, q);
      PaddingKeepsOrder(a[1..], b[1..], n - 1, p, q);
    }
  }

  /** The first group of an encoded string, and what follows it. */
  function FirstGroup(a: Bytes): (r: Bytes)
    ensures |r| == 9
  {
    if |a| >= 8 then Padded(a[..8], 8, 255) else Padded(a, 8, 247 + |a|)
  }

  function LaterGroups(a: Bytes): Bytes {
    if |a| >= 8 then EncodeComparable(a[8..]) else []
  }

  lemma GroupByGroup(a: Bytes, x: Bytes)
    ensures EncodeComparable(a) + x == FirstGroup(a) + (LaterGroups(a) + x)
  {
    assert Zeros(0) == [];
    if |a| >= 8 {
      assert a[..8] + Zeros(0) + [255] == a[..8] + [255];
    }
  }

  lemma {:induction false} ShorterDecides(a: Bytes, b: Bytes, k: nat)
    requires |b| < k <= |a|
    ensures Lex(a[..k], b) == Lex(a, b) != Equal
    decreases k
  {
    if b != [] {
      ShorterDecides(a[1..], b[1..], k - 1);
      assert a[..k][1..] == a[1..][..k - 1];
    }
  }

  lemma FirstGroupsKeepOrder(a: Bytes, b: Bytes)
    ensures |a| >= 8 && |b| >= 8 ==> Lex(FirstGroup(a), FirstGroup(b)) == Lex(a[..8], b[..8])
    ensures |a| < 8 || |b| < 8 ==> Lex(FirstGroup(a), FirstGroup(b)) == Lex(a, b)
  {
    var p, q := if |a| >= 8 then a[..8] else a, if |b| >= 8 then b[..8] else b;
    PaddingKeepsOrder(p, q, 8, 247 + |p|, 247 + |q|);
    if |a| >= 8 && |b| < 8 {
      ShorterDecides(a, b, 8);
    } else if |a| < 8 && |b| >= 8 {
      ShorterDecides(b, a, 8);
      LexReverses(b, a);
      LexReverses(b[..8], a);
    }
  }

  /** The encoding of byte strings keeps their order whatever follows them, and the rest decides ties: no
      encoded string is a proper prefix of another. */
  lemma {:induction false} ComparableKeepsOrder(a: Bytes, b: Bytes, x: Bytes, y: Bytes)
    ensures Lex(EncodeComparable(a) + x, EncodeComparable(b) + y) == Lex(a, b).Then(Lex(x, y))
    decreases |a|
  {
    GroupByGroup(a, x);
    GroupByGroup(b, y);
    FirstGroupsKeepOrder(a, b);
    LexConcat(FirstGroup(a), FirstGroup(b), LaterGroups(a) + x, LaterGroups(b) + y);
    if |a| >= 8 && |b| >= 8 {
      ComparableKeepsOrder(a[8..], b[8..], x, y);
      LexConcat(a[..8], b[..8], a[8..], b[8..]);
      assert a == a[..8] + a[8..] && b == b[..8] + b[8..];
    } else if a == b {
      assert LaterGroups(a) + x == x && LaterGroups(b) + y == y;
      LexEqualIsEqual(a, b);
    } else {
      LexEqualIsEqual(a, b);
    }
  }
}
