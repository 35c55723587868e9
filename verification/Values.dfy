/** The total order on schema values and its spanned twin. Every comparison inside a variant is written
    with its operands swapped, at every level of nesting; across variants a precedence decides. */
module Values {
  import opened Common

  /** A symbol or keyword name; `Plain` is a namespace boundary of 0. */
  datatype Name = Plain(name: string) | Namespaced(ns: string, name: string)

  /** Values without children. Instants, uuids and floats are given by their position in their own total
      order. */
  datatype Atom =
    | Nil
    | Boolean(b: bool)
    | Integer(i: int)
    | BigInteger(n: int)
    | Float(rank: int)
    | Instant(micros: int)
    | Text(text: string)
    | Uuid(bits: nat)
    | PlainShelling(symbol: string)
    | NamespacedShelling(qualified: Name)
    | Keyword(word: Name)

  datatype Value =
    | Atomic(atom: Atom)
    | Vector(items: seq<Value>)
    | List(items: seq<Value>)
    | Set(items: seq<Value>)
    | Map(entries: seq<Entry>)

  datatype Entry = Entry(key: Value, val: Value)

  // ------------------------------------------------------------- atoms

  function CompareBool(a: bool, b: bool): Ordering {
    if a == b then Equal else if b then Less else Greater
  }

  function CompareString(a: string, b: string): Ordering {
    if a == "" then (if b == "" then Equal else Less)
    else if b == "" then Greater
    else CompareInt(a[0] as int, b[0] as int).Then(CompareString(a[1..], b[1..]))
  }

  function CompareName(a: Name, b: Name): Ordering {
    match (a, b)
    case (Plain(x), Plain(y)) => CompareString(x, y)
    case (Plain(_), Namespaced(_, _)) => Less
    case (Namespaced(_, _), Plain(_)) => Greater
    case (Namespaced(n1, x), Namespaced(n2, y)) => CompareString(n1, n2).Then(CompareString(x, y))
  }

  function AtomPrecedence(a: Atom): int {
    match a
    case Nil => 0
    case Boolean(_) => 1
    case Integer(_) => 2
    case BigInteger(_) => 3
    case Float(_) => 4
    case Instant(_) => 5
    case Text(_) => 6
    case Uuid(_) => 7
    case PlainShelling(_) => 8
    case NamespacedShelling(_) => 9
    case Keyword(k) => if k.Plain? then 10 else 11
  }

  function CompareAtom(a: Atom, b: Atom): Ordering {
    match (a, b)
    case (Nil, Nil) => Equal
    case (Boolean(x), Boolean(y)) => CompareBool(y, x)
    case (Integer(x), Integer(y)) => CompareInt(y, x)
    case (Instant(x), Instant(y)) => CompareInt(y, x)
    case (BigInteger(x), BigInteger(y)) => CompareInt(y, x)
    case (Float(x), Float(y)) => CompareInt(y, x)
    case (Text(x), Text(y)) => CompareString(y, x)
    case (Uuid(x), Uuid(y)) => CompareInt(y, x)
    case (PlainShelling(x), PlainShelling(y)) => CompareString(y, x)
    case (NamespacedShelling(x), NamespacedShelling(y)) => CompareName(y, x)
    case (Keyword(x), Keyword(y)) => CompareName(y, x)
    case _ => CompareInt(AtomPrecedence(a), AtomPrecedence(b))
  }

  // ------------------------------------------------------------- values

  function Precedence(v: Value): int {
    match v
    case Atomic(a) => AtomPrecedence(a)
    case Vector(_) => 12
    case List(_) => 13
    case Set(_) => 14
    case Map(_) => 15
  }

  function Size(v: Value): nat
    decreases v
  {
    match v
    case Atomic(_) => 1
    case Vector(s) => 1 + SizeOf(s)
    case List(s) => 1 + SizeOf(s)
    case Set(s) => 1 + SizeOf(s)
    case Map(s) => 1 + SizeOfEntries(s)
  }

  function SizeOf(s: seq<Value>): nat
    decreases s
  {
    if s == [] then 0 else 1 + Size(s[0]) + SizeOf(s[1..])
  }

  function SizeOfEntries(s: seq<Entry>): nat
    decreases s
  {
    if s == [] then 0 else SizeOfEntry(s[0]) + SizeOfEntries(s[1..])
  }

  function SizeOfEntry(e: Entry): (n: nat)
    ensures n == 1 + Size(e.key) + Size(e.val)
    decreases e
  {
    1 + Size(e.key) + Size(e.val)
  }

  function Compare(a: Value, b: Value): Ordering
    decreases Size(a) + Size(b)
  {
    match (a, b)
    case (Atomic(x), Atomic(y)) => CompareAtom(x, y)
    case (Vector(x), Vector(y)) => CompareSeq(y, x)
    case (List(x), List(y)) => CompareSeq(y, x)
    case (Set(x), Set(y)) => CompareSeq(y, x)
    case (Map(x), Map(y)) => CompareEntries(y, x)
    case _ => CompareInt(Precedence(a), Precedence(b))
  }

  /** The lexicographic order of the standard collections; sets and maps iterate in ascending order. */
  function CompareSeq(a: seq<Value>, b: seq<Value>): Ordering
    decreases SizeOf(a) + SizeOf(b)
  {
    if a == [] then (if b == [] then Equal else Less)
    else if b == [] then Greater
    else Compare(a[0], b[0]).Then(CompareSeq(a[1..], b[1..]))
  }

  function CompareEntries(a: seq<Entry>, b: seq<Entry>): Ordering
    decreases SizeOfEntries(a) + SizeOfEntries(b)
  {
    if a == [] then (if b == [] then Equal else Less)
    else if b == [] then Greater
    else Compare(a[0].key, b[0].key).Then(Compare(a[0].val, b[0].val)).Then(CompareEntries(a[1..], b[1..]))
  }

  // ------------------------------------------------------------- total order of atoms

  /** Chaining keeps what its two parts say: the shape of every lexicographic transitivity step. */
  ghost predicate Chains(ab: Ordering, bc: Ordering, ac: Ordering) {
    && (!ab.Greater? && !bc.Greater? ==> !ac.Greater?)
    && (!ab.Greater? && !bc.Greater? && (ab.Less? || bc.Less?) ==> ac.Less?)
  }

  lemma {:induction false} StringOrder(a: string, b: string)
    ensures CompareString(b, a) == CompareString(a, b).Reverse()
    ensures CompareString(a, b) == Equal <==> a == b
    decreases |a|
  {
    if a != "" && b != "" {
      StringOrder(a[1..], b[1..]);
      assert a == [a[0]] + a[1..] && b == [b[0]] + b[1..];
    }
  }

  lemma {:induction false} StringTransitive(a: string, b: string, c: string)
    ensures Chains(CompareString(a, b), CompareString(b, c), CompareString(a, c))
    decreases |a|
  {
    if a != "" && b != "" && c != "" {
      StringTransitive(a[1..], b[1..], c[1..]);
    }
  }

  lemma NameOrder(a: Name, b: Name)
    ensures CompareName(b, a) == CompareName(a, b).Reverse()
    ensures CompareName(a, b) == Equal <==> a == b
  {
    StringOrder(a.name, b.name);
    if a.Namespaced? && b.Namespaced? {
      StringOrder(a.ns, b.ns);
    }
  }

  lemma NameTransitive(a: Name, b: Name, c: Name)
    ensures Chains(CompareName(a, b), CompareName(b, c), CompareName(a, c))
  {
    StringTransitive(a.name, b.name, c.name);
    if a.Namespaced? && b.Namespaced? && c.Namespaced? {
      StringTransitive(a.ns, b.ns, c.ns);
    }
  }

  /** The arm of the comparison: plain and namespaced keywords share one. */
  function Arm(a: Atom): int {
    match a
    case Keyword(_) => 10
    case _ => AtomPrecedence(a)
  }

  lemma AcrossArms(a: Atom, b: Atom)
    ensures Arm(a) != Arm(b) ==> a != b && CompareAtom(a, b) == CompareInt(Arm(a), Arm(b))
  { }

  lemma AtomOrder(a: Atom, b: Atom)
    ensures CompareAtom(b, a) == CompareAtom(a, b).Reverse()
    ensures CompareAtom(a, b) == Equal <==> a == b
  {
    if Arm(a) != Arm(b) {
      AcrossArms(a, b);
      AcrossArms(b, a);
    } else {
      SameArmOrder(a, b);
    }
  }

  lemma SameArmOrder(a: Atom, b: Atom)
    requires Arm(a) == Arm(b)
    ensures CompareAtom(b, a) == CompareAtom(a, b).Reverse()
    ensures CompareAtom(a, b) == Equal <==> a == b
  {
    match a
    case Text(x) => StringOrder(x, b.text);
    case PlainShelling(x) => StringOrder(x, b.symbol);
    case NamespacedShelling(x) => NameOrder(x, b.qualified);
    case Keyword(x) => NameOrder(x, b.word);
    case _ =>
  }

  lemma AtomTransitive(a: Atom, b: Atom, c: Atom)
    ensures Chains(CompareAtom(a, b), CompareAtom(b, c), CompareAtom(a, c))
  {
    if Arm(a) == Arm(b) == Arm(c) {
      SameArmTransitive(a, b, c);
    } else {
      AcrossArms(a, b);
      AcrossArms(b, c);
      AcrossArms(a, c);
    }
  }

  lemma SameArmTransitive(a: Atom, b: Atom, c: Atom)
    requires Arm(a) == Arm(b) == Arm(c)
    ensures Chains(CompareAtom(a, b), CompareAtom(b, c), CompareAtom(a, c))
  {
    match a
    case Text(x) => StringTransitive(c.text, b.text, x);
    case PlainShelling(x) => StringTransitive(c.symbol, b.symbol, x);
    case NamespacedShelling(x) => NameTransitive(c.qualified, b.qualified, x);
    case Keyword(x) => NameTransitive(c.word, b.word, x);
    case _ =>
  }

  // ------------------------------------------------------------- total order of values

  /** Swapping the operands reverses the result, and only equal values compare equal. */
  lemma {:induction false} CompareIsAntisymmetric(a: Value, b: Value)
    ensures Compare(b, a) == Compare(a, b).Reverse()
    ensures Compare(a, b) == Equal <==> a == b
    decreases Size(a) + Size(b)
  {
    match (a, b)
    case (Atomic(x), Atomic(y)) => AtomOrder(x, y);
    case (Vector(x), Vector(y)) => SeqAntisymmetric(x, y);
    case (List(x), List(y)) => SeqAntisymmetric(x, y);
    case (Set(x), Set(y)) => SeqAntisymmetric(x, y);
    case (Map(x), Map(y)) => EntriesAntisymmetric(x, y);
    case _ =>
  }

  lemma {:induction false} SeqAntisymmetric(a: seq<Value>, b: seq<Value>)
    ensures CompareSeq(b, a) == CompareSeq(a, b).Reverse()
    ensures CompareSeq(a, b) == Equal <==> a == b
    decreases SizeOf(a) + SizeOf(b)
  {
    if a != [] && b != [] {
      CompareIsAntisymmetric(a[0], b[0]);
      SeqAntisymmetric(a[1..], b[1..]);
      assert a == [a[0]] + a[1..] && b == [b[0]] + b[1..];
    }
  }

  lemma {:induction false} EntriesAntisymmetric(a: seq<Entry>, b: seq<Entry>)
    ensures CompareEntries(b, a) == CompareEntries(a, b).Reverse()
    ensures CompareEntries(a, b) == Equal <==> a == b
    decreases SizeOfEntries(a) + SizeOfEntries(b)
  {
    if a != [] && b != [] {
      CompareIsAntisymmetric(a[0].key, b[0].key);
      CompareIsAntisymmetric(a[0].val, b[0].val);
      EntriesAntisymmetric(a[1..], b[1..]);
      assert a == [a[0]] + a[1..] && b == [b[0]] + b[1..];
    }
  }

  /** Transitive, and strictly so as soon as one step is strict. */
  lemma {:induction false} CompareIsTransitive(a: Value, b: Value, c: Value)
    ensures Chains(Compare(a, b), Compare(b, c), Compare(a, c))
    decreases Size(a) + Size(b) + Size(c)
  {
    match (a, b, c)
    case (Atomic(x), Atomic(y), Atomic(z)) => AtomTransitive(x, y, z);
    case (Vector(x), Vector(y), Vector(z)) => SeqTransitive(z, y, x);
    case (List(x), List(y), List(z)) => SeqTransitive(z, y, x);
    case (Set(x), Set(y), Set(z)) => SeqTransitive(z, y, x);
    case (Map(x), Map(y), Map(z)) => EntriesTransitive(z, y, x);
    case _ =>
  }

  lemma {:induction false} SeqTransitive(a: seq<Value>, b: seq<Value>, c: seq<Value>)
    ensures Chains(CompareSeq(a, b), CompareSeq(b, c), CompareSeq(a, c))
    decreases SizeOf(a) + SizeOf(b) + SizeOf(c)
  {
    if a != [] && b != [] && c != [] {
      CompareIsTransitive(a[0], b[0], c[0]);
      SeqTransitive(a[1..], b[1..], c[1..]);
    }
  }

  lemma {:induction false} EntriesTransitive(a: seq<Entry>, b: seq<Entry>, c: seq<Entry>)
    ensures Chains(CompareEntries(a, b), CompareEntries(b, c), CompareEntries(a, c))
    decreases SizeOfEntries(a) + SizeOfEntries(b) + SizeOfEntries(c)
  {
    if a != [] && b != [] && c != [] {
      CompareIsTransitive(a[0].key, b[0].key, c[0].key);
      CompareIsTransitive(a[0].val, b[0].val, c[0].val);
      EntriesTransitive(a[1..], b[1..], c[1..]);
    }
  }

  // ------------------------------------------------------------- which order it is

  datatype Kind =
    | NilKind | BooleanKind | IntegerKind | BigIntegerKind | FloatKind | InstantKind | TextKind | UuidKind
    | PlainShellingKind | NamespacedShellingKind | PlainKeywordKind | NamespacedKeywordKind
    | VectorKind | ListKind | SetKind | MapKind

  function KindOf(v: Value): Kind {
    match v
    case Atomic(Nil) => NilKind
    case Atomic(Boolean(_)) => BooleanKind
    case Atomic(Integer(_)) => IntegerKind
    case Atomic(BigInteger(_)) => BigIntegerKind
    case Atomic(Float(_)) => FloatKind
    case Atomic(Instant(_)) => InstantKind
    case Atomic(Text(_)) => TextKind
    case Atomic(Uuid(_)) => UuidKind
    case Atomic(PlainShelling(_)) => PlainShellingKind
    case Atomic(NamespacedShelling(_)) => NamespacedShellingKind
    case Atomic(Keyword(Plain(_))) => PlainKeywordKind
    case Atomic(Keyword(Namespaced(_, _))) => NamespacedKeywordKind
    case Vector(_) => VectorKind
    case List(_) => ListKind
    case Set(_) => SetKind
    case Map(_) => MapKind
  }

  /** The sixteen kinds in ascending order. */
  const KINDS: seq<Kind> := [
    NilKind, BooleanKind, IntegerKind, BigIntegerKind, FloatKind, InstantKind, TextKind, UuidKind,
    PlainShellingKind, NamespacedShellingKind, PlainKeywordKind, NamespacedKeywordKind,
    VectorKind, ListKind, SetKind, MapKind]

  ghost predicate ListedBefore(a: Kind, b: Kind) {
    exists i, j :: 0 <= i < j < |KINDS| && KINDS[i] == a && KINDS[j] == b
  }

  predicate BothKeywords(a: Value, b: Value) {
    a.Atomic? && b.Atomic? && a.atom.Keyword? && b.atom.Keyword?
  }

  /** The first character that differs is smaller, or the string is a proper prefix. */
  ghost predicate StringBefore(a: string, b: string) {
    exists k: nat :: FirstDifference(a, b, k) && if k < |a| && k < |b| then a[k] < b[k] else |a| < |b|
  }

  /** Plain names first, then by namespace, then by name. */
  ghost predicate NameBefore(a: Name, b: Name) {
    || (a.Plain? && b.Namespaced?)
    || (a.Plain? && b.Plain? && StringBefore(a.name, b.name))
    || (a.Namespaced? && b.Namespaced? && (StringBefore(a.ns, b.ns) || (a.ns == b.ns && StringBefore(a.name, b.name))))
  }

  /** Within a kind the order is upside down: larger numbers, later texts and true come first. */
  ghost predicate AtomBefore(a: Atom, b: Atom) {
    match (a, b)
    case (Boolean(x), Boolean(y)) => x && !y
    case (Integer(x), Integer(y)) => x > y
    case (BigInteger(x), BigInteger(y)) => x > y
    case (Float(x), Float(y)) => x > y
    case (Instant(x), Instant(y)) => x > y
    case (Uuid(x), Uuid(y)) => x > y
    case (Text(x), Text(y)) => StringBefore(y, x)
    case (PlainShelling(x), PlainShelling(y)) => StringBefore(y, x)
    case (NamespacedShelling(x), NamespacedShelling(y)) => NameBefore(y, x)
    case (Keyword(x), Keyword(y)) => NameBefore(y, x)
    case _ => false
  }

  /** The order of values, told from their contents. Collections are upside down too, at every level. */
  ghost predicate Before(a: Value, b: Value)
    decreases Size(a) + Size(b)
  {
    if KindOf(a) != KindOf(b) && !BothKeywords(a, b) then ListedBefore(KindOf(a), KindOf(b))
    else match (a, b)
         case (Atomic(x), Atomic(y)) => AtomBefore(x, y)
         case (Vector(x), Vector(y)) => ItemsBefore(y, x)
         case (List(x), List(y)) => ItemsBefore(y, x)
         case (Set(x), Set(y)) => ItemsBefore(y, x)
         case (Map(x), Map(y)) => EntriesBefore(y, x)
         case _ => false
  }

  /** The first item that differs is before the other one, or the list is a proper prefix. */
  ghost predicate ItemsBefore(x: seq<Value>, y: seq<Value>)
    decreases SizeOf(x) + SizeOf(y)
  {
    exists k: nat :: FirstDifference(x, y, k) &&
      if k < |x| && k < |y| then ItemSize(x, k); ItemSize(y, k); Before(x[k], y[k]) else |x| < |y|
  }

  /** The first entry that differs is before the other one, by key or else by value, or there are fewer. */
  ghost predicate EntriesBefore(x: seq<Entry>, y: seq<Entry>)
    decreases SizeOfEntries(x) + SizeOfEntries(y)
  {
    exists k: nat :: FirstDifference(x, y, k) &&
      if k < |x| && k < |y| then
        EntrySize(x, k); EntrySize(y, k);
        if x[k].key == y[k].key then Before(x[k].val, y[k].val) else Before(x[k].key, y[k].key)
      else |x| < |y|
  }

  lemma {:induction false} ItemSize(s: seq<Value>, k: nat)
    requires k < |s|
    ensures Size(s[k]) < SizeOf(s)
    decreases |s|
  {
    if k > 0 {
      ItemSize(s[1..], k - 1);
    }
  }

  lemma {:induction false} EntrySize(s: seq<Entry>, k: nat)
    requires k < |s|
    ensures Size(s[k].key) + Size(s[k].val) < SizeOfEntries(s)
    decreases |s|
  {
    if k > 0 {
      EntrySize(s[1..], k - 1);
    }
  }

  // ------------------------------------------------------------- the comparison decides it

  lemma {:induction false} StringAtDifference(a: string, b: string, k: nat)
    requires FirstDifference(a, b, k)
    ensures CompareString(a, b) ==
            if k < |a| && k < |b| then CompareInt(a[k] as int, b[k] as int) else CompareInt(|a|, |b|)
    decreases k
  {
    if k > 0 {
      DifferenceInTail(a, b, k);
      StringAtDifference(a[1..], b[1..], k - 1);
    }
  }

  lemma StringIsBefore(a: string, b: string)
    ensures CompareString(a, b) == Less <==> StringBefore(a, b)
  {
    var k := HasFirstDifference(a, b);
    StringAtDifference(a, b, k);
    if k': nat :| FirstDifference(a, b, k') && if k' < |a| && k' < |b| then a[k'] < b[k'] else |a| < |b| {
      StringAtDifference(a, b, k');
    }
  }

  lemma NameIsBefore(a: Name, b: Name)
    ensures CompareName(a, b) == Less <==> NameBefore(a, b)
  {
    StringIsBefore(a.name, b.name);
    if a.Namespaced? && b.Namespaced? {
      StringIsBefore(a.ns, b.ns);
      StringOrder(a.ns, b.ns);
    }
  }

  lemma AtomIsBefore(a: Atom, b: Atom)
    requires Arm(a) == Arm(b)
    ensures CompareAtom(a, b) == Less <==> AtomBefore(a, b)
  {
    match a
    case Text(x) => StringIsBefore(b.text, x);
    case PlainShelling(x) => StringIsBefore(b.symbol, x);
    case NamespacedShelling(x) => NameIsBefore(b.qualified, x);
    case Keyword(x) => NameIsBefore(b.word, x);
    case _ =>
  }

  function PlaceOf(k: Kind): nat {
    match k
    case NilKind => 0
    case BooleanKind => 1
    case IntegerKind => 2
    case BigIntegerKind => 3
    case FloatKind => 4
    case InstantKind => 5
    case TextKind => 6
    case UuidKind => 7
    case PlainShellingKind => 8
    case NamespacedShellingKind => 9
    case PlainKeywordKind => 10
    case NamespacedKeywordKind => 11
    case VectorKind => 12
    case ListKind => 13
    case SetKind => 14
    case MapKind => 15
  }

  lemma PlaceIsIndex(i: nat)
    requires i < |KINDS|
    ensures PlaceOf(KINDS[i]) == i
  { }

  lemma KindIsListed(k: Kind)
    ensures PlaceOf(k) < |KINDS| && KINDS[PlaceOf(k)] == k
  { }

  lemma ListedByPlace(a: Kind, b: Kind)
    ensures ListedBefore(a, b) <==> PlaceOf(a) < PlaceOf(b)
  {
    forall i | 0 <= i < |KINDS| ensures PlaceOf(KINDS[i]) == i {
      PlaceIsIndex(i);
    }
    KindIsListed(a);
    KindIsListed(b);
  }

  lemma PrecedenceIsPlace(v: Value)
    ensures Precedence(v) == PlaceOf(KindOf(v))
  { }

  lemma CompareAcrossKinds(a: Value, b: Value)
    requires KindOf(a) != KindOf(b) && !BothKeywords(a, b)
    ensures Compare(a, b) == CompareInt(Precedence(a), Precedence(b))
  { }

  lemma {:induction false} SeqAtDifference(a: seq<Value>, b: seq<Value>, k: nat)
    requires FirstDifference(a, b, k)
    ensures CompareSeq(a, b) == if k < |a| && k < |b| then Compare(a[k], b[k]) else CompareInt(|a|, |b|)
    decreases k
  {
    if k > 0 {
      DifferenceInTail(a, b, k);
      CompareIsAntisymmetric(a[0], b[0]);
      SeqAtDifference(a[1..], b[1..], k - 1);
    } else if a != [] && b != [] {
      CompareIsAntisymmetric(a[0], b[0]);
    }
  }

  function CompareEntry(a: Entry, b: Entry): Ordering {
    if a.key == b.key then Compare(a.val, b.val) else Compare(a.key, b.key)
  }

  lemma {:induction false} EntriesAtDifference(a: seq<Entry>, b: seq<Entry>, k: nat)
    requires FirstDifference(a, b, k)
    ensures CompareEntries(a, b) == if k < |a| && k < |b| then CompareEntry(a[k], b[k]) else CompareInt(|a|, |b|)
    decreases k
  {
    if a != [] && b != [] {
      CompareIsAntisymmetric(a[0].key, b[0].key);
      CompareIsAntisymmetric(a[0].val, b[0].val);
    }
    if k > 0 {
      DifferenceInTail(a, b, k);
      EntriesAtDifference(a[1..], b[1..], k - 1);
    }
  }

  /** The comparison is that order: less exactly if before, greater exactly if after, at any nesting. */
  lemma {:induction false} CompareIsTheOrder(a: Value, b: Value)
    ensures Compare(a, b) == Less <==> Before(a, b)
    ensures Compare(a, b) == Greater <==> Before(b, a)
    decreases Size(a) + Size(b), 1
  {
    LessIsBefore(a, b);
    LessIsBefore(b, a);
    CompareIsAntisymmetric(a, b);
  }

  lemma {:induction false} LessIsBefore(a: Value, b: Value)
    ensures Compare(a, b) == Less <==> Before(a, b)
    decreases Size(a) + Size(b), 0
  {
    if KindOf(a) != KindOf(b) && !BothKeywords(a, b) {
      CompareAcrossKinds(a, b);
      PrecedenceIsPlace(a);
      PrecedenceIsPlace(b);
      ListedByPlace(KindOf(a), KindOf(b));
    } else {
      match (a, b)
      case (Atomic(x), Atomic(y)) => AtomIsBefore(x, y);
      case (Vector(x), Vector(y)) => ItemsAreBefore(y, x);
      case (List(x), List(y)) => ItemsAreBefore(y, x);
      case (Set(x), Set(y)) => ItemsAreBefore(y, x);
      case (Map(x), Map(y)) => EntriesAreBefore(y, x);
    }
  }

  lemma {:induction false} ItemsAreBefore(x: seq<Value>, y: seq<Value>)
    ensures CompareSeq(x, y) == Less <==> ItemsBefore(x, y)
    decreases SizeOf(x) + SizeOf(y), 0
  {
    forall k: nat | FirstDifference(x, y, k) && k < |x| && k < |y|
      ensures Compare(x[k], y[k]) == Less <==> Before(x[k], y[k])
    {
      ItemSize(x, k);
      ItemSize(y, k);
      LessIsBefore(x[k], y[k]);
    }
    forall k: nat | FirstDifference(x, y, k)
      ensures CompareSeq(x, y) == if k < |x| && k < |y| then Compare(x[k], y[k]) else CompareInt(|x|, |y|)
    {
      SeqAtDifference(x, y, k);
    }
    var k := HasFirstDifference(x, y);
  }

  lemma {:induction false} EntriesAreBefore(x: seq<Entry>, y: seq<Entry>)
    ensures CompareEntries(x, y) == Less <==> EntriesBefore(x, y)
    decreases SizeOfEntries(x) + SizeOfEntries(y), 0
  {
    forall k: nat | FirstDifference(x, y, k) && k < |x| && k < |y|
      ensures Compare(x[k].key, y[k].key) == Less <==> Before(x[k].key, y[k].key)
      ensures Compare(x[k].val, y[k].val) == Less <==> Before(x[k].val, y[k].val)
    {
      EntrySize(x, k);
      EntrySize(y, k);
      LessIsBefore(x[k].key, y[k].key);
      LessIsBefore(x[k].val, y[k].val);
    }
    forall k: nat | FirstDifference(x, y, k)
      ensures CompareEntries(x, y) == if k < |x| && k < |y| then CompareEntry(x[k], y[k]) else CompareInt(|x|, |y|)
    {
      EntriesAtDifference(x, y, k);
    }
    var k := HasFirstDifference(x, y);
  }
}
