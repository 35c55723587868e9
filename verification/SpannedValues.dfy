/** Values that remember where they were parsed. Dropping the spans re-collects sets and maps into
    ordered collections; the order must survive that. */
module SpannedValues {
  import opened Common
  import opened Values

  datatype Span = Span(start: nat, end: nat)

  datatype ValueAndSpan = ValueAndSpan(inner: Spanned, span: Span)

  datatype Spanned =
    | SAtomic(atom: Atom)
    | SVector(items: seq<ValueAndSpan>)
    | SList(items: seq<ValueAndSpan>)
    | SSet(items: seq<ValueAndSpan>)
    | SMap(entries: seq<SpannedEntry>)

  datatype SpannedEntry = SpannedEntry(key: ValueAndSpan, val: ValueAndSpan)

  function SPrecedence(v: Spanned): int {
    match v
    case SAtomic(a) => AtomPrecedence(a)
    case SVector(_) => 12
    case SList(_) => 13
    case SSet(_) => 14
    case SMap(_) => 15
  }

  function SSize(v: ValueAndSpan): nat
    decreases v
  {
    match v.inner
    case SAtomic(_) => 1
    case SVector(s) => 1 + SSizeOf(s)
    case SList(s) => 1 + SSizeOf(s)
    case SSet(s) => 1 + SSizeOf(s)
    case SMap(s) => 1 + SSizeOfEntries(s)
  }

  function SSizeOf(s: seq<ValueAndSpan>): nat
    decreases s
  {
    if s == [] then 0 else 1 + SSize(s[0]) + SSizeOf(s[1..])
  }

  function SSizeOfEntries(s: seq<SpannedEntry>): nat
    decreases s
  {
    if s == [] then 0 else SSizeOfEntry(s[0]) + SSizeOfEntries(s[1..])
  }

  function SSizeOfEntry(e: SpannedEntry): (n: nat)
    ensures n == 1 + SSize(e.key) + SSize(e.val)
    decreases e
  {
    1 + SSize(e.key) + SSize(e.val)
  }

  /** The comparison of spanned values: that of their contents, spans ignored. */
  function SCompare(a: ValueAndSpan, b: ValueAndSpan): Ordering
    decreases SSize(a) + SSize(b)
  {
    match (a.inner, b.inner)
    case (SAtomic(x), SAtomic(y)) => CompareAtom(x, y)
    case (SVector(x), SVector(y)) => SCompareSeq(y, x)
    case (SList(x), SList(y)) => SCompareSeq(y, x)
    case (SSet(x), SSet(y)) => SCompareSeq(y, x)
    case (SMap(x), SMap(y)) => SCompareEntries(y, x)
    case _ => CompareInt(SPrecedence(a.inner), SPrecedence(b.inner))
  }

  function SCompareSeq(a: seq<ValueAndSpan>, b: seq<ValueAndSpan>): Ordering
    decreases SSizeOf(a) + SSizeOf(b)
  {
    if a == [] then (if b == [] then Equal else Less)
    else if b == [] then Greater
    else SCompare(a[0], b[0]).Then(SCompareSeq(a[1..], b[1..]))
  }

  function SCompareEntries(a: seq<SpannedEntry>, b: seq<SpannedEntry>): Ordering
    decreases SSizeOfEntries(a) + SSizeOfEntries(b)
  {
    if a == [] then (if b == [] then Equal else Less)
    else if b == [] then Greater
    else SCompare(a[0].key, b[0].key).Then(SCompare(a[0].val, b[0].val)).Then(SCompareEntries(a[1..], b[1..]))
  }

  // ------------------------------------------------------------- ordered collections

  /** Insertion into an ordered set: an element already there is kept. */
  function InsertItem(s: seq<Value>, x: Value): seq<Value> {
    if s == [] then [x]
    else match Compare(x, s[0])
         case Less => [x] + s
         case Equal => s
         case Greater => [s[0]] + InsertItem(s[1..], x)
  }

  /** Insertion into an ordered map: the value under an existing key is replaced. */
  function InsertEntry(s: seq<Entry>, e: Entry): seq<Entry> {
    if s == [] then [e]
    else match Compare(e.key, s[0].key)
         case Less => [e] + s
         case Equal => [Entry(s[0].key, e.val)] + s[1..]
         case Greater => [s[0]] + InsertEntry(s[1..], e)
  }

  function CollectItems(s: seq<Value>): seq<Value> {
    if s == [] then [] else InsertItem(CollectItems(s[..|s| - 1]), s[|s| - 1])
  }

  function CollectEntries(s: seq<Entry>): seq<Entry> {
    if s == [] then [] else InsertEntry(CollectEntries(s[..|s| - 1]), s[|s| - 1])
  }

  function WithoutSpans(v: ValueAndSpan): Value
    decreases SSize(v)
  {
    match v.inner
    case SAtomic(a) => Atomic(a)
    case SVector(s) => Vector(Strip(s))
    case SList(s) => List(Strip(s))
    case SSet(s) => Set(CollectItems(Strip(s)))
    case SMap(s) => Map(CollectEntries(StripEntries(s)))
  }

  function Strip(s: seq<ValueAndSpan>): (r: seq<Value>)
    ensures |r| == |s|
    decreases SSizeOf(s)
  {
    if s == [] then [] else [WithoutSpans(s[0])] + Strip(s[1..])
  }

  function StripEntries(s: seq<SpannedEntry>): (r: seq<Entry>)
    ensures |r| == |s|
    decreases SSizeOfEntries(s)
  {
    if s == [] then []
    else [Entry(WithoutSpans(s[0].key), WithoutSpans(s[0].val))] + StripEntries(s[1..])
  }

  // ------------------------------------------------------------- representation invariants

  ghost predicate Ascending(s: seq<Value>) {
    forall i, j :: 0 <= i < j < |s| ==> Compare(s[i], s[j]) == Less
  }

  ghost predicate AscendingKeys(s: seq<Entry>) {
    forall i, j :: 0 <= i < j < |s| ==> Compare(s[i].key, s[j].key) == Less
  }

  ghost predicate SAscending(s: seq<ValueAndSpan>) {
    forall i, j :: 0 <= i < j < |s| ==> SCompare(s[i], s[j]) == Less
  }

  ghost predicate SAscendingKeys(s: seq<SpannedEntry>) {
    forall i, j :: 0 <= i < j < |s| ==> SCompare(s[i].key, s[j].key) == Less
  }

  /** What the collection types guarantee: sets and map keys strictly ascending, at every level. */
  ghost predicate WellFormed(v: ValueAndSpan)
    decreases SSize(v)
  {
    match v.inner
    case SAtomic(_) => true
    case SVector(s) => AllWellFormed(s)
    case SList(s) => AllWellFormed(s)
    case SSet(s) => AllWellFormed(s) && SAscending(s)
    case SMap(s) => EntriesWellFormed(s) && SAscendingKeys(s)
  }

  ghost predicate AllWellFormed(s: seq<ValueAndSpan>)
    decreases SSizeOf(s)
  {
    s == [] || (WellFormed(s[0]) && AllWellFormed(s[1..]))
  }

  ghost predicate EntriesWellFormed(s: seq<SpannedEntry>)
    decreases SSizeOfEntries(s)
  {
    s == [] || (WellFormed(s[0].key) && WellFormed(s[0].val) && EntriesWellFormed(s[1..]))
  }

  // ------------------------------------------------------------- collecting

  lemma {:induction false} InsertKeepsOrder(s: seq<Value>, x: Value)
    requires Ascending(s)
    ensures Ascending(InsertItem(s, x)) && forall y :: y in InsertItem(s, x) <==> y == x || y in s
    decreases |s|
  {
    if s != [] {
      CompareIsAntisymmetric(x, s[0]);
      var rest := s[1..];
      assert s == [s[0]] + rest;
      if Compare(x, s[0]) == Less {
        forall i | 0 <= i < |s| ensures Compare(x, s[i]) == Less {
          CompareIsTransitive(x, s[0], s[i]);
        }
      } else if Compare(x, s[0]) == Greater {
        InsertKeepsOrder(rest, x);
        assert forall y :: y in rest ==> Compare(s[0], y) == Less;
        AscendingFront(s[0], InsertItem(rest, x));
      }
    }
  }

  lemma AscendingFront(x: Value, s: seq<Value>)
    requires Ascending(s) && forall y :: y in s ==> Compare(x, y) == Less
    ensures Ascending([x] + s)
  { }

  /** A collected set holds exactly the items given, in ascending order. */
  lemma {:induction false} CollectingSorts(s: seq<Value>)
    ensures Ascending(CollectItems(s)) && forall x :: x in CollectItems(s) <==> x in s
    decreases |s|
  {
    if s != [] {
      var front, last := s[..|s| - 1], s[|s| - 1];
      CollectingSorts(front);
      InsertKeepsOrder(CollectItems(front), last);
      assert s == front + [last];
    }
  }

  lemma {:induction false} InsertEntryKeepsOrder(s: seq<Entry>, e: Entry)
    requires AscendingKeys(s)
    ensures AscendingKeys(InsertEntry(s, e))
    ensures forall f :: f in InsertEntry(s, e) <==> f == e || (f in s && f.key != e.key)
    decreases |s|
  {
    if s != [] {
      CompareIsAntisymmetric(e.key, s[0].key);
      var rest := s[1..];
      assert s == [s[0]] + rest;
      if Compare(e.key, s[0].key) == Less {
        forall i | 0 <= i < |s| ensures Compare(e.key, s[i].key) == Less && s[i].key != e.key {
          CompareIsTransitive(e.key, s[0].key, s[i].key);
          CompareIsAntisymmetric(e.key, s[i].key);
        }
      } else {
        forall f | f in rest ensures Compare(s[0].key, f.key) == Less && f.key != s[0].key {
          CompareIsAntisymmetric(s[0].key, f.key);
        }
        if Compare(e.key, s[0].key) == Greater {
          InsertEntryKeepsOrder(rest, e);
          AscendingKeysFront(s[0], InsertEntry(rest, e));
        }
      }
    }
  }

  lemma AscendingKeysFront(e: Entry, s: seq<Entry>)
    requires AscendingKeys(s) && forall f :: f in s ==> Compare(e.key, f.key) == Less
    ensures AscendingKeys([e] + s)
  { }

  /** The entry stands in the list and no later one has its key. */
  ghost predicate IsLatest(s: seq<Entry>, e: Entry) {
    exists i :: 0 <= i < |s| && s[i] == e && forall j :: i < j < |s| ==> s[j].key != e.key
  }

  lemma LatestSnoc(front: seq<Entry>, last: Entry, e: Entry)
    ensures IsLatest(front + [last], e) <==> e == last || (IsLatest(front, e) && e.key != last.key)
  {
    var s := front + [last];
    assert s[|front|] == last;
    if IsLatest(front, e) && e.key != last.key {
      var i :| 0 <= i < |front| && front[i] == e && forall j :: i < j < |front| ==> front[j].key != e.key;
      assert s[i] == e;
    }
    if IsLatest(s, e) && e != last {
      var i :| 0 <= i < |s| && s[i] == e && forall j :: i < j < |s| ==> s[j].key != e.key;
      assert i < |front| && front[i] == e;
      assert forall j :: i < j < |front| ==> front[j] == s[j];
    }
  }

  /** A collected map holds the latest entry of every key, in ascending order of keys. */
  lemma {:induction false} CollectingKeepsLatest(s: seq<Entry>)
    ensures AscendingKeys(CollectEntries(s)) && forall e :: e in CollectEntries(s) <==> IsLatest(s, e)
    decreases |s|
  {
    if s != [] {
      var front, last := s[..|s| - 1], s[|s| - 1];
      CollectingKeepsLatest(front);
      InsertEntryKeepsOrder(CollectEntries(front), last);
      assert s == front + [last];
      forall e ensures e in CollectEntries(s) <==> IsLatest(s, e) {
        LatestSnoc(front, last, e);
      }
    }
  }

  // ------------------------------------------------------------- collecting what is already ordered

  lemma {:induction false} InsertAtEnd(s: seq<Value>, x: Value)
    requires forall i :: 0 <= i < |s| ==> Compare(s[i], x) == Less
    ensures InsertItem(s, x) == s + [x]
    decreases |s|
  {
    if s != [] {
      CompareIsAntisymmetric(s[0], x);
      InsertAtEnd(s[1..], x);
      assert [s[0]] + (s[1..] + [x]) == s + [x];
    }
  }

  lemma {:induction false} CollectAscending(s: seq<Value>)
    requires Ascending(s)
    ensures CollectItems(s) == s
    decreases |s|
  {
    if s != [] {
      var front := s[..|s| - 1];
      CollectAscending(front);
      InsertAtEnd(front, s[|s| - 1]);
    }
  }

  lemma {:induction false} InsertEntryAtEnd(s: seq<Entry>, e: Entry)
    requires forall i :: 0 <= i < |s| ==> Compare(s[i].key, e.key) == Less
    ensures InsertEntry(s, e) == s + [e]
    decreases |s|
  {
    if s != [] {
      CompareIsAntisymmetric(s[0].key, e.key);
      InsertEntryAtEnd(s[1..], e);
      assert [s[0]] + (s[1..] + [e]) == s + [e];
    }
  }

  lemma {:induction false} CollectAscendingKeys(s: seq<Entry>)
    requires AscendingKeys(s)
    ensures CollectEntries(s) == s
    decreases |s|
  {
    if s != [] {
      var front := s[..|s| - 1];
      CollectAscendingKeys(front);
      InsertEntryAtEnd(front, s[|s| - 1]);
    }
  }

  // ------------------------------------------------------------- spans do not matter

  lemma {:induction false} StripAt(s: seq<ValueAndSpan>, i: nat)
    requires i < |s|
    ensures Strip(s)[i] == WithoutSpans(s[i]) && SSize(s[i]) < SSizeOf(s)
    ensures AllWellFormed(s) ==> WellFormed(s[i])
    decreases |s|
  {
    if i > 0 {
      StripAt(s[1..], i - 1);
    }
  }

  lemma {:induction false} StripEntryAt(s: seq<SpannedEntry>, i: nat)
    requires i < |s|
    ensures StripEntries(s)[i] == Entry(WithoutSpans(s[i].key), WithoutSpans(s[i].val))
    ensures SSize(s[i].key) < SSizeOfEntries(s)
    ensures EntriesWellFormed(s) ==> WellFormed(s[i].key)
    decreases |s|
  {
    if i > 0 {
      StripEntryAt(s[1..], i - 1);
    }
  }

  lemma {:induction false} TwoSizes(s: seq<ValueAndSpan>, i: nat, j: nat)
    requires i < j < |s|
    ensures SSize(s[i]) + SSize(s[j]) < SSizeOf(s)
    decreases |s|
  {
    if i > 0 {
      TwoSizes(s[1..], i - 1, j - 1);
    } else {
      StripAt(s[1..], j - 1);
    }
  }

  lemma {:induction false} TwoKeySizes(s: seq<SpannedEntry>, i: nat, j: nat)
    requires i < j < |s|
    ensures SSize(s[i].key) + SSize(s[j].key) < SSizeOfEntries(s)
    decreases |s|
  {
    if i > 0 {
      TwoKeySizes(s[1..], i - 1, j - 1);
    } else {
      StripEntryAt(s[1..], j - 1);
    }
  }

  /** Dropping spans loses no set element: the stripped elements are already in order. */
  lemma {:induction false} StrippedSetIsOrdered(s: seq<ValueAndSpan>)
    requires AllWellFormed(s) && SAscending(s)
    ensures Ascending(Strip(s)) && CollectItems(Strip(s)) == Strip(s)
    decreases SSizeOf(s), 0
  {
    forall i, j | 0 <= i < j < |s| ensures Compare(Strip(s)[i], Strip(s)[j]) == Less {
      StripAt(s, i);
      StripAt(s, j);
      TwoSizes(s, i, j);
      SpansDoNotMatter(s[i], s[j]);
    }
    CollectAscending(Strip(s));
  }

  lemma {:induction false} StrippedMapIsOrdered(s: seq<SpannedEntry>)
    requires EntriesWellFormed(s) && SAscendingKeys(s)
    ensures AscendingKeys(StripEntries(s)) && CollectEntries(StripEntries(s)) == StripEntries(s)
    decreases SSizeOfEntries(s), 0
  {
    forall i, j | 0 <= i < j < |s| ensures Compare(StripEntries(s)[i].key, StripEntries(s)[j].key) == Less {
      StripEntryAt(s, i);
      StripEntryAt(s, j);
      TwoKeySizes(s, i, j);
      SpansDoNotMatter(s[i].key, s[j].key);
    }
    CollectAscendingKeys(StripEntries(s));
  }

  /** The comparison of spanned values is the comparison of the values without their spans. */
  lemma {:induction false} SpansDoNotMatter(a: ValueAndSpan, b: ValueAndSpan)
    requires WellFormed(a) && WellFormed(b)
    ensures SCompare(a, b) == Compare(WithoutSpans(a), WithoutSpans(b))
    decreases SSize(a) + SSize(b), 1
  {
    match (a.inner, b.inner)
    case (SVector(x), SVector(y)) => SeqSpans(y, x);
    case (SList(x), SList(y)) => SeqSpans(y, x);
    case (SSet(x), SSet(y)) =>
      StrippedSetIsOrdered(x);
      StrippedSetIsOrdered(y);
      SeqSpans(y, x);
    case (SMap(x), SMap(y)) =>
      StrippedMapIsOrdered(x);
      StrippedMapIsOrdered(y);
      EntrySpans(y, x);
    case _ =>
  }

  lemma {:induction false} SeqSpans(a: seq<ValueAndSpan>, b: seq<ValueAndSpan>)
    requires AllWellFormed(a) && AllWellFormed(b)
    ensures SCompareSeq(a, b) == CompareSeq(Strip(a), Strip(b))
    decreases SSizeOf(a) + SSizeOf(b), 1
  {
    if a != [] && b != [] {
      SpansDoNotMatter(a[0], b[0]);
      SeqSpans(a[1..], b[1..]);
    }
  }

  lemma {:induction false} EntrySpans(a: seq<SpannedEntry>, b: seq<SpannedEntry>)
    requires EntriesWellFormed(a) && EntriesWellFormed(b)
    ensures SCompareEntries(a, b) == CompareEntries(StripEntries(a), StripEntries(b))
    decreases SSizeOfEntries(a) + SSizeOfEntries(b), 1
  {
    if a != [] && b != [] {
      SpansDoNotMatter(a[0].key, b[0].key);
      SpansDoNotMatter(a[0].val, b[0].val);
      EntrySpans(a[1..], b[1..]);
    }
  }

  /** Spanned values compare equal exactly when they strip to the same value, so the order on them is
      total up to spans: it is transitive and reverses with its operands. */
  lemma SpannedOrder(a: ValueAndSpan, b: ValueAndSpan, c: ValueAndSpan)
    requires WellFormed(a) && WellFormed(b) && WellFormed(c)
    ensures SCompare(a, b) == Equal <==> WithoutSpans(a) == WithoutSpans(b)
    ensures SCompare(b, a) == SCompare(a, b).Reverse()
    ensures Chains(SCompare(a, b), SCompare(b, c), SCompare(a, c))
  {
    SpansDoNotMatter(a, b);
    SpansDoNotMatter(b, a);
    SpansDoNotMatter(b, c);
    SpansDoNotMatter(a, c);
    CompareIsAntisymmetric(WithoutSpans(a), WithoutSpans(b));
    CompareIsTransitive(WithoutSpans(a), WithoutSpans(b), WithoutSpans(c));
  }

  // ------------------------------------------------------------- nothing but spans is dropped

  /** `a` is `v` with spans, item by item at every level. */
  ghost predicate IsWithSpans(a: ValueAndSpan, v: Value)
    decreases SSize(a)
  {
    match (a.inner, v)
    case (SAtomic(x), Atomic(y)) => x == y
    case (SVector(x), Vector(y)) => AllWithSpans(x, y)
    case (SList(x), List(y)) => AllWithSpans(x, y)
    case (SSet(x), Set(y)) => AllWithSpans(x, y)
    case (SMap(x), Map(y)) => EntriesWithSpans(x, y)
    case _ => false
  }

  ghost predicate AllWithSpans(x: seq<ValueAndSpan>, y: seq<Value>)
    decreases SSizeOf(x)
  {
    |x| == |y| && (x == [] || (IsWithSpans(x[0], y[0]) && AllWithSpans(x[1..], y[1..])))
  }

  ghost predicate EntriesWithSpans(x: seq<SpannedEntry>, y: seq<Entry>)
    decreases SSizeOfEntries(x)
  {
    |x| == |y| &&
    (x == [] ||
     (IsWithSpans(x[0].key, y[0].key) && IsWithSpans(x[0].val, y[0].val) && EntriesWithSpans(x[1..], y[1..])))
  }

  /** Dropping the spans leaves the same value: no item is lost, changed or moved at any level. */
  lemma {:induction false} OnlySpansAreDropped(a: ValueAndSpan)
    requires WellFormed(a)
    ensures IsWithSpans(a, WithoutSpans(a))
    decreases SSize(a)
  {
    match a.inner
    case SAtomic(_) =>
    case SVector(s) => ItemsKept(s);
    case SList(s) => ItemsKept(s);
    case SSet(s) =>
      StrippedSetIsOrdered(s);
      ItemsKept(s);
    case SMap(s) =>
      StrippedMapIsOrdered(s);
      EntriesKept(s);
  }

  lemma {:induction false} ItemsKept(s: seq<ValueAndSpan>)
    requires AllWellFormed(s)
    ensures AllWithSpans(s, Strip(s))
    decreases SSizeOf(s)
  {
    if s != [] {
      OnlySpansAreDropped(s[0]);
      ItemsKept(s[1..]);
    }
  }

  lemma {:induction false} EntriesKept(s: seq<SpannedEntry>)
    requires EntriesWellFormed(s)
    ensures EntriesWithSpans(s, StripEntries(s))
    decreases SSizeOfEntries(s)
  {
    if s != [] {
      OnlySpansAreDropped(s[0].key);
      OnlySpansAreDropped(s[0].val);
      EntriesKept(s[1..]);
    }
  }
}
