/** Folding a transaction's add and retract events into asserted, retracted and altered keys. */
module Upsert {
  import opened Common

  datatype Groups<K, V> = Groups(asserted: map<K, V>, retracted: map<K, V>, altered: map<K, (V, V)>)

  datatype Event<K, V> = Event(key: K, val: V, isRetraction: bool)

  /** `None` is the panic of unwrapping a value that is not there. */
  function Step<K, V>(g: Groups<K, V>, e: Event<K, V>): Option<Groups<K, V>> {
    var k, v := e.key, e.val;
    if k !in g.asserted && k !in g.retracted then
      Some(if e.isRetraction then g.(retracted := g.retracted[k := v]) else g.(asserted := g.asserted[k := v]))
    else if e.isRetraction then
      if k in g.asserted then
        Some(Groups(g.asserted - {k}, g.retracted, g.altered[k := (g.asserted[k], v)]))
      else None
    else
      if k in g.retracted then
        Some(Groups(g.asserted, g.retracted - {k}, g.altered[k := (g.retracted[k], v)]))
      else None
  }

  class LightlikeUpsert<K(==), V> {
    var asserted: map<K, V>
    var retracted: map<K, V>
    var altered: map<K, (V, V)>

    ghost function State(): Groups<K, V>
      reads this
    {
      Groups(asserted, retracted, altered)
    }

    constructor ()
      ensures State() == Groups(map[], map[], map[])
    {
      asserted, retracted, altered := map[], map[], map[];
    }

    /** `ok` is false where the code would panic. No arm handles an event that is both at once. */
    method Witness(k: K, v: V, isAssertion: bool, isRetraction: bool) returns (ok: bool)
      requires !(isAssertion && isRetraction)
      modifies this
      ensures var next := Step(old(State()), Event(k, v, isRetraction));
        (ok <==> next.Some?) && State() == next.GetOr(old(State()))
    {
      ok := true;
      if !isRetraction {
        if k !in asserted && k !in retracted {
          asserted := asserted[k := v];
        } else if k in retracted && k !in asserted {
          var vOld := retracted[k];
          retracted := retracted - {k};
          altered := altered[k := (vOld, v)];
        } else {
          if k !in retracted {
            return false;
          }
          var vOld := retracted[k];
          retracted := retracted - {k};
          altered := altered[k := (vOld, v)];
        }
      } else {
        if k !in asserted && k !in retracted {
          retracted := retracted[k := v];
        } else if k in asserted && k !in retracted {
          var vOld := asserted[k];
          asserted := asserted - {k};
          altered := altered[k := (vOld, v)];
        } else {
          if k !in asserted {
            return false;
          }
          var vOld := asserted[k];
          asserted := asserted - {k};
          altered := altered[k := (vOld, v)];
        }
      }
    }
  }

  function Run<K, V>(events: seq<Event<K, V>>): Option<Groups<K, V>> {
    if events == [] then Some(Groups(map[], map[], map[]))
    else match Run(events[..|events| - 1])
         case None => None
         case Some(g) => Step(g, events[|events| - 1])
  }

  // ------------------------------------------------------------- one key at a time

  /** What the three groups say about one key. */
  datatype Cell<V> = Cell(asserted: Option<V>, retracted: Option<V>, altered: Option<(V, V)>)

  function CellOf<K, V>(g: Groups<K, V>, k: K): Cell<V> {
    Cell(if k in g.asserted then Some(g.asserted[k]) else None,
         if k in g.retracted then Some(g.retracted[k]) else None,
         if k in g.altered then Some(g.altered[k]) else None)
  }

  function CellStep<V>(c: Cell<V>, v: V, isRetraction: bool): Option<Cell<V>> {
    if c.asserted.None? && c.retracted.None? then
      Some(if isRetraction then c.(retracted := Some(v)) else c.(asserted := Some(v)))
    else if isRetraction then
      if c.asserted.Some? then Some(Cell(None, c.retracted, Some((c.asserted.value, v)))) else None
    else
      if c.retracted.Some? then Some(Cell(c.asserted, None, Some((c.retracted.value, v)))) else None
  }

  /** The events about one key, in order. */
  function About<K(==), V>(events: seq<Event<K, V>>, k: K): seq<Event<K, V>> {
    if events == [] then []
    else
      var last := events[|events| - 1];
      About(events[..|events| - 1], k) + (if last.key == k then [last] else [])
  }

  function CellRun<K, V>(events: seq<Event<K, V>>): Option<Cell<V>> {
    if events == [] then Some(Cell(None, None, None))
    else match CellRun(events[..|events| - 1])
         case None => None
         case Some(c) => CellStep(c, events[|events| - 1].val, events[|events| - 1].isRetraction)
  }

  lemma StepByKey<K, V>(g: Groups<K, V>, e: Event<K, V>, k: K)
    ensures var next := Step(g, e);
      if e.key == k then next.Some? == CellStep(CellOf(g, k), e.val, e.isRetraction).Some? &&
        (next.Some? ==> CellOf(next.value, k) == CellStep(CellOf(g, k), e.val, e.isRetraction).value)
      else next.Some? ==> CellOf(next.value, k) == CellOf(g, k)
  { }

  /** A key's groups depend only on the events about that key. */
  lemma {:induction false} RunByKey<K, V>(events: seq<Event<K, V>>, k: K)
    ensures Run(events).Some? ==> CellRun(About(events, k)) == Some(CellOf(Run(events).value, k))
    decreases |events|
  {
    if events != [] {
      var front, last := events[..|events| - 1], events[|events| - 1];
      RunByKey(front, k);
      if Run(front).Some? {
        StepByKey(Run(front).value, last, k);
      }
      if last.key == k {
        assert About(events, k)[..|About(events, k)| - 1] == About(front, k);
      } else {
        assert About(events, k) == About(front, k);
      }
    }
  }

  /** A run panics exactly when the events about some key do. */
  lemma {:induction false} RunPanicsByKey<K, V>(events: seq<Event<K, V>>)
    ensures Run(events).None? <==> exists k :: CellRun(About(events, k)).None?
    decreases |events|
  {
    if events == [] {
      forall k ensures CellRun(About(events, k)).Some? { }
    } else {
      var front, last := events[..|events| - 1], events[|events| - 1];
      RunPanicsByKey(front);
      AboutGrows(events);
      RunByKey(front, last.key);
      if Run(front).Some? {
        StepByKey(Run(front).value, last, last.key);
        assert Run(events).None? <==> CellRun(About(events, last.key)).None?;
        forall k | k != last.key ensures CellRun(About(events, k)).Some? {
          assert About(events, k) == About(front, k);
        }
      } else {
        var k :| CellRun(About(front, k)).None?;
        assert CellRun(About(events, k)).None?;
      }
    }
  }

  lemma AboutGrows<K, V>(events: seq<Event<K, V>>)
    requires events != []
    ensures var front, last := events[..|events| - 1], events[|events| - 1];
      && CellRun(About(events, last.key)) ==
         (match CellRun(About(front, last.key))
          case None => None
          case Some(c) => CellStep(c, last.val, last.isRetraction))
      && forall k :: k != last.key ==> About(events, k) == About(front, k)
  {
    var front, last := events[..|events| - 1], events[|events| - 1];
    assert About(events, last.key)[..|About(events, last.key)| - 1] == About(front, last.key);
    forall k | k != last.key ensures About(events, k) == About(front, k) { }
  }

  /** Events pair up when the first and second, third and fourth, and so on are of opposite kinds. */
  ghost predicate PairsUp<K, V>(events: seq<Event<K, V>>) {
    forall i :: 0 <= i && 2 * i + 1 < |events| ==> events[2 * i].isRetraction != events[2 * i + 1].isRetraction
  }

  lemma {:induction false} CellPanics<K, V>(events: seq<Event<K, V>>)
    ensures CellRun(events).None? <==> !PairsUp(events)
    ensures var r := CellRun(events); var last := |events| - 1;
      r.Some? ==>
        if |events| % 2 == 0 then r.value.asserted.None? && r.value.retracted.None?
        else if events[last].isRetraction then r.value.asserted.None? && r.value.retracted.Some?
        else r.value.asserted.Some? && r.value.retracted.None?
    decreases |events|
  {
    if events != [] {
      var k := |events| - 1;
      var front := events[..k];
      CellPanics(front);
      assert PairsUp(events) ==> PairsUp(front);
      if k % 2 == 1 {
        var i := k / 2;
        assert k == 2 * i + 1;
        if PairsUp(front) && events[2 * i].isRetraction != events[2 * i + 1].isRetraction {
          forall j | 0 <= j && 2 * j + 1 < |events|
            ensures events[2 * j].isRetraction != events[2 * j + 1].isRetraction
          {
            if 2 * j + 1 < k {
              assert front[2 * j].isRetraction != front[2 * j + 1].isRetraction;
            } else {
              assert j == i;
            }
          }
        }
      } else if PairsUp(front) {
        forall j | 0 <= j && 2 * j + 1 < |events|
          ensures events[2 * j].isRetraction != events[2 * j + 1].isRetraction
        {
          assert front[2 * j].isRetraction != front[2 * j + 1].isRetraction;
        }
      }
    }
  }

  /** The unwraps are reached by missing values exactly when some key sees the same kind of event twice in
      a pair. */
  lemma PanicsIffUnpaired<K, V>(events: seq<Event<K, V>>)
    ensures Run(events).None? <==> exists k :: !PairsUp(About(events, k))
  {
    RunPanicsByKey(events);
    forall k ensures CellRun(About(events, k)).None? <==> !PairsUp(About(events, k)) {
      CellPanics(About(events, k));
    }
  }

  /** In every state a run reaches, no key is both asserted and retracted. */
  lemma {:induction false} AssertedAndRetractedAreDisjoint<K, V>(events: seq<Event<K, V>>)
    requires Run(events).Some?
    ensures Run(events).value.asserted.Keys !! Run(events).value.retracted.Keys
  {
    forall k | k in Run(events).value.asserted && k in Run(events).value.retracted ensures false {
      RunByKey(events, k);
      CellPanics(About(events, k));
    }
  }

  // ------------------------------------------------------------- at most one add and one retract

  /** No key is added twice or retracted twice. */
  ghost predicate AtMostOnce<K, V>(events: seq<Event<K, V>>) {
    forall i, j :: 0 <= i < j < |events| && events[i].key == events[j].key ==>
      events[i].isRetraction != events[j].isRetraction
  }

  /** The events about a key are some of the events, in their order. */
  lemma {:induction false} AboutPositions<K, V>(events: seq<Event<K, V>>, k: K) returns (at: seq<nat>)
    ensures |at| == |About(events, k)|
    ensures forall i :: 0 <= i < |at| ==> at[i] < |events| && events[at[i]] == About(events, k)[i] && events[at[i]].key == k
    ensures forall i, j :: 0 <= i < j < |at| ==> at[i] < at[j]
    ensures forall p :: 0 <= p < |events| && events[p].key == k ==> p in at
    decreases |events|
  {
    if events == [] {
      at := [];
    } else {
      at := AboutPositions(events[..|events| - 1], k);
      if events[|events| - 1].key == k {
        at := at + [|events| - 1];
      }
    }
  }

  /** The group a key ends in, by the kinds of event it has. */
  ghost predicate EndsIn<K, V>(g: Groups<K, V>, k: K, added: bool, removed: bool) {
    && (k in g.asserted <==> added && !removed)
    && (k in g.retracted <==> removed && !added)
    && (k in g.altered <==> added && removed)
  }

  ghost predicate Mentions<K, V>(events: seq<Event<K, V>>, k: K, isRetraction: bool) {
    exists i :: 0 <= i < |events| && events[i].key == k && events[i].isRetraction == isRetraction
  }

  lemma ThreeShareAKind<K, V>(es: seq<Event<K, V>>)
    requires |es| > 2
    ensures exists p, q :: 0 <= p < q < |es| && es[p].isRetraction == es[q].isRetraction
  {
    if es[0].isRetraction != es[1].isRetraction && es[1].isRetraction != es[2].isRetraction {
      assert es[0].isRetraction == es[2].isRetraction;
    }
  }

  lemma AboutIsShort<K, V>(events: seq<Event<K, V>>, k: K)
    requires AtMostOnce(events)
    ensures |About(events, k)| <= 2 && PairsUp(About(events, k))
  {
    var es := About(events, k);
    var at := AboutPositions(events, k);
    forall p, q | 0 <= p < q < |es| ensures es[p].isRetraction != es[q].isRetraction {
      assert events[at[p]].key == events[at[q]].key;
    }
    if |es| > 2 {
      ThreeShareAKind(es);
    }
  }

  ghost predicate HasKind<K, V>(es: seq<Event<K, V>>, isRetraction: bool) {
    exists i :: 0 <= i < |es| && es[i].isRetraction == isRetraction
  }

  lemma MentionsAbout<K, V>(events: seq<Event<K, V>>, k: K, kind: bool)
    ensures Mentions(events, k, kind) <==> HasKind(About(events, k), kind)
  {
    var es := About(events, k);
    var at := AboutPositions(events, k);
    if Mentions(events, k, kind) {
      var p :| 0 <= p < |events| && events[p].key == k && events[p].isRetraction == kind;
      var i :| 0 <= i < |at| && at[i] == p;
      assert es[i].isRetraction == kind;
    }
    if i :| 0 <= i < |es| && es[i].isRetraction == kind {
      assert events[at[i]].key == k;
    }
  }

  lemma ShortRunEndsIn<K, V>(es: seq<Event<K, V>>)
    requires |es| <= 2 && PairsUp(es)
    ensures var r := CellRun(es); var added, removed := HasKind(es, false), HasKind(es, true);
      && r.Some?
      && (r.value.asserted.Some? <==> added && !removed)
      && (r.value.retracted.Some? <==> removed && !added)
      && (r.value.altered.Some? <==> added && removed)
  {
    ShortRun(es);
    if |es| >= 1 {
      assert HasKind(es, es[0].isRetraction);
    }
    if |es| == 2 {
      assert HasKind(es, es[1].isRetraction);
    }
  }

  /** With at most one add and one retract per key nothing panics, and each key ends in exactly the group
      its kinds of event call for, whatever their order. */
  lemma GroupsDependOnKindsOnly<K, V>(events: seq<Event<K, V>>, k: K)
    requires AtMostOnce(events)
    ensures Run(events).Some?
    ensures EndsIn(Run(events).value, k, Mentions(events, k, false), Mentions(events, k, true))
  {
    forall key ensures PairsUp(About(events, key)) {
      AboutIsShort(events, key);
    }
    PanicsIffUnpaired(events);
    RunByKey(events, k);
    MentionsAbout(events, k, false);
    MentionsAbout(events, k, true);
    AboutIsShort(events, k);
    ShortRunEndsIn(About(events, k));
  }

  lemma ShortRun<K, V>(es: seq<Event<K, V>>)
    requires |es| <= 2 && PairsUp(es)
    ensures var r := CellRun(es);
      && r.Some?
      && (|es| == 0 ==> r.value == Cell(None, None, None))
      && (|es| == 1 ==> r.value == if es[0].isRetraction then Cell(None, Some(es[0].val), None)
                                   else Cell(Some(es[0].val), None, None))
      && (|es| == 2 ==> r.value == Cell(None, None, Some((es[0].val, es[1].val))))
      && (|es| == 2 ==> es[0].isRetraction != es[1].isRetraction)
  {
    if |es| >= 1 {
      assert es[..1][..0] == [];
      assert CellRun(es[..1]) == CellStep(Cell(None, None, None), es[0].val, es[0].isRetraction);
      if |es| == 1 {
        assert es[..1] == es;
      } else {
        assert es[2 * 0].isRetraction != es[2 * 0 + 1].isRetraction;
      }
    }
  }

  /** The altered pair is read as (retracted, added); it is that pair exactly when the retraction was seen
      first, or when both events carry the same value. */
  lemma AlteredPairNeedsRetractionFirst<K, V>(events: seq<Event<K, V>>, i: nat, j: nat)
    requires AtMostOnce(events) && i < |events| && j < |events| && events[i].key == events[j].key
    requires events[i].isRetraction && !events[j].isRetraction
    ensures Run(events).Some? && events[i].key in Run(events).value.altered
    ensures Run(events).value.altered[events[i].key] == (events[i].val, events[j].val)
       <==> i < j || events[i].val == events[j].val
  {
    var k := events[i].key;
    GroupsDependOnKindsOnly(events, k);
    RunByKey(events, k);
    var at := AboutPositions(events, k);
    var x :| 0 <= x < |at| && at[x] == i;
    var y :| 0 <= y < |at| && at[y] == j;
    var es := About(events, k);
    AboutIsShort(events, k);
    ShortRun(es);
  }
}
