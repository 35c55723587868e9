/** Applying one transaction to the topograph: grouping its name events, then updating the tables, and
    removing the attributes whose defining facts are retracted. */
module TopographUpdate {
  import opened Common
  import opened NameMaps
  import Upsert

  type NameEvent = Upsert.Event<Causetid, Keyword>

  /** A rename reaches the tables only if its retraction is witnessed before its assertion; the other way
      round the pair is stored reversed and the rename is lost without an error. */
  lemma RenameNeedsRetractionFirst(t: Tables, id: Causetid, newName: Keyword)
    requires Inverse(t) && id in t.names && newName !in t.ids
    ensures var oldName := t.names[id];
      var add, retract := Upsert.Event(id, newName, false), Upsert.Event(id, oldName, true);
      var good, bad := Upsert.Run([retract, add]), Upsert.Run([add, retract]);
      && good.Some? && good.value.altered == map[id := (oldName, newName)]
      && bad.Some? && bad.value.altered == map[id := (newName, oldName)]
      && ApplyAll(t, Alterations([(id, (oldName, newName))])) ==
         Tables(t.names[id := newName], (t.ids - {oldName})[newName := id])
      && ApplyAll(t, Alterations([(id, (newName, oldName))])) == t
  {
    var oldName := t.names[id];
    var add: NameEvent, retract: NameEvent := Upsert.Event(id, newName, false), Upsert.Event(id, oldName, true);
    RunTwo(retract, add);
    RunTwo(add, retract);
    OneChange(t, Change(id, Some(oldName), Some(newName)));
    OneChange(t, Change(id, Some(newName), Some(oldName)));
    assert Alterations([(id, (oldName, newName))]) == [Change(id, Some(oldName), Some(newName))];
    assert Alterations([(id, (newName, oldName))]) == [Change(id, Some(newName), Some(oldName))];
    assert t.ids - {newName} == t.ids;
    assert t.ids[oldName := id] == t.ids && t.names[id := oldName] == t.names;
  }

  lemma RunTwo(first: NameEvent, second: NameEvent)
    requires first.key == second.key && first.isRetraction != second.isRetraction
    ensures Upsert.Run([first, second]).Some?
    ensures Upsert.Run([first, second]).value.altered == map[first.key := (first.val, second.val)]
  {
    assert [first][..0] == [];
    assert [first, second][..1] == [first];
    assert Upsert.Run([first]) == Upsert.Step(Upsert.Groups(map[], map[], map[]), first);
  }

  lemma OneChange(t: Tables, c: Change)
    ensures ApplyAll(t, [c]) == Apply(t, c)
  {
    assert [c][..0] == [];
  }

  // ------------------------------------------------------------- a whole transaction

  /** The name the events give to an entity, and the one they take from it. */
  function NameGiven(events: seq<NameEvent>, id: Causetid, isRetraction: bool): Option<Keyword> {
    if events == [] then None
    else
      var last := events[|events| - 1];
      if last.key == id && last.isRetraction == isRetraction then Some(last.val)
      else NameGiven(events[..|events| - 1], id, isRetraction)
  }

  /** The name an entity is meant to have afterwards. */
  function Intended(t: Tables, events: seq<NameEvent>, id: Causetid): Option<Keyword> {
    var added := NameGiven(events, id, false);
    if added.Some? then added
    else if NameGiven(events, id, true).Some? then None
    else NameOf(t, id)
  }

  /** An entity's name is retracted after it was added, with another value. */
  ghost predicate RetractedLate(events: seq<NameEvent>, id: Causetid) {
    exists i, j :: 0 <= i < j < |events| && events[i].key == id && events[j].key == id &&
      !events[i].isRetraction && events[j].isRetraction && events[i].val != events[j].val
  }

  /** The iteration order of an ordered map. */
  ghost predicate Enumerates<V>(m: map<Causetid, V>, s: seq<(Causetid, V)>) {
    && (forall i, j :: 0 <= i < j < |s| ==> s[i].0 < s[j].0)
    && (forall i :: 0 <= i < |s| ==> s[i].0 in m && m[s[i].0] == s[i].1)
    && (forall id :: id in m ==> exists i :: 0 <= i < |s| && s[i].0 == id)
  }

  /** What the updater is handed: the three groups in the order of their keys. */
  ghost predicate Grouped(events: seq<NameEvent>, asserted: seq<(Causetid, Keyword)>,
                          altered: seq<(Causetid, (Keyword, Keyword))>, retracted: seq<(Causetid, Keyword)>) {
    var g := Upsert.Run(events);
    g.Some? && Enumerates(g.value.asserted, asserted) && Enumerates(g.value.altered, altered) &&
    Enumerates(g.value.retracted, retracted)
  }

  lemma {:induction false} NameGivenAbout(events: seq<NameEvent>, id: Causetid, kind: bool)
    ensures NameGiven(events, id, kind) == NameGiven(Upsert.About(events, id), id, kind)
    decreases |events|
  {
    if events != [] {
      var front, last := events[..|events| - 1], events[|events| - 1];
      NameGivenAbout(front, id, kind);
      if last.key == id {
        assert Upsert.About(events, id)[..|Upsert.About(events, id)| - 1] == Upsert.About(front, id);
      } else {
        assert Upsert.About(events, id) == Upsert.About(front, id);
      }
    }
  }

  lemma NameGivenShort(es: seq<NameEvent>, id: Causetid, kind: bool)
    requires |es| <= 2 && forall i :: 0 <= i < |es| ==> es[i].key == id
    ensures |es| == 0 ==> NameGiven(es, id, kind) == None
    ensures |es| == 1 ==> NameGiven(es, id, kind) == if es[0].isRetraction == kind then Some(es[0].val) else None
    ensures |es| == 2 && es[0].isRetraction != es[1].isRetraction ==>
      NameGiven(es, id, kind) == Some(if es[1].isRetraction == kind then es[1].val else es[0].val)
  {
    if |es| >= 1 {
      assert es[..1][..0] == [] && es[..1][0] == es[0];
      assert |es| == 1 ==> es[..1] == es;
      assert NameGiven(es[..1], id, kind) == if es[0].isRetraction == kind then Some(es[0].val) else None;
    }
  }

  /** The events about an entity say whether its retraction is late. */
  lemma LateAbout(events: seq<NameEvent>, id: Causetid)
    requires Upsert.AtMostOnce(events)
    ensures var es := Upsert.About(events, id);
      RetractedLate(events, id) <==> |es| == 2 && es[1].isRetraction && es[0].val != es[1].val
  {
    var es := Upsert.About(events, id);
    var at := Upsert.AboutPositions(events, id);
    Upsert.AboutIsShort(events, id);
    Upsert.ShortRun(es);
    if RetractedLate(events, id) {
      var i, j :| 0 <= i < j < |events| && events[i].key == id && events[j].key == id &&
        !events[i].isRetraction && events[j].isRetraction && events[i].val != events[j].val;
      PositionsOf(at, i, j);
    }
    if |es| == 2 && es[1].isRetraction && es[0].val != es[1].val {
      assert at[0] < at[1];
      assert events[at[0]].key == id && events[at[1]].key == id;
    }
  }

  lemma PositionsOf(at: seq<nat>, i: nat, j: nat)
    requires |at| <= 2 && i in at && j in at && i < j && forall x, y :: 0 <= x < y < |at| ==> at[x] < at[y]
    ensures at == [i, j]
  { }

  lemma GroupedIds(events: seq<NameEvent>, asserted: seq<(Causetid, Keyword)>,
                   altered: seq<(Causetid, (Keyword, Keyword))>, retracted: seq<(Causetid, Keyword)>)
    requires Upsert.AtMostOnce(events) && Grouped(events, asserted, altered, retracted)
    ensures DistinctIds(Changes(asserted, altered, retracted))
  {
    var g, cs := Upsert.Run(events).value, Changes(asserted, altered, retracted);
    forall p, q | 0 <= p < q < |cs| ensures cs[p].id != cs[q].id {
      Upsert.GroupsDependOnKindsOnly(events, cs[p].id);
    }
  }

  lemma NameAfterChange(t: Tables, changes: seq<Change>, c: Change)
    requires DistinctIds(changes) && c in changes
    ensures NameOf(ApplyAll(t, changes), c.id) == c.after
  {
    var p :| 0 <= p < |changes| && changes[p] == c;
    ChangedName(t, changes, p);
  }

  /** Where the three groups stand in the list of changes. */
  lemma PlaceOf<V>(m: map<Causetid, V>, s: seq<(Causetid, V)>, id: Causetid) returns (i: nat)
    requires Enumerates(m, s) && id in m
    ensures i < |s| && s[i] == (id, m[id])
  {
    i :| 0 <= i < |s| && s[i].0 == id;
  }

  lemma AssertedChange(g: Upsert.Groups<Causetid, Keyword>, asserted: seq<(Causetid, Keyword)>,
                       altered: seq<(Causetid, (Keyword, Keyword))>, retracted: seq<(Causetid, Keyword)>, id: Causetid)
    requires Enumerates(g.asserted, asserted) && id in g.asserted
    ensures Change(id, None, Some(g.asserted[id])) in Changes(asserted, altered, retracted)
  {
    ChangesAt(asserted, altered, retracted);
    var i := PlaceOf(g.asserted, asserted, id);
    assert Changes(asserted, altered, retracted)[i] == Change(id, None, Some(g.asserted[id]));
  }

  lemma AlteredChange(g: Upsert.Groups<Causetid, Keyword>, asserted: seq<(Causetid, Keyword)>,
                      altered: seq<(Causetid, (Keyword, Keyword))>, retracted: seq<(Causetid, Keyword)>, id: Causetid)
    requires Enumerates(g.altered, altered) && id in g.altered
    ensures Change(id, Some(g.altered[id].0), Some(g.altered[id].1)) in Changes(asserted, altered, retracted)
  {
    ChangesAt(asserted, altered, retracted);
    var i := PlaceOf(g.altered, altered, id);
    assert altered[|asserted| + i - |asserted|] == (id, g.altered[id]);
    assert Changes(asserted, altered, retracted)[|asserted| + i].id == id;
  }

  lemma RetractedChange(g: Upsert.Groups<Causetid, Keyword>, asserted: seq<(Causetid, Keyword)>,
                        altered: seq<(Causetid, (Keyword, Keyword))>, retracted: seq<(Causetid, Keyword)>, id: Causetid)
    requires Enumerates(g.retracted, retracted) && id in g.retracted
    ensures Change(id, Some(g.retracted[id]), None) in Changes(asserted, altered, retracted)
  {
    ChangesAt(asserted, altered, retracted);
    var i := PlaceOf(g.retracted, retracted, id);
    var p := |asserted| + |altered| + i;
    assert retracted[p - |asserted| - |altered|] == (id, g.retracted[id]);
    assert Changes(asserted, altered, retracted)[p].id == id;
  }

  lemma ChangeHasGroup(g: Upsert.Groups<Causetid, Keyword>, asserted: seq<(Causetid, Keyword)>,
                       altered: seq<(Causetid, (Keyword, Keyword))>, retracted: seq<(Causetid, Keyword)>, p: nat)
    requires Enumerates(g.asserted, asserted) && Enumerates(g.altered, altered) && Enumerates(g.retracted, retracted)
    requires p < |Changes(asserted, altered, retracted)|
    ensures var id := Changes(asserted, altered, retracted)[p].id;
      id in g.asserted || id in g.altered || id in g.retracted
  {
    ChangesAt(asserted, altered, retracted);
  }

  /** The change an entity gets is the one its cell in the groups calls for. */
  lemma ChangeOfCell(events: seq<NameEvent>, asserted: seq<(Causetid, Keyword)>,
                     altered: seq<(Causetid, (Keyword, Keyword))>, retracted: seq<(Causetid, Keyword)>, id: Causetid)
    requires Grouped(events, asserted, altered, retracted)
    ensures var g, cs := Upsert.Run(events).value, Changes(asserted, altered, retracted);
      && (id in g.asserted ==> Change(id, None, Some(g.asserted[id])) in cs)
      && (id in g.altered ==> Change(id, Some(g.altered[id].0), Some(g.altered[id].1)) in cs)
      && (id in g.retracted ==> Change(id, Some(g.retracted[id]), None) in cs)
      && (id !in g.asserted && id !in g.altered && id !in g.retracted ==> forall p :: 0 <= p < |cs| ==> cs[p].id != id)
  {
    var g, cs := Upsert.Run(events).value, Changes(asserted, altered, retracted);
    if id in g.asserted {
      AssertedChange(g, asserted, altered, retracted, id);
    }
    if id in g.altered {
      AlteredChange(g, asserted, altered, retracted, id);
    }
    if id in g.retracted {
      RetractedChange(g, asserted, altered, retracted, id);
    }
    forall p | 0 <= p < |cs| ensures cs[p].id in g.asserted || cs[p].id in g.altered || cs[p].id in g.retracted {
      ChangeHasGroup(g, asserted, altered, retracted, p);
    }
  }

  /** The name an entity ends with, by its at most two events. */
  function NameByEvents(t: Tables, es: seq<NameEvent>, id: Causetid): Option<Keyword> {
    if |es| == 0 then NameOf(t, id)
    else if |es| == 1 && es[0].isRetraction then None
    else Some(es[|es| - 1].val)
  }

  lemma NamedByEvents(t: Tables, events: seq<NameEvent>, asserted: seq<(Causetid, Keyword)>,
                      altered: seq<(Causetid, (Keyword, Keyword))>, retracted: seq<(Causetid, Keyword)>, id: Causetid)
    requires Upsert.AtMostOnce(events) && Grouped(events, asserted, altered, retracted)
    ensures NameOf(ApplyAll(t, Changes(asserted, altered, retracted)), id) ==
            NameByEvents(t, Upsert.About(events, id), id)
  {
    var g, cs := Upsert.Run(events).value, Changes(asserted, altered, retracted);
    GroupedIds(events, asserted, altered, retracted);
    ChangeOfCell(events, asserted, altered, retracted, id);
    CellOfShort(events, id);
    if id in g.asserted {
      NameAfterChange(t, cs, Change(id, None, Some(g.asserted[id])));
    } else if id in g.altered {
      NameAfterChange(t, cs, Change(id, Some(g.altered[id].0), Some(g.altered[id].1)));
    } else if id in g.retracted {
      NameAfterChange(t, cs, Change(id, Some(g.retracted[id]), None));
    } else {
      UntouchedName(t, cs, id);
    }
  }

  /** From events to tables: after the transaction an entity has the name it is meant to have, if and only
      if its name was not retracted after being added with another value. */
  lemma NamedAsIntendedIffNotLate(t: Tables, events: seq<NameEvent>, asserted: seq<(Causetid, Keyword)>,
                                  altered: seq<(Causetid, (Keyword, Keyword))>, retracted: seq<(Causetid, Keyword)>,
                                  id: Causetid)
    requires Upsert.AtMostOnce(events) && Grouped(events, asserted, altered, retracted)
    ensures NameOf(ApplyAll(t, Changes(asserted, altered, retracted)), id) == Intended(t, events, id)
            <==> !RetractedLate(events, id)
  {
    NamedByEvents(t, events, asserted, altered, retracted, id);
    CellOfShort(events, id);
    LateAbout(events, id);
  }

  /** What the groups and the intention say about an entity, by its at most two events. */
  lemma CellOfShort(events: seq<NameEvent>, id: Causetid)
    requires Upsert.AtMostOnce(events)
    ensures var es := Upsert.About(events, id);
      && |es| <= 2 && Upsert.Run(events).Some?
      && (|es| == 2 ==> es[0].isRetraction != es[1].isRetraction)
      && Upsert.CellOf(Upsert.Run(events).value, id) ==
         (if |es| == 0 then Upsert.Cell(None, None, None)
          else if |es| == 2 then Upsert.Cell(None, None, Some((es[0].val, es[1].val)))
          else if es[0].isRetraction then Upsert.Cell(None, Some(es[0].val), None)
          else Upsert.Cell(Some(es[0].val), None, None))
      && NameGiven(events, id, false) == (if |es| == 0 then None else if !es[|es| - 1].isRetraction then Some(es[|es| - 1].val)
                                          else if |es| == 2 then Some(es[0].val) else None)
      && NameGiven(events, id, true) == (if |es| == 0 then None else if es[|es| - 1].isRetraction then Some(es[|es| - 1].val)
                                         else if |es| == 2 then Some(es[0].val) else None)
  {
    var es := Upsert.About(events, id);
    Upsert.GroupsDependOnKindsOnly(events, id);
    Upsert.RunByKey(events, id);
    Upsert.AboutIsShort(events, id);
    Upsert.ShortRun(es);
    var at := Upsert.AboutPositions(events, id);
    assert forall i :: 0 <= i < |es| ==> es[i].key == events[at[i]].key;
    NameGivenAbout(events, id, false);
    NameGivenAbout(events, id, true);
    NameGivenShort(es, id, false);
    NameGivenShort(es, id, true);
  }

  // ------------------------------------------------------------- both tables

  /** The events are about the tables: what is retracted is the present name, and a name is added alone only
      to an entity without one. */
  ghost predicate AboutTables(t: Tables, events: seq<NameEvent>) {
    forall id :: (NameGiven(events, id, true).Some? ==> NameGiven(events, id, true) == NameOf(t, id)) &&
      (NameGiven(events, id, false).Some? && NameGiven(events, id, true).None? ==> NameOf(t, id) == None)
  }

  lemma ChangeDescribes(t: Tables, events: seq<NameEvent>, asserted: seq<(Causetid, Keyword)>,
                        altered: seq<(Causetid, (Keyword, Keyword))>, retracted: seq<(Causetid, Keyword)>, p: nat)
    requires Upsert.AtMostOnce(events) && Grouped(events, asserted, altered, retracted) && AboutTables(t, events)
    requires p < |Changes(asserted, altered, retracted)|
    requires !RetractedLate(events, Changes(asserted, altered, retracted)[p].id)
    ensures Changes(asserted, altered, retracted)[p].before == NameOf(t, Changes(asserted, altered, retracted)[p].id)
  {
    var c := Changes(asserted, altered, retracted)[p];
    CellOfShort(events, c.id);
    LateAbout(events, c.id);
    assert NameGiven(events, c.id, true).Some? ==> NameGiven(events, c.id, true) == NameOf(t, c.id);
  }

  /** Every change starts from the present name, or, if its retraction was late, goes back to it. */
  lemma ChangeIsAnchored(t: Tables, events: seq<NameEvent>, asserted: seq<(Causetid, Keyword)>,
                         altered: seq<(Causetid, (Keyword, Keyword))>, retracted: seq<(Causetid, Keyword)>, p: nat)
    requires Upsert.AtMostOnce(events) && Grouped(events, asserted, altered, retracted) && AboutTables(t, events)
    requires p < |Changes(asserted, altered, retracted)|
    ensures var c := Changes(asserted, altered, retracted)[p];
      c.before == NameOf(t, c.id) || c.after == NameOf(t, c.id)
  {
    var c := Changes(asserted, altered, retracted)[p];
    CellOfShort(events, c.id);
    assert NameGiven(events, c.id, true).Some? ==> NameGiven(events, c.id, true) == NameOf(t, c.id);
  }

  /** Every transaction about the tables, late retractions or not: it keeps them mutually inverse if and only
      if no name is touched after it is given, nor a name of an entity the transaction does not mention. */
  lemma TransactionKeepsInverseIffGivenLastAndSpared(
      t: Tables, events: seq<NameEvent>, asserted: seq<(Causetid, Keyword)>,
      altered: seq<(Causetid, (Keyword, Keyword))>, retracted: seq<(Causetid, Keyword)>)
    requires Upsert.AtMostOnce(events) && Grouped(events, asserted, altered, retracted)
    requires Inverse(t) && AboutTables(t, events)
    ensures var cs := Changes(asserted, altered, retracted);
      Inverse(ApplyAll(t, cs)) <==> GivenLast(cs) && Spared(t, cs)
  {
    var cs := Changes(asserted, altered, retracted);
    GroupedIds(events, asserted, altered, retracted);
    forall p | 0 <= p < |cs| ensures cs[p].before == NameOf(t, cs[p].id) || cs[p].after == NameOf(t, cs[p].id) {
      ChangeIsAnchored(t, events, asserted, altered, retracted, p);
    }
    InverseIffGivenLastAndSpared(t, cs);
  }

  /** Without late retractions, a transaction about the tables keeps them mutually inverse if and only if its
      new names are free, and gives every entity its intended name. */
  lemma TransactionKeepsInverseIffNamesAreFree(
      t: Tables, events: seq<NameEvent>, asserted: seq<(Causetid, Keyword)>,
      altered: seq<(Causetid, (Keyword, Keyword))>, retracted: seq<(Causetid, Keyword)>)
    requires Upsert.AtMostOnce(events) && Grouped(events, asserted, altered, retracted)
    requires Inverse(t) && AboutTables(t, events) && forall id :: !RetractedLate(events, id)
    ensures var cs := Changes(asserted, altered, retracted);
      && (Inverse(ApplyAll(t, cs)) <==> NamesAreFree(t, cs))
      && forall id :: NameOf(ApplyAll(t, cs), id) == Intended(t, events, id)
  {
    var cs := Changes(asserted, altered, retracted);
    GroupedIds(events, asserted, altered, retracted);
    forall p | 0 <= p < |cs| ensures cs[p].before == NameOf(t, cs[p].id) {
      ChangeDescribes(t, events, asserted, altered, retracted, p);
    }
    InverseIffNamesAreFree(t, cs);
    forall id ensures NameOf(ApplyAll(t, cs), id) == Intended(t, events, id) {
      NamedAsIntendedIffNotLate(t, events, asserted, altered, retracted, id);
    }
  }

  /** A late retraction by itself keeps the old name and removes the new one from the id table: harmless while the new
      name is unused, and the loss of another entity's entry if it is in use. */
  lemma ReversedPairDropsNewName(t: Tables, id: Causetid, newName: Keyword)
    requires Inverse(t) && id in t.names && newName != t.names[id]
    ensures var after := Apply(t, Change(id, Some(newName), Some(t.names[id])));
      && after.names == t.names && after.ids == t.ids - {newName}
      && (Inverse(after) <==> newName !in t.ids)
  {
    var after := Apply(t, Change(id, Some(newName), Some(t.names[id])));
    assert after.names == t.names;
    assert after.ids == t.ids - {newName};
    if newName in t.ids {
      var holder := t.ids[newName];
      assert holder in t.names && t.names[holder] == newName;
      assert holder in after.names && after.names[holder] !in after.ids;
    } else {
      assert after.ids == t.ids;
    }
  }

  lemma RunSnoc(before: seq<NameEvent>, e: NameEvent)
    ensures Upsert.Run(before + [e]) ==
            match Upsert.Run(before) case None => None case Some(g) => Upsert.Step(g, e)
  {
    assert (before + [e])[..|before|] == before;
  }

  lemma RunOne(e: NameEvent)
    ensures Upsert.Run([e]) == Upsert.Step(Upsert.Groups(map[], map[], map[]), e)
  {
    assert [e][..0] == [];
  }

  lemma GivenSnoc(before: seq<NameEvent>, e: NameEvent, id: Causetid, kind: bool)
    ensures NameGiven(before + [e], id, kind) ==
            if e.key == id && e.isRetraction == kind then Some(e.val) else NameGiven(before, id, kind)
  {
    assert (before + [e])[..|before|] == before;
  }

  /** A late retraction can be harmless although another entity holds the new name: here entity 2 gives the
      name up in the same transaction. */
  lemma LateButInverse(a: Keyword, b: Keyword, c: Keyword) returns (t: Tables, events: seq<NameEvent>)
    requires a != b && b != c && a != c
    ensures Inverse(t) && t.names == map[1 := a, 2 := b]
    ensures Upsert.AtMostOnce(events) && AboutTables(t, events) && RetractedLate(events, 1)
    ensures Grouped(events, [], [(1, (b, a)), (2, (b, c))], [])
    ensures var cs := Changes([], [(1, (b, a)), (2, (b, c))], []);
      Inverse(ApplyAll(t, cs)) && !NamesAreFree(t, cs)
  {
    t := Tables(map[1 := a, 2 := b], map[a := 1, b := 2]);
    var e1, e2 := Upsert.Event(1, b, false), Upsert.Event(1, a, true);
    var e3, e4 := Upsert.Event(2, b, true), Upsert.Event(2, c, false);
    events := [e1] + [e2] + [e3] + [e4];
    FourEventsRun(e1, e2, e3, e4);
    var none: seq<(Causetid, Keyword)> := [];
    var altered := [(1, (b, a)), (2, (b, c))];
    FourAboutTables(t, e1, e2, e3, e4);
    assert events[0] == e1 && events[1] == e2;
    TransactionKeepsInverseIffGivenLastAndSpared(t, events, none, altered, none);
    TwoAltered(t, a, b, c);
  }

  lemma FourEventsRun(e1: NameEvent, e2: NameEvent, e3: NameEvent, e4: NameEvent)
    requires e1.key == 1 && e2.key == 1 && e3.key == 2 && e4.key == 2
    requires !e1.isRetraction && e2.isRetraction && e3.isRetraction && !e4.isRetraction
    ensures Grouped([e1] + [e2] + [e3] + [e4], [], [(1, (e1.val, e2.val)), (2, (e3.val, e4.val))], [])
  {
    RunOne(e1);
    RunSnoc([e1], e2);
    RunSnoc([e1] + [e2], e3);
    RunSnoc([e1] + [e2] + [e3], e4);
    var g := Upsert.Run([e1] + [e2] + [e3] + [e4]).value;
    assert g.asserted == map[] && g.retracted == map[];
    assert g.altered == map[1 := (e1.val, e2.val), 2 := (e3.val, e4.val)];
    var altered := [(1, (e1.val, e2.val)), (2, (e3.val, e4.val))];
    assert altered[0].0 == 1 && altered[1].0 == 2;
  }

  lemma FourAboutTables(t: Tables, e1: NameEvent, e2: NameEvent, e3: NameEvent, e4: NameEvent)
    requires e1.key == 1 && e2.key == 1 && e3.key == 2 && e4.key == 2
    requires !e1.isRetraction && e2.isRetraction && e3.isRetraction && !e4.isRetraction
    requires NameOf(t, 1) == Some(e2.val) && NameOf(t, 2) == Some(e3.val)
    ensures AboutTables(t, [e1] + [e2] + [e3] + [e4])
  {
    forall id, kind ensures NameGiven([e1] + [e2] + [e3] + [e4], id, kind) ==
      if id == 1 then Some(if kind then e2.val else e1.val)
      else if id == 2 then Some(if kind then e3.val else e4.val) else None
    {
      assert [e1][..0] == [];
      GivenSnoc([e1], e2, id, kind);
      GivenSnoc([e1] + [e2], e3, id, kind);
      GivenSnoc([e1] + [e2] + [e3], e4, id, kind);
    }
  }

  lemma TwoAltered(t: Tables, a: Keyword, b: Keyword, c: Keyword)
    requires a != b && b != c && a != c && t == Tables(map[1 := a, 2 := b], map[a := 1, b := 2])
    ensures var cs := Changes([], [(1, (b, a)), (2, (b, c))], []);
      GivenLast(cs) && Spared(t, cs) && !NamesAreFree(t, cs)
  {
    var cs := Changes([], [(1, (b, a)), (2, (b, c))], []);
    assert cs == [Change(1, Some(b), Some(a)), Change(2, Some(b), Some(c))];
    assert Mentioned(cs, 1) by {
      assert cs[0].id == 1;
    }
    assert Mentioned(cs, 2) by {
      assert cs[1].id == 2;
    }
    assert a in t.ids && !Freed(cs, a, 1);
    assert !NameIsFree(t, cs, 0);
  }

  /** A late retraction can break the tables although nobody held the new name: here entity 2 is given it in
      the same transaction. */
  lemma LateAndBroken(a: Keyword, b: Keyword) returns (t: Tables, events: seq<NameEvent>)
    requires a != b
    ensures Inverse(t) && t.names == map[1 := a] && b !in t.ids
    ensures Upsert.AtMostOnce(events) && AboutTables(t, events) && RetractedLate(events, 1)
    ensures Grouped(events, [(2, b)], [(1, (b, a))], [])
    ensures !Inverse(ApplyAll(t, Changes([(2, b)], [(1, (b, a))], [])))
  {
    t := Tables(map[1 := a], map[a := 1]);
    var e1, e2, e3 := Upsert.Event(2, b, false), Upsert.Event(1, b, false), Upsert.Event(1, a, true);
    events := [e1] + [e2] + [e3];
    ThreeEventsRun(e1, e2, e3);
    var none: seq<(Causetid, Keyword)> := [];
    var asserted, altered := [(2, b)], [(1, (b, a))];
    assert asserted[0].0 == 2 && altered[0].0 == 1;
    ThreeAboutTables(t, e1, e2, e3);
    assert events[1] == e2 && events[2] == e3;
    TransactionKeepsInverseIffGivenLastAndSpared(t, events, asserted, altered, none);
    var cs := Changes(asserted, altered, none);
    assert cs == [Change(2, None, Some(b)), Change(1, Some(b), Some(a))];
    assert Touches(cs[1], b) && cs[0].after == Some(b);
  }

  lemma ThreeEventsRun(e1: NameEvent, e2: NameEvent, e3: NameEvent)
    requires e1.key == 2 && e2.key == 1 && e3.key == 1
    requires !e1.isRetraction && !e2.isRetraction && e3.isRetraction
    ensures Upsert.Run([e1] + [e2] + [e3]) ==
            Some(Upsert.Groups(map[2 := e1.val], map[], map[1 := (e2.val, e3.val)]))
  {
    RunOne(e1);
    RunSnoc([e1], e2);
    RunSnoc([e1] + [e2], e3);
    var g := Upsert.Run([e1] + [e2] + [e3]).value;
    assert g.asserted == map[2 := e1.val] && g.retracted == map[] && g.altered == map[1 := (e2.val, e3.val)];
  }

  lemma ThreeAboutTables(t: Tables, e1: NameEvent, e2: NameEvent, e3: NameEvent)
    requires e1.key == 2 && e2.key == 1 && e3.key == 1
    requires !e1.isRetraction && !e2.isRetraction && e3.isRetraction
    requires NameOf(t, 1) == Some(e3.val) && NameOf(t, 2) == None
    ensures AboutTables(t, [e1] + [e2] + [e3])
  {
    forall id, kind ensures NameGiven([e1] + [e2] + [e3], id, kind) ==
      if id == 1 then Some(if kind then e3.val else e2.val) else if id == 2 && !kind then Some(e1.val) else None
    {
      assert [e1][..0] == [];
      GivenSnoc([e1], e2, id, kind);
      GivenSnoc([e1] + [e2], e3, id, kind);
    }
  }

  // ------------------------------------------------------------- retracted attributes

  type Attribute = int

  datatype Fact = Fact(e: Causetid, a: Attribute, v: int)

  datatype TopographError = RetractedWithoutName(e: Causetid)

  /** Which attributes describe attributes, and the two that define one. */
  datatype Vocabulary = Vocabulary(cardinality: Attribute, valueType: Attribute, isTopograph: Attribute -> bool)

  ghost predicate Meaningful(w: Vocabulary) {
    w.isTopograph(w.cardinality) && w.isTopograph(w.valueType)
  }

  predicate Retracts(facts: seq<Fact>, e: Causetid, a: Attribute) {
    exists f | f in facts :: f.e == e && f.a == a
  }

  /** Both defining facts of the attribute are among the retractions. */
  predicate Negated(facts: seq<Fact>, w: Vocabulary, e: Causetid) {
    Retracts(facts, e, w.cardinality) && Retracts(facts, e, w.valueType)
  }

  function Keep(facts: seq<Fact>, keep: Fact -> bool): seq<Fact> {
    if facts == [] then []
    else Keep(facts[..|facts| - 1], keep) + (if keep(facts[|facts| - 1]) then [facts[|facts| - 1]] else [])
  }

  function Ordinary(w: Vocabulary): Fact -> bool {
    (f: Fact) => !w.isTopograph(f.a)
  }

  function Suspect(w: Vocabulary): Fact -> bool {
    (f: Fact) => w.isTopograph(f.a)
  }

  function Surviving(facts: seq<Fact>, w: Vocabulary): Fact -> bool {
    (f: Fact) => w.isTopograph(f.a) && !Negated(facts, w, f.e)
  }

  lemma KeepSnoc(facts: seq<Fact>, keep: Fact -> bool, f: Fact)
    ensures Keep(facts + [f], keep) == Keep(facts, keep) + if keep(f) then [f] else []
  {
    assert (facts + [f])[..|facts|] == facts;
  }

  class AttributeMap<A> {
    var attributes: map<Causetid, A>

    /** Removes exactly the attributes both of whose defining facts are retracted, provided their names are
        retracted too, and returns the other retractions: the ordinary ones, then the rest. */
    method RemoveRetracted(facts: seq<Fact>, w: Vocabulary, retractedNames: map<Causetid, Keyword>)
      returns (r: Result<seq<Fact>, TopographError>)
      requires Meaningful(w)
      modifies this
      ensures r.Err? ==> Negated(facts, w, r.error.e) && r.error.e !in retractedNames
      ensures r.Err? ==> StoppedAt(facts, w, retractedNames, r.error.e, old(attributes), attributes)
      ensures r.Ok? ==>
        && (forall e :: Negated(facts, w, e) ==> e in retractedNames)
        && attributes == NotNegated(old(attributes), facts, w)
        && r.value == Keep(facts, Ordinary(w)) + Keep(facts, Surviving(facts, w))
    {
      var filtered, suspect, eas := Partition(facts, w);
      ghost var first, before := filtered, attributes;
      for i := 0 to |suspect|
        invariant filtered == first + Keep(suspect[..i], Surviving(facts, w))
        invariant NamesCovered(facts, w, suspect[..i], retractedNames)
        invariant attributes == WithoutNegated(before, facts, w, suspect[..i])
      {
        var f := suspect[i];
        var defining := Lookup(eas, f.e);
        SuspectsTellNegated(facts, w, f.e);
        OneSuspect(before, facts, w, suspect, i, retractedNames, first);
        if w.cardinality in defining && w.valueType in defining {
          if f.e in retractedNames {
            attributes := attributes - {f.e};
          } else {
            return Err(RetractedWithoutName(f.e));
          }
        } else {
          filtered := filtered + [f];
        }
      }
      assert suspect[..|suspect|] == suspect;
      AllSuspects(before, facts, w, retractedNames);
      return Ok(filtered);
    }
  }

  /** On failure the attributes that came before the first negated one without a retracted name are gone,
      and no others. */
  ghost predicate StoppedAt<A>(facts: seq<Fact>, w: Vocabulary, retractedNames: map<Causetid, Keyword>, e: Causetid,
                                     before: map<Causetid, A>, after: map<Causetid, A>)
  {
    var suspect := Keep(facts, Suspect(w));
    exists i :: 0 <= i < |suspect| && suspect[i].e == e &&
      NamesCovered(facts, w, suspect[..i], retractedNames) && after == WithoutNegated(before, facts, w, suspect[..i])
  }

  function NotNegated<A>(m: map<Causetid, A>, facts: seq<Fact>, w: Vocabulary): map<Causetid, A> {
    map e | e in m && !Negated(facts, w, e) :: m[e]
  }

  lemma AllSuspects<A>(m: map<Causetid, A>, facts: seq<Fact>, w: Vocabulary, retractedNames: map<Causetid, Keyword>)
    requires Meaningful(w)
    ensures var suspect := Keep(facts, Suspect(w));
      && WithoutNegated(m, facts, w, suspect) == NotNegated(m, facts, w)
      && (NamesCovered(facts, w, suspect, retractedNames) ==> forall e :: Negated(facts, w, e) ==> e in retractedNames)
      && Keep(suspect, Surviving(facts, w)) == Keep(facts, Surviving(facts, w))
  {
    NegatedIsSeen(facts, w);
    KeepTwice(facts, Suspect(w), Surviving(facts, w));
  }

  /** Every negated entity met so far has its name retracted. */
  ghost predicate NamesCovered(facts: seq<Fact>, w: Vocabulary, done: seq<Fact>, retractedNames: map<Causetid, Keyword>) {
    forall e :: Negated(facts, w, e) && Seen(done, e) ==> e in retractedNames
  }

  /** What one more suspect adds to each of the loop's accumulators. */
  lemma OneSuspect<A>(m: map<Causetid, A>, facts: seq<Fact>, w: Vocabulary, suspect: seq<Fact>, i: nat,
                      retractedNames: map<Causetid, Keyword>, first: seq<Fact>)
    requires suspect == Keep(facts, Suspect(w)) && i < |suspect|
    ensures var f := suspect[i];
      if Negated(facts, w, f.e) then
        && Keep(suspect[..i + 1], Surviving(facts, w)) == Keep(suspect[..i], Surviving(facts, w))
        && WithoutNegated(m, facts, w, suspect[..i + 1]) == WithoutNegated(m, facts, w, suspect[..i]) - {f.e}
        && (NamesCovered(facts, w, suspect[..i + 1], retractedNames) <==>
            NamesCovered(facts, w, suspect[..i], retractedNames) && f.e in retractedNames)
      else
        && first + Keep(suspect[..i + 1], Surviving(facts, w)) == first + Keep(suspect[..i], Surviving(facts, w)) + [f]
        && WithoutNegated(m, facts, w, suspect[..i + 1]) == WithoutNegated(m, facts, w, suspect[..i])
        && (NamesCovered(facts, w, suspect[..i + 1], retractedNames) <==>
            NamesCovered(facts, w, suspect[..i], retractedNames))
  {
    var f := suspect[i];
    assert suspect[..i + 1] == suspect[..i] + [f];
    KeepSnoc(suspect[..i], Surviving(facts, w), f);
    KeepMember(facts, Suspect(w), f);
    WithoutOneMore(m, facts, w, suspect[..i], f);
    SeenSnoc(suspect[..i], f);
  }

  ghost function WithoutNegated<A>(m: map<Causetid, A>, facts: seq<Fact>, w: Vocabulary, done: seq<Fact>): map<Causetid, A> {
    map e | e in m && !(Negated(facts, w, e) && Seen(done, e)) :: m[e]
  }

  lemma WithoutOneMore<A>(m: map<Causetid, A>, facts: seq<Fact>, w: Vocabulary, done: seq<Fact>, f: Fact)
    ensures WithoutNegated(m, facts, w, done + [f]) ==
            if Negated(facts, w, f.e) then WithoutNegated(m, facts, w, done) - {f.e} else WithoutNegated(m, facts, w, done)
  {
    SeenSnoc(done, f);
  }

  lemma {:induction false} KeepMember(facts: seq<Fact>, p: Fact -> bool, f: Fact)
    ensures f in Keep(facts, p) <==> f in facts && p(f)
    decreases |facts|
  {
    if facts != [] {
      KeepMember(facts[..|facts| - 1], p, f);
      assert facts == facts[..|facts| - 1] + [facts[|facts| - 1]];
    }
  }

  lemma NegatedIsSeen(facts: seq<Fact>, w: Vocabulary)
    requires Meaningful(w)
    ensures forall e :: Negated(facts, w, e) ==> Seen(Keep(facts, Suspect(w)), e)
  {
    forall e | Negated(facts, w, e) ensures Seen(Keep(facts, Suspect(w)), e) {
      var f :| f in facts && f.e == e && f.a == w.cardinality;
      KeepMember(facts, Suspect(w), f);
    }
  }

  function AttributesOf(facts: seq<Fact>, e: Causetid): seq<Attribute> {
    if facts == [] then []
    else
      var last := facts[|facts| - 1];
      AttributesOf(facts[..|facts| - 1], e) + if last.e == e then [last.a] else []
  }

  function Lookup(eas: map<Causetid, seq<Attribute>>, e: Causetid): seq<Attribute> {
    if e in eas then eas[e] else []
  }

  lemma {:induction false} AttributesOfMember(facts: seq<Fact>, e: Causetid, a: Attribute)
    ensures a in AttributesOf(facts, e) <==> Retracts(facts, e, a)
    decreases |facts|
  {
    if facts != [] {
      var front, last := facts[..|facts| - 1], facts[|facts| - 1];
      AttributesOfMember(front, e, a);
      assert facts == front + [last];
      RetractsSnoc(front, last);
    }
  }

  lemma RetractedIsSuspect(facts: seq<Fact>, w: Vocabulary, e: Causetid, a: Attribute)
    requires w.isTopograph(a)
    ensures Retracts(Keep(facts, Suspect(w)), e, a) <==> Retracts(facts, e, a)
  {
    var suspect := Keep(facts, Suspect(w));
    if Retracts(facts, e, a) {
      var f :| f in facts && f.e == e && f.a == a;
      KeepMember(facts, Suspect(w), f);
    }
    if Retracts(suspect, e, a) {
      var f :| f in suspect && f.e == e && f.a == a;
      KeepMember(facts, Suspect(w), f);
    }
  }

  /** The attributes collected for an entity decide whether it is negated. */
  lemma SuspectsTellNegated(facts: seq<Fact>, w: Vocabulary, e: Causetid)
    requires Meaningful(w)
    ensures var d := AttributesOf(Keep(facts, Suspect(w)), e);
      Negated(facts, w, e) <==> w.cardinality in d && w.valueType in d
  {
    RetractedIsSuspect(facts, w, e, w.cardinality);
    RetractedIsSuspect(facts, w, e, w.valueType);
    AttributesOfMember(Keep(facts, Suspect(w)), e, w.cardinality);
    AttributesOfMember(Keep(facts, Suspect(w)), e, w.valueType);
  }

  lemma KeepBoth(facts: seq<Fact>, w: Vocabulary, i: nat)
    requires i < |facts|
    ensures var f := facts[i];
      && Keep(facts[..i + 1], Ordinary(w)) == Keep(facts[..i], Ordinary(w)) + (if w.isTopograph(f.a) then [] else [f])
      && Keep(facts[..i + 1], Suspect(w)) == Keep(facts[..i], Suspect(w)) + (if w.isTopograph(f.a) then [f] else [])
  {
    assert facts[..i + 1] == facts[..i] + [facts[i]];
    KeepSnoc(facts[..i], Ordinary(w), facts[i]);
    KeepSnoc(facts[..i], Suspect(w), facts[i]);
  }

  ghost predicate Collected(eas: map<Causetid, seq<Attribute>>, facts: seq<Fact>) {
    forall e :: Lookup(eas, e) == AttributesOf(facts, e)
  }

  lemma CollectOne(eas: map<Causetid, seq<Attribute>>, facts: seq<Fact>, f: Fact)
    requires Collected(eas, facts)
    ensures Collected(eas[f.e := Lookup(eas, f.e) + [f.a]], facts + [f])
  {
    var more := eas[f.e := Lookup(eas, f.e) + [f.a]];
    assert (facts + [f])[..|facts|] == facts;
    forall e ensures Lookup(more, e) == AttributesOf(facts + [f], e) {
      assert Lookup(eas, e) == AttributesOf(facts, e);
      assert AttributesOf(facts, e) + [] == AttributesOf(facts, e);
    }
  }

  /** Sets the topograph facts aside and collects, per entity, which of them it loses. */
  method Partition(facts: seq<Fact>, w: Vocabulary)
    returns (filtered: seq<Fact>, suspect: seq<Fact>, eas: map<Causetid, seq<Attribute>>)
    ensures filtered == Keep(facts, Ordinary(w)) && suspect == Keep(facts, Suspect(w))
    ensures Collected(eas, suspect)
  {
    filtered, suspect, eas := [], [], map[];
    for i := 0 to |facts|
      invariant filtered == Keep(facts[..i], Ordinary(w)) && suspect == Keep(facts[..i], Suspect(w))
      invariant Collected(eas, suspect)
    {
      var f := facts[i];
      KeepBoth(facts, w, i);
      CollectOne(eas, suspect, f);
      if w.isTopograph(f.a) {
        eas := eas[f.e := Lookup(eas, f.e) + [f.a]];
        suspect := suspect + [f];
      } else {
        filtered := filtered + [f];
      }
    }
    assert facts[..|facts|] == facts;
  }

  ghost predicate Seen(facts: seq<Fact>, e: Causetid) {
    exists f :: f in facts && f.e == e
  }

  lemma SeenSnoc(facts: seq<Fact>, f: Fact)
    ensures forall e :: Seen(facts + [f], e) <==> Seen(facts, e) || e == f.e
  {
    forall e ensures Seen(facts + [f], e) <==> Seen(facts, e) || e == f.e {
      assert f in facts + [f];
      if Seen(facts, e) {
        var g :| g in facts && g.e == e;
        assert g in facts + [f];
      }
    }
  }

  lemma RetractsSnoc(facts: seq<Fact>, f: Fact)
    ensures forall e, a :: Retracts(facts + [f], e, a) <==> Retracts(facts, e, a) || (e == f.e && a == f.a)
  {
    forall e, a ensures Retracts(facts + [f], e, a) <==> Retracts(facts, e, a) || (e == f.e && a == f.a) {
      assert f in facts + [f];
      if Retracts(facts, e, a) {
        var g :| g in facts && g.e == e && g.a == a;
        assert g in facts + [f];
      }
    }
  }

  lemma {:induction false} KeepTwice(facts: seq<Fact>, p: Fact -> bool, q: Fact -> bool)
    requires forall f :: q(f) ==> p(f)
    ensures Keep(Keep(facts, p), q) == Keep(facts, q)
    decreases |facts|
  {
    if facts != [] {
      var front, last := facts[..|facts| - 1], facts[|facts| - 1];
      KeepTwice(front, p, q);
      if p(last) {
        KeepSnoc(Keep(front, p), q, last);
      } else {
        assert Keep(facts, p) == Keep(front, p);
      }
    }
  }
}
