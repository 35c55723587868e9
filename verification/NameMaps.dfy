/** The two name tables of a topograph, id to name and name to id, updated by one transaction's asserted,
    altered and retracted names. */
module NameMaps {
  import opened Common

  type Causetid = int
  type Keyword = string

  datatype Tables = Tables(names: map<Causetid, Keyword>, ids: map<Keyword, Causetid>)

  /** One entity's change: its name before and after, `None` meaning it has none. */
  datatype Change = Change(id: Causetid, before: Option<Keyword>, after: Option<Keyword>)

  function Apply(t: Tables, c: Change): Tables {
    var names := match c.after case None => t.names - {c.id} case Some(n) => t.names[c.id := n];
    var freed := match c.before case None => t.ids case Some(n) => t.ids - {n};
    var ids := match c.after case None => freed case Some(n) => freed[n := c.id];
    Tables(names, ids)
  }

  function ApplyAll(t: Tables, changes: seq<Change>): Tables {
    if changes == [] then t
    else Apply(ApplyAll(t, changes[..|changes| - 1]), changes[|changes| - 1])
  }

  function Assertions(s: seq<(Causetid, Keyword)>): seq<Change> {
    seq(|s|, i requires 0 <= i < |s| => Change(s[i].0, None, Some(s[i].1)))
  }

  function Alterations(s: seq<(Causetid, (Keyword, Keyword))>): seq<Change> {
    seq(|s|, i requires 0 <= i < |s| => Change(s[i].0, Some(s[i].1.0), Some(s[i].1.1)))
  }

  function Retractions(s: seq<(Causetid, Keyword)>): seq<Change> {
    seq(|s|, i requires 0 <= i < |s| => Change(s[i].0, Some(s[i].1), None))
  }

  /** The report: each entity touched, with its new name, or the lost one if it was retracted. */
  function Report(r: map<Causetid, Keyword>, changes: seq<Change>): map<Causetid, Keyword> {
    if changes == [] then r
    else
      var c := changes[|changes| - 1];
      Report(r, changes[..|changes| - 1])[c.id := if c.after.Some? then c.after.value else c.before.GetOr("")]
  }

  lemma ApplyAllSnoc(t: Tables, changes: seq<Change>, c: Change)
    ensures ApplyAll(t, changes + [c]) == Apply(ApplyAll(t, changes), c)
  {
    assert (changes + [c])[..|changes|] == changes;
  }

  lemma ReportSnoc(r: map<Causetid, Keyword>, changes: seq<Change>, c: Change)
    ensures Report(r, changes + [c]) ==
            Report(r, changes)[c.id := if c.after.Some? then c.after.value else c.before.GetOr("")]
  {
    assert (changes + [c])[..|changes|] == changes;
  }

  lemma {:induction false} ApplyAllConcat(t: Tables, r: map<Causetid, Keyword>, xs: seq<Change>, ys: seq<Change>)
    ensures ApplyAll(t, xs + ys) == ApplyAll(ApplyAll(t, xs), ys)
    ensures Report(r, xs + ys) == Report(Report(r, xs), ys)
    decreases |ys|
  {
    if ys == [] {
      assert xs + ys == xs;
    } else {
      var front := ys[..|ys| - 1];
      ApplyAllConcat(t, r, xs, front);
      assert (xs + ys)[..|xs + ys| - 1] == xs + front;
    }
  }

  function Changes(asserted: seq<(Causetid, Keyword)>, altered: seq<(Causetid, (Keyword, Keyword))>,
                   retracted: seq<(Causetid, Keyword)>): seq<Change> {
    Assertions(asserted) + Alterations(altered) + Retractions(retracted)
  }

  class Topograph {
    var names: map<Causetid, Keyword>
    var ids: map<Keyword, Causetid>

    ghost function State(): Tables
      reads this
    {
      Tables(names, ids)
    }

    /** The grouped names of one transaction, each group in the iteration order of its ordered map. */
    method UpdateNames(asserted: seq<(Causetid, Keyword)>, altered: seq<(Causetid, (Keyword, Keyword))>,
                       retracted: seq<(Causetid, Keyword)>) returns (report: map<Causetid, Keyword>)
      modifies this
      ensures State() == ApplyAll(old(State()), Changes(asserted, altered, retracted))
      ensures report == Report(map[], Changes(asserted, altered, retracted))
    {
      report := InstallNames(asserted, map[]);
      report := AlterNames(altered, report);
      report := RetractNames(retracted, report);
      ApplyAllConcat(old(State()), map[], Assertions(asserted), Alterations(altered));
      ApplyAllConcat(old(State()), map[], Assertions(asserted) + Alterations(altered), Retractions(retracted));
    }

    /** The loop over asserted names. */
    method InstallNames(asserted: seq<(Causetid, Keyword)>, report: map<Causetid, Keyword>)
      returns (report': map<Causetid, Keyword>)
      modifies this
      ensures State() == ApplyAll(old(State()), Assertions(asserted))
      ensures report' == Report(report, Assertions(asserted))
    {
      report' := report;
      ghost var done: seq<Change> := [];
      for i := 0 to |asserted|
        invariant done == Assertions(asserted[..i]) && State() == ApplyAll(old(State()), done)
        invariant report' == Report(report, done)
      {
        var (id, name) := asserted[i];
        names := names[id := name];
        ids := ids[name := id];
        report' := report'[id := name];
        ghost var c := Change(id, None, Some(name));
        ApplyAllSnoc(old(State()), done, c);
        ReportSnoc(report, done, c);
        done := done + [c];
      }
      assert asserted[..|asserted|] == asserted;
    }

    /** The loop over altered names: overwrite, remove the old key, insert the new one. */
    method AlterNames(altered: seq<(Causetid, (Keyword, Keyword))>, report: map<Causetid, Keyword>)
      returns (report': map<Causetid, Keyword>)
      modifies this
      ensures State() == ApplyAll(old(State()), Alterations(altered))
      ensures report' == Report(report, Alterations(altered))
    {
      report' := report;
      ghost var done: seq<Change> := [];
      for i := 0 to |altered|
        invariant done == Alterations(altered[..i]) && State() == ApplyAll(old(State()), done)
        invariant report' == Report(report, done)
      {
        var (id, (oldName, newName)) := altered[i];
        names := names[id := newName];
        ids := ids - {oldName};
        ids := ids[newName := id];
        report' := report'[id := newName];
        ghost var c := Change(id, Some(oldName), Some(newName));
        ApplyAllSnoc(old(State()), done, c);
        ReportSnoc(report, done, c);
        done := done + [c];
      }
      assert altered[..|altered|] == altered;
    }

    /** The loop over retracted names. */
    method RetractNames(retracted: seq<(Causetid, Keyword)>, report: map<Causetid, Keyword>)
      returns (report': map<Causetid, Keyword>)
      modifies this
      ensures State() == ApplyAll(old(State()), Retractions(retracted))
      ensures report' == Report(report, Retractions(retracted))
    {
      report' := report;
      ghost var done: seq<Change> := [];
      for i := 0 to |retracted|
        invariant done == Retractions(retracted[..i]) && State() == ApplyAll(old(State()), done)
        invariant report' == Report(report, done)
      {
        var (id, name) := retracted[i];
        names := names - {id};
        ids := ids - {name};
        report' := report'[id := name];
        ghost var c := Change(id, Some(name), None);
        ApplyAllSnoc(old(State()), done, c);
        ReportSnoc(report, done, c);
        done := done + [c];
      }
      assert retracted[..|retracted|] == retracted;
    }

  }

  // ------------------------------------------------------------- the tables after a transaction

  ghost predicate Inverse(t: Tables) {
    && (forall id :: id in t.names ==> t.names[id] in t.ids && t.ids[t.names[id]] == id)
    && (forall n :: n in t.ids ==> t.ids[n] in t.names && t.names[t.ids[n]] == n)
  }

  function NameOf(t: Tables, id: Causetid): Option<Keyword> {
    if id in t.names then Some(t.names[id]) else None
  }

  function IdOf(t: Tables, n: Keyword): Option<Causetid> {
    if n in t.ids then Some(t.ids[n]) else None
  }

  ghost predicate DistinctIds(changes: seq<Change>) {
    forall p, q :: 0 <= p < q < |changes| ==> changes[p].id != changes[q].id
  }

  lemma NameAfterOne(t: Tables, c: Change, id: Causetid)
    ensures NameOf(Apply(t, c), id) == if c.id == id then c.after else NameOf(t, id)
  { }

  /** Entities not mentioned keep their name. */
  lemma {:induction false} UntouchedName(t: Tables, changes: seq<Change>, id: Causetid)
    requires forall p :: 0 <= p < |changes| ==> changes[p].id != id
    ensures NameOf(ApplyAll(t, changes), id) == NameOf(t, id)
    decreases |changes|
  {
    if changes != [] {
      var k := |changes| - 1;
      UntouchedName(t, changes[..k], id);
      NameAfterOne(ApplyAll(t, changes[..k]), changes[k], id);
    }
  }

  /** A mentioned entity ends with its new name. */
  lemma {:induction false} ChangedName(t: Tables, changes: seq<Change>, p: nat)
    requires p < |changes| && forall q :: p < q < |changes| ==> changes[q].id != changes[p].id
    ensures NameOf(ApplyAll(t, changes), changes[p].id) == changes[p].after
    decreases |changes|
  {
    var k := |changes| - 1;
    if p < k {
      ChangedName(t, changes[..k], p);
    }
    NameAfterOne(ApplyAll(t, changes[..k]), changes[k], changes[p].id);
  }

  predicate Touches(c: Change, n: Keyword) {
    c.before == Some(n) || c.after == Some(n)
  }

  lemma IdAfterOne(t: Tables, c: Change, n: Keyword)
    ensures IdOf(Apply(t, c), n) ==
            if c.after == Some(n) then Some(c.id) else if c.before == Some(n) then None else IdOf(t, n)
  { }

  /** The last change that touches a name decides what the id table says about it; -1 if none does. */
  lemma {:induction false} LastTouch(t: Tables, changes: seq<Change>, n: Keyword) returns (r: int)
    ensures -1 <= r < |changes| && forall q :: r < q < |changes| ==> !Touches(changes[q], n)
    ensures r == -1 ==> IdOf(ApplyAll(t, changes), n) == IdOf(t, n)
    ensures r >= 0 ==> Touches(changes[r], n)
    ensures r >= 0 ==>
      IdOf(ApplyAll(t, changes), n) == if changes[r].after == Some(n) then Some(changes[r].id) else None
    decreases |changes|
  {
    if changes == [] {
      r := -1;
    } else {
      var k := |changes| - 1;
      IdAfterOne(ApplyAll(t, changes[..k]), changes[k], n);
      if Touches(changes[k], n) {
        r := k;
      } else {
        r := LastTouch(t, changes[..k], n);
      }
    }
  }

  // ------------------------------------------------------------- what the three loops leave

  lemma ChangesAt(asserted: seq<(Causetid, Keyword)>, altered: seq<(Causetid, (Keyword, Keyword))>,
                  retracted: seq<(Causetid, Keyword)>)
    ensures var cs := Changes(asserted, altered, retracted);
      && |cs| == |asserted| + |altered| + |retracted|
      && (forall i :: 0 <= i < |asserted| ==> cs[i] == Change(asserted[i].0, None, Some(asserted[i].1)))
      && (forall i :: |asserted| <= i < |asserted| + |altered| ==>
            var (id, names) := altered[i - |asserted|]; cs[i] == Change(id, Some(names.0), Some(names.1)))
      && (forall i :: |asserted| + |altered| <= i < |cs| ==>
            var (id, name) := retracted[i - |asserted| - |altered|]; cs[i] == Change(id, Some(name), None))
  { }

  /** A name that a retraction takes away belongs to nobody afterwards, whoever else is given it. */
  lemma RetractedNameIsNobodys(t: Tables, asserted: seq<(Causetid, Keyword)>,
                               altered: seq<(Causetid, (Keyword, Keyword))>,
                               retracted: seq<(Causetid, Keyword)>, i: nat)
    requires i < |retracted|
    ensures IdOf(ApplyAll(t, Changes(asserted, altered, retracted)), retracted[i].1) == None
  {
    ChangesAt(asserted, altered, retracted);
    var cs := Changes(asserted, altered, retracted);
    var p := |asserted| + |altered| + i;
    assert cs[p] == Change(retracted[p - |asserted| - |altered|].0, Some(retracted[i].1), None);
    assert Touches(cs[p], retracted[i].1);
    var q := LastTouch(t, cs, retracted[i].1);
  }

  predicate AltersLater(altered: seq<(Causetid, (Keyword, Keyword))>, j: nat, n: Keyword) {
    exists k :: j <= k < |altered| && (altered[k].1.0 == n || altered[k].1.1 == n)
  }

  predicate RetractsName(retracted: seq<(Causetid, Keyword)>, n: Keyword) {
    exists i :: 0 <= i < |retracted| && retracted[i].1 == n
  }

  /** A new name of an alteration belongs to that entity unless a later alteration or a retraction touches it,
      whoever was given it by an assertion. */
  lemma AlteredNameBelongs(t: Tables, asserted: seq<(Causetid, Keyword)>, altered: seq<(Causetid, (Keyword, Keyword))>,
                           retracted: seq<(Causetid, Keyword)>, j: nat)
    requires j < |altered|
    requires !AltersLater(altered, j + 1, altered[j].1.1) && !RetractsName(retracted, altered[j].1.1)
    ensures IdOf(ApplyAll(t, Changes(asserted, altered, retracted)), altered[j].1.1) == Some(altered[j].0)
  {
    ChangesAt(asserted, altered, retracted);
    var cs, n, p := Changes(asserted, altered, retracted), altered[j].1.1, |asserted| + j;
    assert altered[p - |asserted|] == altered[j] && cs[p].after == Some(n) && cs[p].id == altered[j].0;
    forall q | p < q < |cs| ensures !Touches(cs[q], n) {
      if q < |asserted| + |altered| {
        var (id, names) := altered[q - |asserted|];
        assert cs[q] == Change(id, Some(names.0), Some(names.1));
      } else {
        var (id, name) := retracted[q - |asserted| - |altered|];
        assert cs[q] == Change(id, Some(name), None);
      }
    }
    GivenStays(t, cs, n, p);
  }

  /** An asserted name belongs to that entity unless anything after it touches the name. */
  lemma AssertedNameBelongs(t: Tables, asserted: seq<(Causetid, Keyword)>, altered: seq<(Causetid, (Keyword, Keyword))>,
                            retracted: seq<(Causetid, Keyword)>, i: nat)
    requires i < |asserted| && forall k :: i < k < |asserted| ==> asserted[k].1 != asserted[i].1
    requires !AltersLater(altered, 0, asserted[i].1) && !RetractsName(retracted, asserted[i].1)
    ensures IdOf(ApplyAll(t, Changes(asserted, altered, retracted)), asserted[i].1) == Some(asserted[i].0)
  {
    ChangesAt(asserted, altered, retracted);
    var cs, n := Changes(asserted, altered, retracted), asserted[i].1;
    forall q | i < q < |cs| ensures !Touches(cs[q], n) {
      if q < |asserted| {
        assert cs[q] == Change(asserted[q].0, None, Some(asserted[q].1));
      } else if q < |asserted| + |altered| {
        var (id, names) := altered[q - |asserted|];
        assert cs[q] == Change(id, Some(names.0), Some(names.1));
      } else {
        var (id, name) := retracted[q - |asserted| - |altered|];
        assert cs[q] == Change(id, Some(name), None);
      }
    }
    GivenStays(t, cs, n, i);
  }

  /** The report has exactly the entities mentioned, each with its new name, or the one it lost. */
  lemma {:induction false} ReportIsComplete(changes: seq<Change>, id: Causetid)
    ensures id in Report(map[], changes) <==> Mentioned(changes, id)
    decreases |changes|
  {
    if changes != [] {
      var n := |changes| - 1;
      ReportIsComplete(changes[..n], id);
      assert Mentioned(changes[..n], id) ==> exists p :: 0 <= p < n && changes[p].id == id && changes[..n][p].id == id;
      assert forall p :: 0 <= p < n ==> changes[..n][p] == changes[p];
    }
  }

  lemma {:induction false} ReportNamesChange(changes: seq<Change>, p: nat)
    requires p < |changes| && forall q :: p < q < |changes| ==> changes[q].id != changes[p].id
    requires changes[p].before.Some? || changes[p].after.Some?
    ensures var c, r := changes[p], Report(map[], changes);
      c.id in r && Some(r[c.id]) == if c.after.Some? then c.after else c.before
    decreases |changes|
  {
    var n := |changes| - 1;
    if p < n {
      ReportNamesChange(changes[..n], p);
    }
  }

  // ------------------------------------------------------------- when the tables stay inverse

  /** Each entity is changed once, from the name it has, or back to it. */
  ghost predicate Anchored(t: Tables, changes: seq<Change>) {
    && DistinctIds(changes)
    && forall p :: 0 <= p < |changes| ==>
         changes[p].before == NameOf(t, changes[p].id) || changes[p].after == NameOf(t, changes[p].id)
  }

  /** A name that is given is not touched again. */
  ghost predicate GivenLast(changes: seq<Change>) {
    forall p, q :: 0 <= p < q < |changes| && changes[p].after.Some? ==> !Touches(changes[q], changes[p].after.value)
  }

  ghost predicate Mentioned(changes: seq<Change>, id: Causetid) {
    exists p :: 0 <= p < |changes| && changes[p].id == id
  }

  /** The names of entities that are not mentioned are not touched. */
  ghost predicate Spared(t: Tables, changes: seq<Change>) {
    forall id, p :: id in t.names && !Mentioned(changes, id) && 0 <= p < |changes| ==> !Touches(changes[p], t.names[id])
  }

  lemma {:induction false} GivenStays(t: Tables, changes: seq<Change>, n: Keyword, p: nat)
    requires p < |changes| && changes[p].after == Some(n)
    requires forall q :: p < q < |changes| ==> !Touches(changes[q], n)
    ensures IdOf(ApplyAll(t, changes), n) == Some(changes[p].id)
    decreases |changes|
  {
    var k := |changes| - 1;
    IdAfterOne(ApplyAll(t, changes[..k]), changes[k], n);
    if p < k {
      GivenStays(t, changes[..k], n, p);
    }
  }

  lemma {:induction false} UntouchedId(t: Tables, changes: seq<Change>, n: Keyword)
    requires forall q :: 0 <= q < |changes| ==> !Touches(changes[q], n)
    ensures IdOf(ApplyAll(t, changes), n) == IdOf(t, n)
    decreases |changes|
  {
    if changes != [] {
      var k := |changes| - 1;
      IdAfterOne(ApplyAll(t, changes[..k]), changes[k], n);
      UntouchedId(t, changes[..k], n);
    }
  }

  /** Every name of the new name table leads back to its entity. */
  lemma NamesLeadBack(t: Tables, changes: seq<Change>, id: Causetid)
    requires Inverse(t) && DistinctIds(changes) && GivenLast(changes) && Spared(t, changes)
    requires id in ApplyAll(t, changes).names
    ensures IdOf(ApplyAll(t, changes), ApplyAll(t, changes).names[id]) == Some(id)
  {
    if p :| 0 <= p < |changes| && changes[p].id == id {
      ChangedName(t, changes, p);
      GivenStays(t, changes, changes[p].after.value, p);
    } else {
      UntouchedName(t, changes, id);
      assert !Mentioned(changes, id);
      UntouchedId(t, changes, t.names[id]);
    }
  }

  /** Every entry of the new id table names its entity. */
  lemma IdsLeadBack(t: Tables, changes: seq<Change>, n: Keyword)
    requires Inverse(t) && Anchored(t, changes) && n in ApplyAll(t, changes).ids
    ensures NameOf(ApplyAll(t, changes), ApplyAll(t, changes).ids[n]) == Some(n)
  {
    var r := LastTouch(t, changes, n);
    if r >= 0 {
      ChangedName(t, changes, r);
    } else {
      HolderIsUnmentioned(t, changes, n);
      UntouchedName(t, changes, t.ids[n]);
    }
  }

  lemma HolderIsUnmentioned(t: Tables, changes: seq<Change>, n: Keyword)
    requires Inverse(t) && Anchored(t, changes) && n in t.ids
    requires forall q :: 0 <= q < |changes| ==> !Touches(changes[q], n)
    ensures forall p :: 0 <= p < |changes| ==> changes[p].id != t.ids[n]
  {
    assert NameOf(t, t.ids[n]) == Some(n);
  }

  /** An entity cannot keep a name that a change of another entity touched last. */
  lemma TouchedLaterBreaks(t: Tables, changes: seq<Change>, id: Causetid, n: Keyword, q: nat)
    requires q < |changes| && Touches(changes[q], n) && NameOf(ApplyAll(t, changes), id) == Some(n)
    requires forall r :: q <= r < |changes| ==> changes[r].id != id
    ensures !Inverse(ApplyAll(t, changes))
  {
    var after := ApplyAll(t, changes);
    var r := LastTouch(t, changes, n);
    assert IdOf(after, n) != Some(id);
    assert id in after.names && after.names[id] == n;
  }

  lemma InverseMeans(t: Tables)
    ensures Inverse(t) <==>
            (forall id :: id in t.names ==> IdOf(t, t.names[id]) == Some(id)) &&
            (forall n :: n in t.ids ==> NameOf(t, t.ids[n]) == Some(n))
  { }

  /** The exact condition, for any order of changes and also for changes stored reversed: the tables stay
      mutually inverse if and only if no name is touched after it is given, and no name of an entity that is
      not mentioned is touched. */
  lemma InverseIffGivenLastAndSpared(t: Tables, changes: seq<Change>)
    requires Inverse(t) && Anchored(t, changes)
    ensures Inverse(ApplyAll(t, changes)) <==> GivenLast(changes) && Spared(t, changes)
  {
    var after := ApplyAll(t, changes);
    if !GivenLast(changes) {
      var p, q :| 0 <= p < q < |changes| && changes[p].after.Some? && Touches(changes[q], changes[p].after.value);
      ChangedName(t, changes, p);
      TouchedLaterBreaks(t, changes, changes[p].id, changes[p].after.value, q);
    } else if !Spared(t, changes) {
      var id, p :| id in t.names && !Mentioned(changes, id) && 0 <= p < |changes| && Touches(changes[p], t.names[id]);
      UntouchedName(t, changes, id);
      TouchedLaterBreaks(t, changes, id, t.names[id], p);
    } else {
      InverseMeans(after);
      forall id | id in after.names ensures IdOf(after, after.names[id]) == Some(id) {
        NamesLeadBack(t, changes, id);
      }
      forall n | n in after.ids ensures NameOf(after, after.ids[n]) == Some(n) {
        IdsLeadBack(t, changes, n);
      }
    }
  }

  // ------------------------------------------------------------- changes from present names

  /** The transaction is about the tables it is applied to: it changes each entity once and states the
      name it has now. */
  ghost predicate Describes(t: Tables, changes: seq<Change>) {
    && DistinctIds(changes)
    && (forall p :: 0 <= p < |changes| ==> changes[p].before == NameOf(t, changes[p].id))
  }

  ghost predicate Freed(changes: seq<Change>, n: Keyword, upTo: nat)
    requires upTo <= |changes|
  {
    exists q :: 0 <= q < upTo && changes[q].before == Some(n)
  }

  /** Every new name is given once and is free by the time it is given: unused before the transaction, or
      held by this entity or one renamed earlier. */
  ghost predicate NamesAreFree(t: Tables, changes: seq<Change>) {
    forall p :: 0 <= p < |changes| && changes[p].after.Some? ==> NameIsFree(t, changes, p)
  }

  ghost predicate NameIsFree(t: Tables, changes: seq<Change>, p: nat)
    requires p < |changes| && changes[p].after.Some?
  {
    var n := changes[p].after.value;
    && (forall q :: 0 <= q < |changes| && q != p ==> changes[q].after != Some(n))
    && (n in t.ids ==> Freed(changes, n, p + 1))
  }

  lemma HolderOf(t: Tables, changes: seq<Change>, q: nat, n: Keyword)
    requires Inverse(t) && Describes(t, changes) && q < |changes| && changes[q].before == Some(n)
    ensures n in t.ids && t.ids[n] == changes[q].id
  {
    assert changes[q].before == NameOf(t, changes[q].id);
  }

  lemma FreeMeansGivenLast(t: Tables, changes: seq<Change>, p: nat, q: nat)
    requires Inverse(t) && Describes(t, changes) && p < q < |changes|
    requires changes[p].after.Some? && NameIsFree(t, changes, p)
    ensures !Touches(changes[q], changes[p].after.value)
  {
    var n := changes[p].after.value;
    if changes[q].before == Some(n) {
      HolderOf(t, changes, q, n);
      var r :| 0 <= r < p + 1 && changes[r].before == Some(n);
      HolderOf(t, changes, r, n);
    }
  }

  lemma FreeMeansSpared(t: Tables, changes: seq<Change>, id: Causetid, p: nat)
    requires Inverse(t) && Describes(t, changes) && NamesAreFree(t, changes)
    requires id in t.names && !Mentioned(changes, id) && p < |changes|
    ensures !Touches(changes[p], t.names[id])
  {
    var n := t.names[id];
    assert n in t.ids && t.ids[n] == id;
    if changes[p].before == Some(n) {
      HolderOf(t, changes, p, n);
    } else if changes[p].after == Some(n) {
      assert NameIsFree(t, changes, p);
      var r :| 0 <= r < p + 1 && changes[r].before == Some(n);
      HolderOf(t, changes, r, n);
    }
  }

  lemma GivenLastAndSparedMeansFree(t: Tables, changes: seq<Change>, p: nat)
    requires Inverse(t) && Describes(t, changes) && GivenLast(changes) && Spared(t, changes)
    requires p < |changes| && changes[p].after.Some?
    ensures NameIsFree(t, changes, p)
  {
    var n := changes[p].after.value;
    forall q | 0 <= q < |changes| && q != p ensures changes[q].after != Some(n) {
      assert q < p && changes[q].after == Some(n) ==> !Touches(changes[p], n);
    }
    if n in t.ids {
      var holder := t.ids[n];
      assert holder in t.names && t.names[holder] == n;
      assert Mentioned(changes, holder);
      var q :| 0 <= q < |changes| && changes[q].id == holder;
      assert changes[q].before == NameOf(t, holder);
      assert q > p ==> !Touches(changes[q], n);
    }
  }

  /** When changes start from present names, the condition reads: new names are pairwise distinct, and each
      is free when it is given. */
  lemma InverseIffNamesAreFree(t: Tables, changes: seq<Change>)
    requires Inverse(t) && Describes(t, changes)
    ensures Inverse(ApplyAll(t, changes)) <==> NamesAreFree(t, changes)
  {
    InverseIffGivenLastAndSpared(t, changes);
    if NamesAreFree(t, changes) {
      forall p, q | 0 <= p < q < |changes| && changes[p].after.Some?
        ensures !Touches(changes[q], changes[p].after.value)
      {
        FreeMeansGivenLast(t, changes, p, q);
      }
      forall id, p | id in t.names && !Mentioned(changes, id) && 0 <= p < |changes|
        ensures !Touches(changes[p], t.names[id])
      {
        FreeMeansSpared(t, changes, id, p);
      }
    } else if GivenLast(changes) && Spared(t, changes) {
      forall p | 0 <= p < |changes| && changes[p].after.Some? ensures NameIsFree(t, changes, p) {
        GivenLastAndSparedMeansFree(t, changes, p);
      }
    }
  }

  /** Swapping two names in one transaction loses one of them. */
  lemma SwapBreaksInverse(a: Keyword, b: Keyword)
    requires a != b
    ensures var t := Tables(map[1 := a, 2 := b], map[a := 1, b := 2]);
      var swap := Alterations([(1, (a, b)), (2, (b, a))]);
      Inverse(t) && Describes(t, swap) && !Inverse(ApplyAll(t, swap))
  {
    var t := Tables(map[1 := a, 2 := b], map[a := 1, b := 2]);
    var swap := Alterations([(1, (a, b)), (2, (b, a))]);
    assert swap == [Change(1, Some(a), Some(b)), Change(2, Some(b), Some(a))];
    InverseIffGivenLastAndSpared(t, swap);
    assert Touches(swap[1], b);
  }
}
