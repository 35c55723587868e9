/** Merging one raft command's puts into rows, key by key, and when the result does not depend on the
    order of the puts. */
module SinkRows {
  import opened Common
  import opened ChangeEvents

  /** A request of a raft command, its payload parsed. `OtherCommand` is anything but a put, `UnknownFamily`
      a put into a column family that does not exist. */
  datatype Request =
    | OtherCommand
    | WritePut(write: WriteRecord)
    | LockPut(lock: LockRecord)
    | DefaultPut(key: Bytes, value: Bytes)
    | UnknownFamily

  datatype Rows = Rows(rows: map<Bytes, EventRow>, size: nat)

  const NO_ROWS := Rows(map[], 0)

  /** What a request does once decoded. */
  datatype Effect =
    | Nothing
    | Insert(key: Bytes, row: EventRow)
    | Lock(key: Bytes, row: EventRow)
    | Default(key: Bytes, value: Bytes)
    | Panics

  function EffectOf(r: Request): Effect {
    match r
    case OtherCommand => Nothing
    case WritePut(w) => (match DecodeWrite(w) case None => Nothing case Some(row) => Insert(row.key, row))
    case LockPut(l) => (match DecodeLock(l) case None => Nothing case Some(row) => Lock(row.key, row))
    case DefaultPut(k, v) => Default(k, v)
    case UnknownFamily => Panics
  }

  predicate HasKey(e: Effect) {
    e.Insert? || e.Lock? || e.Default?
  }

  /** The row of the touched key afterwards; `None` is a failed assertion. */
  function NewRow(e: Effect, known: Option<EventRow>): Option<EventRow>
    requires HasKey(e)
  {
    match e
    case Insert(_, row) => if known.Some? then None else Some(row)
    case Lock(_, row) =>
      var value := known.GetOr(EMPTY_ROW).value;
      if value == "" then Some(row)
      else if row.value != "" then None
      else Some(row.(value := value))
    case Default(_, v) => Some(DecodeDefault(v, known.GetOr(EMPTY_ROW)))
  }

  function RowAt(rows: map<Bytes, EventRow>, k: Bytes): Option<EventRow> {
    if k in rows then Some(rows[k]) else None
  }

  /** One request merged into the rows; `None` is a failed assertion or the panic on an unknown family. */
  function Merge(s: Rows, r: Request): Option<Rows> {
    var e := EffectOf(r);
    if e.Nothing? then Some(s)
    else if e.Panics? then None
    else match NewRow(e, RowAt(s.rows, e.key))
         case None => None
         case Some(row) => Some(Rows(s.rows[e.key := row], s.size + if e.Default? then |row.value| else 0))
  }

  /** The next request after those merged so far; a failure is final. */
  function MergeNext(s: Option<Rows>, x: Request): Option<Rows> {
    if s.Some? then Merge(s.value, x) else None
  }

  function MergeAll(s: Option<Rows>, reqs: seq<Request>): Option<Rows>
    decreases |reqs|
  {
    if reqs == [] then s else MergeAll(MergeNext(s, reqs[0]), reqs[1..])
  }

  function RowsOf(reqs: seq<Request>): Option<Rows> {
    MergeAll(Some(NO_ROWS), reqs)
  }

  // ------------------------------------------------------------- order independence

  /** The two requests can come in either order. */
  ghost predicate Agree(x: Request, y: Request) {
    match (EffectOf(x), EffectOf(y))
    case (Nothing, _) => true
    case (_, Nothing) => true
    case (Panics, _) => false
    case (_, Panics) => false
    case (Lock(k, a), Lock(k2, b)) =>
      k == k2 ==> a.(value := "") == b.(value := "") && (a.value == "" || b.value == "")
    case (Lock(k, a), Default(k2, _)) => k == k2 ==> a.value == ""
    case (Default(k2, _), Lock(k, a)) => k == k2 ==> a.value == ""
    case (Default(k, v), Default(k2, v2)) => k == k2 ==> v == v2
    case (a, b) => a.key != b.key
  }

  /** No unknown family, and any two requests agree: per key a write stands alone; locks describe the same
      lock with at most one short value, and none beside a default; defaults carry the same value. */
  ghost predicate Compatible(m: multiset<Request>) {
    && (forall x :: x in m ==> EffectOf(x) != Panics)
    && (forall x, y :: x in m && y in m && (x != y || m[x] >= 2) ==> Agree(x, y))
  }

  ghost predicate SameRequests(xs: seq<Request>, ys: seq<Request>) {
    multiset(xs) == multiset(ys)
  }

  lemma UpdatesCommute<K, V>(m: map<K, V>, k: K, v: V, k2: K, v2: V)
    requires k != k2
    ensures m[k := v][k2 := v2] == m[k2 := v2][k := v]
  { }

  lemma Overwrite(m: map<Bytes, EventRow>, k: Bytes, v: Option<EventRow>, w: Option<EventRow>)
    ensures v.Some? ==> RowAt(m[k := v.value], k) == v
    ensures v.Some? && w.Some? ==> m[k := v.value][k := w.value] == m[k := w.value]
  { }

  lemma AgreeingCommute(s: Option<Rows>, x: Request, y: Request)
    requires Agree(x, y)
    ensures MergeNext(MergeNext(s, x), y) == MergeNext(MergeNext(s, y), x)
  {
    var ex, ey := EffectOf(x), EffectOf(y);
    if s.Some? && HasKey(ex) && HasKey(ey) {
      if ex.key != ey.key {
        OtherKeysCommute(s.value, x, y);
      } else {
        SameKeysCommute(s.value, x, y);
      }
    }
  }

  lemma OtherKeysCommute(s: Rows, x: Request, y: Request)
    requires HasKey(EffectOf(x)) && HasKey(EffectOf(y)) && EffectOf(x).key != EffectOf(y).key
    ensures MergeNext(Merge(s, x), y) == MergeNext(Merge(s, y), x)
  {
    var ex, ey := EffectOf(x), EffectOf(y);
    var rx, ry := NewRow(ex, RowAt(s.rows, ex.key)), NewRow(ey, RowAt(s.rows, ey.key));
    MergeAfterOther(s, x, y);
    MergeAfterOther(s, y, x);
    if rx.Some? && ry.Some? {
      UpdatesCommute(s.rows, ex.key, rx.value, ey.key, ry.value);
    }
  }

  /** The second of two requests finds its row untouched by the first. */
  lemma MergeAfterOther(s: Rows, x: Request, y: Request)
    requires HasKey(EffectOf(x)) && HasKey(EffectOf(y)) && EffectOf(x).key != EffectOf(y).key
    ensures var ex, ey := EffectOf(x), EffectOf(y);
      var rx, ry := NewRow(ex, RowAt(s.rows, ex.key)), NewRow(ey, RowAt(s.rows, ey.key));
      MergeNext(Merge(s, x), y) ==
      if rx.None? || ry.None? then None
      else Some(Rows(s.rows[ex.key := rx.value][ey.key := ry.value],
                     s.size + (if ex.Default? then |rx.value.value| else 0) + if ey.Default? then |ry.value.value| else 0))
  {
    OtherRowStays(s.rows, EffectOf(x).key, NewRow(EffectOf(x), RowAt(s.rows, EffectOf(x).key)), EffectOf(y).key);
  }

  lemma OtherRowStays(rows: map<Bytes, EventRow>, k: Bytes, row: Option<EventRow>, k2: Bytes)
    requires k != k2
    ensures row.Some? ==> RowAt(rows[k := row.value], k2) == RowAt(rows, k2)
  { }

  lemma SameKeysCommute(s: Rows, x: Request, y: Request)
    requires Agree(x, y) && HasKey(EffectOf(x)) && HasKey(EffectOf(y)) && EffectOf(x).key == EffectOf(y).key
    ensures MergeNext(Merge(s, x), y) == MergeNext(Merge(s, y), x)
  {
    var ex, ey := EffectOf(x), EffectOf(y);
    var known := RowAt(s.rows, ex.key);
    SameKeyCommute(ex, ey, known);
    var a, b := NewRow(ex, known), NewRow(ey, known);
    Overwrite(s.rows, ex.key, a, if a.Some? then NewRow(ey, a) else None);
    Overwrite(s.rows, ex.key, b, if b.Some? then NewRow(ex, b) else None);
  }

  lemma SameKeyCommute(ex: Effect, ey: Effect, known: Option<EventRow>)
    requires HasKey(ex) && HasKey(ey) && !ex.Insert? && !ey.Insert?
    requires ex.Lock? && ey.Lock? ==> ex.row.(value := "") == ey.row.(value := "") && (ex.row.value == "" || ey.row.value == "")
    requires ex.Lock? && ey.Default? ==> ex.row.value == ""
    requires ey.Lock? && ex.Default? ==> ey.row.value == ""
    requires ex.Default? && ey.Default? ==> ex.value == ey.value
    ensures var a, b := NewRow(ex, known), NewRow(ey, known);
      var ab := if a.Some? then NewRow(ey, a) else None;
      var ba := if b.Some? then NewRow(ex, b) else None;
      && ab == ba
      && (ab.Some? && ex.Default? && !ey.Default? ==> |a.value.value| == |ba.value.value|)
      && (ab.Some? && ey.Default? && !ex.Default? ==> |b.value.value| == |ab.value.value|)
  { }

  lemma {:induction false} MergeConcat(s: Option<Rows>, xs: seq<Request>, ys: seq<Request>)
    ensures MergeAll(s, xs + ys) == MergeAll(MergeAll(s, xs), ys)
    decreases |xs|
  {
    if xs == [] {
      assert xs + ys == ys;
    } else {
      assert (xs + ys)[1..] == xs[1..] + ys;
      MergeConcat(MergeNext(s, xs[0]), xs[1..], ys);
    }
  }

  lemma {:induction false} MoveToFront(s: Option<Rows>, pre: seq<Request>, x: Request)
    requires forall y :: y in pre ==> Agree(x, y)
    ensures MergeAll(s, pre + [x]) == MergeAll(MergeNext(s, x), pre)
    decreases |pre|
  {
    if pre == [] {
      assert pre + [x] == [x];
      assert [x][1..] == [];
    } else {
      assert (pre + [x])[1..] == pre[1..] + [x];
      MoveToFront(MergeNext(s, pre[0]), pre[1..], x);
      AgreeingCommute(s, x, pre[0]);
    }
  }

  lemma CompatibleSubset(m: multiset<Request>, n: multiset<Request>)
    requires Compatible(m) && n <= m
    ensures Compatible(n)
  { }

  lemma WithoutOne<T>(ys: seq<T>, i: nat)
    requires i < |ys|
    ensures ys == ys[..i] + [ys[i]] + ys[i + 1..]
    ensures multiset(ys) == multiset(ys[..i] + ys[i + 1..]) + multiset{ys[i]}
    ensures multiset(ys) == multiset(ys[..i]) + multiset{ys[i]} + multiset(ys[i + 1..])
  {
    assert ys == ys[..i] + [ys[i]] + ys[i + 1..];
    assert multiset(ys[..i] + ys[i + 1..]) == multiset(ys[..i]) + multiset(ys[i + 1..]);
  }

  /** Where the first request of one list stands in another list of the same requests. */
  lemma SplitAtFirst(xs: seq<Request>, ys: seq<Request>) returns (pre: seq<Request>, post: seq<Request>)
    requires SameRequests(xs, ys) && xs != []
    ensures ys == pre + [xs[0]] + post
    ensures SameRequests(xs[1..], pre + post) && multiset(xs[1..]) <= multiset(xs)
    ensures forall y :: y in pre ==> y in multiset(xs) && (y == xs[0] ==> multiset(xs)[y] >= 2)
  {
    var x, rest := xs[0], xs[1..];
    WithoutOne(xs, 0);
    assert xs[..0] + xs[1..] == rest;
    assert x in multiset(ys);
    var i :| 0 <= i < |ys| && ys[i] == x;
    WithoutOne(ys, i);
    pre, post := ys[..i], ys[i + 1..];
    Cancel(multiset(rest), multiset(pre + post), x);
    forall y | y in pre ensures y in multiset(ys) && (y == x ==> multiset(ys)[y] >= 2) {
      CountsTwice(pre, x, post, y);
    }
  }

  lemma Cancel<T>(a: multiset<T>, b: multiset<T>, x: T)
    requires a + multiset{x} == b + multiset{x}
    ensures a == b && a <= a + multiset{x}
  {
    assert a == a + multiset{x} - multiset{x} && b == b + multiset{x} - multiset{x};
  }

  lemma CountsTwice<T>(pre: seq<T>, x: T, post: seq<T>, y: T)
    requires y in pre
    ensures var m := multiset(pre) + multiset{x} + multiset(post); y in m && (y == x ==> m[y] >= 2)
  {
    assert y in multiset(pre);
  }

  lemma {:induction false} PermutationsMergeAlike(s: Option<Rows>, xs: seq<Request>, ys: seq<Request>)
    requires SameRequests(xs, ys) && Compatible(multiset(xs))
    ensures MergeAll(s, xs) == MergeAll(s, ys)
    decreases |xs|
  {
    if xs == [] {
      assert |ys| == |multiset(ys)| == |multiset(xs)| == 0;
    } else {
      var x := xs[0];
      var pre, post := SplitAtFirst(xs, ys);
      MoveToFront(s, pre, x);
      MergeConcat(s, pre + [x], post);
      MergeConcat(MergeNext(s, x), pre, post);
      CompatibleSubset(multiset(xs), multiset(xs[1..]));
      PermutationsMergeAlike(MergeNext(s, x), xs[1..], pre + post);
    }
  }

  /** What has been merged so far accounts for every row, and for every row with a value. */
  ghost predicate Explained(s: Rows, done: multiset<Request>) {
    forall k :: k in s.rows ==>
      && (exists x :: x in done && Touches(x, k))
      && (s.rows[k].value != "" ==> exists x :: x in done && Touches(x, k) && GivesValue(x))
  }

  ghost predicate Touches(x: Request, k: Bytes) {
    !EffectOf(x).Nothing? && !EffectOf(x).Panics? && EffectOf(x).key == k
  }

  ghost predicate GivesValue(x: Request) {
    match EffectOf(x)
    case Insert(_, row) => row.value != ""
    case Lock(_, row) => row.value != ""
    case Default(_, v) => v != ""
    case _ => false
  }

  lemma MergeExplained(s: Rows, done: multiset<Request>, x: Request)
    requires Explained(s, done) && Compatible(done + multiset{x})
    ensures Merge(s, x).Some? && Explained(Merge(s, x).value, done + multiset{x})
  {
    var m := done + multiset{x};
    forall y | y in done ensures Agree(x, y) {
      assert y in m && (y == x ==> m[x] >= 2);
    }
    assert x in m;
    NextMerges(s, done, x);
    if HasKey(EffectOf(x)) {
      forall k | k in Merge(s, x).value.rows
        ensures (exists y :: y in m && Touches(y, k)) &&
          (Merge(s, x).value.rows[k].value != "" ==> exists y :: y in m && Touches(y, k) && GivesValue(y))
      {
        RowExplained(s, done, x, k);
      }
    }
  }

  lemma NextMerges(s: Rows, done: multiset<Request>, x: Request)
    requires Explained(s, done) && EffectOf(x) != Panics && forall y :: y in done ==> Agree(x, y)
    ensures Merge(s, x).Some?
  {
    if HasKey(EffectOf(x)) && EffectOf(x).key in s.rows {
      assert exists y :: y in done && Touches(y, EffectOf(x).key);
    }
  }

  lemma RowExplained(s: Rows, done: multiset<Request>, x: Request, k: Bytes)
    requires Explained(s, done) && HasKey(EffectOf(x)) && Merge(s, x).Some? && k in Merge(s, x).value.rows
    ensures exists y :: y in done + multiset{x} && Touches(y, k)
    ensures Merge(s, x).value.rows[k].value != "" ==> exists y :: y in done + multiset{x} && Touches(y, k) && GivesValue(y)
  {
    assert x in done + multiset{x};
    if k in s.rows {
      var y :| y in done && Touches(y, k);
      assert y in done + multiset{x};
      if s.rows[k].value != "" {
        var z :| z in done && Touches(z, k) && GivesValue(z);
        assert z in done + multiset{x};
      }
    }
  }

  lemma {:induction false} CompatibleMergeSucceeds(s: Rows, done: multiset<Request>, reqs: seq<Request>)
    requires Explained(s, done) && Compatible(done + multiset(reqs))
    ensures MergeAll(Some(s), reqs).Some?
    decreases |reqs|
  {
    if reqs != [] {
      assert reqs == [reqs[0]] + reqs[1..];
      var next := done + multiset{reqs[0]};
      assert done + multiset(reqs) == next + multiset(reqs[1..]);
      CompatibleSubset(done + multiset(reqs), next);
      MergeExplained(s, done, reqs[0]);
      CompatibleMergeSucceeds(Merge(s, reqs[0]).value, next, reqs[1..]);
    }
  }

  // ------------------------------------------------------------- necessity

  /** Every order of the requests succeeds, with the same rows and size. */
  ghost predicate OrderIndependent(reqs: seq<Request>) {
    forall ys :: SameRequests(reqs, ys) ==> RowsOf(ys).Some? && RowsOf(ys) == RowsOf(reqs)
  }

  lemma {:induction false} PanicIsFinal(reqs: seq<Request>)
    ensures MergeAll(None, reqs) == None
  {
    if reqs != [] {
      PanicIsFinal(reqs[1..]);
    }
  }

  /** Two states with the same rows stay apart by the same size. */
  lemma {:induction false} SizesStayApart(s: Rows, t: Rows, reqs: seq<Request>)
    requires s.rows == t.rows && s.size != t.size
    ensures MergeAll(Some(s), reqs).Some? ==> MergeAll(Some(s), reqs) != MergeAll(Some(t), reqs)
    decreases |reqs|
  {
    if reqs != [] {
      if Merge(s, reqs[0]).Some? {
        SizesStayApart(Merge(s, reqs[0]).value, Merge(t, reqs[0]).value, reqs[1..]);
      } else {
        PanicIsFinal(reqs[1..]);
      }
    }
  }

  lemma MergeTwo(s: Option<Rows>, x: Request, y: Request)
    ensures MergeAll(s, [x, y]) == MergeNext(MergeNext(s, x), y)
  {
    assert [x, y][1..] == [y] && [y][1..] == [];
    assert MergeAll(s, [x, y]) == MergeAll(MergeNext(s, x), [y]);
  }

  /** Put first, the two requests either panic in one order, or leave the same rows with different sizes;
      put last, they leave different rows. */
  lemma DisagreeingPairShows(s: Option<Rows>, x: Request, y: Request)
    requires !Agree(x, y) && EffectOf(x) != Panics && EffectOf(y) != Panics
    ensures var a, b := MergeNext(MergeNext(Some(NO_ROWS), x), y), MergeNext(MergeNext(Some(NO_ROWS), y), x);
      || a.None? || b.None?
      || (a.value.rows == b.value.rows && a.value.size != b.value.size)
      || (var c, d := MergeNext(MergeNext(s, x), y), MergeNext(MergeNext(s, y), x); c.None? || d.None? || c != d)
  {
    var ex, ey := EffectOf(x), EffectOf(y);
    if ex.Insert? || ey.Insert? {
    } else if ex.Lock? && ey.Lock? {
      LocksShow(s, x, y);
    } else if ex.Lock? {
      LockAndDefaultShow(x, y);
    } else if ey.Lock? {
      LockAndDefaultShow(y, x);
    } else {
      DefaultsShow(s, x, y);
    }
  }

  lemma LocksShow(s: Option<Rows>, x: Request, y: Request)
    requires EffectOf(x).Lock? && EffectOf(y).Lock? && !Agree(x, y)
    ensures var a := MergeNext(MergeNext(Some(NO_ROWS), x), y);
      a.None? || (var c, d := MergeNext(MergeNext(s, x), y), MergeNext(MergeNext(s, y), x); c.None? || d.None? || c != d)
  {
    var c, d := MergeNext(MergeNext(s, x), y), MergeNext(MergeNext(s, y), x);
    var k, a, b := EffectOf(x).key, EffectOf(x).row, EffectOf(y).row;
    if c.Some? && d.Some? {
      assert c.value.rows[k].(value := "") == b.(value := "");
      assert d.value.rows[k].(value := "") == a.(value := "");
    }
  }

  lemma LockAndDefaultShow(x: Request, y: Request)
    requires EffectOf(x).Lock? && EffectOf(y).Default? && !Agree(x, y)
    ensures var a, b := MergeNext(MergeNext(Some(NO_ROWS), x), y), MergeNext(MergeNext(Some(NO_ROWS), y), x);
      b.None? || (a.Some? && a.value.rows == b.value.rows && a.value.size != b.value.size)
  { }

  lemma DefaultsShow(s: Option<Rows>, x: Request, y: Request)
    requires EffectOf(x).Default? && EffectOf(y).Default? && !Agree(x, y)
    ensures var a, b := MergeNext(MergeNext(Some(NO_ROWS), x), y), MergeNext(MergeNext(Some(NO_ROWS), y), x);
      || (a.Some? && b.Some? && a.value.rows == b.value.rows && a.value.size != b.value.size)
      || (var c, d := MergeNext(MergeNext(s, x), y), MergeNext(MergeNext(s, y), x); c.None? || d.None? || c != d)
  {
    var k := EffectOf(x).key;
    var c, d := MergeNext(MergeNext(s, x), y), MergeNext(MergeNext(s, y), x);
    if EffectOf(x).value != "" && EffectOf(y).value != "" && s.Some? {
      assert c.value.rows[k].value != d.value.rows[k].value;
    }
  }

  lemma TakeOut(reqs: seq<Request>, x: Request) returns (rest: seq<Request>)
    requires x in multiset(reqs)
    ensures multiset(rest) + multiset{x} == multiset(reqs)
  {
    var i :| 0 <= i < |reqs| && reqs[i] == x;
    rest := reqs[..i] + reqs[i + 1..];
    assert reqs == reqs[..i] + [x] + reqs[i + 1..];
  }

  lemma PairFirst(x: Request, y: Request, rest: seq<Request>)
    ensures RowsOf([x, y] + rest) == MergeAll(MergeNext(MergeNext(Some(NO_ROWS), x), y), rest)
  {
    MergeConcat(Some(NO_ROWS), [x, y], rest);
    MergeTwo(Some(NO_ROWS), x, y);
  }

  lemma PairLast(x: Request, y: Request, rest: seq<Request>)
    ensures RowsOf(rest + [x, y]) == MergeNext(MergeNext(RowsOf(rest), x), y)
  {
    MergeConcat(Some(NO_ROWS), rest, [x, y]);
    MergeTwo(RowsOf(rest), x, y);
  }

  lemma FourOrders(reqs: seq<Request>, x: Request, y: Request) returns (rest: seq<Request>)
    requires x in multiset(reqs) && y in multiset(reqs) && (x != y || multiset(reqs)[x] >= 2)
    ensures SameRequests(reqs, [x, y] + rest) && SameRequests(reqs, [y, x] + rest)
    ensures SameRequests(reqs, rest + [x, y]) && SameRequests(reqs, rest + [y, x])
  {
    var others := TakeOut(reqs, x);
    rest := TakeOut(others, y);
  }

  lemma DisagreementShows(reqs: seq<Request>, x: Request, y: Request)
    requires x in multiset(reqs) && y in multiset(reqs) && (x != y || multiset(reqs)[x] >= 2) && !Agree(x, y)
    requires EffectOf(x) != Panics && EffectOf(y) != Panics
    ensures !OrderIndependent(reqs)
  {
    var rest := FourOrders(reqs, x, y);
    PairFirst(x, y, rest);
    PairFirst(y, x, rest);
    PairLast(x, y, rest);
    PairLast(y, x, rest);
    DisagreeingPairShows(RowsOf(rest), x, y);
    PanicIsFinal(rest);
    var a, b := MergeNext(MergeNext(Some(NO_ROWS), x), y), MergeNext(MergeNext(Some(NO_ROWS), y), x);
    if a.None? || b.None? {
      DifferentOutcomes(reqs, if a.None? then [x, y] + rest else [y, x] + rest, [x, y] + rest);
    } else if a.value.rows == b.value.rows && a.value.size != b.value.size {
      SizesStayApart(a.value, b.value, rest);
      DifferentOutcomes(reqs, [x, y] + rest, [y, x] + rest);
    } else {
      var c := RowsOf(rest + [x, y]);
      DifferentOutcomes(reqs, if c.None? then rest + [x, y] else rest + [y, x], rest + [x, y]);
    }
  }

  lemma DifferentOutcomes(reqs: seq<Request>, ys: seq<Request>, zs: seq<Request>)
    requires SameRequests(reqs, ys) && SameRequests(reqs, zs)
    requires RowsOf(ys).None? || RowsOf(ys) != RowsOf(zs)
    ensures !OrderIndependent(reqs)
  { }

  lemma {:induction false} UnknownFamilyPanics(s: Option<Rows>, reqs: seq<Request>, i: nat)
    requires i < |reqs| && EffectOf(reqs[i]) == Panics
    ensures MergeAll(s, reqs) == None
    decreases |reqs|
  {
    if i == 0 {
      PanicIsFinal(reqs[1..]);
    } else {
      UnknownFamilyPanics(MergeNext(s, reqs[0]), reqs[1..], i - 1);
    }
  }

  /** The rows and the total size are the same for every order of the requests, and no assertion ever
      trips, if and only if the requests are compatible. */
  lemma OrderIndependentIffCompatible(reqs: seq<Request>)
    ensures OrderIndependent(reqs) <==> Compatible(multiset(reqs))
  {
    var m := multiset(reqs);
    if Compatible(m) {
      assert multiset{} + m == m;
      CompatibleMergeSucceeds(NO_ROWS, multiset{}, reqs);
      forall ys | SameRequests(reqs, ys) ensures RowsOf(ys).Some? && RowsOf(ys) == RowsOf(reqs) {
        PermutationsMergeAlike(Some(NO_ROWS), reqs, ys);
      }
    } else if x :| x in m && EffectOf(x) == Panics {
      var i :| 0 <= i < |reqs| && reqs[i] == x;
      UnknownFamilyPanics(Some(NO_ROWS), reqs, i);
      assert SameRequests(reqs, reqs);
    } else {
      var x, y :| x in m && y in m && (x != y || m[x] >= 2) && !Agree(x, y);
      DisagreementShows(reqs, x, y);
    }
  }
}
