/** Columns of integers that are decoded on demand, and the proof that their binary output does not betray
    whether they were. */
module Columns {
  import opened Common
  import opened Payloads
  import opened Datums

  // ------------------------------------------------------------- integer cells

  /** A cell read as a column value: unsigned integers are kept as the signed integer of the same bits, and
      bytes after the datum are not looked at. */
  function DecodeIntDatum(cell: Payloads.Bytes): Result<Option<i64>, Failure> {
    if cell == [] then Err(Malformed)
    else
      var flag, payload := cell[0], cell[1..];
      if flag == NIL_FLAG then Ok(None)
      else if flag == INT_FLAG then Signed(ReadI64(payload))
      else if flag == UINT_FLAG then Unsigned(ReadU64(payload))
      else if flag == VAR_INT_FLAG then Signed(ReadVarI64(payload))
      else if flag == VAR_UINT_FLAG then Unsigned(ReadVarU64(payload))
      else Err(Malformed)
  }

  function Signed(r: Reading<i64>): Result<Option<i64>, Failure> {
    match r case None => Err(Malformed) case Some((v, _)) => Ok(Some(v))
  }

  function Unsigned(r: Reading<u64>): Result<Option<i64>, Failure> {
    match r case None => Err(Malformed) case Some((u, _)) => Ok(Some(AsI64(u)))
  }

  /** The datum written for a column value. */
  function CellDatum(v: Option<i64>, isUnsigned: bool): Datum {
    match v
    case None => Null
    case Some(i) => if isUnsigned then U64(AsU64(i)) else I64(i)
  }

  lemma WrittenCellDecodes(v: Option<i64>, isUnsigned: bool)
    ensures var cell := EncodedDatum(CellDatum(v, isUnsigned), true);
      IntCell(cell) && DecodeIntDatum(cell) == Ok(v)
  {
    var d := CellDatum(v, isUnsigned);
    var cell := EncodedDatum(d, true);
    assert cell + [] == cell;
    ReadUndoesWrite(d, true, []);
    if v.Some? {
      if isUnsigned {
        assert cell[1..] == EncodeU64(d.u) && EncodeU64(d.u) + [] == EncodeU64(d.u);
        U64RoundTrip(d.u, []);
      } else {
        assert cell[1..] == EncodeI64(d.i) && EncodeI64(d.i) + [] == EncodeI64(d.i);
        I64RoundTrip(d.i, []);
      }
    }
  }

  /** The signed integer of the same bits. */
  function SameBits(u: u64): int {
    if (u as int) < TWO_63 then u else (u as int) - TWO_64
  }

  /** What a column keeps of a datum; `None` if it is not of an integer type. */
  function ColumnValue(d: AnyDatum): Option<Option<int>> {
    match d
    case Null => Some(None)
    case I64(i) => Some(Some(i))
    case U64(u) => Some(Some(SameBits(u)))
    case _ => None
  }

  /** A cell decodes to what the datum reader makes of it, in either format, and fails exactly if it is no
      integer or null there. */
  lemma DecodesWhatIsRead(cell: Payloads.Bytes)
    ensures DecodeIntDatum(cell).Ok? <==> ReadDatum(cell).Ok? && ColumnValue(ReadDatum(cell).value.0).Some?
    ensures DecodeIntDatum(cell).Ok? ==> ColumnValue(ReadDatum(cell).value.0) == Some(DecodeIntDatum(cell).value)
  {
    if cell != [] {
      var flag, payload := cell[0], cell[1..];
      if flag == NIL_FLAG || flag == INT_FLAG || flag == UINT_FLAG {
        assert ReadDatum(cell) == ReadPayload(flag, payload);
      } else if flag == VAR_INT_FLAG || flag == VAR_UINT_FLAG {
        assert ReadDatum(cell) == ReadPayload(flag, payload);
      } else {
        OtherFlagsHoldNoInteger(flag, payload);
      }
    }
  }

  lemma OtherFlagsHoldNoInteger(flag: byte, payload: Payloads.Bytes)
    requires !IntFlag(flag)
    ensures var r := ReadPayload(flag, payload); r.Ok? ==> r.value.0.Bytes? || r.value.0.Dur?
  { }

  /** So every written integer or null, in either format, decodes to its value, whatever follows it. */
  lemma EncodedIntegerDecodes(d: Datum, comparable: bool, rest: Payloads.Bytes)
    requires ColumnValue(d).Some?
    ensures var r := DecodeIntDatum(EncodedDatum(d, comparable) + rest); r.Ok? && Some(r.value) == ColumnValue(d)
  {
    ReadUndoesWrite(d, comparable, rest);
    DecodesWhatIsRead(EncodedDatum(d, comparable) + rest);
  }

  /** A column of unsigned integers is written as unsigned datums of the same bits, any other as signed ones. */
  lemma WrittenCellReads(v: Option<i64>, isUnsigned: bool, rest: Payloads.Bytes)
    ensures var r := ReadDatum(EncodedDatum(CellDatum(v, isUnsigned), true) + rest);
      r.Ok? && r.value.1 == rest && ColumnValue(r.value.0) == Some(v) &&
      (v.Some? ==> if isUnsigned then r.value.0.U64? else r.value.0.I64?)
  {
    ReadUndoesWrite(CellDatum(v, isUnsigned), true, rest);
  }

  predicate IntFlag(flag: byte) {
    flag == NIL_FLAG || flag == INT_FLAG || flag == UINT_FLAG || flag == VAR_INT_FLAG || flag == VAR_UINT_FLAG
  }

  /** Exactly one datum of an integer type, or null. */
  predicate IntCell(cell: Payloads.Bytes) {
    cell != [] && IntFlag(cell[0]) && ReadDatum(cell).Ok? && ReadDatum(cell).value.1 == []
  }

  lemma {:induction false} VarLenIgnoresRest(buf: Payloads.Bytes, k: nat, rest: Payloads.Bytes)
    requires ReadVar(buf, k).Some?
    ensures FirstVarLen(buf + rest, k) == FirstVarLen(buf, k)
    decreases k
  {
    if buf[0] >= 128 {
      VarLenIgnoresRest(buf[1..], k - 1, rest);
      assert (buf + rest)[1..] == buf[1..] + rest;
    }
  }

  lemma IntCellSplits(cell: Payloads.Bytes, rest: Payloads.Bytes)
    requires IntCell(cell)
    ensures SplitDatum(cell + rest) == Ok((cell, rest))
  {
    var flag, payload := cell[0], cell[1..];
    assert cell == [flag] + payload;
    PayloadLengthAgrees(flag, payload);
    if flag == VAR_INT_FLAG || flag == VAR_UINT_FLAG {
      VarLenIgnoresRest(payload, MAX_VARINT64_LENGTH, rest);
    }
    SplitFlagged(flag, payload, rest);
  }

  lemma IntCellDecodes(cell: Payloads.Bytes)
    requires IntCell(cell)
    ensures DecodeIntDatum(cell).Ok?
  { }

  // ------------------------------------------------------------- one column

  datatype Repr = Raw(cells: seq<Payloads.Bytes>) | Decoded(values: seq<Option<i64>>) {
    function Len(): nat {
      match this
      case Raw(cells) => |cells|
      case Decoded(values) => |values|
    }

    function Truncated(len: nat): Repr {
      if len >= Len() then this
      else match this
           case Raw(cells) => Raw(cells[..len])
           case Decoded(values) => Decoded(values[..len])
    }
  }

  /** The bytes a column contributes for one row. */
  function CellOf(c: Repr, row: nat, isUnsigned: bool): Payloads.Bytes
    requires row < c.Len()
  {
    match c
    case Raw(cells) => cells[row]
    case Decoded(values) => EncodedDatum(CellDatum(values[row], isUnsigned), true)
  }

  predicate InRange(rows: seq<nat>, len: nat) {
    forall k :: 0 <= k < |rows| ==> rows[k] < len
  }

  predicate AllDecode(cells: seq<Payloads.Bytes>, rows: seq<nat>)
    requires InRange(rows, |cells|)
  {
    forall k :: 0 <= k < |rows| ==> DecodeIntDatum(cells[rows[k]]).Ok?
  }

  /** Rows that were not asked for become nulls. */
  function DecodedValue(cells: seq<Payloads.Bytes>, rows: seq<nat>, row: nat): Option<i64>
    requires row < |cells| && InRange(rows, |cells|) && AllDecode(cells, rows)
  {
    if row in rows then DecodeIntDatum(cells[row]).value else None
  }

  /** A column after it was asked to decode some rows. */
  function AfterDecoding(c: Repr, rows: seq<nat>): Result<Repr, Failure>
    requires InRange(rows, c.Len())
  {
    if c.Decoded? then Ok(c)
    else if !AllDecode(c.cells, rows) then Err(Malformed)
    else Ok(Decoded(seq(|c.cells|, row requires 0 <= row < |c.cells| => DecodedValue(c.cells, rows, row))))
  }

  /** Cutting a column keeps the cells before the cut. */
  lemma TruncatedKeepsCells(c: Repr, len: nat, row: nat, isUnsigned: bool)
    requires row < len && row < c.Len()
    ensures c.Truncated(len).Len() == if len < c.Len() then len else c.Len()
    ensures CellOf(c.Truncated(len), row, isUnsigned) == CellOf(c, row, isUnsigned)
  { }

  class QuiesceBatchColumn {
    var repr: Repr

    constructor (repr: Repr)
      ensures this.repr == repr
    {
      this.repr := repr;
    }

    /** A cell that does not decode leaves the column as it was. */
    method EnsureDecoded(rows: seq<nat>) returns (ok: bool)
      requires InRange(rows, repr.Len())
      modifies this
      ensures ok <==> AfterDecoding(old(repr), rows).Ok?
      ensures repr == if ok then AfterDecoding(old(repr), rows).value else old(repr)
    {
      if repr.Decoded? {
        return true;
      }
      var cells := repr.cells;
      var values: seq<Option<i64>> := [];
      for i := 0 to |cells|
        invariant |values| == i && forall k :: 0 <= k < i ==> values[k] == None
      {
        values := values + [None];
      }
      for i := 0 to |rows|
        invariant |values| == |cells| && repr == old(repr)
        invariant AllDecode(cells, rows[..i])
        invariant forall k :: 0 <= k < |cells| ==> values[k] == DecodedValue(cells, rows[..i], k)
      {
        match DecodeIntDatum(cells[rows[i]]) {
          case Err(_) =>
            return false;
          case Ok(v) =>
            assert rows[..i + 1] == rows[..i] + [rows[i]];
            values := values[rows[i] := v];
        }
      }
      assert rows[..|rows|] == rows;
      repr := Decoded(values);
      return true;
    }

    method Encode(row: nat, isUnsigned: bool, output: Buffer)
      requires row < repr.Len()
      modifies output
      ensures output.data == old(output.data) + CellOf(repr, row, isUnsigned)
    {
      match repr {
        case Raw(cells) => output.Write(cells[row]);
        case Decoded(values) =>
          match values[row] {
            case None => output.Write([NIL_FLAG]);
            case Some(v) =>
              if isUnsigned {
                output.WriteFlagged(UINT_FLAG, EncodeU64(AsU64(v)));
              } else {
                output.WriteFlagged(INT_FLAG, EncodeI64(v));
              }
          }
      }
    }

    method Truncate(len: nat)
      modifies this
      ensures repr == old(repr).Truncated(len)
    {
      match repr {
        case Raw(cells) =>
          if len < |cells| {
            repr := Raw(cells[..len]);
          }
        case Decoded(values) =>
          if len < |values| {
            repr := Decoded(values[..len]);
          }
      }
    }
  }

  // ------------------------------------------------------------- a table

  /** Columns chosen for output exist, and every column has a signedness. */
  predicate Shaped(table: seq<Repr>, offsets: seq<nat>, isUnsigned: seq<bool>) {
    |isUnsigned| == |table| && InRange(offsets, |table|)
  }

  predicate RowFits(table: seq<Repr>, row: nat, offsets: seq<nat>)
    requires InRange(offsets, |table|)
  {
    forall j :: 0 <= j < |offsets| ==> row < table[offsets[j]].Len()
  }

  predicate Fits(table: seq<Repr>, rows: seq<nat>, offsets: seq<nat>, isUnsigned: seq<bool>) {
    Shaped(table, offsets, isUnsigned) && forall i :: 0 <= i < |rows| ==> RowFits(table, rows[i], offsets)
  }

  function RowCells(table: seq<Repr>, row: nat, offsets: seq<nat>, isUnsigned: seq<bool>): (r: seq<Payloads.Bytes>)
    requires Shaped(table, offsets, isUnsigned) && RowFits(table, row, offsets)
    ensures |r| == |offsets|
  {
    seq(|offsets|, j requires 0 <= j < |offsets| => CellIn(table, row, offsets[j], isUnsigned))
  }

  function CellIn(table: seq<Repr>, row: nat, offset: nat, isUnsigned: seq<bool>): Payloads.Bytes
    requires offset < |table| == |isUnsigned| && row < table[offset].Len()
  {
    CellOf(table[offset], row, isUnsigned[offset])
  }

  /** The output cell by cell: row after row, and in a row column after column. */
  function Cells(table: seq<Repr>, rows: seq<nat>, offsets: seq<nat>, isUnsigned: seq<bool>): (r: seq<Payloads.Bytes>)
    requires Fits(table, rows, offsets, isUnsigned)
    ensures |r| == |rows| * |offsets|
    decreases |rows|
  {
    if rows == [] then []
    else
      var n := |rows| - 1;
      FitsPrefix(table, rows, offsets, isUnsigned, n);
      Cells(table, rows[..n], offsets, isUnsigned) + RowCells(table, rows[n], offsets, isUnsigned)
  }

  lemma FitsPrefix(table: seq<Repr>, rows: seq<nat>, offsets: seq<nat>, isUnsigned: seq<bool>, n: nat)
    requires Fits(table, rows, offsets, isUnsigned) && n <= |rows|
    ensures Fits(table, rows[..n], offsets, isUnsigned)
    ensures n < |rows| ==> RowFits(table, rows[n], offsets) && rows[..n + 1][..n] == rows[..n]
  { }

  /** The cell of a row and a column follows the cells of all rows before it and of the columns before it. */
  lemma {:induction false} CellAt(table: seq<Repr>, rows: seq<nat>, offsets: seq<nat>, isUnsigned: seq<bool>,
                                   i: nat, j: nat)
    requires Fits(table, rows, offsets, isUnsigned) && i < |rows| && j < |offsets|
    ensures Fits(table, rows[..i], offsets, isUnsigned) && RowFits(table, rows[i], offsets)
    ensures var before := |Cells(table, rows[..i], offsets, isUnsigned)|;
      && before + j < |Cells(table, rows, offsets, isUnsigned)|
      && Cells(table, rows, offsets, isUnsigned)[before + j] == CellIn(table, rows[i], offsets[j], isUnsigned)
    decreases |rows|
  {
    var n := |rows| - 1;
    FitsPrefix(table, rows, offsets, isUnsigned, i);
    FitsPrefix(table, rows, offsets, isUnsigned, n);
    var front, row := Cells(table, rows[..n], offsets, isUnsigned), RowCells(table, rows[n], offsets, isUnsigned);
    assert Cells(table, rows, offsets, isUnsigned) == front + row;
    if i < n {
      CellAt(table, rows[..n], offsets, isUnsigned, i, j);
      assert rows[..n][..i] == rows[..i] && rows[..n][i] == rows[i];
    }
  }

  function Flatten(cells: seq<Payloads.Bytes>): Payloads.Bytes {
    if cells == [] then [] else Flatten(cells[..|cells| - 1]) + cells[|cells| - 1]
  }

  lemma FlattenOneMore(cells: seq<Payloads.Bytes>, j: nat, start: Payloads.Bytes)
    requires j < |cells|
    ensures start + Flatten(cells[..j]) + cells[j] == start + Flatten(cells[..j + 1])
  {
    assert cells[..j + 1][..j] == cells[..j];
  }

  lemma FlattenSnoc(cells: seq<Payloads.Bytes>, cell: Payloads.Bytes)
    ensures Flatten(cells + [cell]) == Flatten(cells) + cell
  {
    assert (cells + [cell])[..|cells|] == cells;
  }

  lemma {:induction false} FlattenConcat(xs: seq<Payloads.Bytes>, ys: seq<Payloads.Bytes>)
    ensures Flatten(xs + ys) == Flatten(xs) + Flatten(ys)
    decreases |ys|
  {
    if ys == [] {
      assert xs + ys == xs;
    } else {
      var front, last := ys[..|ys| - 1], ys[|ys| - 1];
      FlattenConcat(xs, front);
      FlattenSnoc(xs + front, last);
      assert xs + ys == xs + front + [last];
      Associative(Flatten(xs), Flatten(front), last);
    }
  }

  lemma CellsOneMore(table: seq<Repr>, rows: seq<nat>, offsets: seq<nat>, isUnsigned: seq<bool>, n: nat,
                     start: Payloads.Bytes)
    requires Fits(table, rows, offsets, isUnsigned) && n < |rows|
    ensures Fits(table, rows[..n], offsets, isUnsigned) && Fits(table, rows[..n + 1], offsets, isUnsigned)
    ensures RowFits(table, rows[n], offsets)
    ensures start + Flatten(Cells(table, rows[..n + 1], offsets, isUnsigned)) ==
            start + Flatten(Cells(table, rows[..n], offsets, isUnsigned)) + Flatten(RowCells(table, rows[n], offsets, isUnsigned))
  {
    FitsPrefix(table, rows, offsets, isUnsigned, n);
    FitsPrefix(table, rows, offsets, isUnsigned, n + 1);
    FlattenConcat(Cells(table, rows[..n], offsets, isUnsigned), RowCells(table, rows[n], offsets, isUnsigned));
  }

  class QuiesceBatchColumnVec {
    var columns: seq<QuiesceBatchColumn>

    constructor (columns: seq<QuiesceBatchColumn>)
      ensures this.columns == columns
    {
      this.columns := columns;
    }

    /** The table owns its columns. */
    ghost predicate Valid()
      reads this
    {
      forall i, j :: 0 <= i < j < |columns| ==> columns[i] != columns[j]
    }

    ghost function Table(): (r: seq<Repr>)
      reads this, columns
      ensures |r| == |columns|
    {
      seq(|columns|, i requires 0 <= i < |columns| reads this, columns => columns[i].repr)
    }

    method Encode(rows: seq<nat>, offsets: seq<nat>, isUnsigned: seq<bool>, output: Buffer)
      requires Fits(Table(), rows, offsets, isUnsigned)
      modifies output
      ensures output.data == old(output.data) + Flatten(Cells(Table(), rows, offsets, isUnsigned))
    {
      ghost var start, table := output.data, Table();
      for i := 0 to |rows|
        invariant Table() == table && Fits(table, rows[..i], offsets, isUnsigned)
        invariant output.data == start + Flatten(Cells(table, rows[..i], offsets, isUnsigned))
      {
        CellsOneMore(table, rows, offsets, isUnsigned, i, start);
        EncodeRow(rows[i], offsets, isUnsigned, output);
      }
      assert rows[..|rows|] == rows;
    }

    /** The inner loop. */
    method EncodeRow(row: nat, offsets: seq<nat>, isUnsigned: seq<bool>, output: Buffer)
      requires Shaped(Table(), offsets, isUnsigned) && RowFits(Table(), row, offsets)
      modifies output
      ensures output.data == old(output.data) + Flatten(RowCells(Table(), row, offsets, isUnsigned))
    {
      ghost var start, table := output.data, Table();
      ghost var cells := RowCells(table, row, offsets, isUnsigned);
      for j := 0 to |offsets|
        invariant Table() == table && output.data == start + Flatten(cells[..j])
      {
        FlattenOneMore(cells, j, start);
        assert cells[j] == CellIn(table, row, offsets[j], isUnsigned) && table[offsets[j]] == columns[offsets[j]].repr;
        columns[offsets[j]].Encode(row, isUnsigned[offsets[j]], output);
      }
      assert cells[..|cells|] == cells;
    }

    method ShortestLength() returns (minLen: nat)
      ensures minLen == MinLen(Table())
    {
      ghost var table := Table();
      minLen := if columns == [] then 0 else columns[0].repr.Len();
      for i := 0 to |columns|
        invariant i == 0 ==> minLen == if columns == [] then 0 else table[0].Len()
        invariant i > 0 ==> minLen == MinLen(table[..i])
      {
        MinLenOneMore(table, i);
        assert table[i] == columns[i].repr;
        if columns[i].repr.Len() < minLen {
          minLen := columns[i].repr.Len();
        }
      }
      assert table[..|columns|] == table == Table();
    }

    /** `assert_columns_equal_length`. */
    method HaveEqualLength() returns (ok: bool)
      ensures ok <==> forall i :: 0 <= i < |columns| ==> columns[i].repr.Len() == columns[0].repr.Len()
    {
      for i := 0 to |columns|
        invariant forall k :: 0 <= k < i ==> columns[k].repr.Len() == columns[0].repr.Len()
      {
        if columns[i].repr.Len() != columns[0].repr.Len() {
          return false;
        }
      }
      return true;
    }

    /** Every column is cut to the length of the shortest, and the closing assertion never fails. */
    method TruncateIntoEqualLength() returns (ok: bool)
      requires Valid()
      modifies columns
      ensures ok
      ensures forall i :: 0 <= i < |columns| ==>
        columns[i].repr == old(columns[i].repr).Truncated(MinLen(old(Table()))) &&
        columns[i].repr.Len() == MinLen(old(Table()))
    {
      var minLen := ShortestLength();
      forall i | 0 <= i < |columns| ensures minLen <= columns[i].repr.Len() {
        MinLenIsLeast(Table());
        assert Table()[i] == columns[i].repr;
      }
      TruncateAll(columns, minLen);
      ok := HaveEqualLength();
    }
  }

  method TruncateAll(columns: seq<QuiesceBatchColumn>, len: nat)
    requires forall i, j :: 0 <= i < j < |columns| ==> columns[i] != columns[j]
    modifies columns
    ensures forall i :: 0 <= i < |columns| ==> columns[i].repr == old(columns[i].repr).Truncated(len)
  {
    for i := 0 to |columns|
      invariant forall k :: 0 <= k < i ==> columns[k].repr == old(columns[k].repr).Truncated(len)
      invariant forall k :: i <= k < |columns| ==> columns[k].repr == old(columns[k].repr)
    {
      columns[i].Truncate(len);
    }
  }

  function MinLen(table: seq<Repr>): nat {
    if table == [] then 0
    else if |table| == 1 then table[0].Len()
    else
      var least, len := MinLen(table[..|table| - 1]), table[|table| - 1].Len();
      if len < least then len else least
  }

  lemma MinLenOneMore(table: seq<Repr>, i: nat)
    requires i < |table|
    ensures MinLen(table[..i + 1]) ==
            if i > 0 && MinLen(table[..i]) < table[i].Len() then MinLen(table[..i]) else table[i].Len()
  {
    assert table[..i + 1][..i] == table[..i];
  }

  lemma {:induction false} MinLenIsLeast(table: seq<Repr>)
    ensures forall i :: 0 <= i < |table| ==> MinLen(table) <= table[i].Len()
    ensures table != [] ==> exists i :: 0 <= i < |table| && table[i].Len() == MinLen(table)
    decreases |table|
  {
    if |table| == 1 {
      assert table[0].Len() == MinLen(table);
    } else if |table| > 1 {
      var front := table[..|table| - 1];
      MinLenIsLeast(front);
      var i :| 0 <= i < |front| && front[i].Len() == MinLen(front);
      assert table[i].Len() == MinLen(front);
      assert table[|table| - 1].Len() == MinLen(table) || table[i].Len() == MinLen(table);
    }
  }

  // ------------------------------------------------------------- reading the output back

  function SplitAll(buf: Payloads.Bytes): Result<seq<Payloads.Bytes>, Failure>
    decreases |buf|
  {
    if buf == [] then Ok([])
    else match SplitDatum(buf)
         case Err(e) => Err(e)
         case Ok((cell, rest)) =>
           if |rest| >= |buf| then Err(Malformed)
           else match SplitAll(rest)
                case Err(e) => Err(e)
                case Ok(cells) => Ok([cell] + cells)
  }

  predicate AllIntCells(cells: seq<Payloads.Bytes>) {
    forall k :: 0 <= k < |cells| ==> IntCell(cells[k])
  }

  lemma FlattenFront(cells: seq<Payloads.Bytes>)
    requires cells != []
    ensures Flatten(cells) == cells[0] + Flatten(cells[1..])
  {
    assert cells == [cells[0]] + cells[1..];
    FlattenConcat([cells[0]], cells[1..]);
    FlattenOne(cells[0]);
  }

  lemma FlattenOne(cell: Payloads.Bytes)
    ensures Flatten([cell]) == cell
  {
    var none: seq<Payloads.Bytes>, empty: Payloads.Bytes := [], [];
    assert [cell][..0] == none && empty + cell == cell;
  }

  /** Cell boundaries can be recovered from the bytes. */
  lemma {:induction false} OutputSplitsBack(cells: seq<Payloads.Bytes>)
    requires AllIntCells(cells)
    ensures SplitAll(Flatten(cells)) == Ok(cells)
  {
    if cells != [] {
      FlattenFront(cells);
      IntCellSplits(cells[0], Flatten(cells[1..]));
      OutputSplitsBack(cells[1..]);
      assert cells == [cells[0]] + cells[1..];
    }
  }

  // ------------------------------------------------------------- lazy decoding is unobservable

  /** Column by column, `after` is `before` itself, or `before` asked to decode the rows of `asked`. */
  predicate Prepared(before: seq<Repr>, after: seq<Repr>, asked: seq<Option<seq<nat>>>) {
    && |before| == |after| == |asked|
    && forall c :: 0 <= c < |before| ==> PreparedColumn(before[c], after[c], asked[c])
  }

  predicate PreparedColumn(before: Repr, after: Repr, asked: Option<seq<nat>>) {
    match asked
    case None => after == before
    case Some(rows) => InRange(rows, before.Len()) && AfterDecoding(before, rows) == Ok(after)
  }

  /** A row a column was not asked to decode loses its value, unless that was null anyway. */
  predicate Kept(before: Repr, asked: Option<seq<nat>>, row: nat)
    requires row < before.Len()
  {
    before.Decoded? || asked.None? || row in asked.value || DecodeIntDatum(before.cells[row]) == Ok(None)
  }

  lemma PreparedCell(before: Repr, after: Repr, asked: Option<seq<nat>>, row: nat, isUnsigned: bool)
    requires PreparedColumn(before, after, asked) && row < before.Len() && IntCell(CellOf(before, row, isUnsigned))
    ensures after.Len() == before.Len() && IntCell(CellOf(after, row, isUnsigned))
    ensures DecodeIntDatum(CellOf(after, row, isUnsigned)) == DecodeIntDatum(CellOf(before, row, isUnsigned))
            <==> Kept(before, asked, row)
  {
    if asked.Some? && before.Raw? {
      WrittenCellDecodes(after.values[row], isUnsigned);
      IntCellDecodes(before.cells[row]);
    }
  }

  lemma PreparedFits(before: seq<Repr>, after: seq<Repr>, asked: seq<Option<seq<nat>>>,
                     rows: seq<nat>, offsets: seq<nat>, isUnsigned: seq<bool>)
    requires Prepared(before, after, asked) && Fits(before, rows, offsets, isUnsigned)
    ensures Fits(after, rows, offsets, isUnsigned)
  {
    forall i, j | 0 <= i < |rows| && 0 <= j < |offsets| ensures rows[i] < after[offsets[j]].Len() {
      assert RowFits(before, rows[i], offsets);
      assert PreparedColumn(before[offsets[j]], after[offsets[j]], asked[offsets[j]]);
    }
  }

  /** Cell by cell the same column values. */
  predicate SameValues(a: seq<Payloads.Bytes>, b: seq<Payloads.Bytes>) {
    |a| == |b| && forall k :: 0 <= k < |a| ==> DecodeIntDatum(b[k]) == DecodeIntDatum(a[k])
  }

  lemma SameValuesConcat(a: seq<Payloads.Bytes>, b: seq<Payloads.Bytes>, c: seq<Payloads.Bytes>, d: seq<Payloads.Bytes>)
    requires |a| == |b| && |c| == |d|
    ensures SameValues(a + c, b + d) <==> SameValues(a, b) && SameValues(c, d)
  {
    if SameValues(a + c, b + d) {
      assert forall k :: 0 <= k < |a| ==> a[k] == (a + c)[k] && b[k] == (b + d)[k];
      assert forall k :: 0 <= k < |c| ==> c[k] == (a + c)[|a| + k] && d[k] == (b + d)[|b| + k];
    }
  }

  predicate KeptRow(before: seq<Repr>, asked: seq<Option<seq<nat>>>, offsets: seq<nat>, row: nat)
    requires |asked| == |before| && InRange(offsets, |before|) && RowFits(before, row, offsets)
  {
    forall j :: 0 <= j < |offsets| ==> Kept(before[offsets[j]], asked[offsets[j]], row)
  }

  lemma PreparedRow(before: seq<Repr>, after: seq<Repr>, asked: seq<Option<seq<nat>>>,
                    row: nat, offsets: seq<nat>, isUnsigned: seq<bool>)
    requires Prepared(before, after, asked)
    requires Shaped(before, offsets, isUnsigned) && RowFits(before, row, offsets)
    requires Shaped(after, offsets, isUnsigned) && RowFits(after, row, offsets)
    requires AllIntCells(RowCells(before, row, offsets, isUnsigned))
    ensures var a, b := RowCells(before, row, offsets, isUnsigned), RowCells(after, row, offsets, isUnsigned);
      AllIntCells(b) && (SameValues(a, b) <==> KeptRow(before, asked, offsets, row))
  {
    var a, b := RowCells(before, row, offsets, isUnsigned), RowCells(after, row, offsets, isUnsigned);
    forall j | 0 <= j < |offsets|
      ensures IntCell(b[j])
      ensures DecodeIntDatum(b[j]) == DecodeIntDatum(a[j]) <==> Kept(before[offsets[j]], asked[offsets[j]], row)
    {
      var offset := offsets[j];
      assert IntCell(a[j]) && PreparedColumn(before[offset], after[offset], asked[offset]);
      PreparedCell(before[offset], after[offset], asked[offset], row, isUnsigned[offset]);
    }
  }

  predicate KeptRows(before: seq<Repr>, asked: seq<Option<seq<nat>>>, rows: seq<nat>, offsets: seq<nat>,
                     isUnsigned: seq<bool>)
    requires |asked| == |before| && Fits(before, rows, offsets, isUnsigned)
  {
    forall i :: 0 <= i < |rows| ==> KeptRow(before, asked, offsets, rows[i])
  }

  lemma {:induction false} PreparedRows(before: seq<Repr>, after: seq<Repr>, asked: seq<Option<seq<nat>>>,
                                        rows: seq<nat>, offsets: seq<nat>, isUnsigned: seq<bool>)
    requires Prepared(before, after, asked)
    requires Fits(before, rows, offsets, isUnsigned) && Fits(after, rows, offsets, isUnsigned)
    requires AllIntCells(Cells(before, rows, offsets, isUnsigned))
    ensures var a, b := Cells(before, rows, offsets, isUnsigned), Cells(after, rows, offsets, isUnsigned);
      AllIntCells(b) && (SameValues(a, b) <==> KeptRows(before, asked, rows, offsets, isUnsigned))
    decreases |rows|
  {
    if rows != [] {
      var n := |rows| - 1;
      FitsPrefix(before, rows, offsets, isUnsigned, n);
      FitsPrefix(after, rows, offsets, isUnsigned, n);
      var a, c := Cells(before, rows[..n], offsets, isUnsigned), RowCells(before, rows[n], offsets, isUnsigned);
      var b, d := Cells(after, rows[..n], offsets, isUnsigned), RowCells(after, rows[n], offsets, isUnsigned);
      IntCellsOfParts(a, c);
      PreparedRow(before, after, asked, rows[n], offsets, isUnsigned);
      PreparedRows(before, after, asked, rows[..n], offsets, isUnsigned);
      SameValuesConcat(a, b, c, d);
      IntCellsTogether(b, d);
      KeptRowsOneMore(before, asked, rows, offsets, isUnsigned);
    }
  }

  lemma KeptRowsOneMore(before: seq<Repr>, asked: seq<Option<seq<nat>>>, rows: seq<nat>, offsets: seq<nat>,
                        isUnsigned: seq<bool>)
    requires |asked| == |before| && Fits(before, rows, offsets, isUnsigned) && rows != []
    ensures Fits(before, rows[..|rows| - 1], offsets, isUnsigned) && RowFits(before, rows[|rows| - 1], offsets)
    ensures KeptRows(before, asked, rows, offsets, isUnsigned) <==>
            KeptRows(before, asked, rows[..|rows| - 1], offsets, isUnsigned) && KeptRow(before, asked, offsets, rows[|rows| - 1])
  {
    var n := |rows| - 1;
    FitsPrefix(before, rows, offsets, isUnsigned, n);
    forall i | 0 <= i < n
      ensures KeptRow(before, asked, offsets, rows[..n][i]) <==> KeptRow(before, asked, offsets, rows[i])
    {
      assert rows[..n][i] == rows[i];
    }
    KeptRowsSplit(before, asked, rows, offsets, isUnsigned, n);
  }

  lemma KeptRowsSplit(before: seq<Repr>, asked: seq<Option<seq<nat>>>, rows: seq<nat>, offsets: seq<nat>,
                      isUnsigned: seq<bool>, n: nat)
    requires |asked| == |before| && Fits(before, rows, offsets, isUnsigned) && n + 1 == |rows|
    ensures KeptRows(before, asked, rows, offsets, isUnsigned) <==>
            (forall i :: 0 <= i < n ==> KeptRow(before, asked, offsets, rows[i])) &&
            KeptRow(before, asked, offsets, rows[n])
  { }

  lemma IntCellsTogether(a: seq<Payloads.Bytes>, c: seq<Payloads.Bytes>)
    requires AllIntCells(a) && AllIntCells(c)
    ensures AllIntCells(a + c)
  { }

  lemma IntCellsOfParts(a: seq<Payloads.Bytes>, c: seq<Payloads.Bytes>)
    requires AllIntCells(a + c)
    ensures AllIntCells(a) && AllIntCells(c)
  {
    assert forall k :: 0 <= k < |a| ==> a[k] == (a + c)[k];
    assert forall k :: 0 <= k < |c| ==> c[k] == (a + c)[|a| + k];
  }

  /** The output splits into one cell for every row and column, and each of these reads the same as without
      any decoding, if and only if every column kept every output row. */
  lemma LazyDecodingIsUnobservable(before: seq<Repr>, after: seq<Repr>, asked: seq<Option<seq<nat>>>,
                                   rows: seq<nat>, offsets: seq<nat>, isUnsigned: seq<bool>)
    requires Prepared(before, after, asked)
    requires Fits(before, rows, offsets, isUnsigned) && AllIntCells(Cells(before, rows, offsets, isUnsigned))
    ensures Fits(after, rows, offsets, isUnsigned)
    ensures var a, b := Cells(before, rows, offsets, isUnsigned), Cells(after, rows, offsets, isUnsigned);
      && SplitAll(Flatten(a)) == Ok(a) && SplitAll(Flatten(b)) == Ok(b)
      && |a| == |b| == |rows| * |offsets|
      && (SameValues(a, b) <==> KeptRows(before, asked, rows, offsets, isUnsigned))
  {
    PreparedFits(before, after, asked, rows, offsets, isUnsigned);
    PreparedRows(before, after, asked, rows, offsets, isUnsigned);
    OutputSplitsBack(Cells(before, rows, offsets, isUnsigned));
    OutputSplitsBack(Cells(after, rows, offsets, isUnsigned));
  }
}
