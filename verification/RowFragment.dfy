/** Rows of dynamic tables as a binary YSON list fragment, and back. */
module RowFragment {
  import opened Text
  import opened Yson
  import opened YsonCodec
  import opened YsonRoundTrip
  import opened YsonFaithful
  import Utf8

  datatype Cell =
    | Null
    | I64(int64: int)
    | U64(uint64: nat)
    | F64(bits: Bytes)
    | Bool(flag: bool)
    | Text(bytes: Bytes)
    | Any(yson: Bytes)

  /** A column as the fragment spells it, and as the client has it. */
  datatype Column = Column(name: Bytes, cell: Cell)

  datatype Named = Named(name: string, cell: Cell)

  type Row = seq<Column>

  type NamedRow = seq<Named>

  function Spelled(row: NamedRow): (r: Row)
    ensures |r| == |row| && forall i :: 0 <= i < |r| ==> r[i] == Column(Utf8.Encode(row[i].name), row[i].cell)
  {
    seq(|row|, i requires 0 <= i < |row| => Column(Utf8.Encode(row[i].name), row[i].cell))
  }

  function SpelledAll(rows: seq<NamedRow>): (r: seq<Row>)
    ensures |r| == |rows| && forall i :: 0 <= i < |r| ==> r[i] == Spelled(rows[i])
  {
    seq(|rows|, i requires 0 <= i < |rows| => Spelled(rows[i]))
  }

  /** How the bytes of a name are shown: lossily, where they are not text. */
  type Lossy = Bytes -> string

  function Shown(row: Row, lossy: Lossy): (r: NamedRow)
    ensures |r| == |row| && forall i :: 0 <= i < |r| ==> r[i] == Named(lossy(row[i].name), row[i].cell)
  {
    seq(|row|, i requires 0 <= i < |row| => Named(lossy(row[i].name), row[i].cell))
  }

  function ShownAnswer(row: Option<Row>, lossy: Lossy): Option<NamedRow> {
    match row case Some(columns) => Some(Shown(columns, lossy)) case None => None
  }

  function ShownAll(rows: seq<Option<Row>>, lossy: Lossy): (r: seq<Option<NamedRow>>)
    ensures |r| == |rows| && forall i :: 0 <= i < |r| ==> r[i] == ShownAnswer(rows[i], lossy)
  {
    seq(|rows|, i requires 0 <= i < |rows| => ShownAnswer(rows[i], lossy))
  }

  // ---------------------------------------------------------------- writing rows

  /** `value_to_yson`; `text` is the text parser, which only an `Any` cell reaches. */
  function CellToYson(cell: Cell, text: Bytes -> Option<Value>): Option<Value> {
    match cell
    case Null => Some(Value(Absent, Entity))
    case I64(i) => Some(Value(Absent, Int64(i)))
    case U64(u) => Some(Value(Absent, Uint64(u)))
    case F64(bits) => Some(Value(Absent, Double(bits)))
    case Bool(flag) => Some(Value(Absent, Boolean(flag)))
    case Text(bytes) => Some(Value(Absent, String(bytes)))
    case Any(yson) => if FromSlice(yson).Some? then FromSlice(yson) else text(yson)
  }

  /** The dict of a row's columns: a later column of the same name replaces an earlier one. */
  function RowEntries(row: Row, text: Bytes -> Option<Value>): Option<Entries> {
    if row == [] then Some([])
    else
      var last := row[|row| - 1];
      match (RowEntries(row[..|row| - 1], text), CellToYson(last.cell, text))
      case (Some(entries), Some(v)) => Some(Insert(entries, last.name, v))
      case _ => None
  }

  function RowToYson(row: Row, text: Bytes -> Option<Value>): Option<Value> {
    match RowEntries(row, text)
    case Some(entries) => Some(Value(Absent, Map(entries)))
    case None => None
  }

  function Fragment(values: seq<Value>): Bytes {
    if values == [] then [] else Fragment(values[..|values| - 1]) + EncodeValue(values[|values| - 1]) + [0x3B]
  }

  function RowValues(rows: seq<Row>, text: Bytes -> Option<Value>): (r: Option<seq<Value>>)
    ensures r.Some? ==> |r.value| == |rows|
  {
    if rows == [] then Some([])
    else
      match (RowValues(rows[..|rows| - 1], text), RowToYson(rows[|rows| - 1], text))
      case (Some(values), Some(v)) => Some(values + [v])
      case _ => None
  }

  /** `rows_to_fragment`. */
  method RowsToFragment(rows: seq<NamedRow>, text: Bytes -> Option<Value>) returns (r: Option<Bytes>)
    ensures r == match RowValues(SpelledAll(rows), text) case Some(values) => Some(Fragment(values)) case None => None
  {
    ghost var spelled := SpelledAll(rows);
    var buffer: Bytes := [];
    ghost var values := [];
    for i := 0 to |rows|
      invariant RowValues(spelled[..i], text) == Some(values) && buffer == Fragment(values)
    {
      assert spelled[..i + 1][..i] == spelled[..i];
      var value := RowToYson(Spelled(rows[i]), text);
      if value.None? {
        NoneLater(spelled, i + 1, text);
        return None;
      }
      buffer := buffer + EncodeValue(value.value) + [0x3B];
      assert (values + [value.value])[..|values|] == values;
      values := values + [value.value];
    }
    assert spelled[..|spelled|] == spelled;
    return Some(buffer);
  }

  lemma {:induction false} NoneLater(rows: seq<Row>, n: nat, text: Bytes -> Option<Value>)
    requires n <= |rows| && RowValues(rows[..n], text).None?
    ensures RowValues(rows, text).None?
    decreases |rows|
  {
    if n == |rows| {
      assert rows[..n] == rows;
    } else {
      var front := rows[..|rows| - 1];
      assert front[..n] == rows[..n];
      NoneLater(front, n, text);
    }
  }

  // ---------------------------------------------------------------- reading rows

  predicate IsSeparator(byte: Byte) {
    byte in {0x09, 0x0A, 0x0C, 0x0D, 0x20, 0x3B}
  }

  function SkipSeparators(input: Bytes): (r: Bytes)
    ensures |r| <= |input|
    ensures r != [] ==> !IsSeparator(r[0])
  {
    if input != [] && IsSeparator(input[0]) then SkipSeparators(input[1..]) else input
  }

  function YsonToCell(v: Value): Cell {
    match v.node
    case Entity => Null
    case Int64(i) => I64(i)
    case Uint64(u) => U64(u)
    case Double(bits) => F64(bits)
    case Boolean(flag) => Bool(flag)
    case String(bytes) => Text(bytes)
    case _ => Any(EncodeValue(v))
  }

  function EntriesToRow(entries: Entries): (r: Row)
    ensures |r| == |entries|
    ensures forall i :: 0 <= i < |r| ==> r[i] == Column(entries[i].key, YsonToCell(entries[i].value))
  {
    seq(|entries|, i requires 0 <= i < |entries| => Column(entries[i].key, YsonToCell(entries[i].value)))
  }

  /** `yson_to_row`: a null row for an entity, and an empty one for what is not a row. */
  function YsonToRow(v: Value): Option<Row> {
    match v.node
    case Entity => None
    case Map(entries) => Some(EntriesToRow(entries))
    case _ => Some([])
  }

  /** The first value of a fragment and what stands behind it. */
  function FirstValue(input: Bytes): (r: Parsed<Value>)
    ensures r.Done? ==> |r.rest| < |input|
  {
    match ScanTree(input, 0)
    case Complete(rest) => AsParsed(FromSlice(input[..|input| - |rest|]), rest)
    case _ => Fail
  }

  /** The rows a fragment stands for, or nothing when it is not one. */
  function FragmentRows(body: Bytes): Option<seq<Option<Row>>>
    decreases |body|
  {
    var rest := SkipSeparators(body);
    if rest == [] then Some([])
    else
      match FirstValue(rest)
      case Fail => None
      case Done(v, after) =>
        match FragmentRows(after)
        case Some(rows) => Some([YsonToRow(v)] + rows)
        case None => None
  }

  function Prepend(rows: seq<Option<Row>>, more: Option<seq<Option<Row>>>): Option<seq<Option<Row>>> {
    match more case Some(rest) => Some(rows + rest) case None => None
  }

  /** `yson_to_row`. */
  method ReadRow(v: Value, lossy: Lossy) returns (r: Option<NamedRow>)
    ensures r == ShownAnswer(YsonToRow(v), lossy)
  {
    match v.node {
      case Entity =>
        return None;
      case Map(entries) =>
        var row: NamedRow := [];
        for i := 0 to |entries|
          invariant row == Shown(EntriesToRow(entries[..i]), lossy)
        {
          row := row + [Named(lossy(entries[i].key), YsonToCell(entries[i].value))];
        }
        assert entries[..|entries|] == entries;
        return Some(row);
      case _ =>
        return Some([]);
    }
  }

  function AllShown(rows: Option<seq<Option<Row>>>, lossy: Lossy): Option<seq<Option<NamedRow>>> {
    match rows case Some(answers) => Some(ShownAll(answers, lossy)) case None => None
  }

  /** `fragment_to_rows`. */
  method FragmentToRows(body: Bytes, lossy: Lossy) returns (r: Option<seq<Option<NamedRow>>>)
    ensures r == AllShown(FragmentRows(body), lossy)
  {
    hide FirstValue, YsonToRow, ShownAnswer;
    ghost var read: seq<Option<Row>> := [];
    var rows: seq<Option<NamedRow>> := [];
    var rest := body;
    PrependNothing(FragmentRows(body));
    while true
      invariant FragmentRows(body) == Prepend(read, FragmentRows(rest)) && rows == ShownAll(read, lossy)
      decreases |rest|
    {
      ghost var before := rest;
      while rest != [] && IsSeparator(rest[0])
        invariant FragmentRows(body) == Prepend(read, FragmentRows(rest))
        invariant |rest| <= |before|
        decreases |rest|
      {
        SkipOne(rest);
        rest := rest[1..];
      }
      if rest == [] {
        break;
      }
      var first := FirstValue(rest);
      FirstRow(rest);
      if first.Fail? {
        return None;
      }
      PrependMore(read, YsonToRow(first.value), FragmentRows(first.rest));
      var row := ReadRow(first.value, lossy);
      rows := rows + [row];
      read := read + [YsonToRow(first.value)];
      rest := first.rest;
    }
    assert read + [] == read;
    return Some(rows);
  }

  lemma PrependNothing(more: Option<seq<Option<Row>>>)
    ensures Prepend([], more) == more
  {
    if more.Some? { assert [] + more.value == more.value; }
  }

  lemma PrependMore(rows: seq<Option<Row>>, row: Option<Row>, more: Option<seq<Option<Row>>>)
    ensures Prepend(rows + [row], more) == Prepend(rows, Prepend([row], more))
  {
    if more.Some? { assert (rows + [row]) + more.value == rows + ([row] + more.value); }
  }

  lemma SkipOne(body: Bytes)
    requires body != [] && IsSeparator(body[0])
    ensures FragmentRows(body) == FragmentRows(body[1..])
  {
    hide FirstValue;
  }

  lemma FirstRow(body: Bytes)
    requires body != [] && !IsSeparator(body[0])
    ensures var first := FirstValue(body);
      FragmentRows(body) == if first.Fail? then None else Prepend([YsonToRow(first.value)], FragmentRows(first.rest))
  {
    hide FirstValue, YsonToRow;
  }

  // ---------------------------------------------------------------- cutting a fragment

  lemma {:induction false} SkipSeparatorsStable(input: Bytes, more: Bytes)
    requires SkipSeparators(input) != []
    ensures SkipSeparators(input + more) == SkipSeparators(input) + more
  {
    if IsSeparator(input[0]) {
      assert (input + more)[1..] == input[1..] + more;
      SkipSeparatorsStable(input[1..], more);
    }
  }

  lemma FirstValueStable(input: Bytes, more: Bytes)
    requires FirstValue(input).Done?
    ensures FirstValue(input + more) == Done(FirstValue(input).value, FirstValue(input).rest + more)
  {
    hide FromSlice, ScanTree;
    ScanTreeStable(input, 0, more);
    var rest := ScanTree(input, 0).rest;
    assert (input + more)[..|input + more| - |rest + more|] == input[..|input| - |rest|];
  }

  /** A fragment cut anywhere is refused, or read as the rows it began with: no cut ever changes,
      drops or invents a row. */
  lemma {:induction false} CutIsPrefix(cut: Bytes, more: Bytes)
    ensures FragmentRows(cut).Some? && FragmentRows(cut + more).Some? ==>
      FragmentRows(cut).value <= FragmentRows(cut + more).value
    decreases |cut|
  {
    hide FirstValue, YsonToRow;
    var rest := SkipSeparators(cut);
    if rest != [] {
      SkipSeparatorsStable(cut, more);
      var first := FirstValue(rest);
      if first.Done? {
        FirstValueStable(rest, more);
        CutIsPrefix(first.rest, more);
        assert rest + more != [];
      }
    }
  }
}
