/** Rows written as a fragment and read back: they come back exactly when no column carries a name
    that the YSON reader reserves for attributes. */
module RowRoundTrip {
  import opened Text
  import opened Yson
  import opened YsonCodec
  import opened YsonRoundTrip
  import opened YsonScan
  import opened YsonFaithful
  import opened RowFragment
  import Utf8

  // ---------------------------------------------------------------- reading a written fragment

  lemma {:induction false} FragmentCons(first: Value, rest: seq<Value>)
    ensures Fragment([first] + rest) == EncodeValue(first) + ([0x3B] + Fragment(rest))
  {
    hide EncodeValue;
    var whole := [first] + rest;
    if rest == [] {
      assert whole[..|whole| - 1] == [];
      assert [] + EncodeValue(first) + [0x3B] == EncodeValue(first) + ([0x3B] + []);
    } else {
      var front, last := rest[..|rest| - 1], rest[|rest| - 1];
      FragmentCons(first, front);
      assert whole[..|whole| - 1] == [first] + front;
      Regroup(EncodeValue(first), [0x3B] + Fragment(front), EncodeValue(last), [0x3B]);
      Regroup([0x3B], Fragment(front), EncodeValue(last), [0x3B]);
      assert Fragment(rest) == Fragment(front) + EncodeValue(last) + [0x3B];
    }
  }

  /** One answer per value, in order: the row of each value's normal form. */
  function AnswerRows(values: seq<Value>): Option<seq<Option<Row>>> {
    if values == [] then Some([])
    else
      match Norm(values[0], 0)
      case None => None
      case Some(v) => Prepend([YsonToRow(v)], AnswerRows(values[1..]))
  }

  lemma ReadFirst(v: Value, more: Bytes)
    requires WellFormed(v) && Fits(v, 0)
    ensures FirstValue(EncodeValue(v) + more) == AsParsed(Norm(v, 0), more)
    ensures EncodeValue(v) != [] && !IsSeparator(EncodeValue(v)[0])
  {
    ScanEncoded(v, 0, more);
    FromSliceOfToVec(v);
    hide ScanTree, FromSlice, Norm, EncodeValue, Fits, WellFormed;
    assert (EncodeValue(v) + more)[..|EncodeValue(v)|] == EncodeValue(v);
    OpeningByte(v);
  }

  lemma OpeningByte(v: Value)
    ensures EncodeValue(v) != [] && !IsSeparator(EncodeValue(v)[0])
  {
    hide EncodeNode;
    NodeMarker(v.node);
  }

  /** A fragment of any values at all is read as one answer per value, in order, a null row for
      each `#`; or refused when one of the values cannot be read back. */
  lemma {:induction false} FragmentReadsBack(values: seq<Value>)
    requires forall i :: 0 <= i < |values| ==> WellFormed(values[i]) && Fits(values[i], 0)
    ensures FragmentRows(Fragment(values)) == AnswerRows(values)
  {
    if values != [] {
      hide FirstValue, YsonToRow, Norm, EncodeValue, Fits, WellFormed, FragmentRows;
      var first, rest := values[0], values[1..];
      assert values == [first] + rest;
      FragmentReadsBack(rest);
      FragmentCons(first, rest);
      var tail := [0x3B] + Fragment(rest);
      ReadFirst(first, tail);
      FirstRow(EncodeValue(first) + tail);
      SkipOne(tail);
      assert tail[1..] == Fragment(rest);
    } else {
      hide FirstValue;
    }
  }

  // ---------------------------------------------------------------- the dict of a row

  lemma {:induction false} LessIsTotal(a: Bytes, b: Bytes)
    ensures a != b ==> Less(a, b) || Less(b, a)
  {
    if a != [] && b != [] && a[0] == b[0] && a != b {
      assert a == [a[0]] + a[1..] && b == [b[0]] + b[1..];
      LessIsTotal(a[1..], b[1..]);
    }
  }

  lemma {:induction false} LessIsTransitive(a: Bytes, b: Bytes, c: Bytes)
    requires Less(a, b) && Less(b, c)
    ensures Less(a, c)
  {
    if a != [] && a[0] == b[0] == c[0] { LessIsTransitive(a[1..], b[1..], c[1..]); }
  }

  predicate HasKey(entries: Entries, key: Bytes) {
    exists i :: 0 <= i < |entries| && entries[i].key == key
  }

  /** Inserting a new key keeps the order and adds the one entry. */
  lemma {:induction false} InsertNew(entries: Entries, key: Bytes, value: Value)
    requires Sorted(entries) && !HasKey(entries, key)
    ensures var r := Insert(entries, key, value);
      && Sorted(r)
      && (forall e :: e in r <==> e in entries || e == Entry(key, value))
      && |r| == |entries| + 1
      && (forall low :: (forall e :: e in entries ==> Less(low, e.key)) && Less(low, key) ==> forall e :: e in r ==> Less(low, e.key))
  {
    hide Less, Sorted;
    if entries == [] {
      OneIsSorted(Entry(key, value));
    } else if Less(key, entries[0].key) {
      SortedFrom(entries);
      assert entries == [entries[0]] + entries[1..];
      forall e | e in entries ensures Less(key, e.key) {
        if e != entries[0] { LessIsTransitive(key, entries[0].key, e.key); }
      }
      InFront(Entry(key, value), entries);
    } else {
      var first, rest := entries[0], entries[1..];
      assert entries == [first] + rest;
      SortedFrom(entries);
      forall i | 0 <= i < |rest| ensures rest[i].key != key { assert rest[i] == entries[i + 1]; }
      InsertNew(rest, key, value);
      LessIsTotal(key, first.key);
      InFront(first, Insert(rest, key, value));
    }
  }

  /** A sorted map goes on above its first key. */
  lemma SortedFrom(entries: Entries)
    requires Sorted(entries) && entries != []
    ensures Sorted(entries[1..]) && forall e :: e in entries[1..] ==> Less(entries[0].key, e.key)
  {
    hide Less;
    assert forall i :: 0 <= i < |entries[1..]| ==> entries[1..][i] == entries[i + 1];
  }

  lemma OneIsSorted(entry: Entry)
    ensures Sorted([entry])
  {
  }

  lemma InFront(first: Entry, entries: Entries)
    requires Sorted(entries) && forall e :: e in entries ==> Less(first.key, e.key)
    ensures Sorted([first] + entries)
  {
    hide Less;
    assert forall i :: 0 <= i < |entries| ==> entries[i] in entries;
  }

  predicate DistinctNames(row: Row) {
    forall i, j :: 0 <= i < j < |row| ==> row[i].name != row[j].name
  }

  /** A cell a client can hold, other than `Any`. */
  predicate PlainCell(cell: Cell) {
    match cell
    case I64(i) => -(Yson.I64 as int) <= i < Yson.I64
    case U64(u) => u < Yson.U64
    case F64(bits) => |bits| == 8
    case Text(bytes) => |bytes| < Yson.I64
    case Any(_) => false
    case _ => true
  }

  predicate PlainRow(row: Row) {
    && DistinctNames(row)
    && forall i :: 0 <= i < |row| ==> PlainCell(row[i].cell) && |row[i].name| < Yson.I64
  }

  function PlainValue(cell: Cell): Value
    requires PlainCell(cell)
  {
    match cell
    case I64(i) => Value(Absent, Int64(i))
    case U64(u) => Value(Absent, Uint64(u))
    case F64(bits) => Value(Absent, Double(bits))
    case Bool(flag) => Value(Absent, Boolean(flag))
    case Text(bytes) => Value(Absent, String(bytes))
    case _ => Value(Absent, Entity)
  }

  predicate ScalarEntries(entries: Entries) {
    forall i :: 0 <= i < |entries| ==>
      && |entries[i].key| < Yson.I64
      && entries[i].value.attributes == Absent && IsScalar(entries[i].value.node) && WellFormedNode(entries[i].value.node)
  }

  predicate SameColumns(a: Row, b: Row) {
    && (forall c :: c in a ==> c in b)
    && (forall c :: c in b ==> c in a)
  }

  /** The dict of a row holds its columns and nothing else, in key order. */
  lemma {:induction false} RowEntriesHoldTheRow(row: Row, text: Bytes -> Option<Value>)
    requires PlainRow(row)
    ensures RowEntries(row, text).Some?
    ensures var entries := RowEntries(row, text).value;
      && Sorted(entries) && ScalarEntries(entries)
      && (forall e :: e in entries <==> exists c :: c in row && e == Entry(c.name, PlainValue(c.cell)))
  {
    if row != [] {
      hide Insert, Sorted, WellFormedNode;
      var front, last := row[..|row| - 1], row[|row| - 1];
      assert row == front + [last];
      RowEntriesHoldTheRow(front, text);
      var entries := RowEntries(front, text).value;
      forall i | 0 <= i < |entries| ensures entries[i].key != last.name {
        assert entries[i] in entries;
      }
      PlainCellToYson(last.cell, text);
      InsertNew(entries, last.name, PlainValue(last.cell));
      InsertScalar(entries, last.name, last.cell);
      var r := RowEntries(row, text).value;
      forall e ensures e in r <==> exists c :: c in row && e == Entry(c.name, PlainValue(c.cell)) {
        if e in r && e !in entries { assert last in row; }
        if c :| c in row && e == Entry(c.name, PlainValue(c.cell)) { assert c in front || c == last; }
      }
    }
  }

  lemma PlainCellToYson(cell: Cell, text: Bytes -> Option<Value>)
    requires PlainCell(cell)
    ensures CellToYson(cell, text) == Some(PlainValue(cell)) && YsonToCell(PlainValue(cell)) == cell
  {
  }

  lemma InsertScalar(entries: Entries, key: Bytes, cell: Cell)
    requires ScalarEntries(entries) && PlainCell(cell) && |key| < Yson.I64
    requires forall e :: e in Insert(entries, key, PlainValue(cell)) ==> e in entries || e == Entry(key, PlainValue(cell))
    ensures ScalarEntries(Insert(entries, key, PlainValue(cell)))
  {
    hide Insert;
    var r := Insert(entries, key, PlainValue(cell));
    assert forall i :: 0 <= i < |r| ==> r[i] in r;
  }

  // ---------------------------------------------------------------- one row there and back

  lemma {:induction false} ScalarsAreEasy(entries: Entries, depth: nat)
    requires ScalarEntries(entries) && depth <= MAX_DEPTH
    ensures CleanEntries(entries, depth) && FitsEntries(entries, depth)
  {
    if entries != [] {
      assert forall i :: 0 <= i < |entries[1..]| ==> entries[1..][i] == entries[i + 1];
      ScalarsAreEasy(entries[1..], depth);
    }
  }

  lemma RowValueIsSound(entries: Entries)
    requires Sorted(entries) && ScalarEntries(entries)
    ensures var v := Value(Absent, Map(entries));
      WellFormed(v) && Fits(v, 0) && Norm(v, 0) == Build(entries)
  {
    ScalarsAreEasy(entries, 1);
    assert WellFormedEntries(entries);
    CleanEntriesAreNormal(entries, 1, []);
    PrefixNothing(entries);
    hide NormEntries, FitsEntries, Build, WellFormedEntries;
  }

  /** What a written row is answered with. */
  function RowAnswer(row: Row, text: Bytes -> Option<Value>): Option<Option<Row>>
    requires RowEntries(row, text).Some?
  {
    match Build(RowEntries(row, text).value)
    case Some(v) => Some(YsonToRow(v))
    case None => None
  }

  predicate HasReserved(row: Row) {
    exists i :: 0 <= i < |row| && Reserved(row[i].name)
  }

  /** A row without reserved names is answered with its own columns. */
  lemma OrdinaryRowComesBack(row: Row, text: Bytes -> Option<Value>)
    requires PlainRow(row) && !HasReserved(row)
    ensures RowEntries(row, text).Some?
    ensures var answer := RowAnswer(row, text);
      answer.Some? && answer.value.Some? && SameColumns(row, answer.value.value)
  {
    hide Reserved, RowEntries, Build, PlainValue;
    RowEntriesHoldTheRow(row, text);
    var entries := RowEntries(row, text).value;
    forall i | 0 <= i < |entries| ensures !Reserved(entries[i].key) {
      assert entries[i] in entries;
      var c :| c in row && entries[i] == Entry(c.name, PlainValue(c.cell));
      var j :| 0 <= j < |row| && row[j] == c;
    }
    BuildPlainMap(entries);
    ColumnsOfEntries(row, entries, text);
  }

  lemma ColumnsOfEntries(row: Row, entries: Entries, text: Bytes -> Option<Value>)
    requires PlainRow(row)
    requires forall e :: e in entries <==> exists c :: c in row && e == Entry(c.name, PlainValue(c.cell))
    ensures SameColumns(row, EntriesToRow(entries))
  {
    hide PlainValue, YsonToCell;
    var back := EntriesToRow(entries);
    forall c | c in row ensures c in back {
      PlainCellToYson(c.cell, text);
      var e := Entry(c.name, PlainValue(c.cell));
      assert e in entries;
      var i :| 0 <= i < |entries| && entries[i] == e;
      assert back[i] == c;
    }
    forall c | c in back ensures c in row {
      var i :| 0 <= i < |back| && back[i] == c;
      assert entries[i] in entries;
      var d :| d in row && entries[i] == Entry(d.name, PlainValue(d.cell));
      PlainCellToYson(d.cell, text);
    }
  }

  /** No answer to a written row ever has a column with a reserved name: such a column is lost,
      and sometimes the row, or the whole fragment, with it. */
  lemma ReservedColumnIsLost(row: Row, text: Bytes -> Option<Value>, i: nat)
    requires PlainRow(row) && i < |row| && Reserved(row[i].name)
    ensures RowEntries(row, text).Some?
    ensures var answer := RowAnswer(row, text);
      answer.Some? && answer.value.Some? ==> row[i] !in answer.value.value
  {
    hide Reserved, RowEntries, GatherAll, RowAnswer, PlainRow;
    AnswerColumns(row, text);
    PlainIsOrdinary(RowEntries(row, text).value);
  }

  /** The columns of an answer are the ordinary entries of the dict that was written, or none. */
  lemma AnswerColumns(row: Row, text: Bytes -> Option<Value>)
    requires PlainRow(row)
    ensures RowEntries(row, text).Some?
    ensures var answer := RowAnswer(row, text);
      answer.Some? && answer.value.Some? ==>
        answer.value.value == EntriesToRow(GatherAll(RowEntries(row, text).value).plain) || answer.value.value == []
  {
    hide Reserved, RowEntries, GatherAll, PlainValue, EntriesToRow;
    RowEntriesHoldTheRow(row, text);
    var entries := RowEntries(row, text).value;
    UnattributedHasNoBody(entries);
    var g := GatherAll(entries);
    if g.plain == [] && g.body.Some? {
      BodyComesFromAPair(entries);
      var k :| 0 <= k < |entries| && entries[k].key == VALUE_KEY && entries[k].value.node == g.body.value;
      assert IsScalar(g.body.value);
    }
  }

  // ---------------------------------------------------------------- whole fragments

  predicate ComesBack(rows: seq<Row>, answers: Option<seq<Option<Row>>>) {
    && answers.Some? && |answers.value| == |rows|
    && forall i :: 0 <= i < |rows| ==> answers.value[i].Some? && SameColumns(rows[i], answers.value[i].value)
  }

  /** The answers to a fragment of rows, row by row. */
  lemma {:induction false} AnswersByRow(rows: seq<Row>, text: Bytes -> Option<Value>)
    requires forall i :: 0 <= i < |rows| ==> PlainRow(rows[i])
    ensures RowValues(rows, text).Some?
    ensures var values := RowValues(rows, text).value;
      && |values| == |rows|
      && forall i :: 0 <= i < |rows| ==> RowToYson(rows[i], text) == Some(values[i])
  {
    if rows != [] {
      hide RowEntries, PlainRow;
      AnswersByRow(rows[..|rows| - 1], text);
      RowEntriesHoldTheRow(rows[|rows| - 1], text);
    }
  }

  lemma {:induction false} AnswerRowsAre(values: seq<Value>)
    ensures AnswerRows(values).Some? <==> forall i :: 0 <= i < |values| ==> Norm(values[i], 0).Some?
    ensures AnswerRows(values).Some? ==>
      && |AnswerRows(values).value| == |values|
      && forall i :: 0 <= i < |values| ==> AnswerRows(values).value[i] == YsonToRow(Norm(values[i], 0).value)
  {
    if values != [] {
      hide Norm, YsonToRow;
      AnswerRowsAre(values[1..]);
      assert forall i :: 0 <= i < |values[1..]| ==> values[1..][i] == values[i + 1];
    }
  }

  /** Every row can be written, and the answers to a fragment of rows are the answers to each. */
  lemma AnswersAre(rows: seq<Row>, text: Bytes -> Option<Value>)
    requires forall i :: 0 <= i < |rows| ==> PlainRow(rows[i])
    ensures RowValues(rows, text).Some? && forall i :: 0 <= i < |rows| ==> RowEntries(rows[i], text).Some?
    ensures var answers := FragmentRows(Fragment(RowValues(rows, text).value));
      && (answers.None? ==> exists i :: 0 <= i < |rows| && RowAnswer(rows[i], text).None?)
      && (answers.Some? ==> |answers.value| == |rows| && forall i :: 0 <= i < |rows| ==> RowAnswer(rows[i], text) == Some(answers.value[i]))
  {
    hide Fragment, FragmentRows, Norm, RowEntries, Build, PlainRow, YsonToRow, Fits, WellFormed;
    AnswersByRow(rows, text);
    var values := RowValues(rows, text).value;
    forall i | 0 <= i < |rows|
      ensures WellFormed(values[i]) && Fits(values[i], 0)
      ensures RowEntries(rows[i], text).Some? && Norm(values[i], 0) == Build(RowEntries(rows[i], text).value)
    {
      RowEntriesHoldTheRow(rows[i], text);
      RowValueIsSound(RowEntries(rows[i], text).value);
    }
    FragmentReadsBack(values);
    AnswerRowsAre(values);
  }

  /** Rows with distinct column names and no `Any` cell, written as a fragment and read back, give
      the same columns per row, in order, exactly when no column is named with a leading at sign
      or `$value`. */
  lemma RowsComeBackExactlyWhen(rows: seq<Row>, text: Bytes -> Option<Value>)
    requires forall i :: 0 <= i < |rows| ==> PlainRow(rows[i])
    ensures RowValues(rows, text).Some?
    ensures ComesBack(rows, FragmentRows(Fragment(RowValues(rows, text).value)))
      <==> forall i :: 0 <= i < |rows| ==> !HasReserved(rows[i])
  {
    hide Fragment, FragmentRows, RowEntries, RowAnswer, PlainRow, SameColumns, Reserved, RowValues;
    AnswersAre(rows, text);
    var answers := FragmentRows(Fragment(RowValues(rows, text).value));
    if forall i :: 0 <= i < |rows| ==> !HasReserved(rows[i]) {
      forall i | 0 <= i < |rows|
        ensures var answer := RowAnswer(rows[i], text); answer.Some? && answer.value.Some? && SameColumns(rows[i], answer.value.value)
      {
        OrdinaryRowComesBack(rows[i], text);
      }
    } else {
      var i :| 0 <= i < |rows| && HasReserved(rows[i]);
      var j :| 0 <= j < |rows[i]| && Reserved(rows[i][j].name);
      ReservedColumnIsLost(rows[i], text, j);
      if ComesBack(rows, answers) {
        SameColumnsHas(rows[i], answers.value[i].value, j);
      }
    }
  }

  lemma SameColumnsHas(a: Row, b: Row, j: nat)
    requires SameColumns(a, b) && j < |a|
    ensures a[j] in b
  {
  }

  // ---------------------------------------------------------------- what is passed on as YSON

  /** A list or a dict in a row is passed on as an `Any` cell, and such a cell is written as the
      value it was: where it can be read at all, it comes back exactly when it is clean. */
  lemma AnyCellsComeBack(v: Value, text: Bytes -> Option<Value>)
    requires WellFormed(v) && (v.node.List? || v.node.Map?)
    ensures YsonToCell(v) == Any(EncodeValue(v))
    ensures Clean(v, 0) ==> Norm(v, 0).Some?
    ensures Norm(v, 0).Some? ==> (CellToYson(YsonToCell(v), text) == Some(v) <==> Clean(v, 0))
  {
    hide EncodeValue, FromSlice, Clean, WellFormed;
    FromSliceOfToVec(v);
    RoundTripsExactlyWhenClean(v);
  }

  /** An `Any` cell may be written in binary or in text, and a row with one that is neither is
      refused before anything is sent. */
  lemma AnyCellsAreEmbedded(yson: Bytes, text: Bytes -> Option<Value>)
    ensures CellToYson(Any(yson), text) == if FromSlice(yson).Some? then FromSlice(yson) else text(yson)
    ensures FromSlice(yson).None? && text(yson).None? ==>
      forall row: Row, name :: RowValues([row + [Column(name, Any(yson))]], text).None?
  {
    hide FromSlice;
    if FromSlice(yson).None? && text(yson).None? {
      forall row: Row, name ensures RowValues([row + [Column(name, Any(yson))]], text).None? {
        var whole := row + [Column(name, Any(yson))];
        assert whole[..|whole| - 1] == row && whole[|whole| - 1] == Column(name, Any(yson));
        assert RowEntries(whole, text).None?;
        assert [whole][|[whole]| - 1] == whole;
      }
    }
  }

  lemma {:induction false} InsertReplaces(entries: Entries, key: Bytes, first: Value, second: Value)
    ensures Insert(Insert(entries, key, first), key, second) == Insert(entries, key, second)
  {
    hide Less;
    if entries != [] {
      LessIsIrreflexive(key);
      InsertReplaces(entries[1..], key, first, second);
    }
  }

  lemma {:induction false} LessIsIrreflexive(a: Bytes)
    ensures !Less(a, a)
  {
    if a != [] { LessIsIrreflexive(a[1..]); }
  }

  /** Of two columns of one name the later counts. */
  lemma LaterColumnCounts(row: Row, name: Bytes, first: Cell, second: Cell, text: Bytes -> Option<Value>)
    requires CellToYson(first, text).Some?
    ensures RowToYson(row + [Column(name, first)] + [Column(name, second)], text) == RowToYson(row + [Column(name, second)], text)
  {
    hide Insert, CellToYson;
    OneMoreColumn(row, Column(name, first), text);
    OneMoreColumn(row, Column(name, second), text);
    OneMoreColumn(row + [Column(name, first)], Column(name, second), text);
    if RowEntries(row, text).Some? && CellToYson(second, text).Some? {
      InsertReplaces(RowEntries(row, text).value, name, CellToYson(first, text).value, CellToYson(second, text).value);
    }
  }

  lemma OneMoreColumn(row: Row, column: Column, text: Bytes -> Option<Value>)
    ensures RowEntries(row + [column], text) ==
      match (RowEntries(row, text), CellToYson(column.cell, text))
      case (Some(entries), Some(v)) => Some(Insert(entries, column.name, v))
      case _ => None
  {
    hide Insert, CellToYson;
    assert (row + [column])[..|row|] == row;
  }

  lemma ScalarIsEasy(v: Value)
    requires WellFormed(v) && v.attributes.Absent? && IsScalar(v.node)
    ensures Fits(v, 0) && Norm(v, 0) == Some(v)
  {
    assert !v.node.List? && !v.node.Map?;
    assert Clean(v, 0);
    hide Norm;
    CleanIsNormal(v, 0);
  }

  /** One answer per value keeps answers and keys lined up: a null row for a lone `#`, and an empty
      row for what is no row at all. */
  lemma OddValuesKeepTheirPlace(v: Value)
    requires WellFormed(v) && v.attributes.Absent? && IsScalar(v.node)
    ensures FragmentRows(Fragment([v])) == Some([if v.node.Entity? then None else Some([])])
  {
    ScalarIsEasy(v);
    hide Fragment, FragmentRows, Fits, WellFormed, Norm;
    FragmentReadsBack([v]);
    assert [v][1..] == [];
    assert AnswerRows([]) == Some([]);
    assert [YsonToRow(v)] + [] == [YsonToRow(v)];
  }

  /** Between values, tabs, line and page breaks, spaces and semicolons say nothing. */
  lemma SeparatorsSayNothing(separator: Byte, body: Bytes)
    requires separator in {9, 10, 12, 13, 32, 59}
    ensures FragmentRows([separator] + body) == FragmentRows(body)
  {
    hide FirstValue, YsonToRow;
    SkipOne([separator] + body);
    assert ([separator] + body)[1..] == body;
  }

  // ---------------------------------------------------------------- with names as the client has them

  /** A lossy reading keeps text as it is. */
  ghost predicate KeepsText(lossy: Lossy) {
    forall text: string :: lossy(Utf8.Encode(text)) == text
  }

  predicate PlainNamed(row: NamedRow) {
    && (forall i, j :: 0 <= i < j < |row| ==> row[i].name != row[j].name)
    && forall i :: 0 <= i < |row| ==> PlainCell(row[i].cell) && |Utf8.Encode(row[i].name)| < Yson.I64
  }

  /** A name the YSON reader takes for something other than a column's. */
  predicate ReservedName(name: string) {
    name == "$value" || (name != "" && name[0] == '@')
  }

  lemma ReservedSpelling(name: string)
    ensures Reserved(Utf8.Encode(name)) <==> ReservedName(name)
  {
    Utf8.DecodeEncode(name);
    Utf8.DecodeEncode("$value");
    ValueKeySpelled();
    FirstByte(name);
  }

  lemma FirstByte(name: string)
    ensures Utf8.Encode(name) != [] && Utf8.Encode(name)[0] == 0x40 <==> name != "" && name[0] == '@'
  {
  }

  lemma ValueKeySpelled()
    ensures Utf8.Encode("$value") == VALUE_KEY
  {
    Utf8.AsciiBytes("$value");
  }

  lemma PlainSpelled(row: NamedRow)
    requires PlainNamed(row)
    ensures PlainRow(Spelled(row))
  {
    hide Utf8.Encode, PlainCell;
    forall i, j | 0 <= i < j < |row| ensures Utf8.Encode(row[i].name) != Utf8.Encode(row[j].name) {
      Utf8.DecodeEncode(row[i].name);
      Utf8.DecodeEncode(row[j].name);
    }
  }

  /** Gathering keeps names: a plain entry's key is that of a pair. */
  lemma {:induction false} PlainKeysAreGiven(pairs: Entries)
    ensures forall e :: e in GatherAll(pairs).plain ==> exists p :: p in pairs && p.key == e.key
  {
    if pairs != [] {
      hide Insert, Extend, Reserved;
      var front, last := pairs[..|pairs| - 1], pairs[|pairs| - 1];
      PlainKeysAreGiven(front);
      var before := GatherAll(front).plain;
      InsertedMembers(before, last.key, last.value);
      forall e | e in GatherAll(pairs).plain ensures exists p :: p in pairs && p.key == e.key {
        if e in before {
          var p :| p in front && p.key == e.key;
          assert p in pairs;
        } else {
          assert last in pairs && last.key == e.key;
        }
      }
    }
  }

  lemma {:induction false} InsertedMembers(entries: Entries, key: Bytes, value: Value)
    ensures forall e :: e in Insert(entries, key, value) ==> e in entries || e == Entry(key, value)
  {
    hide Less;
    if entries != [] && key != entries[0].key && !Less(key, entries[0].key) {
      InsertedMembers(entries[1..], key, value);
    }
  }

  /** Every column of an answer has the name of a column that was written. */
  lemma AnswerNamesAreWritten(row: Row, text: Bytes -> Option<Value>)
    requires PlainRow(row) && RowEntries(row, text).Some?
    ensures var answer := RowAnswer(row, text);
      answer.Some? && answer.value.Some? ==> forall d :: d in answer.value.value ==> exists c :: c in row && c.name == d.name
  {
    hide RowEntries, GatherAll, PlainValue, RowAnswer, Sorted, ScalarEntries;
    RowEntriesHoldTheRow(row, text);
    AnswerColumns(row, text);
    var entries := RowEntries(row, text).value;
    var g := GatherAll(entries);
    PlainKeysAreGiven(entries);
    var answer := RowAnswer(row, text);
    if answer.Some? && answer.value.Some? {
      forall d | d in answer.value.value ensures exists c :: c in row && c.name == d.name {
        var i :| 0 <= i < |answer.value.value| && answer.value.value[i] == d;
        assert answer.value.value == EntriesToRow(g.plain) && d.name == g.plain[i].key;
        var p :| p in entries && p.key == g.plain[i].key;
        var c :| c in row && p == Entry(c.name, PlainValue(c.cell));
      }
    }
  }

  predicate SameNamed(a: NamedRow, b: NamedRow) {
    (forall c :: c in a ==> c in b) && (forall c :: c in b ==> c in a)
  }

  function Col(n: Named): Column { Column(Utf8.Encode(n.name), n.cell) }

  function Back(c: Column, lossy: Lossy): Named { Named(lossy(c.name), c.cell) }

  lemma SpelledMembers(row: NamedRow)
    ensures forall n :: n in row ==> Col(n) in Spelled(row)
    ensures forall c :: c in Spelled(row) ==> exists n :: n in row && c == Col(n)
  {
    hide Utf8.Encode;
    var spelled := Spelled(row);
    forall n | n in row ensures Col(n) in spelled {
      var i :| 0 <= i < |row| && row[i] == n;
      assert spelled[i] == Col(n);
    }
    forall c | c in spelled ensures exists n :: n in row && c == Col(n) {
      var i :| 0 <= i < |spelled| && spelled[i] == c;
      assert row[i] in row && c == Col(row[i]);
    }
  }

  lemma ShownMembers(row: Row, lossy: Lossy)
    ensures forall c :: c in row ==> Back(c, lossy) in Shown(row, lossy)
    ensures forall n :: n in Shown(row, lossy) ==> exists c :: c in row && n == Back(c, lossy)
  {
    var shown := Shown(row, lossy);
    forall c | c in row ensures Back(c, lossy) in shown {
      var i :| 0 <= i < |row| && row[i] == c;
      assert shown[i] == Back(c, lossy);
    }
    forall n | n in shown ensures exists c :: c in row && n == Back(c, lossy) {
      var i :| 0 <= i < |shown| && shown[i] == n;
      assert row[i] in row && n == Back(row[i], lossy);
    }
  }

  /** Columns compare by name as they do by spelling, when the answer's names were spelled. */
  lemma SameNamedIsSameColumns(row: NamedRow, answer: Row, lossy: Lossy)
    requires KeepsText(lossy) && forall d :: d in answer ==> exists c :: c in Spelled(row) && c.name == d.name
    ensures SameNamed(row, Shown(answer, lossy)) <==> SameColumns(Spelled(row), answer)
  {
    SpelledMembers(row);
    ShownMembers(answer, lossy);
    assert forall n: Named :: Back(Col(n), lossy) == n;
    forall d | d in answer ensures Col(Back(d, lossy)) == d {
      var c :| c in Spelled(row) && c.name == d.name;
      var n :| n in row && c == Col(n);
      assert lossy(Utf8.Encode(n.name)) == n.name;
    }
    hide Utf8.Encode, KeepsText, Col, Back, Spelled, Shown, SameNamed, SameColumns;
    NamedGivesColumns(row, answer, lossy);
    ColumnsGiveNamed(row, answer, lossy);
  }

  lemma NamedGivesColumns(row: NamedRow, answer: Row, lossy: Lossy)
    requires forall c :: c in Spelled(row) ==> exists n :: n in row && c == Col(n)
    requires forall n :: n in row ==> Col(n) in Spelled(row)
    requires forall c :: c in answer ==> Back(c, lossy) in Shown(answer, lossy)
    requires forall n :: n in Shown(answer, lossy) ==> exists c :: c in answer && n == Back(c, lossy)
    requires forall d :: d in answer ==> Col(Back(d, lossy)) == d
    ensures SameNamed(row, Shown(answer, lossy)) ==> SameColumns(Spelled(row), answer)
  {
    hide Col, Back, Spelled, Shown;
    if SameNamed(row, Shown(answer, lossy)) {
      forall c | c in Spelled(row) ensures c in answer {
        var n :| n in row && c == Col(n);
        var d :| d in answer && n == Back(d, lossy);
      }
    }
  }

  lemma ColumnsGiveNamed(row: NamedRow, answer: Row, lossy: Lossy)
    requires forall c :: c in Spelled(row) ==> exists n :: n in row && c == Col(n)
    requires forall n :: n in row ==> Col(n) in Spelled(row)
    requires forall c :: c in answer ==> Back(c, lossy) in Shown(answer, lossy)
    requires forall n :: n in Shown(answer, lossy) ==> exists c :: c in answer && n == Back(c, lossy)
    requires forall n: Named :: Back(Col(n), lossy) == n
    ensures SameColumns(Spelled(row), answer) ==> SameNamed(row, Shown(answer, lossy))
  {
    hide Col, Back, Spelled, Shown;
    if SameColumns(Spelled(row), answer) {
      forall n | n in Shown(answer, lossy) ensures n in row {
        var d :| d in answer && n == Back(d, lossy);
        var m :| m in row && d == Col(m);
      }
    }
  }

  predicate NamedComeBack(rows: seq<NamedRow>, answers: Option<seq<Option<NamedRow>>>) {
    && answers.Some? && |answers.value| == |rows|
    && forall i :: 0 <= i < |rows| ==> answers.value[i].Some? && SameNamed(rows[i], answers.value[i].value)
  }

  /** `fragment_to_rows` of `rows_to_fragment`: rows with distinct column names and no `Any` cell
      come back with the same columns per row, in order, exactly when no column is named `$value`
      or with a leading at sign. */
  lemma NamedRowsComeBackExactlyWhen(rows: seq<NamedRow>, text: Bytes -> Option<Value>, lossy: Lossy)
    requires KeepsText(lossy) && forall i :: 0 <= i < |rows| ==> PlainNamed(rows[i])
    ensures RowValues(SpelledAll(rows), text).Some?
    ensures NamedComeBack(rows, AllShown(FragmentRows(Fragment(RowValues(SpelledAll(rows), text).value)), lossy))
      <==> forall i, j :: 0 <= i < |rows| && 0 <= j < |rows[i]| ==> !ReservedName(rows[i][j].name)
  {
    hide Fragment, FragmentRows, PlainRow, PlainNamed, KeepsText, SameNamed, SameColumns, Reserved, ReservedName, Utf8.Encode, RowValues;
    var spelled := SpelledAll(rows);
    forall i | 0 <= i < |rows| ensures PlainRow(spelled[i]) { PlainSpelled(rows[i]); }
    RowsComeBackExactlyWhen(spelled, text);
    var answers := FragmentRows(Fragment(RowValues(spelled, text).value));
    forall i | 0 <= i < |rows| ensures HasReserved(spelled[i]) <==> exists j :: 0 <= j < |rows[i]| && ReservedName(rows[i][j].name) {
      ReservedRow(rows[i]);
    }
    if answers.Some? && |answers.value| == |rows| {
      forall i | 0 <= i < |rows| && answers.value[i].Some?
        ensures SameNamed(rows[i], Shown(answers.value[i].value, lossy)) <==> SameColumns(spelled[i], answers.value[i].value)
      {
        AnswersAreOfRows(spelled, text, i);
        SameNamedIsSameColumns(rows[i], answers.value[i].value, lossy);
      }
    }
  }

  lemma ReservedRow(row: NamedRow)
    ensures HasReserved(Spelled(row)) <==> exists j :: 0 <= j < |row| && ReservedName(row[j].name)
  {
    hide Reserved, ReservedName, Utf8.Encode;
    forall j | 0 <= j < |row| ensures Reserved(Spelled(row)[j].name) <==> ReservedName(row[j].name) {
      ReservedSpelling(row[j].name);
    }
  }

  /** The i-th answer to a fragment of rows is the answer to the i-th row, whose columns' names it
      has and no others. */
  lemma AnswersAreOfRows(rows: seq<Row>, text: Bytes -> Option<Value>, i: nat)
    requires (forall k :: 0 <= k < |rows| ==> PlainRow(rows[k])) && RowValues(rows, text).Some? && i < |rows|
    ensures var answers := FragmentRows(Fragment(RowValues(rows, text).value));
      answers.Some? && |answers.value| == |rows| && answers.value[i].Some? ==>
        forall d :: d in answers.value[i].value ==> exists c :: c in rows[i] && c.name == d.name
  {
    hide Fragment, FragmentRows, RowEntries, RowAnswer, PlainRow, RowValues;
    AnswersAre(rows, text);
    AnswerNamesAreWritten(rows[i], text);
  }
}
