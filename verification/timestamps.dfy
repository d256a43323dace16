/** The timestamp normaliser: `Format` and its helpers, which, when integer timestamps are asked
    for, rewrite every TIMESTAMP leaf of the result rows into the decimal count of microseconds
    since the Unix epoch. The rewrite is modelled as building new rows. */
module Timestamps {
  import opened Results
  import opened Table
  import opened Decimal

  /** The time parsers the formatter calls, each reduced to the Unix nanoseconds (`UnixNano`) of
      the time it yields. Their errors are discarded by the formatter, so each is total here and
      what a failed parse yields is left open. */
  datatype TimeParsers = TimeParsers(
    isFloat: string -> bool,             // whether `strconv.ParseFloat(s, 64)` succeeds
    parseLayout: string -> Int64,        // `time.Parse("2006-01-02T15:04:05-07:00", s)`
    fromTimestampValue: string -> Int64) // `zetasqlite.TimeFromTimestampValue(s)`

  /** The nanoseconds `formatTimestamp` reads from a text: an engine timestamp value when the text
      is a number, the fixed-offset date-time layout otherwise. */
  function ScalarNanos(tp: TimeParsers, text: string): (n: Int64)
    ensures tp.isFloat(text) ==> n == tp.fromTimestampValue(text)
    ensures !tp.isFloat(text) ==> n == tp.parseLayout(text)
  {
    if tp.isFloat(text) then tp.fromTimestampValue(text) else tp.parseLayout(text)
  }

  /** `text` is the decimal rendering of the microseconds in `nanos`, truncated toward zero: it
      reads back as that quotient and is written the way `fmt.Sprint` writes it (no leading zero,
      a '-' exactly when negative). */
  predicate IsMicrosText(text: string, nanos: int) {
    ParseInt(text).Some? &&
    var q := ParseInt(text).value;
    (nanos >= 0 ==> 0 <= nanos - q * NanosPerMicro < NanosPerMicro) &&
    (nanos < 0 ==> -NanosPerMicro < nanos - q * NanosPerMicro <= 0) &&
    text == Sprint(q)
  }

  /** `fmt.Sprint(t.UnixNano() / int64(time.Microsecond))`. */
  function MicrosText(nanos: Int64): (s: string)
    ensures IsMicrosText(s, nanos)
  {
    SprintRoundTrip(MicrosOf(nanos));
    Sprint(MicrosOf(nanos))
  }

  /** Which cells the formatter can handle without a failed type assertion or an index out of
      range: the schema covers every cell, a non-null TIMESTAMP holds text (or, when repeated and
      an array, only texts), and every element of a non-null repeated RECORD array is a row. */
  predicate CellFormattable(c: Cell, f: FieldSchema) {
    if c.v.Null? then true
    else if f.ty == RecordType && f.mode == RepeatedMode then
      c.v.Array? ==>
        forall i :: 0 <= i < |c.v.elems| ==>
          c.v.elems[i].v.Struct? && RowFormattable(c.v.elems[i].v.row.f, f.fields)
    else if f.ty == RecordType then
      c.v.Struct? ==> RowFormattable(c.v.row.f, f.fields)
    else if f.ty == TimestampType && f.mode == RepeatedMode then
      c.v.Array? ==> forall i :: 0 <= i < |c.v.elems| ==> c.v.elems[i].v.Scalar?
    else if f.ty == TimestampType then
      c.v.Scalar?
    else
      true
  }

  predicate RowFormattable(cells: seq<Cell>, schema: seq<FieldSchema>) {
    |cells| <= |schema| && forall i :: 0 <= i < |cells| ==> CellFormattable(cells[i], schema[i])
  }

  /** `formatTimestamp`: the cell is replaced by a fresh one holding the microseconds as text and
      labelled with the field's name. */
  function FormatTimestamp(tp: TimeParsers, c: Cell, f: FieldSchema): (r: Cell)
    requires c.v.Scalar?
    ensures r.v.Scalar? && IsMicrosText(r.v.text, ScalarNanos(tp, c.v.text))
    ensures r.name == f.name && r.bytes == 0
  {
    Cell(Scalar(MicrosText(ScalarNanos(tp, c.v.text))), 0, f.name)
  }

  /** `formatTimestampArray`: each element of an array is replaced by a fresh, unnamed cell holding
      its microseconds, read by the engine's timestamp decoder only; other cells are untouched. */
  function FormatTimestampArray(tp: TimeParsers, c: Cell): (r: Cell)
    requires c.v.Array? ==> forall i :: 0 <= i < |c.v.elems| ==> c.v.elems[i].v.Scalar?
    ensures !c.v.Array? ==> r == c
    ensures c.v.Array? ==>
              && r.name == c.name && r.bytes == c.bytes
              && r.v.Array? && |r.v.elems| == |c.v.elems|
              && forall i :: 0 <= i < |c.v.elems| ==>
                   && r.v.elems[i].name == "" && r.v.elems[i].bytes == 0 && r.v.elems[i].v.Scalar?
                   && IsMicrosText(r.v.elems[i].v.text, tp.fromTimestampValue(c.v.elems[i].v.text))
  {
    match c.v
    case Array(elems) =>
      c.(v := Array(seq(|elems|, i requires 0 <= i < |elems| =>
                          Cell(Scalar(MicrosText(tp.fromTimestampValue(elems[i].v.text))), 0, ""))))
    case _ => c
  }

  /** `formatStruct`: a nested row is rebuilt with its own fields formatted. */
  function FormatStruct(tp: TimeParsers, c: Cell, fields: seq<FieldSchema>): (r: Cell)
    requires c.v.Struct? ==> RowFormattable(c.v.row.f, fields)
    ensures !c.v.Struct? ==> r == c
    ensures c.v.Struct? ==>
              && r.name == c.name && r.bytes == c.bytes && r.v.Struct?
              && r.v.row.f == FormatRow(tp, c.v.row.f, fields)
  {
    match c.v
    case Struct(row) => c.(v := Struct(Row(FormatRow(tp, row.f, fields))))
    case _ => c
  }

  /** `formatStructArray`: every row of an array of rows is rebuilt with its fields formatted. */
  function FormatStructArray(tp: TimeParsers, c: Cell, fields: seq<FieldSchema>): (r: Cell)
    requires c.v.Array? ==>
               forall i :: 0 <= i < |c.v.elems| ==>
                 c.v.elems[i].v.Struct? && RowFormattable(c.v.elems[i].v.row.f, fields)
    ensures !c.v.Array? ==> r == c
    ensures c.v.Array? ==>
              && r.name == c.name && r.bytes == c.bytes
              && r.v.Array? && |r.v.elems| == |c.v.elems|
              && forall i :: 0 <= i < |c.v.elems| ==>
                   && r.v.elems[i].name == c.v.elems[i].name && r.v.elems[i].bytes == c.v.elems[i].bytes
                   && r.v.elems[i].v.Struct?
                   && r.v.elems[i].v.row.f == FormatRow(tp, c.v.elems[i].v.row.f, fields)
  {
    match c.v
    case Array(elems) =>
      c.(v := Array(seq(|elems|, i requires 0 <= i < |elems| && elems[i].v.Struct? && RowFormattable(elems[i].v.row.f, fields) =>
                          elems[i].(v := Struct(Row(FormatRow(tp, elems[i].v.row.f, fields)))))))
    case _ => c
  }

  /** One step of `formatRow`'s loop: the helper chosen by the field's type and mode. */
  function FormatCell(tp: TimeParsers, c: Cell, f: FieldSchema): (r: Cell)
    requires CellFormattable(c, f)
    ensures c.v.Null? ==> r == c
    ensures f.ty != RecordType && f.ty != TimestampType ==> r == c
    ensures f.ty == TimestampType && f.mode != RepeatedMode && !c.v.Null? ==>
              && r.v.Scalar? && r.name == f.name && r.bytes == 0
              && IsMicrosText(r.v.text, ScalarNanos(tp, c.v.text))
    ensures f.ty == TimestampType && f.mode == RepeatedMode && c.v.Array? ==>
              && r.name == c.name && r.v.Array? && |r.v.elems| == |c.v.elems|
              && forall i :: 0 <= i < |c.v.elems| ==>
                   && r.v.elems[i].name == "" && r.v.elems[i].v.Scalar?
                   && IsMicrosText(r.v.elems[i].v.text, tp.fromTimestampValue(c.v.elems[i].v.text))
    ensures f.ty == RecordType && f.mode != RepeatedMode && c.v.Struct? ==>
              r.name == c.name && r.v.Struct? && r.v.row.f == FormatRow(tp, c.v.row.f, f.fields)
    ensures f.ty == RecordType && f.mode == RepeatedMode && c.v.Array? ==>
              && r.name == c.name && r.v.Array? && |r.v.elems| == |c.v.elems|
              && forall i :: 0 <= i < |c.v.elems| ==>
                   && r.v.elems[i].name == c.v.elems[i].name && r.v.elems[i].v.Struct?
                   && r.v.elems[i].v.row.f == FormatRow(tp, c.v.elems[i].v.row.f, f.fields)
    ensures f.ty == RecordType && f.mode != RepeatedMode && !c.v.Struct? ==> r == c
    ensures f.ty == RecordType && f.mode == RepeatedMode && !c.v.Array? ==> r == c
    ensures f.ty == TimestampType && f.mode == RepeatedMode && !c.v.Array? ==> r == c
  {
    if c.v.Null? then c
    else if f.ty == RecordType && f.mode == RepeatedMode then FormatStructArray(tp, c, f.fields)
    else if f.ty == RecordType then FormatStruct(tp, c, f.fields)
    else if f.ty == TimestampType && f.mode == RepeatedMode then FormatTimestampArray(tp, c)
    else if f.ty == TimestampType then FormatTimestamp(tp, c, f)
    else c
  }

  /** `formatRow`: cell `i` is formatted against `schema[i]`, in order. */
  function FormatRow(tp: TimeParsers, cells: seq<Cell>, schema: seq<FieldSchema>): (r: seq<Cell>)
    requires RowFormattable(cells, schema)
    ensures |r| == |cells|
  {
    seq(|cells|, i requires 0 <= i < |cells| => FormatCell(tp, cells[i], schema[i]))
  }

  /** `Format`: without integer timestamps the rows come back as they are; with them, each row's
      cells are formatted against the table schema's fields. */
  function Format(tp: TimeParsers, schema: seq<FieldSchema>, rows: seq<Row>, useInt64Timestamp: bool): (r: seq<Row>)
    requires useInt64Timestamp ==> forall i :: 0 <= i < |rows| ==> RowFormattable(rows[i].f, schema)
    ensures !useInt64Timestamp ==> r == rows
    ensures |r| == |rows|
    ensures forall i :: 0 <= i < |rows| ==> |r[i].f| == |rows[i].f|
  {
    if !useInt64Timestamp then rows
    else seq(|rows|, i requires 0 <= i < |rows| && RowFormattable(rows[i].f, schema) => Row(FormatRow(tp, rows[i].f, schema)))
  }

  /** No field, at any depth, is a TIMESTAMP. */
  ghost predicate NoTimestamps(schema: seq<FieldSchema>) {
    forall i :: 0 <= i < |schema| ==> schema[i].ty != TimestampType && NoTimestamps(schema[i].fields)
  }

  /** Formatting against a schema without timestamps changes nothing, however deeply the rows
      nest. */
  lemma {:induction false} NoTimestampsRowUnchanged(tp: TimeParsers, cells: seq<Cell>, schema: seq<FieldSchema>)
    requires RowFormattable(cells, schema) && NoTimestamps(schema)
    ensures FormatRow(tp, cells, schema) == cells
    decreases cells, 1
  {
    forall i | 0 <= i < |cells|
      ensures FormatCell(tp, cells[i], schema[i]) == cells[i]
    {
      NoTimestampsCellUnchanged(tp, cells[i], schema[i]);
    }
  }

  lemma {:induction false} NoTimestampsCellUnchanged(tp: TimeParsers, c: Cell, f: FieldSchema)
    requires CellFormattable(c, f) && f.ty != TimestampType && NoTimestamps(f.fields)
    ensures FormatCell(tp, c, f) == c
    decreases c, 0
  {
    if c.v.Null? || f.ty != RecordType {
    } else if f.mode == RepeatedMode {
      match c.v
      case Array(elems) =>
        forall i | 0 <= i < |elems|
          ensures FormatRow(tp, elems[i].v.row.f, f.fields) == elems[i].v.row.f
        {
          NoTimestampsRowUnchanged(tp, elems[i].v.row.f, f.fields);
        }
        var r := FormatCell(tp, c, f);
        assert r.v.elems == elems;
      case _ =>
    } else {
      match c.v
      case Struct(row) =>
        NoTimestampsRowUnchanged(tp, row.f, f.fields);
      case _ =>
    }
  }

  /** The shape of a cell tree: which cells are null, text or other leaves, and how rows and
      arrays nest, with names and texts forgotten. */
  datatype Shape = SNull | SText | SOther | SStruct(fields: seq<Shape>) | SArray(elems: seq<Shape>)

  function ShapeOf(c: Cell): Shape {
    match c.v
    case Null => SNull
    case Scalar(_) => SText
    case Other(_) => SOther
    case Struct(row) => SStruct(ShapesOf(row.f))
    case Array(elems) => SArray(ShapesOf(elems))
  }

  function ShapesOf(cells: seq<Cell>): (r: seq<Shape>)
    ensures |r| == |cells|
  {
    seq(|cells|, i requires 0 <= i < |cells| => ShapeOf(cells[i]))
  }

  /** Formatting keeps the shape of every row: each cell keeps its kind, and every nested row and
      array keeps its length, at every depth. */
  lemma {:induction false} FormatRowKeepsShape(tp: TimeParsers, cells: seq<Cell>, schema: seq<FieldSchema>)
    requires RowFormattable(cells, schema)
    ensures ShapesOf(FormatRow(tp, cells, schema)) == ShapesOf(cells)
    decreases cells, 1
  {
    forall i | 0 <= i < |cells|
      ensures ShapeOf(FormatCell(tp, cells[i], schema[i])) == ShapeOf(cells[i])
    {
      FormatCellKeepsShape(tp, cells[i], schema[i]);
    }
  }

  lemma {:induction false} FormatCellKeepsShape(tp: TimeParsers, c: Cell, f: FieldSchema)
    requires CellFormattable(c, f)
    ensures ShapeOf(FormatCell(tp, c, f)) == ShapeOf(c)
    decreases c, 0
  {
    var r := FormatCell(tp, c, f);
    if c.v.Null? || (f.ty != RecordType && f.ty != TimestampType) {
    } else if f.ty == RecordType && f.mode == RepeatedMode {
      match c.v
      case Array(elems) =>
        forall i | 0 <= i < |elems|
          ensures ShapeOf(r.v.elems[i]) == ShapeOf(elems[i])
        {
          FormatRowKeepsShape(tp, elems[i].v.row.f, f.fields);
        }
        assert ShapesOf(r.v.elems) == ShapesOf(elems);
      case _ =>
    } else if f.ty == RecordType {
      match c.v
      case Struct(row) =>
        FormatRowKeepsShape(tp, row.f, f.fields);
      case _ =>
    } else if f.mode == RepeatedMode {
      match c.v
      case Array(elems) =>
        assert ShapesOf(r.v.elems) == ShapesOf(elems);
      case _ =>
    }
  }

  /** With integer timestamps on, `Format` keeps the number of rows and the shape of each. */
  lemma FormatKeepsShape(tp: TimeParsers, schema: seq<FieldSchema>, rows: seq<Row>)
    requires forall i :: 0 <= i < |rows| ==> RowFormattable(rows[i].f, schema)
    ensures |Format(tp, schema, rows, true)| == |rows|
    ensures forall i :: 0 <= i < |rows| ==> ShapesOf(Format(tp, schema, rows, true)[i].f) == ShapesOf(rows[i].f)
  {
    forall i | 0 <= i < |rows|
      ensures ShapesOf(Format(tp, schema, rows, true)[i].f) == ShapesOf(rows[i].f)
    {
      FormatRowKeepsShape(tp, rows[i].f, schema);
    }
  }
}
