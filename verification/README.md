# Query-result encoders of a BigQuery emulator, in Dafny

This project models the result-row encoders of the emulator's `internal/types` package.
The query engine hands over rows as a tree of `TableRow`s and `TableCell`s. A cell's value
is nil, a string, a nested `TableRow`, a `[]*TableCell` array, or, defensively, anything
else. Four recursive passes turn that tree into other forms:

- the **row projector** (`TableRow.Data`, `TableCell.Data`) builds the name→value map of a
  REST-style response;
- the **nullable-union encoder** (`TableRow.AVROValue`, `TableCell.AVROValue`) builds the
  record tree of an Avro export. Nullable values are wrapped in a one-entry map keyed by
  their type's union branch name;
- the **columnar appender** (the three `AppendValueToARROWBuilder` variants) pushes a row
  into a pre-shaped tree of Arrow column builders;
- the **timestamp normaliser** (`Format`, `formatRow`, `formatStruct`, `formatStructArray`,
  `formatTimestamp`, `formatTimestampArray`) rewrites TIMESTAMP leaves into decimal
  microseconds since the epoch when integer timestamps are requested.

Modules:

- `Results`: `Result`, `Option`, and the encoders' errors.
- `Table`: the value tree and the field schema.
  - `Value = Null | Scalar(text) | Struct(row) | Array(elems) | Other(tag)`.
  - `Cell = Cell(v, bytes, name)`, `Row = Row(f)`.
  - `FieldSchema(name, ty, mode, fields)`. Type and mode are plain strings, compared the way
    the code compares them.
- `Decimal`: Go's truncating `/ int64(time.Microsecond)`, `fmt.Sprint` of an integer, and a
  reader for decimal text.
- `Projector`, `Avro`, `Arrow`, `Timestamps`: one module per pass.
- `Scenarios`: worked cases.

Everything is a pure function over immutable values.

Code outside this package appears as function-valued parameters, so every result is proved
for every behaviour of that code:

- `AvroTypes<N>` holds `Type.Key()` and `Type.CastValue`.
- `ScalarAppender` is the external `types.AppendValueToARROWBuilder`.
- `TimeParsers` holds `strconv.ParseFloat` (as a yes/no), `time.Parse` with the fixed-offset
  layout, and `zetasqlite.TimeFromTimestampValue`. Each is reduced to the `UnixNano` of the
  time it yields.

Arrow builders are reduced to their shape: `StructBuilder(children)`, `ListBuilder(value)` or
`ScalarBuilder(kind)`. Every call the appender makes on a builder is recorded in an event
log, together with the path of that builder.

Points where the code's behaviour is easy to misread:

- A projected or encoded value is stored under the cell's own `Name`, not under the schema
  field's name. A later cell with the same name overwrites an earlier one.
- A leaf that is neither nil nor a string can reach the projector and the encoders. It fails
  with "failed to cast to string" (`NotAString`).
- Timestamp parse failures are discarded, but what they yield is not epoch zero. Go's zero
  `time.Time` has no meaningful `UnixNano`, so the value a failed parse gives is left open.
- The appender hands a nil cell to the external scalar appender. It does not call a null
  primitive of its own.
- Only a type spelled exactly `RECORD` is recursed into by the timestamp normaliser.

Go panics become preconditions:

- out-of-range indexes: `fields[idx]`, `schema[colIdx]`, `builder.Field(idx)` and
  `FieldBuilder(idx)`;
- unchecked type assertions: `c.V.(string)` and `c.V.(TableRow)`.

These preconditions are the predicates `Avro.CellFits`, `Avro.RowFits`,
`Arrow.CellIndexable`, `Arrow.FieldsIndexable`, `Timestamps.CellFormattable` and
`Timestamps.RowFormattable`. The timestamp predicates constrain only the cells the normaliser
reaches, since it never stops early. The Avro and Arrow predicates are stronger than the code
needs: they ask every cell and every array element, at every depth, to fit. Go would stop at the
first failing cell and never index past it. See "Left out".

## Model

| member | source | states |
|---|---|---|
| Projector.CellData | internal/types/types.go:76-100 | A nil leaf projects to nil and a string to the identical string. Any other leaf fails with the cast-to-string error. A nested row projects to its own row map, unwrapped, or fails with that row's error. An array projects to the list of its elements' projections, or fails with the loop's error. |
| Projector.ElemsData | internal/types/types.go:80-89 | A successful array projection has one item per element. Order, contents and the error are stated by ElemsDataSpec. |
| Projector.RowData | internal/types/types.go:52-62 | A successful row projection has exactly the cells' names as keys. The values are stated by RowDataMap and the failure case by RowDataFailure. |
| Projector.ElemsDataSpec | internal/types/types.go:80-89 | An array projects to a list of the same length and order, where item i is element i's projection. It fails exactly when some element fails, and then with the first failing element's error. |
| Projector.RowDataFailure | internal/types/types.go:52-62 | Projecting a row fails exactly when some cell fails, and then with the first failing cell's error. |
| Projector.RowDataMap | internal/types/types.go:52-62 | A successful row projection has exactly the cells' names as keys, and every cell's name is among them. Each key is bound to the projection of the last cell carrying that name. |
| Projector.FlatRowProjection | internal/types/types.go:52-62 | For distinct-named null and text cells, every name is a key. A null cell gives an explicit nil, and a text cell gives its text unchanged. |
| Avro.CellAvro | internal/types/types.go:102-134 | A nil leaf gives exactly the one-entry map {Key: nil}, whatever the mode. A string whose cast fails returns that error. A string in a REQUIRED field gives the bare cast value. A string in any other mode gives {Key: value}. A non-string leaf fails. A nested row gives its own record map, unwrapped, or that row's error. An array gives the list of its elements' encodings, or the loop's error. |
| Avro.ElemsAvro | internal/types/types.go:107-116 | A successful array encoding has one item per element. Order, contents and the error are stated by ElemsAvroSpec. |
| Avro.RowAvro | internal/types/types.go:64-74 | A successful row encoding has exactly the cells' names as keys. The values are stated by RowAvroValues and the failure case by RowAvroFailure. |
| Avro.ElemsAvroSpec | internal/types/types.go:107-116 | Every array element is encoded against the same field schema. The result keeps length and order. It fails exactly when some element fails, and then with the first element's error. |
| Avro.RepeatedElementsWrapped | internal/types/types.go:107-132 | In a REPEATED field, text and null array elements are never bare: each is a map whose only key is the field type's key. |
| Avro.RowAvroFailure | internal/types/types.go:64-74 | Encoding a row fails exactly when some cell, encoded against the field at its own position, fails. It then returns the first such error. |
| Avro.RowAvroValues | internal/types/types.go:64-74 | Each key is bound to the encoding of the last cell carrying that name, encoded against the field at that cell's position. |
| Avro.CellAvroAgreesWithData | internal/types/types.go:102-134 | The union encoder succeeds only where the projector does. When no cast fails, it succeeds exactly where the projector does. |
| Avro.RowAvroAgreesWithData | internal/types/types.go:64-74 | The same agreement between the two encoders, for whole rows. |
| Arrow.AppendCell | internal/types/types.go:154-186 | A nested row at a non-struct builder, or an array at a non-list builder, fails with no call made. A row at a struct builder calls Append(true) on that builder and then appends its cells into the child builders, returning that loop's outcome. An array at a list builder is exactly the element loop. Nil and text make exactly one call of the external appender and return its outcome. Every call made concerns the given builder or one below it. |
| Arrow.AppendRecord | internal/types/types.go:136-143 | A record append succeeds exactly when each cell succeeds when appended on its own into its field's builder. On success it has made all their calls, in field order. |
| Arrow.AppendFields | internal/types/types.go:145-152 | Every call the row loop makes concerns the struct builder or one below it. Success and failure are stated by AppendFieldsSuccess and AppendFieldsFailure. |
| Arrow.AppendElems | internal/types/types.go:163-175 | Every call the array loop makes concerns the list builder or one below it. Success, failure and the call count are stated by AppendElemsSuccess, AppendElemsOk, AppendElemsCount and AppendElemsFailure. |
| Arrow.AppendFieldsSuccess | internal/types/types.go:145-152 | A struct-row append succeeds exactly when every cell's own append does. It then makes all their calls, in field order. |
| Arrow.AppendFieldsFailure | internal/types/types.go:145-152 | A failed row append stopped at the first failing cell k. The calls of every earlier cell remain, followed by cell k's calls, and cell k's error is returned. Nothing is undone. |
| Arrow.MismatchKeepsEarlierAppends | internal/types/types.go:145-162 | Suppose a nested row sits at a non-struct builder and the cells before it succeed. Then the row fails with the struct-builder error, and the log holds exactly the earlier cells' calls. |
| Arrow.AppendElemsSuccess | internal/types/types.go:163-175 | A successful array append makes, for each element in order, one Append(true) on the list builder, followed by that element's own calls into the value builder. |
| Arrow.AppendElemsOk | internal/types/types.go:163-175 | An array append succeeds exactly when every element's own append into the value builder does. |
| Arrow.AppendElemsCount | internal/types/types.go:163-175 | On success the list builder has received exactly one Append(true) per element. |
| Arrow.AppendElemsFailure | internal/types/types.go:163-175 | An array append whose element k is the first to fail returns that element's error. By then the list builder has received k + 1 Append(true) calls. The log holds every earlier element's Append(true) and its own calls, then the failing element's Append(true) and its calls. Nothing is undone. |
| Decimal.MicrosOf | internal/types/types.go:231 | The quotient by 1000 is truncated toward zero: the remainder has the sign of the dividend and is smaller than 1000 in magnitude. The quotient lies between zero and the dividend, so it stays within 64 bits. |
| Decimal.Sprint | internal/types/types.go:233 | The rendering is non-empty. It starts with '-' exactly for negative numbers, followed by the digits of the magnitude without a leading zero. |
| Decimal.SprintRoundTrip | internal/types/types.go:233 | Reading back the decimal rendering of any integer gives that integer. |
| Timestamps.ScalarNanos | internal/types/types.go:226-230 | A text that parses as a float is decoded as an engine timestamp value. Any other text is read with the fixed-offset date-time layout. |
| Timestamps.MicrosText | internal/types/types.go:231-233 | The text reads back as the nanosecond count divided by 1000, truncated toward zero. It is written the way fmt.Sprint writes an integer: no leading zero, and a '-' exactly when negative. |
| Timestamps.FormatTimestamp | internal/types/types.go:222-236 | The result is a fresh text cell named after the schema field. Its text is the truncated microseconds, written as fmt.Sprint writes them. The time is decoded as an engine timestamp value when the text is a number, and by the date-time layout otherwise. |
| Timestamps.FormatTimestampArray | internal/types/types.go:208-220 | An array keeps its length and order. Each element becomes an unnamed text cell holding its microseconds, written as fmt.Sprint writes them and decoded by the engine decoder only. A non-array cell is left unchanged. |
| Timestamps.FormatStruct | internal/types/types.go:199-206 | A nested row keeps the cell's name and is replaced by its formatted row. Any other cell is left unchanged. |
| Timestamps.FormatStructArray | internal/types/types.go:188-197 | An array of rows keeps its length and order. Each element keeps its name and holds its formatted row. A non-array cell is left unchanged. |
| Timestamps.FormatCell | internal/types/types.go:238-254 | Null cells are unchanged, and so are fields that are neither TIMESTAMP nor RECORD. A non-repeated TIMESTAMP becomes truncated microseconds under the schema field's name. A repeated TIMESTAMP array becomes unnamed microsecond cells. A RECORD row, or each row of a repeated RECORD array, is formatted with the nested fields and keeps its name. A RECORD that is not a row, or a repeated RECORD or TIMESTAMP that is not an array, is left unchanged. |
| Timestamps.FormatRow | internal/types/types.go:238-254 | Formatting keeps the number of cells in a row. |
| Timestamps.Format | internal/types/types.go:256-268 | With the flag off, the rows are returned unchanged. In either case the number of rows stays the same, and each row has exactly as many cells as before. |
| Timestamps.NoTimestampsRowUnchanged | internal/types/types.go:238-254 | Against a schema with no TIMESTAMP field at any depth, formatting changes nothing. |
| Timestamps.FormatRowKeepsShape | internal/types/types.go:238-254 | Formatting keeps the shape of every cell at every depth: its kind, and the length of each nested row and array. |
| Timestamps.FormatKeepsShape | internal/types/types.go:256-268 | With the flag on, Format keeps the number of rows and the shape of each row. |
| Scenarios.NewYear2023 | internal/types/types.go:222-236 | Take a REQUIRED TIMESTAMP "2023-01-01T00:00:00+00:00", where the layout gives 1672531200 seconds. It becomes the text "1672531200000000" and keeps the field's name. |
| Scenarios.RequiredIdNullTimestamp | internal/types/types.go:102-134 | The row [id "1" REQUIRED, t null NULLABLE] is left alone by the normaliser. It encodes to {"id": 1, "t": {Key: nil}}. |

## Left out

- The response envelope types (`GetQueryResultsResponse`, `QueryResponse`, `TableDataList`) and the JSON tags: they are declarations with no logic. `Bytes` is carried in each cell but is only copied or reset, never computed.
- Real time parsing. `strconv.ParseFloat`, `time.Parse` and `zetasqlite.TimeFromTimestampValue` are parameters, and the nanoseconds a failed parse yields are left open.
- The Avro type machinery: `Key`, `CastValue` and the native values they produce. `TableFieldSchemasToAVRO` is taken to give, for each nested field, a schema whose `Key` and `CastValue` depend only on that nested field.
- Arrow itself: builder internals, the scalar casts of the external `types.AppendValueToARROWBuilder`, and what Arrow makes of the calls it receives (for example, how `Append(true)` calls on a list builder group values into lists). The log records the calls in order and nothing more.
- In-place mutation and aliasing in the format helpers. Go rewrites the input cells through their pointers, so the input rows change too. The model builds new rows and leaves the input untouched.
- Nil `*TableCell` and `*TableRow` pointers: the value tree has no place for them.
- Go panics: they are preconditions, not a modelled outcome.
- Avro.RowFits, Avro.CellFits, Arrow.FieldsIndexable and Arrow.CellIndexable ask every cell and every array element to fit, at every depth. Go stops at the first failing cell and never indexes past it. So a row can be excluded even though Go would return an error for it and not panic. An example is a row `[Other, text]` against one field, where Go returns the cast-to-string error. Every excluded row has, somewhere, more cells than fields or field builders. That breaks the one-cell-per-field alignment the encoders depend on.
- Error message texts: an error is one of the `Results.Error` variants.
- Timestamps.FormatRow: its own contract states only the cell count. What happens to each cell is stated by `Timestamps.FormatCell`, and the shape of the whole row by `Timestamps.FormatRowKeepsShape`.
