/** The canonical query-result tree: rows of named cells and the field schema they align with. */
module Table {

  /** What a cell holds. `Other` is any non-text leaf the engine might have put there
      (an integer, say); `tag` only tells such leaves apart. */
  datatype Value =
    | Null
    | Scalar(text: string)
    | Struct(row: Row)
    | Array(elems: seq<Cell>)
    | Other(tag: int)

  /** One field of a row. `bytes` is the size accounting the JSON output leaves out;
      `name` is the cell's own label, used as the key of the projected maps. */
  datatype Cell = Cell(v: Value, bytes: int, name: string)

  datatype Row = Row(f: seq<Cell>)

  /** A table field as the query API describes it: type and mode are plain strings. */
  datatype FieldSchema = FieldSchema(name: string, ty: string, mode: string, fields: seq<FieldSchema>)

  const RecordType: string := "RECORD"
  const TimestampType: string := "TIMESTAMP"
  const RequiredMode: string := "REQUIRED"
  const RepeatedMode: string := "REPEATED"

  /** The set of labels carried by a sequence of cells. */
  function Names(cells: seq<Cell>): set<string> {
    if |cells| == 0 then {} else Names(cells[..|cells| - 1]) + {cells[|cells| - 1].name}
  }

  /** A label is among a sequence's labels exactly when some cell carries it. */
  lemma {:induction false} NamesMembers(cells: seq<Cell>)
    ensures forall i :: 0 <= i < |cells| ==> cells[i].name in Names(cells)
    ensures forall n :: n in Names(cells) ==> exists i :: 0 <= i < |cells| && cells[i].name == n
  {
    if |cells| > 0 {
      var front := cells[..|cells| - 1];
      NamesMembers(front);
      assert forall i :: 0 <= i < |front| ==> front[i] == cells[i];
    }
  }

  /** Index of the last cell labelled `name`, or -1 when there is none. */
  function LastIndex(cells: seq<Cell>, name: string): (k: int)
    ensures -1 <= k < |cells|
    ensures k >= 0 ==> cells[k].name == name
    ensures forall j :: k < j < |cells| ==> cells[j].name != name
  {
    if |cells| == 0 then -1
    else if cells[|cells| - 1].name == name then |cells| - 1
    else LastIndex(cells[..|cells| - 1], name)
  }
}
