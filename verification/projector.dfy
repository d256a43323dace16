/** The row projector: `TableRow.Data` / `TableCell.Data`, which flatten a result row into the
    name→value map the REST-style response carries. No casting happens here. */
module Projector {
  import opened Results
  import opened Table

  /** The loosely typed value handed to the JSON writer: nil, a string, a map or a list. */
  datatype Json = JNull | JString(s: string) | JObject(fields: map<string, Json>) | JList(items: seq<Json>)

  /** `TableCell.Data`: nil and text pass through, a nested row becomes a map, an array a list,
      and any other leaf is refused. */
  function CellData(c: Cell): (r: Result<Json>)
    ensures c.v.Null? ==> r == Ok(JNull)
    ensures c.v.Scalar? ==> r == Ok(JString(c.v.text))
    ensures c.v.Other? ==> r == Err(NotAString(c.v.tag))
    ensures c.v.Struct? ==>
              var m := RowData(c.v.row.f);
              r == if m.Ok? then Ok(JObject(m.value)) else Err(m.error)
    ensures c.v.Array? ==>
              var items := ElemsData(c.v.elems);
              r == if items.Ok? then Ok(JList(items.value)) else Err(items.error)
  {
    match c.v
    case Null => Ok(JNull)
    case Scalar(text) => Ok(JString(text))
    case Struct(row) =>
      var m :- RowData(row.f);
      Ok(JObject(m))
    case Array(elems) =>
      var items :- ElemsData(elems);
      Ok(JList(items))
    case Other(tag) => Err(NotAString(tag))
  }

  /** The loop over an array's elements in `TableCell.Data`. */
  function ElemsData(elems: seq<Cell>): (r: Result<seq<Json>>)
    ensures r.Ok? ==> |r.value| == |elems|
  {
    if |elems| == 0 then Ok([])
    else
      var front :- ElemsData(elems[..|elems| - 1]);
      var last :- CellData(elems[|elems| - 1]);
      Ok(front + [last])
  }

  /** `TableRow.Data` on a row whose cells are `cells`: each cell's value is stored under the
      cell's own name, a later cell overwriting an earlier one of the same name. */
  function RowData(cells: seq<Cell>): (r: Result<map<string, Json>>)
    ensures r.Ok? ==> r.value.Keys == Names(cells)
  {
    if |cells| == 0 then Ok(map[])
    else
      var front :- RowData(cells[..|cells| - 1]);
      var last :- CellData(cells[|cells| - 1]);
      Ok(front[cells[|cells| - 1].name := last])
  }

  /** An array projects to a list of the same length and order, element by element; it fails
      exactly when some element fails, and then with the first element's error. */
  lemma {:induction false} ElemsDataSpec(elems: seq<Cell>)
    ensures ElemsData(elems).Ok? <==> forall i :: 0 <= i < |elems| ==> CellData(elems[i]).Ok?
    ensures ElemsData(elems).Ok? ==>
              && |ElemsData(elems).value| == |elems|
              && forall i :: 0 <= i < |elems| ==> CellData(elems[i]) == Ok(ElemsData(elems).value[i])
    ensures ElemsData(elems).Err? ==>
              exists k :: 0 <= k < |elems| && CellData(elems[k]) == Err(ElemsData(elems).error)
                          && forall j :: 0 <= j < k ==> CellData(elems[j]).Ok?
  {
    if |elems| > 0 {
      var front := elems[..|elems| - 1];
      ElemsDataSpec(front);
      assert forall i :: 0 <= i < |front| ==> front[i] == elems[i];
    }
  }

  /** A row projection fails exactly when some cell fails, and then with the first cell's error. */
  lemma {:induction false} RowDataFailure(cells: seq<Cell>)
    ensures RowData(cells).Ok? <==> forall i :: 0 <= i < |cells| ==> CellData(cells[i]).Ok?
    ensures RowData(cells).Err? ==>
              exists k :: 0 <= k < |cells| && CellData(cells[k]) == Err(RowData(cells).error)
                          && forall j :: 0 <= j < k ==> CellData(cells[j]).Ok?
  {
    if |cells| > 0 {
      var front := cells[..|cells| - 1];
      RowDataFailure(front);
      assert forall i :: 0 <= i < |front| ==> front[i] == cells[i];
    }
  }

  /** A successful row projection has exactly the cells' names as keys, each bound to the value of
      the last cell carrying that name. */
  lemma {:induction false} RowDataMap(cells: seq<Cell>)
    requires RowData(cells).Ok?
    ensures RowData(cells).value.Keys == Names(cells)
    ensures forall k :: k in RowData(cells).value ==>
              LastIndex(cells, k) >= 0 && CellData(cells[LastIndex(cells, k)]) == Ok(RowData(cells).value[k])
  {
    if |cells| > 0 {
      var n := |cells| - 1;
      var front := cells[..n];
      RowDataMap(front);
      var m := RowData(front).value;
      var r := RowData(cells).value;
      assert r == m[cells[n].name := CellData(cells[n]).value];
      forall k | k in r
        ensures LastIndex(cells, k) >= 0 && CellData(cells[LastIndex(cells, k)]) == Ok(r[k])
      {
        if k != cells[n].name {
          assert LastIndex(cells, k) == LastIndex(front, k);
          assert cells[LastIndex(front, k)] == front[LastIndex(front, k)];
        }
      }
    }
  }

  /** Cells whose names are pairwise different. */
  predicate DistinctNames(cells: seq<Cell>) {
    forall i, j :: 0 <= i < j < |cells| ==> cells[i].name != cells[j].name
  }

  /** Projecting a row of distinct-named text and null cells keeps every name as a key, null as an
      explicit nil and text unchanged. */
  lemma FlatRowProjection(cells: seq<Cell>)
    requires DistinctNames(cells)
    requires forall i :: 0 <= i < |cells| ==> cells[i].v.Null? || cells[i].v.Scalar?
    ensures RowData(cells).Ok?
    ensures RowData(cells).value.Keys == Names(cells)
    ensures forall i :: 0 <= i < |cells| ==> cells[i].name in RowData(cells).value
    ensures forall i :: 0 <= i < |cells| ==>
              RowData(cells).value[cells[i].name] ==
                (if cells[i].v.Null? then JNull else JString(cells[i].v.text))
  {
    RowDataFailure(cells);
    RowDataMap(cells);
    NamesMembers(cells);
    forall i | 0 <= i < |cells|
      ensures RowData(cells).value[cells[i].name] ==
                (if cells[i].v.Null? then JNull else JString(cells[i].v.text))
    {
      var k := LastIndex(cells, cells[i].name);
      assert k == i;
    }
  }
}
