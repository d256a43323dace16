/** The nullable-union encoder: `TableRow.AVROValue` / `TableCell.AVROValue`, which turn a result
    row into the record tree a bulk Avro export writes. Nullable values are wrapped in a one-entry
    map keyed by their type's union branch name; required values are not. */
module Avro {
  import opened Results
  import opened Table
  import Projector

  /** The exported tree: nil, a value cast to its declared native type, a map (a nested record or
      a union wrapper) or a list. `N` stands for whatever the type parsers produce. */
  datatype Avro<N> = ANil | ANative(n: N) | AMap(entries: map<string, Avro<N>>) | AList(items: seq<Avro<N>>)

  /** The Avro type machinery the encoder consults: the union branch key of a field's type
      (`Type.Key()`) and that type's text parser (`Type.CastValue`). */
  datatype AvroTypes<N> = AvroTypes(key: FieldSchema -> string, cast: (FieldSchema, string) -> Result<N>)

  /** The encoder indexes the field list by cell position (`fields[idx]`); these say every index it
      reaches, at every depth, is in range, so none of those lookups panics. */
  predicate CellFits(c: Cell, f: FieldSchema) {
    match c.v
    case Struct(row) => RowFits(row.f, f.fields)
    case Array(elems) => forall i :: 0 <= i < |elems| ==> CellFits(elems[i], f)
    case _ => true
  }

  predicate RowFits(cells: seq<Cell>, fields: seq<FieldSchema>) {
    |cells| <= |fields| && forall i :: 0 <= i < |cells| ==> CellFits(cells[i], fields[i])
  }

  /** `TableCell.AVROValue` against the field schema `f`. */
  function CellAvro<N>(t: AvroTypes<N>, c: Cell, f: FieldSchema): (r: Result<Avro<N>>)
    requires CellFits(c, f)
    ensures c.v.Null? ==> r == Ok(AMap(map[t.key(f) := ANil]))
    ensures c.v.Scalar? && t.cast(f, c.v.text).Err? ==> r == Err(t.cast(f, c.v.text).error)
    ensures c.v.Scalar? && t.cast(f, c.v.text).Ok? && f.mode == RequiredMode ==>
              r == Ok(ANative(t.cast(f, c.v.text).value))
    ensures c.v.Scalar? && t.cast(f, c.v.text).Ok? && f.mode != RequiredMode ==>
              r == Ok(AMap(map[t.key(f) := ANative(t.cast(f, c.v.text).value)]))
    ensures c.v.Other? ==> r == Err(NotAString(c.v.tag))
    ensures c.v.Struct? ==>
              var m := RowAvro(t, c.v.row.f, f.fields);
              r == if m.Ok? then Ok(AMap(m.value)) else Err(m.error)
    ensures c.v.Array? ==>
              var items := ElemsAvro(t, c.v.elems, f);
              r == if items.Ok? then Ok(AList(items.value)) else Err(items.error)
  {
    match c.v
    case Struct(row) =>
      var m :- RowAvro(t, row.f, f.fields);
      Ok(AMap(m))
    case Array(elems) =>
      var items :- ElemsAvro(t, elems, f);
      Ok(AList(items))
    case Null => Ok(AMap(map[t.key(f) := ANil]))
    case Scalar(text) =>
      var value :- t.cast(f, text);
      if f.mode == RequiredMode then Ok(ANative(value)) else Ok(AMap(map[t.key(f) := ANative(value)]))
    case Other(tag) => Err(NotAString(tag))
  }

  /** The loop over an array's elements: every element is encoded against the array's own field. */
  function ElemsAvro<N>(t: AvroTypes<N>, elems: seq<Cell>, f: FieldSchema): (r: Result<seq<Avro<N>>>)
    requires forall i :: 0 <= i < |elems| ==> CellFits(elems[i], f)
    ensures r.Ok? ==> |r.value| == |elems|
  {
    if |elems| == 0 then Ok([])
    else
      var front :- ElemsAvro(t, elems[..|elems| - 1], f);
      var last :- CellAvro(t, elems[|elems| - 1], f);
      Ok(front + [last])
  }

  /** `TableRow.AVROValue`: cell `i` is encoded against `fields[i]` and stored under its own name. */
  function RowAvro<N>(t: AvroTypes<N>, cells: seq<Cell>, fields: seq<FieldSchema>): (r: Result<map<string, Avro<N>>>)
    requires RowFits(cells, fields)
    ensures r.Ok? ==> r.value.Keys == Names(cells)
  {
    if |cells| == 0 then Ok(map[])
    else
      var front :- RowAvro(t, cells[..|cells| - 1], fields);
      var last :- CellAvro(t, cells[|cells| - 1], fields[|cells| - 1]);
      Ok(front[cells[|cells| - 1].name := last])
  }

  /** An array encodes to a list of the same length and order, each element against the same
      field; it fails exactly when some element fails, and then with the first element's error. */
  lemma {:induction false} ElemsAvroSpec<N>(t: AvroTypes<N>, elems: seq<Cell>, f: FieldSchema)
    requires forall i :: 0 <= i < |elems| ==> CellFits(elems[i], f)
    ensures ElemsAvro(t, elems, f).Ok? <==> forall i :: 0 <= i < |elems| ==> CellAvro(t, elems[i], f).Ok?
    ensures ElemsAvro(t, elems, f).Ok? ==>
              && |ElemsAvro(t, elems, f).value| == |elems|
              && forall i :: 0 <= i < |elems| ==> CellAvro(t, elems[i], f) == Ok(ElemsAvro(t, elems, f).value[i])
    ensures ElemsAvro(t, elems, f).Err? ==>
              exists k :: 0 <= k < |elems| && CellAvro(t, elems[k], f) == Err(ElemsAvro(t, elems, f).error)
                          && forall j :: 0 <= j < k ==> CellAvro(t, elems[j], f).Ok?
  {
    if |elems| > 0 {
      var front := elems[..|elems| - 1];
      assert forall i :: 0 <= i < |front| ==> front[i] == elems[i];
      ElemsAvroSpec(t, front, f);
    }
  }

  /** The elements of an array in a REPEATED field are never bare: a text or null element comes
      back wrapped in a one-entry map under the field type's key. */
  lemma RepeatedElementsWrapped<N>(t: AvroTypes<N>, c: Cell, f: FieldSchema)
    requires f.mode == RepeatedMode
    requires c.v.Array? && forall i :: 0 <= i < |c.v.elems| ==> c.v.elems[i].v.Scalar? || c.v.elems[i].v.Null?
    requires CellAvro(t, c, f).Ok?
    ensures CellAvro(t, c, f).value.AList?
    ensures |CellAvro(t, c, f).value.items| == |c.v.elems|
    ensures forall i :: 0 <= i < |c.v.elems| ==>
              var a := CellAvro(t, c, f).value.items[i];
              a.AMap? && a.entries.Keys == {t.key(f)}
  {
    ElemsAvroSpec(t, c.v.elems, f);
  }

  /** An encoding fails exactly when some cell fails, and then with the first cell's error. */
  lemma {:induction false} RowAvroFailure<N>(t: AvroTypes<N>, cells: seq<Cell>, fields: seq<FieldSchema>)
    requires RowFits(cells, fields)
    ensures RowAvro(t, cells, fields).Ok? <==> forall i :: 0 <= i < |cells| ==> CellAvro(t, cells[i], fields[i]).Ok?
    ensures RowAvro(t, cells, fields).Err? ==>
              exists k :: 0 <= k < |cells| && CellAvro(t, cells[k], fields[k]) == Err(RowAvro(t, cells, fields).error)
                          && forall j :: 0 <= j < k ==> CellAvro(t, cells[j], fields[j]).Ok?
  {
    if |cells| > 0 {
      var n := |cells| - 1;
      var front := cells[..n];
      assert RowFits(front, fields);
      RowAvroFailure(t, front, fields);
      forall i | 0 <= i < n
        ensures CellAvro(t, front[i], fields[i]) == CellAvro(t, cells[i], fields[i])
      {
        assert front[i] == cells[i];
      }
      var m := RowAvro(t, front, fields);
      if m.Err? {
        assert RowAvro(t, cells, fields) == Err(m.error);
      } else {
        var last := CellAvro(t, cells[n], fields[n]);
        assert RowAvro(t, cells, fields).Err? <==> last.Err?;
        assert last.Err? ==> RowAvro(t, cells, fields).error == last.error;
      }
    }
  }

  /** In a successful encoding each name is bound to the encoding of the last cell carrying it,
      against that cell's own field. */
  lemma {:induction false} RowAvroValues<N>(t: AvroTypes<N>, cells: seq<Cell>, fields: seq<FieldSchema>)
    requires RowFits(cells, fields)
    requires RowAvro(t, cells, fields).Ok?
    ensures forall k :: k in RowAvro(t, cells, fields).value ==>
              LastIndex(cells, k) >= 0 &&
              CellAvro(t, cells[LastIndex(cells, k)], fields[LastIndex(cells, k)]) == Ok(RowAvro(t, cells, fields).value[k])
  {
    if |cells| > 0 {
      var n := |cells| - 1;
      var front := cells[..n];
      assert RowFits(front, fields);
      RowAvroValues(t, front, fields);
      var m := RowAvro(t, front, fields).value;
      var r := RowAvro(t, cells, fields).value;
      assert r == m[cells[n].name := CellAvro(t, cells[n], fields[n]).value];
      forall k | k in r
        ensures LastIndex(cells, k) >= 0 && CellAvro(t, cells[LastIndex(cells, k)], fields[LastIndex(cells, k)]) == Ok(r[k])
      {
        if k != cells[n].name {
          var j := LastIndex(front, k);
          assert LastIndex(cells, k) == j;
          assert cells[j] == front[j];
        }
      }
    }
  }

  /** Every cast succeeds. */
  ghost predicate CastTotal<N>(t: AvroTypes<N>) {
    forall f, s :: t.cast(f, s).Ok?
  }

  /** The union encoder refuses every tree the projector refuses (a non-text leaf anywhere), and
      when no cast fails it refuses nothing else. */
  lemma {:induction false} CellAvroAgreesWithData<N>(t: AvroTypes<N>, c: Cell, f: FieldSchema)
    requires CellFits(c, f)
    ensures CellAvro(t, c, f).Ok? ==> Projector.CellData(c).Ok?
    ensures CastTotal(t) && Projector.CellData(c).Ok? ==> CellAvro(t, c, f).Ok?
    decreases c, 1
  {
    match c.v
    case Struct(row) => RowAvroAgreesWithData(t, row.f, f.fields);
    case Array(elems) =>
      Projector.ElemsDataSpec(elems);
      ElemsAvroSpec(t, elems, f);
      forall i | 0 <= i < |elems|
        ensures CellAvro(t, elems[i], f).Ok? ==> Projector.CellData(elems[i]).Ok?
        ensures CastTotal(t) && Projector.CellData(elems[i]).Ok? ==> CellAvro(t, elems[i], f).Ok?
      {
        CellAvroAgreesWithData(t, elems[i], f);
      }
    case _ =>
  }

  lemma {:induction false} RowAvroAgreesWithData<N>(t: AvroTypes<N>, cells: seq<Cell>, fields: seq<FieldSchema>)
    requires RowFits(cells, fields)
    ensures RowAvro(t, cells, fields).Ok? ==> Projector.RowData(cells).Ok?
    ensures CastTotal(t) && Projector.RowData(cells).Ok? ==> RowAvro(t, cells, fields).Ok?
    decreases cells, 0
  {
    Projector.RowDataFailure(cells);
    RowAvroFailure(t, cells, fields);
    forall i | 0 <= i < |cells|
      ensures CellAvro(t, cells[i], fields[i]).Ok? ==> Projector.CellData(cells[i]).Ok?
      ensures CastTotal(t) && Projector.CellData(cells[i]).Ok? ==> CellAvro(t, cells[i], fields[i]).Ok?
    {
      CellAvroAgreesWithData(t, cells[i], fields[i]);
    }
  }
}
