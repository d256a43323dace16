/** The columnar appender: the three `AppendValueToARROWBuilder` variants, which push a result
    row into a pre-shaped tree of Arrow column builders. Builders are reduced to their shape and
    every call the appender makes on them is recorded, in order, in an event log. */
module Arrow {
  import opened Results
  import opened Table

  /** A column builder, reduced to the kind the appender checks for. */
  datatype Builder =
    | StructBuilder(children: seq<Builder>)
    | ListBuilder(value: Builder)
    | ScalarBuilder(kind: string)

  /** `array.RecordBuilder`: one builder per top-level field. */
  datatype RecordBuilder = RecordBuilder(fields: seq<Builder>)

  /** Where a builder sits: field `i` of a record or struct builder, or a list's value builder. */
  datatype Step = Field(i: nat) | Elem

  /** One call on a builder: `Append(true)` on a struct or a list builder, or a call of the
      external scalar appender with the cell's text (`None` for nil). */
  datatype Event =
    | StructAppend(at: seq<Step>)
    | ListAppend(at: seq<Step>)
    | ScalarCall(at: seq<Step>, text: Option<string>)

  /** The external scalar appender (`types.AppendValueToARROWBuilder`): the error it reports for a
      builder and a text, if any. */
  type ScalarAppender = (Builder, Option<string>) -> Option<Error>

  /** The calls made and the error that stopped them, if any; calls are never undone. */
  datatype Appended = Appended(events: seq<Event>, err: Option<Error>)

  /** The appender indexes struct and record builders by cell position (`Field(idx)`,
      `FieldBuilder(idx)`); these say each index it can reach is in range, so none panics. */
  predicate CellIndexable(c: Cell, b: Builder) {
    match c.v
    case Struct(row) => b.StructBuilder? ==> FieldsIndexable(row.f, b.children)
    case Array(elems) => b.ListBuilder? ==> forall i :: 0 <= i < |elems| ==> CellIndexable(elems[i], b.value)
    case _ => true
  }

  predicate FieldsIndexable(cells: seq<Cell>, builders: seq<Builder>) {
    |cells| <= |builders| && forall i :: 0 <= i < |cells| ==> CellIndexable(cells[i], builders[i])
  }

  /** Every event of `events` concerns a builder at or below `at`. */
  predicate Below(events: seq<Event>, at: seq<Step>) {
    forall i :: 0 <= i < |events| ==> at <= events[i].at
  }

  /** `TableCell.AppendValueToARROWBuilder` with the builder found at `at`. */
  function AppendCell(app: ScalarAppender, c: Cell, b: Builder, at: seq<Step>): (r: Appended)
    requires CellIndexable(c, b)
    ensures Below(r.events, at)
    ensures c.v.Struct? && !b.StructBuilder? ==> r == Appended([], Some(NotStructBuilder))
    ensures c.v.Struct? && b.StructBuilder? ==>
              var rest := AppendFields(app, c.v.row.f, b.children, at);
              r == Appended([StructAppend(at)] + rest.events, rest.err)
    ensures c.v.Array? && !b.ListBuilder? ==> r == Appended([], Some(NotListBuilder))
    ensures c.v.Array? && b.ListBuilder? ==> r == AppendElems(app, c.v.elems, b.value, at)
    ensures c.v.Null? ==> r == Appended([ScalarCall(at, None)], app(b, None))
    ensures c.v.Scalar? ==> r == Appended([ScalarCall(at, Some(c.v.text))], app(b, Some(c.v.text)))
    ensures c.v.Other? ==> r == Appended([], Some(NotAString(c.v.tag)))
  {
    match c.v
    case Struct(row) =>
      if !b.StructBuilder? then Appended([], Some(NotStructBuilder))
      else
        var rest := AppendFields(app, row.f, b.children, at);
        Appended([StructAppend(at)] + rest.events, rest.err)
    case Array(elems) =>
      if !b.ListBuilder? then Appended([], Some(NotListBuilder))
      else AppendElems(app, elems, b.value, at)
    case Null => Appended([ScalarCall(at, None)], app(b, None))
    case Scalar(text) => Appended([ScalarCall(at, Some(text))], app(b, Some(text)))
    case Other(tag) => Appended([], Some(NotAString(tag)))
  }

  /** The array loop: for each element, `Append(true)` on the list builder at `at`, then the
      element into its value builder `vb`; the first failing element stops the loop. */
  function AppendElems(app: ScalarAppender, elems: seq<Cell>, vb: Builder, at: seq<Step>): (r: Appended)
    requires forall i :: 0 <= i < |elems| ==> CellIndexable(elems[i], vb)
    ensures Below(r.events, at)
  {
    if |elems| == 0 then Appended([], None)
    else
      var front := AppendElems(app, elems[..|elems| - 1], vb, at);
      if front.err.Some? then front
      else
        var last := AppendCell(app, elems[|elems| - 1], vb, at + [Elem]);
        Appended(front.events + [ListAppend(at)] + last.events, last.err)
  }

  /** `TableRow.appendValueToARROWBuilder`: cell `i` goes into `builders[i]`, in order, and the
      first failing cell stops the row. */
  function AppendFields(app: ScalarAppender, cells: seq<Cell>, builders: seq<Builder>, at: seq<Step>): (r: Appended)
    requires FieldsIndexable(cells, builders)
    ensures Below(r.events, at)
  {
    if |cells| == 0 then Appended([], None)
    else
      var n := |cells| - 1;
      var front := AppendFields(app, cells[..n], builders, at);
      if front.err.Some? then front
      else
        var last := AppendCell(app, cells[n], builders[n], at + [Field(n)]);
        Appended(front.events + last.events, last.err)
  }

  /** `TableRow.AppendValueToARROWBuilder`: the row's cells into the record builder's fields. It
      succeeds exactly when every cell does when appended on its own into its field's builder, and
      then it has made all their calls, in field order. */
  function AppendRecord(app: ScalarAppender, cells: seq<Cell>, rb: RecordBuilder): (r: Appended)
    requires FieldsIndexable(cells, rb.fields)
    ensures r.err.None? <==>
              forall i :: 0 <= i < |cells| ==> FieldAppend(app, cells, rb.fields, [], i).err.None?
    ensures r.err.None? ==> r.events == FieldsEvents(app, cells, rb.fields, [], |cells|)
  {
    AppendFieldsSuccess(app, cells, rb.fields, []);
    AppendFields(app, cells, rb.fields, [])
  }

  /** Cell `i` appended on its own into `builders[i]`. */
  function FieldAppend(app: ScalarAppender, cells: seq<Cell>, builders: seq<Builder>, at: seq<Step>, i: nat): Appended
    requires FieldsIndexable(cells, builders) && i < |cells|
  {
    AppendCell(app, cells[i], builders[i], at + [Field(i)])
  }

  /** The calls the first `k` cells make when each is appended on its own, with nothing stopping
      early. */
  function FieldsEvents(app: ScalarAppender, cells: seq<Cell>, builders: seq<Builder>, at: seq<Step>, k: nat): seq<Event>
    requires FieldsIndexable(cells, builders) && k <= |cells|
  {
    if k == 0 then []
    else FieldsEvents(app, cells, builders, at, k - 1) + FieldAppend(app, cells, builders, at, k - 1).events
  }

  /** Cell `k` is the first whose append fails. */
  predicate FailsFirstAt(app: ScalarAppender, cells: seq<Cell>, builders: seq<Builder>, at: seq<Step>, k: nat)
    requires FieldsIndexable(cells, builders)
  {
    && k < |cells|
    && (forall j :: 0 <= j < k ==> FieldAppend(app, cells, builders, at, j).err.None?)
    && FieldAppend(app, cells, builders, at, k).err.Some?
  }

  /** A row append succeeds exactly when every cell's append does, and then it has made all their
      calls, in field order. */
  lemma {:induction false} AppendFieldsSuccess(app: ScalarAppender, cells: seq<Cell>, builders: seq<Builder>, at: seq<Step>)
    requires FieldsIndexable(cells, builders)
    ensures AppendFields(app, cells, builders, at).err.None? <==>
              forall i :: 0 <= i < |cells| ==> FieldAppend(app, cells, builders, at, i).err.None?
    ensures AppendFields(app, cells, builders, at).err.None? ==>
              AppendFields(app, cells, builders, at).events == FieldsEvents(app, cells, builders, at, |cells|)
  {
    if |cells| > 0 {
      var n := |cells| - 1;
      var front := cells[..n];
      assert FieldsIndexable(front, builders);
      AppendFieldsSuccess(app, front, builders, at);
      SameFieldAppends(app, front, cells, builders, at);
      var f := AppendFields(app, front, builders, at);
      if f.err.Some? {
        assert AppendFields(app, cells, builders, at) == f;
        var i :| 0 <= i < n && FieldAppend(app, front, builders, at, i).err.Some?;
        assert FieldAppend(app, cells, builders, at, i).err.Some?;
      } else {
        var last := FieldAppend(app, cells, builders, at, n);
        assert AppendFields(app, cells, builders, at) == Appended(f.events + last.events, last.err);
        FieldsEventsAgree(app, front, cells, builders, at, n);
      }
    }
  }

  /** What a row append leaves when cell `k` fails: the calls of every cell before it, cell `k`'s
      own calls, and cell `k`'s error. */
  function StoppedAt(app: ScalarAppender, cells: seq<Cell>, builders: seq<Builder>, at: seq<Step>, k: nat): Appended
    requires FieldsIndexable(cells, builders) && k < |cells|
  {
    Appended(FieldsEvents(app, cells, builders, at, k) + FieldAppend(app, cells, builders, at, k).events,
             FieldAppend(app, cells, builders, at, k).err)
  }

  /** A failed row append stopped at the first failing cell `k`: the calls of every cell before it
      stay made, cell `k`'s calls follow, and the row reports cell `k`'s error. */
  lemma {:induction false} AppendFieldsFailure(app: ScalarAppender, cells: seq<Cell>, builders: seq<Builder>, at: seq<Step>)
    returns (k: nat)
    requires FieldsIndexable(cells, builders)
    requires AppendFields(app, cells, builders, at).err.Some?
    ensures FailsFirstAt(app, cells, builders, at, k)
    ensures AppendFields(app, cells, builders, at) == StoppedAt(app, cells, builders, at, k)
  {
    var n := |cells| - 1;
    var front := cells[..n];
    assert FieldsIndexable(front, builders);
    var f := AppendFields(app, front, builders, at);
    SameFieldAppends(app, front, cells, builders, at);
    if f.err.Some? {
      k := AppendFieldsFailure(app, front, builders, at);
      FieldsEventsAgree(app, front, cells, builders, at, k);
      assert StoppedAt(app, front, builders, at, k) == StoppedAt(app, cells, builders, at, k);
    } else {
      AppendFieldsSuccess(app, front, builders, at);
      FieldsEventsAgree(app, front, cells, builders, at, n);
      k := n;
    }
  }

  /** A row's leading cells are appended the same way on their own as within the whole row. */
  lemma SameFieldAppends(app: ScalarAppender, front: seq<Cell>, cells: seq<Cell>, builders: seq<Builder>, at: seq<Step>)
    requires FieldsIndexable(cells, builders) && |front| <= |cells| && front == cells[..|front|]
    ensures FieldsIndexable(front, builders)
    ensures forall j :: 0 <= j < |front| ==>
              FieldAppend(app, front, builders, at, j) == FieldAppend(app, cells, builders, at, j)
  {
    assert forall j :: 0 <= j < |front| ==> front[j] == cells[j];
  }

  /** The reference log of the first `k` cells looks at nothing after them. */
  lemma {:induction false} FieldsEventsAgree(app: ScalarAppender, cells: seq<Cell>, cells': seq<Cell>, builders: seq<Builder>, at: seq<Step>, k: nat)
    requires FieldsIndexable(cells, builders) && FieldsIndexable(cells', builders)
    requires k <= |cells| && k <= |cells'| && cells[..k] == cells'[..k]
    ensures FieldsEvents(app, cells, builders, at, k) == FieldsEvents(app, cells', builders, at, k)
  {
    if k > 0 {
      assert cells[..k - 1] == cells'[..k - 1] by {
        assert cells[..k - 1] == cells[..k][..k - 1];
        assert cells'[..k - 1] == cells'[..k][..k - 1];
      }
      assert cells[k - 1] == cells[..k][k - 1] == cells'[..k][k - 1] == cells'[k - 1];
      FieldsEventsAgree(app, cells, cells', builders, at, k - 1);
    }
  }

  /** A cell of the wrong shape for its builder stops the row with a shape error, after every
      earlier cell's calls have been made and are not undone. */
  lemma MismatchKeepsEarlierAppends(app: ScalarAppender, cells: seq<Cell>, builders: seq<Builder>, at: seq<Step>, k: nat)
    requires FieldsIndexable(cells, builders) && k < |cells|
    requires forall j :: 0 <= j < k ==> FieldAppend(app, cells, builders, at, j).err.None?
    requires cells[k].v.Struct? && !builders[k].StructBuilder?
    ensures AppendFields(app, cells, builders, at) == Appended(FieldsEvents(app, cells, builders, at, k), Some(NotStructBuilder))
  {
    assert FieldAppend(app, cells, builders, at, k) == Appended([], Some(NotStructBuilder));
    AppendFieldsSuccess(app, cells, builders, at);
    assert AppendFields(app, cells, builders, at).err.Some?;
    var k' := AppendFieldsFailure(app, cells, builders, at);
    assert FailsFirstAt(app, cells, builders, at, k);
    assert k' == k;
    assert FieldsEvents(app, cells, builders, at, k) + [] == FieldsEvents(app, cells, builders, at, k);
  }

  /** How many `Append(true)` calls the list builder at `at` received. */
  function ListAppends(events: seq<Event>, at: seq<Step>): nat {
    if |events| == 0 then 0
    else ListAppends(events[..|events| - 1], at) + (if events[|events| - 1] == ListAppend(at) then 1 else 0)
  }

  lemma {:induction false} ListAppendsConcat(xs: seq<Event>, ys: seq<Event>, at: seq<Step>)
    ensures ListAppends(xs + ys, at) == ListAppends(xs, at) + ListAppends(ys, at)
  {
    if |ys| > 0 {
      assert (xs + ys)[..|xs + ys| - 1] == xs + ys[..|ys| - 1];
      ListAppendsConcat(xs, ys[..|ys| - 1], at);
    } else {
      assert xs + ys == xs;
    }
  }

  lemma {:induction false} ListAppendsBelow(events: seq<Event>, at: seq<Step>)
    requires Below(events, at + [Elem])
    ensures ListAppends(events, at) == 0
  {
    if |events| > 0 {
      var last := events[|events| - 1];
      assert at + [Elem] <= last.at;
      assert |last.at| > |at|;
      ListAppendsBelow(events[..|events| - 1], at);
    }
  }

  /** Element `i` appended on its own into the list's value builder `vb`. */
  function ElemAppend(app: ScalarAppender, elems: seq<Cell>, vb: Builder, at: seq<Step>, i: nat): (r: Appended)
    requires forall j :: 0 <= j < |elems| ==> CellIndexable(elems[j], vb)
    requires i < |elems|
    ensures Below(r.events, at + [Elem])
  {
    AppendCell(app, elems[i], vb, at + [Elem])
  }

  /** Element `k` is the first whose append fails. */
  predicate ElemFailsFirstAt(app: ScalarAppender, elems: seq<Cell>, vb: Builder, at: seq<Step>, k: nat)
    requires forall j :: 0 <= j < |elems| ==> CellIndexable(elems[j], vb)
  {
    && k < |elems|
    && (forall j :: 0 <= j < k ==> ElemAppend(app, elems, vb, at, j).err.None?)
    && ElemAppend(app, elems, vb, at, k).err.Some?
  }

  /** The calls the first `k` elements make when each is preceded by its own `Append(true)` on
      the list builder at `at` and nothing stops early. */
  function ElemsEvents(app: ScalarAppender, elems: seq<Cell>, vb: Builder, at: seq<Step>, k: nat): seq<Event>
    requires forall j :: 0 <= j < |elems| ==> CellIndexable(elems[j], vb)
    requires k <= |elems|
  {
    if k == 0 then []
    else ElemsEvents(app, elems, vb, at, k - 1) + [ListAppend(at)] + ElemAppend(app, elems, vb, at, k - 1).events
  }

  /** A successful array append makes, element after element, one `Append(true)` on the list
      builder followed by that element's own calls into the value builder. */
  lemma {:induction false} AppendElemsSuccess(app: ScalarAppender, elems: seq<Cell>, vb: Builder, at: seq<Step>)
    requires forall i :: 0 <= i < |elems| ==> CellIndexable(elems[i], vb)
    requires AppendElems(app, elems, vb, at).err.None?
    ensures AppendElems(app, elems, vb, at).events == ElemsEvents(app, elems, vb, at, |elems|)
  {
    if |elems| > 0 {
      var n := |elems| - 1;
      var front := elems[..n];
      AppendElemsSuccess(app, front, vb, at);
      ElemsEventsAgree(app, front, elems, vb, at, n);
      assert ElemAppend(app, elems, vb, at, n) == AppendCell(app, elems[n], vb, at + [Elem]);
    }
  }

  /** The reference log of the first `k` elements looks at nothing after them. */
  lemma {:induction false} ElemsEventsAgree(app: ScalarAppender, elems: seq<Cell>, elems': seq<Cell>, vb: Builder, at: seq<Step>, k: nat)
    requires forall j :: 0 <= j < |elems| ==> CellIndexable(elems[j], vb)
    requires forall j :: 0 <= j < |elems'| ==> CellIndexable(elems'[j], vb)
    requires k <= |elems| && k <= |elems'| && elems[..k] == elems'[..k]
    ensures ElemsEvents(app, elems, vb, at, k) == ElemsEvents(app, elems', vb, at, k)
  {
    if k > 0 {
      assert elems[..k - 1] == elems'[..k - 1] by {
        assert elems[..k - 1] == elems[..k][..k - 1];
        assert elems'[..k - 1] == elems'[..k][..k - 1];
      }
      assert elems[k - 1] == elems[..k][k - 1] == elems'[..k][k - 1] == elems'[k - 1];
      ElemsEventsAgree(app, elems, elems', vb, at, k - 1);
    }
  }

  /** An array append succeeds exactly when every element's append does. */
  lemma {:induction false} AppendElemsOk(app: ScalarAppender, elems: seq<Cell>, vb: Builder, at: seq<Step>)
    requires forall i :: 0 <= i < |elems| ==> CellIndexable(elems[i], vb)
    ensures AppendElems(app, elems, vb, at).err.None? <==>
              forall i :: 0 <= i < |elems| ==> ElemAppend(app, elems, vb, at, i).err.None?
  {
    if |elems| > 0 {
      var n := |elems| - 1;
      var front := elems[..n];
      AppendElemsOk(app, front, vb, at);
      forall j | 0 <= j < n
        ensures ElemAppend(app, front, vb, at, j) == ElemAppend(app, elems, vb, at, j)
      {
        assert front[j] == elems[j];
      }
      var f := AppendElems(app, front, vb, at);
      if f.err.Some? {
        assert AppendElems(app, elems, vb, at) == f;
        var i :| 0 <= i < n && ElemAppend(app, front, vb, at, i).err.Some?;
        assert ElemAppend(app, elems, vb, at, i).err.Some?;
      } else {
        var last := ElemAppend(app, elems, vb, at, n);
        assert AppendElems(app, elems, vb, at).err == last.err;
      }
    }
  }

  /** A successful array append tells the list builder of exactly as many new elements as the
      array holds. */
  lemma AppendElemsCount(app: ScalarAppender, elems: seq<Cell>, vb: Builder, at: seq<Step>)
    requires forall i :: 0 <= i < |elems| ==> CellIndexable(elems[i], vb)
    requires AppendElems(app, elems, vb, at).err.None?
    ensures ListAppends(AppendElems(app, elems, vb, at).events, at) == |elems|
  {
    AppendElemsSuccess(app, elems, vb, at);
    ElemsEventsCount(app, elems, vb, at, |elems|);
  }

  /** The reference log of `k` elements holds exactly `k` signals for the list builder at `at`. */
  lemma {:induction false} ElemsEventsCount(app: ScalarAppender, elems: seq<Cell>, vb: Builder, at: seq<Step>, k: nat)
    requires forall i :: 0 <= i < |elems| ==> CellIndexable(elems[i], vb)
    requires k <= |elems|
    ensures ListAppends(ElemsEvents(app, elems, vb, at, k), at) == k
  {
    if k > 0 {
      ElemsEventsCount(app, elems, vb, at, k - 1);
      var before := ElemsEvents(app, elems, vb, at, k - 1);
      var e := ElemAppend(app, elems, vb, at, k - 1);
      assert ElemsEvents(app, elems, vb, at, k) == before + [ListAppend(at)] + e.events;
      ElemStepCount(before, e.events, at);
    }
  }

  /** A failed array append stopped at the first failing element `k`. The list builder was told
      of `k + 1` new elements, the earlier ones and the failing one. The earlier elements' calls
      remain in the log, followed by the failing element's own calls, and its error is reported. */
  lemma AppendElemsFailure(app: ScalarAppender, elems: seq<Cell>, vb: Builder, at: seq<Step>)
    returns (k: nat)
    requires forall i :: 0 <= i < |elems| ==> CellIndexable(elems[i], vb)
    requires AppendElems(app, elems, vb, at).err.Some?
    ensures ElemFailsFirstAt(app, elems, vb, at, k)
    ensures AppendElems(app, elems, vb, at).err == ElemAppend(app, elems, vb, at, k).err
    ensures ListAppends(AppendElems(app, elems, vb, at).events, at) == k + 1
    ensures AppendElems(app, elems, vb, at).events ==
              ElemsEvents(app, elems, vb, at, k) + [ListAppend(at)] + ElemAppend(app, elems, vb, at, k).events
  {
    k := AppendElemsStops(app, elems, vb, at);
    ElemsEventsCount(app, elems, vb, at, k);
    ElemStepCount(ElemsEvents(app, elems, vb, at, k), ElemAppend(app, elems, vb, at, k).events, at);
  }

  /** The log of a failed array append, element by element up to the first failing one. */
  lemma {:induction false} AppendElemsStops(app: ScalarAppender, elems: seq<Cell>, vb: Builder, at: seq<Step>)
    returns (k: nat)
    requires forall i :: 0 <= i < |elems| ==> CellIndexable(elems[i], vb)
    requires AppendElems(app, elems, vb, at).err.Some?
    ensures ElemFailsFirstAt(app, elems, vb, at, k)
    ensures AppendElems(app, elems, vb, at) ==
              Appended(ElemsEvents(app, elems, vb, at, k) + [ListAppend(at)] + ElemAppend(app, elems, vb, at, k).events,
                       ElemAppend(app, elems, vb, at, k).err)
  {
    var n := |elems| - 1;
    var front := elems[..n];
    forall j | 0 <= j < n
      ensures ElemAppend(app, front, vb, at, j) == ElemAppend(app, elems, vb, at, j)
    {
      assert front[j] == elems[j];
    }
    var f := AppendElems(app, front, vb, at);
    if f.err.Some? {
      k := AppendElemsStops(app, front, vb, at);
      ElemsEventsAgree(app, front, elems, vb, at, k);
    } else {
      AppendElemsOk(app, front, vb, at);
      AppendElemsSuccess(app, front, vb, at);
      ElemsEventsAgree(app, front, elems, vb, at, n);
      k := n;
    }
  }

  /** One more loop step adds exactly one signal for the list builder at `at`: the element's own
      calls all happen below it. */
  lemma ElemStepCount(before: seq<Event>, elem: seq<Event>, at: seq<Step>)
    requires Below(elem, at + [Elem])
    ensures ListAppends(before + [ListAppend(at)] + elem, at) == ListAppends(before, at) + 1
  {
    ListAppendsConcat(before + [ListAppend(at)], elem, at);
    ListAppendsConcat(before, [ListAppend(at)], at);
    assert ListAppends([ListAppend(at)], at) == 1 by {
      assert [ListAppend(at)][..0] == [];
    }
    ListAppendsBelow(elem, at);
  }
}
