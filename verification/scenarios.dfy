/** Worked cases of the encoders on small rows, stated for every choice of the external parsers
    that agrees with the values they would give. */
module Scenarios {
  import opened Results
  import opened Table
  import opened Decimal
  import Timestamps
  import Avro

  /** A REQUIRED TIMESTAMP holding "2023-01-01T00:00:00+00:00" (not a number, 1672531200 seconds
      after the epoch) becomes the text "1672531200000000" and keeps the field's name. */
  lemma NewYear2023(tp: Timestamps.TimeParsers, name: string)
    requires !tp.isFloat("2023-01-01T00:00:00+00:00")
    requires tp.parseLayout("2023-01-01T00:00:00+00:00") == 1672531200000000000
    ensures var f := FieldSchema(name, TimestampType, RequiredMode, []);
            Timestamps.FormatCell(tp, Cell(Scalar("2023-01-01T00:00:00+00:00"), 0, name), f)
              == Cell(Scalar("1672531200000000"), 0, name)
  {
    assert MicrosOf(1672531200000000000) == 1672531200000000;
    NewYear2023Micros();
  }

  lemma NewYear2023Micros()
    ensures Sprint(1672531200000000) == "1672531200000000"
  {
    NewYear2023Tail();
  }

  lemma NewYear2023Head()
    ensures Digits(16725312) == "16725312"
  {
    assert Digits(1) == "1";
    assert Digits(16) == "16";
    assert Digits(167) == "167";
    assert Digits(1672) == "1672";
    assert Digits(16725) == "16725";
    assert Digits(167253) == "167253";
    assert Digits(1672531) == "1672531";
    assert Digits(16725312) == "16725312";
  }

  lemma NewYear2023Tail()
    ensures Digits(1672531200000000) == "1672531200000000"
  {
    NewYear2023Head();
    assert Digits(167253120) == "167253120";
    assert Digits(1672531200) == "1672531200";
    assert Digits(16725312000) == "16725312000";
    assert Digits(167253120000) == "167253120000";
    assert Digits(1672531200000) == "1672531200000";
    assert Digits(16725312000000) == "16725312000000";
    assert Digits(167253120000000) == "167253120000000";
  }

  /** A row with a REQUIRED integer "1" and a NULLABLE timestamp that is null: integer
      timestamps leave it as it is, and it encodes to `{"id": 1, "t": {<timestamp key>: nil}}`. */
  lemma RequiredIdNullTimestamp(tp: Timestamps.TimeParsers, t: Avro.AvroTypes<int>)
    requires t.cast(FieldSchema("id", "INT64", RequiredMode, []), "1") == Ok(1)
    ensures var schema := [FieldSchema("id", "INT64", RequiredMode, []), FieldSchema("t", TimestampType, "NULLABLE", [])];
            var row := Row([Cell(Scalar("1"), 0, "id"), Cell(Null, 0, "t")]);
            && Timestamps.Format(tp, schema, [row], true) == [row]
            && Avro.RowAvro(t, row.f, schema) ==
                 Ok(map["id" := Avro.ANative(1), "t" := Avro.AMap(map[t.key(schema[1]) := Avro.ANil])])
  {
    var schema := [FieldSchema("id", "INT64", RequiredMode, []), FieldSchema("t", TimestampType, "NULLABLE", [])];
    var row := Row([Cell(Scalar("1"), 0, "id"), Cell(Null, 0, "t")]);
    assert Timestamps.FormatRow(tp, row.f, schema) == row.f;
    assert row.f[..1][..0] == [];
    assert Avro.RowAvro(t, row.f[..1], schema) == Ok(map["id" := Avro.ANative(1)]);
  }
}
