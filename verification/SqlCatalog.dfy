/**
 Tables in one shared keyspace: how a table id and a primary key share a storage
 key, how the other columns are packed into the value, and what the packed rows of
 a table amount to.
 */
module SqlCatalog {
  import opened BTreeShape

  datatype Cell = Int(i: Key) | Text(s: string)
  datatype ColumnType = Integer | Varchar
  datatype Column = Column(name: string, kind: ColumnType)

  /** The first column is the primary key. */
  datatype Schema = Schema(name: string, tableId: nat, columns: seq<Column>)

  type Row = seq<Cell>

  datatype Result<+T> = Ok(value: T) | Error(problem: Problem)

  datatype Problem =
    | NoColumns | DuplicateTable | NoSuchTable | NoSuchColumn | TypeMismatch | KeyNotInteger | KeyOutOfRange
    | WrongArity | TextTooLong | RowTooLong | CorruptRow

  const ROWS: int := 0x1_0000_0000_0000
  const TABLES: int := 0x1_0000
  const WORD: int := 0x1_0000_0000_0000_0000
  const MAX_TEXT: nat := 0xFFFF
  const MAX_ROW: nat := 64

  // ---------------------------------------------------------------------
  // Keys
  // ---------------------------------------------------------------------

  /** The table id in the top 16 bits, the low 48 bits of the primary key below, as a
      signed 64-bit number. */
  function EncodeKey(tableId: nat, pk: int): (key: Key)
    requires tableId < TABLES
    ensures DecodeTableId(key) == tableId && DecodeRowKey(key) == pk % ROWS
  {
    var u := tableId * ROWS + pk % ROWS;
    if u < HIGH then u else u - WORD
  }

  function DecodeRowKey(key: Key): (r: int)
    ensures 0 <= r < ROWS
  {
    key % ROWS
  }

  function DecodeTableId(key: Key): (t: nat)
    ensures t < TABLES
  {
    key % WORD / ROWS
  }

  /** The two decoders lose nothing. */
  lemma KeyIsItsParts(key: Key)
    ensures EncodeKey(DecodeTableId(key), DecodeRowKey(key)) == key
  {
    var u := key % WORD;
    assert u % ROWS == key % ROWS;
  }

  lemma EncodeIsOffset(tableId: nat, pk: int)
    requires tableId < TABLES && 0 <= pk < ROWS
    ensures EncodeKey(tableId, pk) == EncodeKey(tableId, 0) + pk
  {
    assert tableId * ROWS + pk < HIGH <==> tableId < 0x8000;
  }

  /** A table's keys are in row order, and no other table's key lies between them. */
  lemma TableIsContiguous(tableId: nat, a: int, b: int, key: Key)
    requires tableId < TABLES && 0 <= a < ROWS && 0 <= b < ROWS
    ensures a < b <==> EncodeKey(tableId, a) < EncodeKey(tableId, b)
    ensures EncodeKey(tableId, a) <= key <= EncodeKey(tableId, b) ==>
              DecodeTableId(key) == tableId && a <= DecodeRowKey(key) <= b
  {
    EncodeIsOffset(tableId, a);
    EncodeIsOffset(tableId, b);
    var r := key - EncodeKey(tableId, 0);
    if a <= r <= b { EncodeIsOffset(tableId, r); }
  }

  // ---------------------------------------------------------------------
  // Cells as bytes
  // ---------------------------------------------------------------------

  /** The low `n` bytes of a number, least significant first. */
  function Bytes(u: nat, n: nat): (s: string)
    ensures |s| == n
  {
    if n == 0 then "" else [(u % 256) as char] + Bytes(u / 256, n - 1)
  }

  function Number(s: string): nat {
    if s == "" then 0 else s[0] as int + 256 * Number(s[1..])
  }

  function Pow256(n: nat): nat {
    if n == 0 then 1 else 256 * Pow256(n - 1)
  }

  lemma {:induction false} NumberOfBytes(u: nat, n: nat)
    requires u < Pow256(n)
    ensures Number(Bytes(u, n)) == u
  {
    if n > 0 {
      NumberOfBytes(u / 256, n - 1);
      assert Bytes(u, n)[1..] == Bytes(u / 256, n - 1);
    }
  }

  function EncodeInt(i: Key): string {
    Bytes(i % WORD, 8)
  }

  function DecodeInt(s: string): Key {
    var u := Number(s) % WORD;
    if u < HIGH then u else u - WORD
  }

  lemma IntRoundTrip(i: Key)
    ensures DecodeInt(EncodeInt(i)) == i
  {
    assert Pow256(8) == WORD by {
      assert Pow256(4) == 0x1_0000_0000;
      assert Pow256(8) == 256 * (256 * (256 * (256 * Pow256(4))));
    }
    NumberOfBytes(i % WORD, 8);
  }

  function EncodeCell(kind: ColumnType, c: Cell): Result<string> {
    match kind
    case Integer => if c.Int? then Ok(EncodeInt(c.i)) else Error(TypeMismatch)
    case Varchar =>
      if !c.Text? then Error(TypeMismatch)
      else if |c.s| > MAX_TEXT then Error(TextTooLong)
      else Ok(Bytes(|c.s|, 2) + c.s)
  }

  /** The first cell of the payload, and how many bytes it takes. */
  function DecodeCell(kind: ColumnType, payload: string): (r: Result<(Cell, nat)>)
    ensures r.Ok? ==> r.value.1 <= |payload|
  {
    match kind
    case Integer => if |payload| < 8 then Error(CorruptRow) else Ok((Int(DecodeInt(payload[..8])), 8))
    case Varchar =>
      if |payload| < 2 then Error(CorruptRow)
      else
        var n := Number(payload[..2]);
        if |payload| < 2 + n then Error(CorruptRow) else Ok((Text(payload[2..2 + n]), 2 + n))
  }

  lemma CellRoundTrip(kind: ColumnType, c: Cell, rest: string)
    requires EncodeCell(kind, c).Ok?
    ensures var p := EncodeCell(kind, c).value; DecodeCell(kind, p + rest) == Ok((c, |p|))
  {
    var p := EncodeCell(kind, c).value;
    if c.Int? {
      IntRoundTrip(c.i);
      assert (p + rest)[..8] == p;
    } else {
      var n := |c.s|;
      assert Pow256(2) == 0x1_0000 by { assert Pow256(1) == 256; }
      NumberOfBytes(n, 2);
      assert (p + rest)[..2] == Bytes(n, 2) && (p + rest)[2..2 + n] == c.s;
    }
  }

  // ---------------------------------------------------------------------
  // Rows as payloads
  // ---------------------------------------------------------------------

  /** The cells from column `i` on, strung together. */
  function EncodeCells(columns: seq<Column>, values: Row, i: nat): Result<string>
    requires |values| == |columns| && i <= |columns|
    decreases |columns| - i
  {
    if i == |columns| then Ok("")
    else
      var c := EncodeCell(columns[i].kind, values[i]);
      if c.Error? then Error(c.problem)
      else
        var rest := EncodeCells(columns, values, i + 1);
        if rest.Error? then rest else Ok(c.value + rest.value)
  }

  /** A cell that a column can hold. */
  predicate CellFits(kind: ColumnType, c: Cell) {
    match kind
    case Integer => c.Int?
    case Varchar => c.Text? && |c.s| <= 65535
  }

  /** The bytes the cells from column `i` on take up. */
  function Width(values: Row, i: nat): nat
    requires i <= |values|
    decreases |values| - i
  {
    if i == |values| then 0
    else (if values[i].Int? then 8 else 2 + |values[i].s|) + Width(values, i + 1)
  }

  /** What a table accepts besides the primary key: a cell for every column that the
      column can hold, 64 bytes in all. */
  predicate RowFits(columns: seq<Column>, values: Row) {
    && |values| == |columns| > 0
    && (forall i | 1 <= i < |columns| :: CellFits(columns[i].kind, values[i]))
    && Width(values, 1) <= 64
  }

  /** Packing fails for no other reason, and takes that many bytes. */
  lemma {:induction false} EncodesIff(columns: seq<Column>, values: Row, i: nat)
    requires |values| == |columns| && i <= |columns|
    ensures EncodeCells(columns, values, i).Ok? <==> forall j | i <= j < |columns| :: CellFits(columns[j].kind, values[j])
    ensures EncodeCells(columns, values, i).Ok? ==> |EncodeCells(columns, values, i).value| == Width(values, i)
    decreases |columns| - i
  {
    if i < |columns| {
      EncodesIff(columns, values, i + 1);
      assert EncodeCell(columns[i].kind, values[i]).Ok? <==> CellFits(columns[i].kind, values[i]);
    }
  }

  /** The cells of the columns from `i` on; what follows them is ignored. */
  function DecodeCells(columns: seq<Column>, payload: string, i: nat): Result<Row>
    requires i <= |columns|
    decreases |columns| - i
  {
    if i == |columns| then Ok([])
    else
      var c := DecodeCell(columns[i].kind, payload);
      if c.Error? then Error(c.problem)
      else
        var rest := DecodeCells(columns, payload[c.value.1..], i + 1);
        if rest.Error? then rest else Ok([c.value.0] + rest.value)
  }

  predicate SchemaOk(schema: Schema) {
    schema.tableId < TABLES && |schema.columns| > 0 && schema.columns[0].kind == Integer
  }

  function RowOf(schema: Schema, pk: Key, payload: string): Result<Row>
    requires SchemaOk(schema)
  {
    var cells := DecodeCells(schema.columns, payload, 1);
    if cells.Error? then cells else Ok([Int(pk)] + cells.value)
  }

  /** A row fits its schema. */
  predicate Typed(schema: Schema, row: Row) {
    && |row| == |schema.columns|
    && forall i | 0 <= i < |row| :: if schema.columns[i].kind.Integer? then row[i].Int? else row[i].Text?
  }

  lemma {:induction false} CellsRoundTrip(columns: seq<Column>, values: Row, i: nat, rest: string)
    requires |values| == |columns| && i <= |columns| && EncodeCells(columns, values, i).Ok?
    ensures DecodeCells(columns, EncodeCells(columns, values, i).value + rest, i) == Ok(values[i..])
    decreases |columns| - i
  {
    if i == |columns| {
      assert values[i..] == [];
    } else {
      assert values[i..] == [values[i]] + values[i + 1..];
      var c, more := EncodeCell(columns[i].kind, values[i]).value, EncodeCells(columns, values, i + 1).value;
      var p := EncodeCells(columns, values, i).value;
      assert p + rest == c + (more + rest);
      CellRoundTrip(columns[i].kind, values[i], more + rest);
      assert (c + (more + rest))[|c|..] == more + rest;
      CellsRoundTrip(columns, values, i + 1, rest);
    }
  }

  lemma {:induction false} DecodedIsTyped(columns: seq<Column>, payload: string, i: nat)
    requires i <= |columns| && DecodeCells(columns, payload, i).Ok?
    ensures var row := DecodeCells(columns, payload, i).value;
            |row| == |columns| - i
            && forall j | 0 <= j < |row| :: if columns[i + j].kind.Integer? then row[j].Int? else row[j].Text?
    decreases |columns| - i
  {
    if i < |columns| {
      DecodedIsTyped(columns, payload[DecodeCell(columns[i].kind, payload).value.1..], i + 1);
    }
  }

  lemma RowIsTyped(schema: Schema, pk: Key, payload: string)
    requires SchemaOk(schema) && RowOf(schema, pk, payload).Ok?
    ensures Typed(schema, RowOf(schema, pk, payload).value)
  {
    DecodedIsTyped(schema.columns, payload, 1);
  }

  /** Packs all but the primary key. */
  method EncodeRow(schema: Schema, values: Row) returns (r: Result<string>)
    requires SchemaOk(schema)
    ensures r.Ok? <==> RowFits(schema.columns, values)
    ensures r.Ok? ==> |r.value| == Width(values, 1) && forall pk :: RowOf(schema, pk, r.value) == Ok([Int(pk)] + values[1..])
  {
    var columns := schema.columns;
    if |values| != |columns| {
      return Error(WrongArity);
    }
    EncodesIff(columns, values, 1);
    var payload := "";
    var i := 1;
    while i < |columns|
      invariant 1 <= i <= |columns|
      invariant var all, rest := EncodeCells(columns, values, 1), EncodeCells(columns, values, i);
                && (all.Ok? <==> rest.Ok?) && (rest.Ok? ==> all.value == payload + rest.value)
    {
      var c := EncodeCell(columns[i].kind, values[i]);
      if c.Error? {
        return Error(c.problem);
      }
      payload := payload + c.value;
      i := i + 1;
    }
    if |payload| > MAX_ROW {
      return Error(RowTooLong);
    }
    forall pk ensures RowOf(schema, pk, payload) == Ok([Int(pk)] + values[1..]) {
      CellsRoundTrip(columns, values, 1, "");
      assert payload + "" == payload;
    }
    r := Ok(payload);
  }

  method DecodeRow(schema: Schema, pk: Key, payload: string) returns (r: Result<Row>)
    requires SchemaOk(schema)
    ensures r == RowOf(schema, pk, payload)
  {
    var values := [Int(pk)];
    var offset, i := 0, 1;
    while i < |schema.columns|
      invariant 1 <= i <= |schema.columns| && 0 <= offset <= |payload| && |values| == i
      invariant var rest := DecodeCells(schema.columns, payload[offset..], i);
                RowOf(schema, pk, payload) == if rest.Error? then rest else Ok(values + rest.value)
    {
      var c := DecodeCell(schema.columns[i].kind, payload[offset..]);
      if c.Error? {
        return Error(c.problem);
      }
      ghost var next := payload[offset + c.value.1..];
      assert payload[offset..][c.value.1..] == next;
      ghost var rest := DecodeCells(schema.columns, next, i + 1);
      if rest.Ok? { assert values + ([c.value.0] + rest.value) == values + [c.value.0] + rest.value; }
      values := values + [c.value.0];
      offset := offset + c.value.1;
      i := i + 1;
    }
    assert values + [] == values;
    r := Ok(values);
  }

  // ---------------------------------------------------------------------
  // A table in the keyspace
  // ---------------------------------------------------------------------

  /** Every payload stored under the table's id unpacks. */
  ghost predicate WellStored(schema: Schema, contents: map<Key, Value>)
    requires SchemaOk(schema)
  {
    forall pk {:trigger RowAt(schema, contents, pk)} | 0 <= pk < ROWS && EncodeKey(schema.tableId, pk) in contents ::
      RowAt(schema, contents, pk).Ok?
  }

  function RowAt(schema: Schema, contents: map<Key, Value>, pk: int): Result<Row>
    requires SchemaOk(schema) && 0 <= pk < ROWS && EncodeKey(schema.tableId, pk) in contents
  {
    RowOf(schema, pk, contents[EncodeKey(schema.tableId, pk)])
  }

  /** The table has the row `row` under the key `pk`. */
  ghost predicate HasRow(schema: Schema, contents: map<Key, Value>, pk: int, row: Row)
    requires SchemaOk(schema)
  {
    0 <= pk < ROWS && EncodeKey(schema.tableId, pk) in contents && RowAt(schema, contents, pk) == Ok(row)
  }
}
