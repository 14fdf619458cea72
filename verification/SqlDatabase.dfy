/**
 Statements over several tables that share one B+-tree: each acts on the rows of
 its own table as on a relation and leaves the other tables alone, as long as no
 more than 65536 tables have been created.
 */
module SqlDatabase {
  import opened Common
  import opened BTreeShape
  import opened BTreeSizes
  import opened BPlusTree
  import opened SqlCatalog
  import opened SqlPlanner
  import opened SqlExecutor

  /** The selected columns of a row; all of them for `*`. */
  function Projected(schema: Schema, columns: Option<seq<string>>, row: Row): Row
    requires |row| == |schema.columns| && ColumnsExist(schema, columns)
  {
    if columns.None? then row
    else seq(|columns.value|, i requires 0 <= i < |columns.value| => row[ColumnIndex(schema.columns, columns.value[i])])
  }

  predicate ColumnsExist(schema: Schema, columns: Option<seq<string>>) {
    columns.Some? ==> forall i | 0 <= i < |columns.value| :: ColumnIndex(schema.columns, columns.value[i]) >= 0
  }

  /** Rows in the order of their keys, without repetition. */
  ghost predicate KeysAscend(schema: Schema, rows: seq<Row>)
    requires SchemaOk(schema)
  {
    && (forall a | 0 <= a < |rows| :: Typed(schema, rows[a]))
    && (forall a, b | 0 <= a < b < |rows| :: KeyBelow(schema, rows[a], rows[b]))
  }

  ghost predicate KeyBelow(schema: Schema, x: Row, y: Row)
    requires SchemaOk(schema)
  {
    Typed(schema, x) && Typed(schema, y) && x[0].i < y[0].i
  }

  /** Writing under one table's key does not show in another's rows. */
  lemma OtherTableKept(schema: Schema, before: map<Key, Value>, after: map<Key, Value>, id: nat)
    requires SchemaOk(schema) && id < TABLES && schema.tableId != id
    requires forall k: Key | DecodeTableId(k) != id :: Get(after, k) == Get(before, k)
    ensures forall pk, row :: HasRow(schema, after, pk, row) <==> HasRow(schema, before, pk, row)
    ensures WellStored(schema, before) ==> WellStored(schema, after)
  {
    forall pk | 0 <= pk < ROWS ensures Get(after, EncodeKey(schema.tableId, pk)) == Get(before, EncodeKey(schema.tableId, pk)) {
      assert DecodeTableId(EncodeKey(schema.tableId, pk)) != id;
    }
    if WellStored(schema, before) {
      forall pk | 0 <= pk < ROWS && EncodeKey(schema.tableId, pk) in after ensures RowAt(schema, after, pk).Ok? {
        assert Get(after, EncodeKey(schema.tableId, pk)) == Get(before, EncodeKey(schema.tableId, pk));
        assert RowAt(schema, before, pk).Ok?;
      }
    }
  }

  class Database {
    var tables: map<string, Schema>
    var nextTableId: nat
    const engine: Tree
    ghost var names: seq<string>

    /** Tables are numbered in the order of their creation, and no two share a number. */
    ghost predicate Distinct()
      reads this
    {
      forall n {:trigger tables[n]} | n in tables :: tables[n].tableId < |names| && names[tables[n].tableId] == n
    }

    ghost predicate TablesOk()
      reads this, engine
    {
      forall n {:trigger tables[n]} | n in tables :: SchemaOk(tables[n]) && WellStored(tables[n], engine.contents)
    }

    /** Every stored key belongs to a table. */
    ghost predicate NoOrphans()
      reads this, engine
    {
      forall k | k in engine.contents :: DecodeTableId(k) < |names|
    }

    ghost predicate Valid()
      reads this, engine
    {
      && engine.Valid() && |names| <= TABLES && nextTableId == |names| % TABLES
      && (forall i | 0 <= i < |names| :: names[i] in tables && tables[names[i]].tableId == i)
      && Distinct() && TablesOk() && NoOrphans()
    }

    /** Table `n` has row `row` under `pk`. */
    ghost predicate Has(n: string, pk: int, row: Row)
      requires n in tables && SchemaOk(tables[n])
      reads this, engine
    {
      HasRow(tables[n], engine.contents, pk, row)
    }

    constructor (limits: Limits)
      requires LimitsOk(limits)
      ensures Valid() && tables == map[] && names == [] && engine.contents == map[] && fresh(engine)
    {
      engine := new Tree(limits);
      tables, nextTableId, names := map[], 0, [];
    }

    /** The engine holds `payload` for row `pk` of table `n`. */
    ghost predicate Stores(n: string, pk: int, payload: Value)
      requires n in tables && SchemaOk(tables[n])
      reads this, engine
    {
      0 <= pk < ROWS && Get(engine.contents, EncodeKey(tables[n].tableId, pk)) == Some(payload)
    }

    /** Table `n` has the rows of table `first`, read by its own columns. */
    ghost predicate Shares(n: string, first: string)
      reads this, engine
    {
      && n in tables && SchemaOk(tables[n]) && first in tables && SchemaOk(tables[first])
      && forall pk, row :: Has(n, pk, row) <==>
           exists payload :: Stores(first, pk, payload) && RowOf(tables[n], pk, payload) == Ok(row)
    }

    /** The counter is 16 bits wide and wraps: the test for a full catalog never fires.
        Numbers stay distinct exactly until 65536 tables have been created; one table
        more has the rows of the first, read by its own columns. */
    method CreateTable(name: string, columns: seq<Column>) returns (r: Result<nat>)
      requires Valid()
      modifies this
      ensures r == if columns == [] then Error(NoColumns)
                   else if !columns[0].kind.Integer? then Error(KeyNotInteger)
                   else if name in old(tables) then Error(DuplicateTable)
                   else Ok(old(nextTableId))
      ensures r.Error? ==> Valid() && tables == old(tables) && names == old(names)
      ensures r.Ok? ==> tables == old(tables)[name := Schema(name, r.value, columns)] && names == old(names) + [name]
      ensures r.Ok? ==> (Distinct() <==> |old(names)| < TABLES)
      ensures r.Ok? && |old(names)| < TABLES ==> Valid() && forall pk, row :: !Has(name, pk, row)
      ensures r.Ok? && |old(names)| == TABLES ==>
                names[0] != name && names[0] in tables && tables[names[0]].tableId == r.value && Shares(name, names[0])
    {
      if columns == [] {
        return Error(NoColumns);
      }
      if !columns[0].kind.Integer? {
        return Error(KeyNotInteger);
      }
      if name in tables {
        return Error(DuplicateTable);
      }
      var schema := Schema(name, nextTableId, columns);
      ghost var tables0, names0 := tables, names;
      tables := tables[name := schema];
      nextTableId := (nextTableId + 1) % TABLES;
      names := names + [name];
      if |names0| < TABLES {
        NewTableIsEmpty(schema);
        NumbersStayDistinct(tables0, names0, schema);
      } else {
        NumberIsTaken(tables0, names0, schema);
        SharesRows(schema);
      }
      r := Ok(schema.tableId);
    }

    lemma NumbersStayDistinct(tables0: map<string, Schema>, names0: seq<string>, schema: Schema)
      requires schema.name !in tables0 && schema.tableId == |names0|
      requires tables == tables0[schema.name := schema] && names == names0 + [schema.name]
      requires forall n {:trigger tables0[n]} | n in tables0 :: tables0[n].tableId < |names0| && names0[tables0[n].tableId] == n
      requires forall i | 0 <= i < |names0| :: names0[i] in tables0 && tables0[names0[i]].tableId == i
      ensures Distinct() && forall i | 0 <= i < |names| :: names[i] in tables && tables[names[i]].tableId == i
    {
      forall n | n in tables ensures tables[n].tableId < |names| && names[tables[n].tableId] == n {
        if n != schema.name { assert tables[n] == tables0[n]; }
      }
    }

    lemma NumberIsTaken(tables0: map<string, Schema>, names0: seq<string>, schema: Schema)
      requires schema.name !in tables0 && schema.tableId < |names0|
      requires tables == tables0[schema.name := schema] && names == names0 + [schema.name]
      requires forall i | 0 <= i < |names0| :: names0[i] in tables0 && tables0[names0[i]].tableId == i
      ensures !Distinct()
    {
      var taken := names0[schema.tableId];
      assert taken in tables0 && names[schema.tableId] == taken;
      assert tables[schema.name] == schema;
    }

    /** Two tables of one number share every row. */
    lemma SharesRows(schema: Schema)
      requires SchemaOk(schema) && schema.tableId == 0 && schema.name in tables && tables[schema.name] == schema
      requires |names| > 0 && names[0] in tables && SchemaOk(tables[names[0]]) && tables[names[0]].tableId == 0
      ensures Shares(schema.name, names[0])
    {
      forall pk, row ensures Has(schema.name, pk, row) <==>
                             exists payload :: Stores(names[0], pk, payload) && RowOf(schema, pk, payload) == Ok(row)
      {
        if Has(schema.name, pk, row) {
          assert Stores(names[0], pk, engine.contents[EncodeKey(0, pk)]);
        }
      }
    }

    lemma NewTableIsEmpty(schema: Schema)
      requires SchemaOk(schema) && forall k | k in engine.contents :: DecodeTableId(k) < schema.tableId
      ensures forall pk, row :: !HasRow(schema, engine.contents, pk, row)
      ensures WellStored(schema, engine.contents)
    {
      forall pk: int ensures EncodeKey(schema.tableId, pk) !in engine.contents {
        assert DecodeTableId(EncodeKey(schema.tableId, pk)) == schema.tableId;
      }
    }

    method Insert(name: string, values: Row) returns (r: Result<()>)
      requires Valid()
      modifies engine
      ensures Valid()
      ensures r.Ok? <==> && name in tables && values != [] && values[0].Int? && 0 <= values[0].i < ROWS
                         && RowFits(tables[name].columns, values)
      ensures r.Ok? ==> && name in tables && |values| > 0 && values[0].Int? && 0 <= values[0].i < ROWS
                        && (forall pk, row :: Has(name, pk, row) <==>
                                              if pk == values[0].i then row == values else old(Has(name, pk, row)))
                        && (forall n, pk, row | n in tables && n != name :: Has(n, pk, row) <==> old(Has(n, pk, row)))
      ensures r.Error? ==> engine.contents == old(engine.contents)
    {
      if name !in tables {
        return Error(NoSuchTable);
      }
      var schema := tables[name];
      if values == [] || !values[0].Int? {
        return Error(KeyNotInteger);
      }
      var pk := values[0].i;
      if pk < 0 || pk >= ROWS {
        return Error(KeyOutOfRange);
      }
      var payload := EncodeRow(schema, values);
      if payload.Error? {
        return Error(payload.problem);
      }
      ghost var before := engine.contents;
      var inserted := engine.Insert(EncodeKey(schema.tableId, pk), payload.value);
      RowWritten(schema, before, pk, payload.value, values);
      Undisturbed(before, schema.tableId);
      r := Ok(());
    }

    /** One row of the table is now `values`. */
    lemma RowWritten(schema: Schema, before: map<Key, Value>, pk: Key, payload: Value, values: Row)
      requires SchemaOk(schema) && WellStored(schema, before) && 0 <= pk < ROWS && values != [] && values[0] == Int(pk)
      requires RowOf(schema, pk, payload) == Ok([Int(pk)] + values[1..])
      requires engine.contents == before[EncodeKey(schema.tableId, pk) := payload]
      ensures WellStored(schema, engine.contents)
      ensures forall q, row :: HasRow(schema, engine.contents, q, row) <==>
                               if q == pk then row == values else HasRow(schema, before, q, row)
      ensures forall k: Key | DecodeTableId(k) != schema.tableId :: Get(engine.contents, k) == Get(before, k)
    {
      assert [Int(pk)] + values[1..] == values;
      forall q | 0 <= q < ROWS && q != pk
        ensures Get(engine.contents, EncodeKey(schema.tableId, q)) == Get(before, EncodeKey(schema.tableId, q))
      {
        assert DecodeRowKey(EncodeKey(schema.tableId, q)) == q;
        assert DecodeRowKey(EncodeKey(schema.tableId, pk)) == pk;
      }
      forall q | 0 <= q < ROWS && EncodeKey(schema.tableId, q) in engine.contents
        ensures RowAt(schema, engine.contents, q).Ok?
      {
        if q != pk {
          assert Get(engine.contents, EncodeKey(schema.tableId, q)) == Get(before, EncodeKey(schema.tableId, q));
          assert RowAt(schema, before, q).Ok?;
        }
      }
    }

    /** The other tables are as they were. */
    lemma Undisturbed(before: map<Key, Value>, id: nat)
      requires Distinct() && id < |names| <= TABLES && engine.Valid()
      requires forall n {:trigger tables[n]} | n in tables :: SchemaOk(tables[n]) && WellStored(tables[n], before)
      requires forall n | n in tables && tables[n].tableId == id :: WellStored(tables[n], engine.contents)
      requires forall k: Key | DecodeTableId(k) != id :: Get(engine.contents, k) == Get(before, k)
      requires forall k | k in before :: DecodeTableId(k) < |names|
      ensures TablesOk() && NoOrphans()
      ensures forall n, pk, row | n in tables && tables[n].tableId != id ::
                HasRow(tables[n], engine.contents, pk, row) <==> HasRow(tables[n], before, pk, row)
    {
      forall n | n in tables && tables[n].tableId != id
        ensures WellStored(tables[n], engine.contents)
        ensures forall pk, row :: HasRow(tables[n], engine.contents, pk, row) <==> HasRow(tables[n], before, pk, row)
      {
        OtherTableKept(tables[n], before, engine.contents, id);
      }
      forall k | k in engine.contents ensures DecodeTableId(k) < |names| {
        assert Get(engine.contents, k).Some?;
        if DecodeTableId(k) != id { assert Get(engine.contents, k) == Get(before, k); }
      }
    }

    /** The rows that match, each once, in key order, cut down to the selected columns.
        They are what the clause asks for exactly when its key equality does not lead to
        a row of another number. */
    method Select(name: string, columns: Option<seq<string>>, where: Predicate)
      returns (r: Result<seq<Row>>, ghost rows: seq<Row>)
      requires engine.Valid() && TablesOk()
      ensures r.Ok? <==> name in tables && AllSensible(tables[name], where) && ColumnsExist(tables[name], columns)
      ensures r.Ok? ==>
                && |r.value| == |rows| && KeysAscend(tables[name], rows)
                && (forall a | 0 <= a < |rows| :: Typed(tables[name], rows[a]) && r.value[a] == Projected(tables[name], columns, rows[a]))
                && (forall row :: row in rows <==> exists pk :: Delivered(tables[name], engine.contents, where, pk, row))
                && ((forall row :: row in rows <==> exists pk :: Asked(tables[name], engine.contents, where, pk, row))
                    <==> !Misled(tables[name], engine.contents, where))
    {
      rows := [];
      if name !in tables {
        return Error(NoSuchTable), rows;
      }
      var schema := tables[name];
      var plan := PlanQuery(schema, where);
      if plan.Error? {
        return Error(plan.problem), rows;
      }
      ResidualSensible(schema, where, plan.value);
      var pks, fetched := ExecuteFetch(schema, plan.value, engine);
      rows := fetched;
      FetchedIsDelivered(schema, engine.contents, where, plan.value, pks, rows);
      RightRowsIff(schema, engine.contents, where, plan.value, pks, rows);
      r := Project(schema, columns, fetched);
    }

    /** Deletes the rows that match and counts them; with the same exception. */
    method Delete(name: string, where: Predicate) returns (r: Result<nat>, ghost pks: seq<int>)
      requires Valid()
      modifies engine
      ensures Valid()
      ensures r.Ok? <==> name in tables && AllSensible(tables[name], where)
      ensures r.Error? ==> engine.contents == old(engine.contents)
      ensures r.Ok? ==>
                && r.value == |pks| && (forall a, b | 0 <= a < b < |pks| :: pks[a] < pks[b])
                && (forall pk :: pk in pks <==> exists row :: Delivered(tables[name], old(engine.contents), where, pk, row))
                && (forall pk, row :: Has(name, pk, row) <==> old(Has(name, pk, row)) && pk !in pks)
                && ((forall pk :: pk in pks <==> exists row :: Asked(tables[name], old(engine.contents), where, pk, row))
                    <==> !Misled(tables[name], old(engine.contents), where))
      ensures r.Ok? ==> forall n, pk, row | n in tables && n != name :: Has(n, pk, row) <==> old(Has(n, pk, row))
    {
      pks := [];
      if name !in tables {
        return Error(NoSuchTable), pks;
      }
      var schema := tables[name];
      var plan := PlanQuery(schema, where);
      if plan.Error? {
        return Error(plan.problem), pks;
      }
      ResidualSensible(schema, where, plan.value);
      ghost var before := engine.contents;
      var deleted, picked, rows := ExecuteDelete(schema, plan.value, engine);
      pks := picked;
      PickedInTable(schema, before, plan.value, pks, rows);
      RowsRemoved(schema, before, pks);
      Undisturbed(before, schema.tableId);
      RightKeys(schema, before, where, plan.value, pks, rows);
      r := Ok(deleted);
    }

    lemma RowsRemoved(schema: Schema, before: map<Key, Value>, pks: seq<int>)
      requires SchemaOk(schema) && WellStored(schema, before) && forall a | 0 <= a < |pks| :: 0 <= pks[a] < ROWS
      requires engine.contents == before - KeysOf(schema.tableId, pks)
      ensures WellStored(schema, engine.contents)
      ensures forall pk, row :: HasRow(schema, engine.contents, pk, row) <==> HasRow(schema, before, pk, row) && pk !in pks
      ensures forall k: Key | DecodeTableId(k) != schema.tableId :: Get(engine.contents, k) == Get(before, k)
    {
      forall pk | 0 <= pk < ROWS ensures EncodeKey(schema.tableId, pk) in KeysOf(schema.tableId, pks) <==> pk in pks {
        var k := EncodeKey(schema.tableId, pk);
        assert DecodeRowKey(k) == pk;
        if k in KeysOf(schema.tableId, pks) {
          var a :| 0 <= a < |pks| && EncodeKey(schema.tableId, pks[a]) == k;
          assert DecodeRowKey(k) == pks[a];
        }
        if pk in pks {
          var a :| 0 <= a < |pks| && pks[a] == pk;
        }
      }
      forall pk | 0 <= pk < ROWS && EncodeKey(schema.tableId, pk) in engine.contents
        ensures RowAt(schema, engine.contents, pk).Ok?
      {
        assert RowAt(schema, before, pk).Ok?;
      }
      forall k: Key | DecodeTableId(k) != schema.tableId ensures k !in KeysOf(schema.tableId, pks) {
        if k in KeysOf(schema.tableId, pks) { KeyOfTable(schema.tableId, pks, k); }
      }
    }
  }

  lemma KeyOfTable(tableId: nat, pks: seq<int>, k: Key)
    requires tableId < TABLES && k in KeysOf(tableId, pks)
    ensures DecodeTableId(k) == tableId
  {
    var a :| 0 <= a < |pks| && EncodeKey(tableId, pks[a]) == k;
  }

  lemma ResidualSensible(schema: Schema, where: Predicate, plan: Plan)
    requires SchemaOk(schema) && AllSensible(schema, where) && PlanFor(schema, where, plan)
    ensures AllSensible(schema, plan.residual)
  {
    if plan.PointLookup? { PointResidual(schema, where, plan); }
  }

  lemma PickedInTable(schema: Schema, contents: map<Key, Value>, plan: Plan, pks: seq<int>, rows: seq<Row>)
    requires SchemaOk(schema) && AllSensible(schema, plan.residual) && Picked(schema, contents, plan, pks, rows)
    ensures forall a | 0 <= a < |pks| :: 0 <= pks[a] < ROWS
  {
    forall a | 0 <= a < |pks| ensures 0 <= pks[a] < ROWS {
      assert Picks(schema, contents, plan, pks[a], rows[a]);
    }
  }

  /** What a plan fetches is what is delivered. */
  lemma FetchedIsDelivered(schema: Schema, contents: map<Key, Value>, where: Predicate, plan: Plan, pks: seq<int>, rows: seq<Row>)
    requires SchemaOk(schema) && AllSensible(schema, where) && PlanFor(schema, where, plan)
    requires AllSensible(schema, plan.residual) && Picked(schema, contents, plan, pks, rows)
    ensures forall a | 0 <= a < |rows| :: Typed(schema, rows[a]) && Delivered(schema, contents, where, pks[a], rows[a])
    ensures KeysAscend(schema, rows)
    ensures forall row :: row in rows <==> exists pk :: Delivered(schema, contents, where, pk, row)
    ensures forall pk :: pk in pks <==> exists row :: Delivered(schema, contents, where, pk, row)
  {
    forall a | 0 <= a < |rows| ensures Typed(schema, rows[a]) && Delivered(schema, contents, where, pks[a], rows[a]) {
      assert Picks(schema, contents, plan, pks[a], rows[a]);
      PlanDelivers(schema, contents, where, plan, pks[a], rows[a]);
    }
    forall pk, row | Delivered(schema, contents, where, pk, row) ensures pk in pks && row in rows {
      PlanDelivers(schema, contents, where, plan, pk, row);
      var a :| 0 <= a < |pks| && pks[a] == pk;
      assert Picks(schema, contents, plan, pks[a], rows[a]);
      assert rows[a] == row;
    }
    forall a, b | 0 <= a < b < |rows| ensures KeyBelow(schema, rows[a], rows[b]) {
      PickedAscend(schema, contents, plan, pks, rows, a, b);
    }
  }

  lemma PickedAscend(schema: Schema, contents: map<Key, Value>, plan: Plan, pks: seq<int>, rows: seq<Row>, a: nat, b: nat)
    requires SchemaOk(schema) && AllSensible(schema, plan.residual) && Picked(schema, contents, plan, pks, rows) && a < b < |rows|
    ensures KeyBelow(schema, rows[a], rows[b])
  {
    assert Picks(schema, contents, plan, pks[a], rows[a]) && Picks(schema, contents, plan, pks[b], rows[b]);
    if !plan.PointLookup? {
      RowsAreTyped(schema, contents, pks[a], rows[a]);
      RowsAreTyped(schema, contents, pks[b], rows[b]);
    }
  }

  /** Rows and row numbers are those asked for exactly when the clause is not misled. */
  lemma RightRowsIff(schema: Schema, contents: map<Key, Value>, where: Predicate, plan: Plan, pks: seq<int>, rows: seq<Row>)
    requires SchemaOk(schema) && AllSensible(schema, where) && PlanFor(schema, where, plan)
    requires forall row :: row in rows <==> exists pk :: Delivered(schema, contents, where, pk, row)
    requires forall pk :: pk in pks <==> exists row :: Delivered(schema, contents, where, pk, row)
    ensures (forall row :: row in rows <==> exists pk :: Asked(schema, contents, where, pk, row)) <==> !Misled(schema, contents, where)
    ensures (forall pk :: pk in pks <==> exists row :: Asked(schema, contents, where, pk, row)) <==> !Misled(schema, contents, where)
  {
    PlanPoint(schema, where, plan);
    if Misled(schema, contents, where) {
      var stored :| Alias(schema, contents, where, plan.key, stored);
      var pk, row := plan.key % ROWS, Rekeyed(stored, plan.key);
      assert Delivered(schema, contents, where, pk, row);
      forall q, other ensures !Asked(schema, contents, where, q, other) { StrayAsksNothing(schema, contents, where, plan, q, other); }
      assert row in rows && pk in pks;
    } else {
      AnsweredRightIff(schema, contents, where, plan);
      forall pk, row ensures Delivered(schema, contents, where, pk, row) <==> Asked(schema, contents, where, pk, row) {
        PlanDelivers(schema, contents, where, plan, pk, row);
      }
    }
  }

  lemma RightKeys(schema: Schema, contents: map<Key, Value>, where: Predicate, plan: Plan, pks: seq<int>, rows: seq<Row>)
    requires SchemaOk(schema) && AllSensible(schema, where) && PlanFor(schema, where, plan)
    requires AllSensible(schema, plan.residual) && Picked(schema, contents, plan, pks, rows)
    ensures forall pk :: pk in pks <==> exists row :: Delivered(schema, contents, where, pk, row)
    ensures (forall pk :: pk in pks <==> exists row :: Asked(schema, contents, where, pk, row)) <==> !Misled(schema, contents, where)
  {
    FetchedIsDelivered(schema, contents, where, plan, pks, rows);
    RightRowsIff(schema, contents, where, plan, pks, rows);
  }

  method Project(schema: Schema, columns: Option<seq<string>>, rows: seq<Row>) returns (r: Result<seq<Row>>)
    requires forall a | 0 <= a < |rows| :: Typed(schema, rows[a])
    ensures r.Ok? <==> ColumnsExist(schema, columns)
    ensures r.Ok? ==> && |r.value| == |rows|
                      && forall a | 0 <= a < |rows| :: Typed(schema, rows[a]) && r.value[a] == Projected(schema, columns, rows[a])
  {
    if columns.None? {
      return Ok(rows);
    }
    var places: seq<nat> := [];
    var i := 0;
    while i < |columns.value|
      invariant 0 <= i == |places| <= |columns.value|
      invariant forall j | 0 <= j < i :: places[j] == ColumnIndex(schema.columns, columns.value[j])
    {
      var c := ColumnIndex(schema.columns, columns.value[i]);
      if c < 0 {
        return Error(NoSuchColumn);
      }
      places := places + [c];
      i := i + 1;
    }
    var projected: seq<Row> := [];
    i := 0;
    while i < |rows|
      invariant 0 <= i == |projected| <= |rows|
      invariant forall a | 0 <= a < i :: projected[a] == Projected(schema, columns, rows[a])
    {
      projected := projected + [seq(|places|, j requires 0 <= j < |places| => rows[i][places[j]])];
      i := i + 1;
    }
    r := Ok(projected);
  }

  // ---------------------------------------------------------------------
  // Where the statements go wrong
  // ---------------------------------------------------------------------

  const IdOnly: seq<Column> := [Column("id", Integer)]

  lemma OneOnly<T(!new)>(s: seq<T>, x: T)
    requires forall i, j | 0 <= i < j < |s| :: s[i] != s[j]
    requires forall y :: y in s <==> y == x
    ensures s == [x]
  {
    assert !(|s| > 1 && s[0] == x && s[1] == x);
    assert x in s && forall j | 0 <= j < |s| :: s[j] in s;
  }

  /** Rows in order do not repeat. */
  lemma OneRow(schema: Schema, rows: seq<Row>, row: Row)
    requires SchemaOk(schema) && KeysAscend(schema, rows)
    requires forall r :: r in rows <==> r == row
    ensures rows == [row]
  {
    forall a, b | 0 <= a < b < |rows| ensures rows[a] != rows[b] { assert KeyBelow(schema, rows[a], rows[b]); }
    OneOnly(rows, row);
  }

  /** The clause `id = 2^48` on a table that has row 0 and no other. */
  lemma StrayDelivers(schema: Schema, contents: map<Key, Value>, where: Predicate)
    requires SchemaOk(schema) && schema.columns == IdOnly && where == [Comparison("id", Eq, Int(ROWS))]
    requires forall pk, row :: HasRow(schema, contents, pk, row) <==> pk == 0 && row == [Int(0)]
    ensures AllSensible(schema, where)
    ensures forall pk, row :: Delivered(schema, contents, where, pk, row) <==> pk == 0 && row == [Int(ROWS)]
  {
    assert ColumnIndex(schema.columns, "id") == 0;
    assert PointKey(schema, where) == Some(ROWS);
    assert Rekeyed([Int(0)], ROWS) == [Int(ROWS)];
    assert SqlPlanner.Holds(schema, [Int(ROWS)], where[0]);
    assert Alias(schema, contents, where, ROWS, [Int(0)]);
  }

  /** With row 0 alone in the table, selecting `id = 2^48` shows a row of that number, and
      deleting it deletes row 0. */
  method StrayKeyMisleads(db: Database) returns (shown: seq<Row>, deleted: nat)
    requires db.Valid() && "t" in db.tables && db.tables["t"].columns == IdOnly
    requires forall pk, row :: db.Has("t", pk, row) <==> pk == 0 && row == [Int(0)]
    modifies db.engine
    ensures shown == [[Int(ROWS)]] && deleted == 1 && forall pk, row :: !db.Has("t", pk, row)
  {
    var where := [Comparison("id", Eq, Int(ROWS))];
    ghost var schema := db.tables["t"];
    forall pk, row ensures HasRow(schema, db.engine.contents, pk, row) <==> pk == 0 && row == [Int(0)] {
      assert db.Has("t", pk, row) <==> pk == 0 && row == [Int(0)];
    }
    StrayDelivers(schema, db.engine.contents, where);
    assert Delivered(schema, db.engine.contents, where, 0, [Int(ROWS)]);
    var r, rows := db.Select("t", None, where);
    OneRow(schema, rows, [Int(ROWS)]);
    shown := r.value;
    var d, pks := db.Delete("t", where);
    OneOnly(pks, 0);
    deleted := d.value;
  }

  /** Such a database is two statements away from an empty one. */
  method OneRowTable(limits: Limits) returns (db: Database)
    requires LimitsOk(limits)
    ensures fresh(db) && fresh(db.engine) && db.Valid() && "t" in db.tables && db.tables["t"].columns == IdOnly
    ensures forall pk, row :: db.Has("t", pk, row) <==> pk == 0 && row == [Int(0)]
  {
    db := new Database(limits);
    var created := db.CreateTable("t", IdOnly);
    var inserted := db.Insert("t", [Int(0)]);
  }

  /** From an empty database, in four statements. */
  method StrayKeyReached(limits: Limits) returns (shown: seq<Row>, deleted: nat)
    requires LimitsOk(limits)
    ensures shown == [[Int(ROWS)]] && deleted == 1
  {
    var db := OneRowTable(limits);
    shown, deleted := StrayKeyMisleads(db);
  }

  /** A name for each of any number of tables. */
  function TableName(i: nat): (n: string)
    ensures |n| == i + 1
  {
    seq(i + 1, _ => 't')
  }

  /** A catalog of 65536 tables. */
  method FillCatalog(limits: Limits) returns (db: Database)
    requires LimitsOk(limits)
    ensures fresh(db) && fresh(db.engine) && db.Valid() && |db.names| == TABLES && db.names[0] == TableName(0)
    ensures db.engine.contents == map[]
    ensures forall n {:trigger db.tables[n]} | n in db.tables :: db.tables[n].columns == IdOnly && |n| <= TABLES
  {
    db := new Database(limits);
    var i := 0;
    while i < TABLES
      invariant 0 <= i <= TABLES && fresh(db) && fresh(db.engine) && db.Valid() && |db.names| == i
      invariant db.engine.contents == map[] && (i > 0 ==> db.names[0] == TableName(0))
      invariant forall n {:trigger db.tables[n]} | n in db.tables :: db.tables[n].columns == IdOnly && |n| <= i
    {
      var r := db.CreateTable(TableName(i), IdOnly);
      i := i + 1;
    }
  }

  /** Tables that differ in their names alone are the same rows. */
  lemma SameRows(a: Schema, b: Schema, contents: map<Key, Value>)
    requires SchemaOk(a) && SchemaOk(b) && a.tableId == b.tableId && a.columns == b.columns
    ensures forall pk, row :: HasRow(a, contents, pk, row) <==> HasRow(b, contents, pk, row)
    ensures WellStored(a, contents) ==> WellStored(b, contents)
  {
    if WellStored(a, contents) {
      forall pk | 0 <= pk < ROWS && EncodeKey(b.tableId, pk) in contents ensures RowAt(b, contents, pk).Ok? {
        assert RowAt(a, contents, pk).Ok?;
      }
    }
  }

  /** The 65537th table is created without complaint and has the row that was inserted
      into the first. */
  method OverfullCatalog(limits: Limits) returns (db: Database, last: string)
    requires LimitsOk(limits)
    ensures fresh(db) && db.engine.Valid() && db.TablesOk() && last in db.tables && !db.Distinct()
    ensures forall pk, row :: HasRow(db.tables[last], db.engine.contents, pk, row) <==> pk == 7 && row == [Int(7)]
  {
    db := FillCatalog(limits);
    var first := TableName(0);
    last := TableName(TABLES);
    assert db.names[0] in db.tables && db.tables[first].tableId == 0;
    assert forall pk, row :: !db.Has(first, pk, row);
    var inserted := db.Insert(first, [Int(7)]);
    ghost var schema := db.tables[first];
    forall pk, row ensures HasRow(schema, db.engine.contents, pk, row) <==> pk == 7 && row == [Int(7)] {
      assert db.Has(first, pk, row) <==> pk == 7 && row == [Int(7)];
    }
    var created := db.CreateTable(last, IdOnly);
    SameRows(schema, db.tables[last], db.engine.contents);
  }

  /** A query shows it. */
  method WrappedTableShares(limits: Limits) returns (shown: seq<Row>)
    requires LimitsOk(limits)
    ensures shown == [[Int(7)]]
  {
    var db, last := OverfullCatalog(limits);
    ghost var schema := db.tables[last];
    var r, rows := db.Select(last, None, []);
    assert HasRow(schema, db.engine.contents, 7, [Int(7)]);
    RowsAreTyped(schema, db.engine.contents, 7, [Int(7)]);
    assert Delivered(schema, db.engine.contents, [], 7, [Int(7)]);
    OneRow(schema, rows, [Int(7)]);
    shown := r.value;
  }
}
