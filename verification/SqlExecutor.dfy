/**
 Running a plan against the B+-tree: point lookup, range scan, full scan, and the
 deletes that go with them.
 */
module SqlExecutor {
  import opened Common
  import opened BTreeShape
  import opened BPlusTree
  import opened SqlCatalog
  import opened SqlPlanner

  /** What the executor picks for a plan: the storage key's row number, and the row as
      it is handed out. */
  ghost predicate Picks(schema: Schema, contents: map<Key, Value>, plan: Plan, pk: int, row: Row)
    requires SchemaOk(schema) && AllSensible(schema, plan.residual)
  {
    match plan
    case PointLookup(key, residual) =>
      && pk == key % ROWS && EncodeKey(schema.tableId, key) in contents
      && RowOf(schema, key, contents[EncodeKey(schema.tableId, key)]) == Ok(row)
      && Typed(schema, row) && Matches(schema, row, residual)
    case RangeScan(lo, hi, residual) =>
      && HasRow(schema, contents, pk, row) && lo % ROWS <= pk <= hi
      && Typed(schema, row) && Matches(schema, row, residual)
    case FullScan(residual) =>
      HasRow(schema, contents, pk, row) && Typed(schema, row) && Matches(schema, row, residual)
  }

  /** What the clause asks for. */
  ghost predicate Asked(schema: Schema, contents: map<Key, Value>, where: Predicate, pk: int, row: Row)
    requires SchemaOk(schema) && AllSensible(schema, where)
  {
    HasRow(schema, contents, pk, row) && Typed(schema, row) && Matches(schema, row, where)
  }

  lemma RowsAreTyped(schema: Schema, contents: map<Key, Value>, pk: int, row: Row)
    requires SchemaOk(schema) && HasRow(schema, contents, pk, row)
    ensures Typed(schema, row) && row[0] == Int(pk)
  {
    RowIsTyped(schema, pk, contents[EncodeKey(schema.tableId, pk)]);
  }

  lemma PointResidual(schema: Schema, where: Predicate, plan: Plan)
    requires SchemaOk(schema) && AllSensible(schema, where) && PlanFor(schema, where, plan) && plan.PointLookup?
    ensures AllSensible(schema, plan.residual)
  {
    var i: nat :| PointFor(schema, where, plan, i);
    assert i < |where|;
    forall j | 0 <= j < |plan.residual| ensures Sensible(schema, plan.residual[j]) {
      assert plan.residual[j] == where[if j < i then j else j + 1];
    }
  }

  /** The row as a lookup under `key` hands it out. */
  function Rekeyed(row: Row, key: Key): Row {
    if row == [] then [] else row[0 := Int(key)]
  }

  /** The table has `row` under the low 48 bits of `key`, and with `key` for its own it
      satisfies the clause. */
  ghost predicate Alias(schema: Schema, contents: map<Key, Value>, where: Predicate, key: Key, row: Row)
    requires SchemaOk(schema) && AllSensible(schema, where)
  {
    && HasRow(schema, contents, key % ROWS, row)
    && Typed(schema, Rekeyed(row, key)) && Matches(schema, Rekeyed(row, key), where)
  }

  /** What the engine hands out for a clause, key by key. */
  ghost predicate Delivered(schema: Schema, contents: map<Key, Value>, where: Predicate, pk: int, row: Row)
    requires SchemaOk(schema) && AllSensible(schema, where)
  {
    match PointKey(schema, where)
    case None => Asked(schema, contents, where, pk, row)
    case Some(key) => pk == key % ROWS && exists stored :: Alias(schema, contents, where, key, stored) && row == Rekeyed(stored, key)
  }

  /** The clause's key equality is with a number no row can have, and leads to a row
      that satisfies the clause under that number. */
  ghost predicate Misled(schema: Schema, contents: map<Key, Value>, where: Predicate)
    requires SchemaOk(schema) && AllSensible(schema, where)
  {
    var key := PointKey(schema, where);
    key.Some? && !(0 <= key.value < ROWS) && exists row :: Alias(schema, contents, where, key.value, row)
  }

  /** Only the first cell of a row depends on the key it is decoded with. */
  lemma RowRekeyed(schema: Schema, pk: Key, key: Key, payload: string)
    requires SchemaOk(schema)
    ensures RowOf(schema, pk, payload).Ok? <==> RowOf(schema, key, payload).Ok?
    ensures RowOf(schema, pk, payload).Ok? ==>
              && RowOf(schema, pk, payload).value != []
              && RowOf(schema, key, payload).value == Rekeyed(RowOf(schema, pk, payload).value, key)
  {
    var cells := DecodeCells(schema.columns, payload, 1);
    if cells.Ok? { assert ([Int(pk)] + cells.value)[0 := Int(key)] == [Int(key)] + cells.value; }
  }

  lemma PointDelivers(schema: Schema, contents: map<Key, Value>, where: Predicate, plan: Plan, pk: int, row: Row)
    requires SchemaOk(schema) && AllSensible(schema, where) && PlanFor(schema, where, plan) && plan.PointLookup?
    ensures AllSensible(schema, plan.residual)
    ensures Picks(schema, contents, plan, pk, row) <==>
            pk == plan.key % ROWS && exists stored :: Alias(schema, contents, where, plan.key, stored) && row == Rekeyed(stored, plan.key)
  {
    PointResidual(schema, where, plan);
    var at := EncodeKey(schema.tableId, plan.key);
    assert EncodeKey(schema.tableId, plan.key % ROWS) == at;
    if at in contents {
      RowRekeyed(schema, plan.key % ROWS, plan.key, contents[at]);
      var under, found := RowOf(schema, plan.key % ROWS, contents[at]), RowOf(schema, plan.key, contents[at]);
      if found.Ok? {
        RowIsTyped(schema, plan.key, contents[at]);
        PointMeans(schema, where, plan, found.value);
        assert HasRow(schema, contents, plan.key % ROWS, under.value);
        assert Alias(schema, contents, where, plan.key, under.value) <==> Matches(schema, found.value, plan.residual);
      }
    }
  }

  /** Planning and executing a clause delivers what it is said to. */
  lemma PlanDelivers(schema: Schema, contents: map<Key, Value>, where: Predicate, plan: Plan, pk: int, row: Row)
    requires SchemaOk(schema) && AllSensible(schema, where) && PlanFor(schema, where, plan)
    ensures AllSensible(schema, plan.residual)
    ensures Picks(schema, contents, plan, pk, row) <==> Delivered(schema, contents, where, pk, row)
  {
    PlanPoint(schema, where, plan);
    if plan.PointLookup? {
      PointDelivers(schema, contents, where, plan, pk, row);
    } else if Asked(schema, contents, where, pk, row) {
      RowsAreTyped(schema, contents, pk, row);
      MatchIsWithin(schema, where, row, pk);
    }
  }

  /** A plan whose point key, if it has one, is a possible row number picks exactly the
      rows its clause asks for. */
  lemma PlanIsExact(schema: Schema, contents: map<Key, Value>, where: Predicate, plan: Plan, pk: int, row: Row)
    requires SchemaOk(schema) && AllSensible(schema, where) && PlanFor(schema, where, plan)
    requires plan.PointLookup? ==> 0 <= plan.key < ROWS
    ensures AllSensible(schema, plan.residual)
    ensures Picks(schema, contents, plan, pk, row) <==> Asked(schema, contents, where, pk, row)
  {
    PlanDelivers(schema, contents, where, plan, pk, row);
    DeliveredIsAsked(schema, contents, where, plan, pk, row);
  }

  lemma DeliveredIsAsked(schema: Schema, contents: map<Key, Value>, where: Predicate, plan: Plan, pk: int, row: Row)
    requires SchemaOk(schema) && AllSensible(schema, where) && PlanFor(schema, where, plan)
    requires plan.PointLookup? ==> 0 <= plan.key < ROWS
    ensures Delivered(schema, contents, where, pk, row) <==> Asked(schema, contents, where, pk, row)
  {
    PlanPoint(schema, where, plan);
    if plan.PointLookup? { InRangeIsAsked(schema, contents, where, plan, pk, row); }
  }

  lemma InRangeIsAsked(schema: Schema, contents: map<Key, Value>, where: Predicate, plan: Plan, pk: int, row: Row)
    requires SchemaOk(schema) && AllSensible(schema, where) && PlanFor(schema, where, plan)
    requires plan.PointLookup? && 0 <= plan.key < ROWS
    ensures (pk == plan.key && exists stored :: Alias(schema, contents, where, plan.key, stored) && row == Rekeyed(stored, plan.key))
            <==> Asked(schema, contents, where, pk, row)
  {
    forall stored | HasRow(schema, contents, plan.key, stored) ensures Rekeyed(stored, plan.key) == stored {
      RowsAreTyped(schema, contents, plan.key, stored);
    }
    if Asked(schema, contents, where, pk, row) {
      RowsAreTyped(schema, contents, pk, row);
      PointMeans(schema, where, plan, row);
      assert Alias(schema, contents, where, plan.key, row);
    }
  }

  /** A clause is answered correctly if and only if it is not misled: no row is stored
      under the low 48 bits of a key equality out of range that would satisfy the clause
      if the number were its own. */
  lemma AnsweredRightIff(schema: Schema, contents: map<Key, Value>, where: Predicate, plan: Plan)
    requires SchemaOk(schema) && AllSensible(schema, where) && PlanFor(schema, where, plan)
    ensures AllSensible(schema, plan.residual)
    ensures (forall pk, row :: Picks(schema, contents, plan, pk, row) <==> Asked(schema, contents, where, pk, row))
            <==> !Misled(schema, contents, where)
  {
    PlanPoint(schema, where, plan);
    if plan.PointLookup? && !(0 <= plan.key < ROWS) {
      PointResidual(schema, where, plan);
      forall pk, row ensures !Asked(schema, contents, where, pk, row) { StrayAsksNothing(schema, contents, where, plan, pk, row); }
      if row :| Alias(schema, contents, where, plan.key, row) {
        PointDelivers(schema, contents, where, plan, plan.key % ROWS, Rekeyed(row, plan.key));
        assert Picks(schema, contents, plan, plan.key % ROWS, Rekeyed(row, plan.key));
      } else {
        forall pk, row ensures !Picks(schema, contents, plan, pk, row) { PointDelivers(schema, contents, where, plan, pk, row); }
      }
    } else {
      if !plan.PointLookup? { assert AllSensible(schema, plan.residual); } else { PointResidual(schema, where, plan); }
      forall pk, row ensures Picks(schema, contents, plan, pk, row) <==> Asked(schema, contents, where, pk, row) {
        PlanIsExact(schema, contents, where, plan, pk, row);
      }
    }
  }

  /** No row has a number out of range. */
  lemma StrayAsksNothing(schema: Schema, contents: map<Key, Value>, where: Predicate, plan: Plan, pk: int, row: Row)
    requires SchemaOk(schema) && AllSensible(schema, where) && PlanFor(schema, where, plan)
    requires plan.PointLookup? && !(0 <= plan.key < ROWS)
    ensures !Asked(schema, contents, where, pk, row)
  {
    if Asked(schema, contents, where, pk, row) {
      PointMeans(schema, where, plan, row);
      RowsAreTyped(schema, contents, pk, row);
    }
  }

  /** It does go wrong: with row 0 stored, the equality `id = 2^48` hands out a row of that
      number. */
  lemma StrayPointMisleads(name: string, id: nat)
    requires id < TABLES
    ensures var schema := Schema(name, id, [Column("id", Integer)]);
            var contents: map<Key, Value> := map[EncodeKey(id, 0) := ""];
            var where := [Comparison("id", Eq, Int(ROWS))];
            && AllSensible(schema, where) && Misled(schema, contents, where)
            && Delivered(schema, contents, where, 0, [Int(ROWS)])
            && forall pk, row :: !Asked(schema, contents, where, pk, row)
  {
    var schema := Schema(name, id, [Column("id", Integer)]);
    var contents: map<Key, Value> := map[EncodeKey(id, 0) := ""];
    var cmp := Comparison("id", Eq, Int(ROWS));
    var where := [cmp];
    assert ColumnIndex(schema.columns, "id") == 0;
    assert DecodeCells(schema.columns, "", 1) == Ok([]) && [Int(0)] + [] == [Int(0)];
    assert HasRow(schema, contents, 0, [Int(0)]);
    var plan := PointLookup(ROWS, []);
    assert Without(where, 0) == [];
    assert PointFor(schema, where, plan, 0);
    PlanPoint(schema, where, plan);
    assert Rekeyed([Int(0)], ROWS) == [Int(ROWS)];
    assert SqlPlanner.Holds(schema, [Int(ROWS)], where[0]);
    assert Alias(schema, contents, where, ROWS, [Int(0)]);
    forall pk, row ensures !Asked(schema, contents, where, pk, row) {
      StrayAsksNothing(schema, contents, where, plan, pk, row);
    }
  }

  // ---------------------------------------------------------------------
  // Scans
  // ---------------------------------------------------------------------

  /** The matching rows numbered `start` to `hi`, in order. */
  ghost predicate Collected(schema: Schema, contents: map<Key, Value>, start: int, hi: int, residual: Predicate,
                            pks: seq<int>, rows: seq<Row>)
    requires SchemaOk(schema) && AllSensible(schema, residual)
  {
    && |pks| == |rows|
    && (forall a | 0 <= a < |pks| :: start <= pks[a] <= hi && Asked(schema, contents, residual, pks[a], rows[a]))
    && (forall a, b | 0 <= a < b < |pks| :: pks[a] < pks[b])
  }

  /** Nothing is missed: a matching row between the bounds is among the first `n` of
      the scanned entries, or beyond the point where the scan stopped. */
  lemma NothingMissed(schema: Schema, contents: map<Key, Value>, entries: seq<Entry>, start: int, hi: int, n: nat, pk: int)
    requires SchemaOk(schema) && 0 <= start <= pk <= hi && pk < ROWS && n <= |entries| && Sorted(entries)
    requires EncodeKey(schema.tableId, pk) in contents
    requires HasEntry(entries, EncodeKey(schema.tableId, pk), contents[EncodeKey(schema.tableId, pk)])
    requires forall a | 0 <= a < |entries| :: EncodeKey(schema.tableId, start) <= entries[a].key
    requires n < |entries| ==> DecodeTableId(entries[n].key) != schema.tableId || DecodeRowKey(entries[n].key) > hi
    ensures exists a :: 0 <= a < n && entries[a].key == EncodeKey(schema.tableId, pk)
  {
    var key := EncodeKey(schema.tableId, pk);
    var a :| 0 <= a < |entries| && entries[a] == Entry(key, contents[key]);
    if n <= a {
      TableIsContiguous(schema.tableId, start, pk, entries[n].key);
    }
  }

  method ScanMatching(schema: Schema, start: int, hi: int, residual: Predicate, engine: Tree)
    returns (pks: seq<int>, rows: seq<Row>)
    requires SchemaOk(schema) && AllSensible(schema, residual) && 0 <= start < ROWS
    requires engine.Valid() && WellStored(schema, engine.contents)
    ensures Collected(schema, engine.contents, start, hi, residual, pks, rows)
    ensures forall pk, row | Asked(schema, engine.contents, residual, pk, row) && start <= pk <= hi :: pk in pks
  {
    ghost var contents := engine.contents;
    var first := EncodeKey(schema.tableId, start);
    var entries := engine.Scan(first);
    EntriesStored(entries, contents, first);
    pks, rows := [], [];
    var i := 0;
    ghost var last := LOW - 1;
    while i < |entries|
      invariant 0 <= i <= |entries| && Collected(schema, contents, start, hi, residual, pks, rows)
      invariant Swept(schema, contents, residual, entries, i, pks)
      invariant UpTo(schema, pks, last) && (i < |entries| ==> last < entries[i].key)
    {
      var stop, hit, pk, row := Consider(schema, entries[i], start, hi, residual, contents);
      if stop {
        break;
      }
      SweptNext(schema, contents, residual, entries, i, pks, pk, row, hit);
      if hit {
        CollectedNext(schema, contents, start, hi, residual, pks, rows, pk, row, last);
        pks := pks + [pk];
        rows := rows + [row];
      }
      last := entries[i].key;
      i := i + 1;
    }
    forall pk, row | Asked(schema, contents, residual, pk, row) && start <= pk <= hi ensures pk in pks {
      FoundAmong(schema, contents, entries, start, hi, i, pk, first);
      TakenWhenSwept(schema, contents, residual, entries, i, pks, pk, row);
    }
  }

  ghost predicate UpTo(schema: Schema, pks: seq<int>, last: int)
    requires SchemaOk(schema)
  {
    forall a | 0 <= a < |pks| :: EncodeKey(schema.tableId, pks[a]) <= last
  }

  lemma CollectedNext(schema: Schema, contents: map<Key, Value>, start: int, hi: int, residual: Predicate,
                      pks: seq<int>, rows: seq<Row>, pk: int, row: Row, last: int)
    requires SchemaOk(schema) && AllSensible(schema, residual)
    requires Collected(schema, contents, start, hi, residual, pks, rows) && UpTo(schema, pks, last)
    requires start <= pk <= hi && Asked(schema, contents, residual, pk, row) && last < EncodeKey(schema.tableId, pk)
    ensures Collected(schema, contents, start, hi, residual, pks + [pk], rows + [row])
  {
    forall a | 0 <= a < |pks| ensures pks[a] < pk {
      assert Asked(schema, contents, residual, pks[a], rows[a]);
      TableIsContiguous(schema.tableId, pks[a], pk, 0);
    }
  }

  lemma TakenWhenSwept(schema: Schema, contents: map<Key, Value>, residual: Predicate, entries: seq<Entry>, n: nat,
                       pks: seq<int>, pk: int, row: Row)
    requires SchemaOk(schema) && AllSensible(schema, residual) && n <= |entries|
    requires Swept(schema, contents, residual, entries, n, pks) && Asked(schema, contents, residual, pk, row)
    requires exists a :: 0 <= a < n && entries[a].key == EncodeKey(schema.tableId, pk)
    ensures pk in pks
  {
    var a :| 0 <= a < n && entries[a].key == EncodeKey(schema.tableId, pk);
    assert Asked(schema, contents, residual, DecodeRowKey(entries[a].key), row);
  }

  /** The matching rows among the first `n` entries have been taken. */
  ghost predicate Swept(schema: Schema, contents: map<Key, Value>, residual: Predicate, entries: seq<Entry>, n: nat, pks: seq<int>)
    requires SchemaOk(schema) && AllSensible(schema, residual) && n <= |entries|
  {
    forall a, row {:trigger Asked(schema, contents, residual, DecodeRowKey(entries[a].key), row)} |
      0 <= a < n && Asked(schema, contents, residual, DecodeRowKey(entries[a].key), row) ::
      DecodeRowKey(entries[a].key) in pks
  }

  lemma SweptNext(schema: Schema, contents: map<Key, Value>, residual: Predicate, entries: seq<Entry>, n: nat,
                  pks: seq<int>, pk: int, row: Row, hit: bool)
    requires SchemaOk(schema) && AllSensible(schema, residual) && n < |entries|
    requires Swept(schema, contents, residual, entries, n, pks)
    requires pk == DecodeRowKey(entries[n].key) && HasRow(schema, contents, pk, row)
    requires hit <==> Asked(schema, contents, residual, pk, row)
    ensures Swept(schema, contents, residual, entries, n + 1, if hit then pks + [pk] else pks)
  {
    var pks' := if hit then pks + [pk] else pks;
    forall a, r | 0 <= a < n + 1 && Asked(schema, contents, residual, DecodeRowKey(entries[a].key), r)
      ensures DecodeRowKey(entries[a].key) in pks'
    {
      if a < n {
        assert DecodeRowKey(entries[a].key) in pks;
      } else {
        assert pks'[|pks|..] == [pk];
      }
    }
  }

  /** One entry of the scan: the scan stops past the table or past `hi`. */
  method Consider(schema: Schema, e: Entry, start: int, hi: int, residual: Predicate, ghost contents: map<Key, Value>)
    returns (stop: bool, hit: bool, pk: int, row: Row)
    requires SchemaOk(schema) && AllSensible(schema, residual) && WellStored(schema, contents) && 0 <= start < ROWS
    requires e.key in contents && contents[e.key] == e.value && EncodeKey(schema.tableId, start) <= e.key
    ensures stop <==> DecodeTableId(e.key) != schema.tableId || DecodeRowKey(e.key) > hi
    ensures !stop ==> && pk == DecodeRowKey(e.key) && start <= pk && EncodeKey(schema.tableId, pk) == e.key
                      && HasRow(schema, contents, pk, row) && (hit <==> Asked(schema, contents, residual, pk, row))
  {
    stop, hit, pk, row := true, false, DecodeRowKey(e.key), [];
    if DecodeTableId(e.key) != schema.tableId || pk > hi {
      return;
    }
    stop := false;
    KeyIsItsParts(e.key);
    TableIsContiguous(schema.tableId, start, pk, e.key);
    assert RowAt(schema, contents, pk).Ok?;
    var r := DecodeRow(schema, pk, e.value);
    row := r.value;
    RowsAreTyped(schema, contents, pk, row);
    hit := MatchesPredicate(schema, row, residual);
  }

  lemma EntriesStored(entries: seq<Entry>, contents: map<Key, Value>, first: Key)
    requires forall k, v :: HasEntry(entries, k, v) <==> k in contents && contents[k] == v && first <= k
    ensures forall a | 0 <= a < |entries| ::
              entries[a].key in contents && contents[entries[a].key] == entries[a].value && first <= entries[a].key
  {
    forall a | 0 <= a < |entries|
      ensures entries[a].key in contents && contents[entries[a].key] == entries[a].value && first <= entries[a].key
    {
      assert HasEntry(entries, entries[a].key, entries[a].value);
    }
  }

  lemma FoundAmong(schema: Schema, contents: map<Key, Value>, entries: seq<Entry>, start: int, hi: int, n: nat, pk: int, first: Key)
    requires SchemaOk(schema) && 0 <= start <= pk <= hi && pk < ROWS && n <= |entries| && Sorted(entries)
    requires first == EncodeKey(schema.tableId, start) && EncodeKey(schema.tableId, pk) in contents
    requires forall k, v :: HasEntry(entries, k, v) <==> k in contents && contents[k] == v && first <= k
    requires n < |entries| ==> DecodeTableId(entries[n].key) != schema.tableId || DecodeRowKey(entries[n].key) > hi
    ensures exists a :: 0 <= a < n && entries[a].key == EncodeKey(schema.tableId, pk)
  {
    var key := EncodeKey(schema.tableId, pk);
    TableIsContiguous(schema.tableId, start, pk, key);
    assert HasEntry(entries, key, contents[key]);
    EntriesStored(entries, contents, first);
    NothingMissed(schema, contents, entries, start, hi, n, pk);
  }

  // ---------------------------------------------------------------------
  // The executor
  // ---------------------------------------------------------------------

  /** The numbers and rows a plan picks, each once, in order. */
  ghost predicate Picked(schema: Schema, contents: map<Key, Value>, plan: Plan, pks: seq<int>, rows: seq<Row>)
    requires SchemaOk(schema) && AllSensible(schema, plan.residual)
  {
    && |pks| == |rows|
    && (forall a | 0 <= a < |pks| :: Picks(schema, contents, plan, pks[a], rows[a]))
    && (forall a, b | 0 <= a < b < |pks| :: pks[a] < pks[b])
    && (forall pk, row {:trigger Picks(schema, contents, plan, pk, row)} | Picks(schema, contents, plan, pk, row) ::
          pk in pks)
  }

  method ExecuteFetch(schema: Schema, plan: Plan, engine: Tree) returns (pks: seq<int>, rows: seq<Row>)
    requires SchemaOk(schema) && AllSensible(schema, plan.residual)
    requires engine.Valid() && WellStored(schema, engine.contents)
    ensures Picked(schema, engine.contents, plan, pks, rows)
  {
    if plan.PointLookup? {
      pks, rows := FetchPoint(schema, plan, engine);
      return;
    }
    var start := if plan.RangeScan? then plan.lo else 0;
    var hi := if plan.RangeScan? then plan.hi else HIGH - 1;
    pks, rows := ScanMatching(schema, start % ROWS, hi, plan.residual, engine);
    forall pk, row | Picks(schema, engine.contents, plan, pk, row) ensures pk in pks {
      assert Asked(schema, engine.contents, plan.residual, pk, row);
    }
  }

  method FetchPoint(schema: Schema, plan: Plan, engine: Tree) returns (pks: seq<int>, rows: seq<Row>)
    requires SchemaOk(schema) && AllSensible(schema, plan.residual) && plan.PointLookup?
    requires engine.Valid() && WellStored(schema, engine.contents)
    ensures Picked(schema, engine.contents, plan, pks, rows)
  {
    var payload := engine.GetValue(EncodeKey(schema.tableId, plan.key));
    if payload.None? {
      return [], [];
    }
    PointDecodes(schema, engine.contents, plan.key);
    var row := DecodeRow(schema, plan.key, payload.value);
    RowIsTyped(schema, plan.key, payload.value);
    var matches := MatchesPredicate(schema, row.value, plan.residual);
    if !matches {
      return [], [];
    }
    assert Picks(schema, engine.contents, plan, plan.key % ROWS, row.value);
    return [plan.key % ROWS], [row.value];
  }

  /** Whether a payload unpacks does not depend on the primary key. */
  lemma PointDecodes(schema: Schema, contents: map<Key, Value>, key: Key)
    requires SchemaOk(schema) && WellStored(schema, contents) && EncodeKey(schema.tableId, key) in contents
    ensures RowOf(schema, key, contents[EncodeKey(schema.tableId, key)]).Ok?
  {
    assert EncodeKey(schema.tableId, key % ROWS) == EncodeKey(schema.tableId, key);
    assert RowAt(schema, contents, key % ROWS).Ok?;
  }

  /** The storage keys of the given rows. */
  ghost function KeysOf(tableId: nat, pks: seq<int>): set<Key>
    requires tableId < TABLES
  {
    set a | 0 <= a < |pks| :: EncodeKey(tableId, pks[a])
  }

  /** Deletes what the plan picks, after draining the scan, and counts it. */
  method ExecuteDelete(schema: Schema, plan: Plan, engine: Tree) returns (deleted: nat, ghost pks: seq<int>, ghost rows: seq<Row>)
    requires SchemaOk(schema) && AllSensible(schema, plan.residual)
    requires engine.Valid() && WellStored(schema, engine.contents)
    modifies engine
    ensures engine.Valid() && Picked(schema, old(engine.contents), plan, pks, rows)
    ensures engine.contents == old(engine.contents) - KeysOf(schema.tableId, pks) && deleted == |pks|
  {
    var doomed, found := ExecuteFetch(schema, plan, engine);
    pks, rows := doomed, found;
    deleted := 0;
    var i := 0;
    while i < |doomed|
      invariant 0 <= i <= |doomed| && engine.Valid() && deleted == i
      invariant engine.contents == old(engine.contents) - KeysOf(schema.tableId, doomed[..i])
    {
      var key := EncodeKey(schema.tableId, doomed[i]);
      assert Picks(schema, old(engine.contents), plan, doomed[i], rows[i]);
      assert key in old(engine.contents);
      forall a | 0 <= a < i ensures EncodeKey(schema.tableId, doomed[a]) != key {
        PickedKeysDiffer(schema, old(engine.contents), plan, doomed, rows, a, i);
      }
      ghost var before := doomed[..i];
      var removed := engine.Remove(key);
      if removed {
        deleted := deleted + 1;
      }
      KeysNext(schema.tableId, doomed, i);
      i := i + 1;
    }
    assert doomed[..i] == doomed;
  }

  lemma KeysNext(tableId: nat, pks: seq<int>, i: nat)
    requires tableId < TABLES && i < |pks|
    ensures KeysOf(tableId, pks[..i + 1]) == KeysOf(tableId, pks[..i]) + {EncodeKey(tableId, pks[i])}
  {
    var now, next := pks[..i], pks[..i + 1];
    forall k | k in KeysOf(tableId, now) + {EncodeKey(tableId, pks[i])} ensures k in KeysOf(tableId, next) {
      if k in KeysOf(tableId, now) {
        var a :| 0 <= a < |now| && EncodeKey(tableId, now[a]) == k;
        assert next[a] == now[a];
      } else {
        assert next[i] == pks[i];
      }
    }
    forall k | k in KeysOf(tableId, next) ensures k in KeysOf(tableId, now) + {EncodeKey(tableId, pks[i])} {
      var a :| 0 <= a < |next| && EncodeKey(tableId, next[a]) == k;
      if a < i { assert now[a] == next[a]; }
    }
  }

  lemma PickedKeysDiffer(schema: Schema, contents: map<Key, Value>, plan: Plan, pks: seq<int>, rows: seq<Row>, a: nat, b: nat)
    requires SchemaOk(schema) && AllSensible(schema, plan.residual) && Picked(schema, contents, plan, pks, rows)
    requires a < b < |pks|
    ensures EncodeKey(schema.tableId, pks[a]) != EncodeKey(schema.tableId, pks[b])
  {
    assert Picks(schema, contents, plan, pks[a], rows[a]) && Picks(schema, contents, plan, pks[b], rows[b]);
  }
}
