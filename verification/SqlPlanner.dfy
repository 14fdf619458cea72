/**
 Choosing an access path for a WHERE clause. Whatever path is chosen, following it
 and applying the residual filter selects the rows the clause describes.
 */
module SqlPlanner {
  import opened Common
  import opened BTreeShape
  import opened SqlCatalog

  datatype CompareOp = Eq | Lt | Le | Gt | Ge
  datatype Comparison = Comparison(column: string, op: CompareOp, literal: Cell)

  /** A conjunction. */
  type Predicate = seq<Comparison>

  datatype Plan =
    | PointLookup(key: Key, residual: Predicate)
    | RangeScan(lo: int, hi: int, residual: Predicate)
    | FullScan(residual: Predicate)

  // ---------------------------------------------------------------------
  // Meaning of a clause
  // ---------------------------------------------------------------------

  /** The first column of that name, or -1. */
  function ColumnIndex(columns: seq<Column>, name: string): (i: int)
    ensures -1 <= i < |columns| && (i >= 0 ==> columns[i].name == name)
    ensures i == -1 ==> forall j | 0 <= j < |columns| :: columns[j].name != name
    ensures forall j | 0 <= j < i :: columns[j].name != name
  {
    if columns == [] then -1
    else if columns[0].name == name then 0
    else
      var i := ColumnIndex(columns[1..], name);
      assert forall j | 1 <= j < |columns| :: columns[j] == columns[1..][j - 1];
      if i == -1 then -1 else i + 1
  }

  /** Byte order: -1, 0 or 1. */
  function CompareText(x: string, y: string): int {
    if x == y then 0
    else if x == "" then -1
    else if y == "" then 1
    else if x[0] != y[0] then (if x[0] < y[0] then -1 else 1)
    else CompareText(x[1..], y[1..])
  }

  function CompareCells(a: Cell, b: Cell): int
    requires a.Int? <==> b.Int?
  {
    if a.Int? then (if a.i < b.i then -1 else if a.i > b.i then 1 else 0)
    else CompareText(a.s, b.s)
  }

  predicate OpMatches(op: CompareOp, cmp: int) {
    match op
    case Eq => cmp == 0
    case Lt => cmp < 0
    case Le => cmp <= 0
    case Gt => cmp > 0
    case Ge => cmp >= 0
  }

  /** The column exists and its type is the literal's. */
  predicate Sensible(schema: Schema, cmp: Comparison) {
    var i := ColumnIndex(schema.columns, cmp.column);
    i >= 0 && (schema.columns[i].kind.Integer? <==> cmp.literal.Int?)
  }

  predicate AllSensible(schema: Schema, where: Predicate) {
    forall i | 0 <= i < |where| :: Sensible(schema, where[i])
  }

  /** The first difference, byte by byte, decides; what ends first comes first. */
  ghost predicate Precedes(x: string, y: string) {
    exists n: nat :: DiffersAt(x, y, n)
  }

  ghost predicate DiffersAt(x: string, y: string, n: nat) {
    n <= |x| && n < |y| && x[..n] == y[..n] && (n == |x| || x[n] < y[n])
  }

  predicate IntHolds(op: CompareOp, a: int, b: int) {
    match op
    case Eq => a == b
    case Lt => a < b
    case Le => a <= b
    case Gt => a > b
    case Ge => a >= b
  }

  ghost predicate TextHolds(op: CompareOp, x: string, y: string) {
    match op
    case Eq => x == y
    case Lt => Precedes(x, y)
    case Le => x == y || Precedes(x, y)
    case Gt => Precedes(y, x)
    case Ge => x == y || Precedes(y, x)
  }

  /** What a comparison of a cell with a literal means. */
  ghost predicate CellHolds(op: CompareOp, a: Cell, b: Cell)
    requires a.Int? <==> b.Int?
  {
    if a.Int? then IntHolds(op, a.i, b.i) else TextHolds(op, a.s, b.s)
  }

  lemma PrecedesTail(x: string, y: string)
    requires x != "" && y != "" && x[0] == y[0]
    ensures Precedes(x, y) <==> Precedes(x[1..], y[1..])
  {
    if n: nat :| DiffersAt(x, y, n) {
      assert x[1..][..n - 1] == x[..n][1..] && y[1..][..n - 1] == y[..n][1..];
      assert DiffersAt(x[1..], y[1..], n - 1);
    }
    if n: nat :| DiffersAt(x[1..], y[1..], n) {
      assert x[..n + 1] == [x[0]] + x[1..][..n] && y[..n + 1] == [y[0]] + y[1..][..n];
      assert DiffersAt(x, y, n + 1);
    }
  }

  lemma PrecedesHead(x: string, y: string)
    requires y != "" && (x != "" ==> x[0] != y[0])
    ensures Precedes(x, y) <==> x == "" || x[0] < y[0]
  {
    assert x == "" || x[0] < y[0] ==> DiffersAt(x, y, 0);
    if n: nat :| DiffersAt(x, y, n) {
      if n > 0 { SameHead(x, y, n); }
    }
  }

  lemma SameHead(x: string, y: string, n: nat)
    requires 0 < n <= |x| && n <= |y| && x[..n] == y[..n]
    ensures x[0] == y[0]
  {
    assert x[..n][0] == y[..n][0];
  }

  lemma NothingPrecedesItself(x: string)
    ensures !Precedes(x, x) && !Precedes(x, "")
  {
  }

  /** The sign of the comparison is the order. */
  lemma {:induction false} CompareTextMeans(x: string, y: string)
    ensures CompareText(x, y) < 0 <==> Precedes(x, y)
    ensures CompareText(x, y) == 0 <==> x == y
    ensures CompareText(x, y) > 0 <==> Precedes(y, x)
    decreases |x|
  {
    NothingPrecedesItself(x);
    NothingPrecedesItself(y);
    if x == "" || y == "" || x[0] != y[0] {
      if y != "" { PrecedesHead(x, y); }
      if x != "" { PrecedesHead(y, x); }
    } else {
      CompareTextMeans(x[1..], y[1..]);
      PrecedesTail(x, y);
      PrecedesTail(y, x);
      assert x == [x[0]] + x[1..] && y == [y[0]] + y[1..];
    }
  }

  /** Comparing and testing the sign is what the comparison means. */
  lemma CompareMeans(op: CompareOp, a: Cell, b: Cell)
    requires a.Int? <==> b.Int?
    ensures OpMatches(op, CompareCells(a, b)) <==> CellHolds(op, a, b)
  {
    if a.Text? { CompareTextMeans(a.s, b.s); }
  }

  ghost predicate Holds(schema: Schema, row: Row, cmp: Comparison)
    requires Typed(schema, row) && Sensible(schema, cmp)
  {
    CellHolds(cmp.op, row[ColumnIndex(schema.columns, cmp.column)], cmp.literal)
  }

  /** The row satisfies every comparison. */
  ghost predicate Matches(schema: Schema, row: Row, where: Predicate)
    requires Typed(schema, row) && AllSensible(schema, where)
  {
    forall i | 0 <= i < |where| :: Holds(schema, row, where[i])
  }

  method MatchesPredicate(schema: Schema, row: Row, where: Predicate) returns (r: bool)
    requires Typed(schema, row) && AllSensible(schema, where)
    ensures r <==> Matches(schema, row, where)
  {
    var i := 0;
    while i < |where|
      invariant 0 <= i <= |where| && forall j | 0 <= j < i :: Holds(schema, row, where[j])
    {
      var c := ColumnIndex(schema.columns, where[i].column);
      CompareMeans(where[i].op, row[c], where[i].literal);
      if !OpMatches(where[i].op, CompareCells(row[c], where[i].literal)) {
        return false;
      }
      i := i + 1;
    }
    r := true;
  }

  // ---------------------------------------------------------------------
  // Planning
  // ---------------------------------------------------------------------

  predicate OnKey(schema: Schema, cmp: Comparison)
    requires |schema.columns| > 0
  {
    cmp.column == schema.columns[0].name
  }

  predicate KeyEquality(schema: Schema, cmp: Comparison)
    requires |schema.columns| > 0
  {
    OnKey(schema, cmp) && cmp.op.Eq?
  }

  /** The key that the first equality on the primary key asks for. */
  function PointKey(schema: Schema, where: Predicate): Option<Key>
    requires |schema.columns| > 0
  {
    if where == [] then None
    else if KeyEquality(schema, where[0]) && where[0].literal.Int? then Some(where[0].literal.i)
    else PointKey(schema, where[1..])
  }

  function Without(where: Predicate, i: nat): Predicate
    requires i < |where|
  {
    where[..i] + where[i + 1..]
  }

  ghost predicate PointFor(schema: Schema, where: Predicate, plan: Plan, i: nat)
    requires SchemaOk(schema) && AllSensible(schema, where)
  {
    && i < |where| && plan.PointLookup? && KeyEquality(schema, where[i])
    && where[i].literal == Int(plan.key) && plan.residual == Without(where, i)
    && forall j | 0 <= j < i :: !KeyEquality(schema, where[j])
  }

  predicate NoKeyEquality(schema: Schema, where: Predicate)
    requires |schema.columns| > 0
  {
    forall i | 0 <= i < |where| :: !KeyEquality(schema, where[i])
  }

  /** A bound on the primary key. */
  predicate Bounding(schema: Schema, cmp: Comparison)
    requires |schema.columns| > 0
  {
    OnKey(schema, cmp) && !cmp.op.Eq?
  }

  /** The first `n` comparisons let `pk` through, as far as they are bounds. */
  predicate WithinFirst(schema: Schema, where: Predicate, n: nat, pk: Key)
    requires |schema.columns| > 0 && n <= |where|
  {
    forall i | 0 <= i < n && Bounding(schema, where[i]) && where[i].literal.Int? ::
      IntHolds(where[i].op, pk, where[i].literal.i)
  }

  /** Of the possible row numbers, those from `lo` to `hi` satisfy the first `n` bounds. */
  ghost predicate Bounds(schema: Schema, where: Predicate, n: nat, lo: int, hi: int)
    requires |schema.columns| > 0 && n <= |where|
  {
    forall pk: Key {:trigger WithinFirst(schema, where, n, pk)} | 0 <= pk < ROWS ::
      lo <= pk <= hi <==> WithinFirst(schema, where, n, pk)
  }

  /** The plan's path leads to every row that can match, and its residual tells those
      that do. */
  ghost predicate PlanFor(schema: Schema, where: Predicate, plan: Plan)
    requires SchemaOk(schema) && AllSensible(schema, where)
  {
    match plan
    case PointLookup(_, _) => exists i :: PointFor(schema, where, plan, i)
    case RangeScan(lo, hi, residual) =>
      && residual == where && 0 <= lo && hi < HIGH && Bounds(schema, where, |where|, lo, hi)
      && NoKeyEquality(schema, where) && exists i :: 0 <= i < |where| && Bounding(schema, where[i])
    case FullScan(residual) =>
      residual == where && forall i | 0 <= i < |where| :: !OnKey(schema, where[i])
  }

  method PlanQuery(schema: Schema, where: Predicate) returns (r: Result<Plan>)
    requires SchemaOk(schema)
    ensures r.Ok? <==> AllSensible(schema, where)
    ensures r.Ok? ==> PlanFor(schema, where, r.value)
  {
    var i := 0;
    while i < |where|
      invariant 0 <= i <= |where| && forall j | 0 <= j < i :: Sensible(schema, where[j])
    {
      var c := ColumnIndex(schema.columns, where[i].column);
      if c < 0 {
        return Error(NoSuchColumn);
      }
      if schema.columns[c].kind.Integer? != where[i].literal.Int? {
        return Error(TypeMismatch);
      }
      i := i + 1;
    }
    i := 0;
    while i < |where|
      invariant 0 <= i <= |where| && forall j | 0 <= j < i :: !KeyEquality(schema, where[j])
    {
      if OnKey(schema, where[i]) && where[i].op.Eq? {
        var plan := PointLookup(where[i].literal.i, Without(where, i));
        assert PointFor(schema, where, plan, i);
        return Ok(plan);
      }
      i := i + 1;
    }
    var lo, hi, found := KeyRange(schema, where);
    if found {
      return Ok(RangeScan(if lo > 0 then lo else 0, hi, where));
    }
    r := Ok(FullScan(where));
  }

  /** Intersects the bounds on the primary key. */
  method KeyRange(schema: Schema, where: Predicate) returns (lo: int, hi: int, found: bool)
    requires SchemaOk(schema) && AllSensible(schema, where)
    ensures 0 <= lo && hi < HIGH && Bounds(schema, where, |where|, lo, hi)
    ensures found <==> exists i :: 0 <= i < |where| && Bounding(schema, where[i])
  {
    lo, hi, found := 0, HIGH - 1, false;
    var i := 0;
    while i < |where|
      invariant 0 <= i <= |where| && 0 <= lo && hi < HIGH && Bounds(schema, where, i, lo, hi)
      invariant found <==> exists j :: 0 <= j < i && Bounding(schema, where[j])
    {
      var cmp := where[i];
      if OnKey(schema, cmp) && !cmp.op.Eq? {
        assert Sensible(schema, cmp);
        ghost var lo0, hi0 := lo, hi;
        lo, hi := Tighten(cmp.op, cmp.literal.i, lo, hi);
        BoundsNext(schema, where, i, lo0, hi0, lo, hi);
        found := true;
      } else {
        BoundsSame(schema, where, i, lo, hi);
      }
      i := i + 1;
    }
  }

  lemma BoundsNext(schema: Schema, where: Predicate, i: nat, lo: int, hi: int, lo': int, hi': int)
    requires |schema.columns| > 0 && i < |where| && Bounding(schema, where[i]) && where[i].literal.Int?
    requires Bounds(schema, where, i, lo, hi)
    requires Tightened(where[i].op, where[i].literal.i, lo, hi, lo', hi')
    ensures Bounds(schema, where, i + 1, lo', hi')
  {
    var n := i + 1;
    forall pk: Key | 0 <= pk < ROWS ensures lo' <= pk <= hi' <==> WithinFirst(schema, where, n, pk) {
      var last := IntHolds(where[i].op, pk, where[i].literal.i);
      assert WithinFirst(schema, where, n, pk) <==> WithinFirst(schema, where, i, pk) && last;
    }
  }

  lemma BoundsSame(schema: Schema, where: Predicate, i: nat, lo: int, hi: int)
    requires |schema.columns| > 0 && i < |where| && !Bounding(schema, where[i]) && Bounds(schema, where, i, lo, hi)
    ensures Bounds(schema, where, i + 1, lo, hi)
  {
    var n := i + 1;
    forall pk: Key | 0 <= pk < ROWS ensures lo <= pk <= hi <==> WithinFirst(schema, where, n, pk) {
      assert WithinFirst(schema, where, n, pk) <==> WithinFirst(schema, where, i, pk);
    }
  }

  /** Of the possible row numbers between the old bounds, those that satisfy the comparison
      are between the new ones. */
  ghost predicate Tightened(op: CompareOp, v: Key, lo: int, hi: int, lo': int, hi': int) {
    forall pk: Key {:trigger IntHolds(op, pk, v)} | 0 <= pk < ROWS ::
      lo' <= pk <= hi' <==> lo <= pk <= hi && IntHolds(op, pk, v)
  }

  method Tighten(op: CompareOp, v: Key, lo: int, hi: int) returns (lo': int, hi': int)
    requires !op.Eq? && 0 <= lo && hi < HIGH
    ensures 0 <= lo' && hi' < HIGH && Tightened(op, v, lo, hi, lo', hi')
  {
    lo', hi' := lo, hi;
    match op {
      case Lt => hi' := Min(hi, if v == LOW then v else v - 1);
      case Le => hi' := Min(hi, v);
      case Gt => lo' := Max(lo, if v == HIGH - 1 then v else v + 1);
      case Ge => lo' := Max(lo, v);
    }
  }

  function Min(a: int, b: int): int { if a < b then a else b }
  function Max(a: int, b: int): int { if a > b then a else b }

  lemma {:induction false} PointKeyIs(schema: Schema, where: Predicate, i: nat)
    requires SchemaOk(schema) && i < |where| && KeyEquality(schema, where[i]) && where[i].literal.Int?
    requires forall j | 0 <= j < i :: !KeyEquality(schema, where[j])
    ensures PointKey(schema, where) == Some(where[i].literal.i)
  {
    if i > 0 { PointKeyIs(schema, where[1..], i - 1); }
  }

  lemma {:induction false} NoPointKey(schema: Schema, where: Predicate)
    requires SchemaOk(schema) && NoKeyEquality(schema, where)
    ensures PointKey(schema, where) == None
  {
    if where != [] { NoPointKey(schema, where[1..]); }
  }

  /** The planner looks up a point exactly where the clause has one. */
  lemma PlanPoint(schema: Schema, where: Predicate, plan: Plan)
    requires SchemaOk(schema) && AllSensible(schema, where) && PlanFor(schema, where, plan)
    ensures PointKey(schema, where) == if plan.PointLookup? then Some(plan.key) else None
  {
    if plan.PointLookup? {
      var i: nat :| PointFor(schema, where, plan, i);
      PointKeyIs(schema, where, i);
    } else {
      NoPointKey(schema, where);
    }
  }

  /** A matching row's number lies within the bounds. */
  lemma MatchIsWithin(schema: Schema, where: Predicate, row: Row, pk: Key)
    requires SchemaOk(schema) && AllSensible(schema, where) && Typed(schema, row) && Matches(schema, row, where)
    requires row[0] == Int(pk)
    ensures WithinFirst(schema, where, |where|, pk)
  {
    forall i | 0 <= i < |where| && Bounding(schema, where[i])
      ensures where[i].literal.Int? ==> IntHolds(where[i].op, pk, where[i].literal.i)
    {
      assert Holds(schema, row, where[i]);
    }
  }

  /** A point lookup's residual and its key together are the clause. */
  lemma PointMeans(schema: Schema, where: Predicate, plan: Plan, row: Row)
    requires SchemaOk(schema) && AllSensible(schema, where) && PlanFor(schema, where, plan) && plan.PointLookup?
    requires Typed(schema, row)
    ensures AllSensible(schema, plan.residual)
    ensures Matches(schema, row, where) <==> row[0] == Int(plan.key) && Matches(schema, row, plan.residual)
  {
    var i: nat :| PointFor(schema, where, plan, i);
    assert i < |where|;
    var residual := plan.residual;
    forall j | 0 <= j < |residual| ensures Sensible(schema, residual[j]) {
      assert residual[j] == where[if j < i then j else j + 1];
    }
    assert Holds(schema, row, where[i]) <==> row[0] == Int(plan.key);
    MatchesWithout(schema, row, where, i);
  }

  /** A conjunction is one of its members and the rest. */
  lemma MatchesWithout(schema: Schema, row: Row, where: Predicate, i: nat)
    requires Typed(schema, row) && AllSensible(schema, where) && i < |where| && AllSensible(schema, Without(where, i))
    ensures Matches(schema, row, where) <==> Holds(schema, row, where[i]) && Matches(schema, row, Without(where, i))
  {
    var residual := Without(where, i);
    if Matches(schema, row, where) {
      forall j | 0 <= j < |residual| ensures Holds(schema, row, residual[j]) {
        var m := if j < i then j else j + 1;
        assert residual[j] == where[m] && Holds(schema, row, where[m]);
      }
    }
    if Holds(schema, row, where[i]) && Matches(schema, row, residual) {
      forall j | 0 <= j < |where| ensures Holds(schema, row, where[j]) {
        if j != i {
          var m := if j < i then j else j - 1;
          assert where[j] == residual[m] && Holds(schema, row, residual[m]);
        }
      }
    }
  }
}
