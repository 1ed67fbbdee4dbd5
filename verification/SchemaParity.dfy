// The schema comparison of backend/tools/schema_parity.py and its decision.
module SchemaParity {
  import opened Common
  import opened Ordering
  import opened TupleSort

  // The reflected SQLAlchemy types, with their declared length where they have one.
  datatype ColumnType =
    | Json
    | Enumeration(length: Option<nat>)
    | LongText(length: Option<nat>)
    | VarChar(length: Option<nat>)
    | DateTime
    | Boolean
    | Integer
    | Unknown(name: string, length: Option<nat>)

  datatype Family = JsonFamily | EnumFamily | TextFamily | StringFamily | DateTimeFamily | BooleanFamily | IntegerFamily
                  | UnknownFamily(name: string)

  function FamilyOf(t: ColumnType): Family {
    match t
    case Json => JsonFamily
    case Enumeration(_) => EnumFamily
    case LongText(_) => TextFamily
    case VarChar(_) => StringFamily
    case DateTime => DateTimeFamily
    case Boolean => BooleanFamily
    case Integer => IntegerFamily
    case Unknown(name, _) => UnknownFamily(name)
  }

  function LengthOf(t: ColumnType): Option<nat> {
    match t
    case Enumeration(n) => n
    case LongText(n) => n
    case VarChar(n) => n
    case Unknown(_, n) => n
    case _ => None
  }

  // _types_compatible.
  predicate TypesCompatible(expected: ColumnType, actual: ColumnType) {
    if FamilyOf(expected) == FamilyOf(actual) then
      LengthOf(expected).None? || LengthOf(actual).None? || LengthOf(expected) == LengthOf(actual)
    else if FamilyOf(expected) == EnumFamily && FamilyOf(actual) == StringFamily then true
    else FamilyOf(expected) == JsonFamily && FamilyOf(actual) in {TextFamily, StringFamily}
  }

  datatype Column = Column(kind: ColumnType, nullable: bool)

  // The tuples in which keys, indexes and constraints are compared: local columns,
  // referred table, referred columns and name; name, columns and whether it is unique;
  // name and columns, or name and text.
  type ForeignKey = Named<(seq<string>, string, seq<string>), ()>
  type Index = Named<(), (seq<string>, bool)>
  type Constraint = Named<(), seq<string>>

  function ConstraintOf(name: Option<string>, text: seq<string>): Constraint {
    Named((), name, text)
  }

  datatype Table = Table(
    columns: map<string, Column>,
    primaryKey: seq<string>,
    foreignKeys: set<ForeignKey>,
    indexes: set<Index>,
    uniques: set<Constraint>,
    checks: set<Constraint>)

  // One table of the inspected file: its reflection, or an inspector that raises.
  datatype Inspection = Inspected(table: Table) | Failed

  // The target: its model tables, and what reading alembic_version gives when that
  // table is there. A target that fails validation, or whose tables cannot even be
  // listed, is unopened.
  datatype VersionTable = Absent | Rows(revisions: seq<string>) | UnreadableRows
  datatype Schema = Unopened | Opened(tables: map<string, Inspection>, version: VersionTable)

  datatype Category =
    | InspectionFailure | RevisionMismatch | MissingTable | ExtraTable | MissingColumn | TypeMismatch | NullableMismatch
    | ExtraColumn | PrimaryKeyMismatch | ForeignKeyMismatch | IndexMismatch | UniqueMismatch | CheckMismatch
    | ChangedDuringRead

  // The object is a table, or a column of one.
  datatype Difference = Difference(category: Category, table: string, column: Option<string>)

  predicate Critical(d: Difference) {
    d.category != ExtraColumn && d.category != ExtraTable
  }

  datatype Decision = SafeToStamp | RepairRequired | Incompatible | Unverifiable

  ghost function DecisionOf(differences: set<Difference>): Decision {
    if exists d | d in differences :: d.category == InspectionFailure then Unverifiable
    else if exists d | d in differences :: Critical(d) then Incompatible
    else if differences != {} then RepairRequired
    else SafeToStamp
  }

  // _decision, which looks at the list from the worst down.
  method Decide(differences: seq<Difference>) returns (decision: Decision)
    ensures decision == DecisionOf(Elements(differences))
  {
    var failed, critical := false, false;
    for i := 0 to |differences|
      invariant failed <==> exists d | d in differences[..i] :: d.category == InspectionFailure
      invariant critical <==> exists d | d in differences[..i] :: Critical(d)
    {
      assert differences[..i + 1] == differences[..i] + [differences[i]];
      failed := failed || differences[i].category == InspectionFailure;
      critical := critical || Critical(differences[i]);
    }
    assert differences[..|differences|] == differences;
    assert differences != [] ==> differences[0] in Elements(differences);
    decision := if failed then Unverifiable else if critical then Incompatible
                else if differences != [] then RepairRequired else SafeToStamp;
  }

  // ------------------------------------------------- what cannot be put in order

  predicate ReferenceLess(a: (seq<string>, string, seq<string>), b: (seq<string>, string, seq<string>)) {
    if a.0 != b.0 then TextsLess(a.0, b.0)
    else if a.1 != b.1 then TextLess(a.1, b.1)
    else TextsLess(a.2, b.2)
  }

  predicate ColumnsLess(a: (seq<string>, bool), b: (seq<string>, bool)) {
    if a.0 != b.0 then TextsLess(a.0, b.0) else !a.1 && b.1
  }

  predicate NothingLess(a: (), b: ()) {
    false
  }

  lemma TupleOrders()
    ensures StrictTotal(ReferenceLess) && StrictTotal(ColumnsLess) && StrictTotal(NothingLess)
    ensures StrictTotal(TextsLess)
  {
    TextsAreOrdered();
    TextTuplesAreOrdered();
  }

  // The report of a difference sorts both sides; one of them cannot be sorted.
  predicate ReportRaises<B(==), A(==)>(expected: set<Named<B, A>>, found: set<Named<B, A>>) {
    expected != found && (Clash(expected) || Clash(found))
  }

  // The comparison of two tables ends in an exception that nothing catches.
  predicate TableRaises(expected: Table, found: Table) {
    || ReportRaises(expected.foreignKeys, found.foreignKeys)
    || ReportRaises(expected.indexes, found.indexes)
    || ReportRaises(expected.uniques, found.uniques)
    || ReportRaises(expected.checks, found.checks)
  }

  predicate RaisesAt(model: map<string, Table>, actual: Schema, t: string)
    requires actual.Opened?
  {
    t in model && t in actual.tables && actual.tables[t].Inspected? && TableRaises(model[t], actual.tables[t].table)
  }

  ghost predicate Raises(model: map<string, Table>, actual: Schema) {
    actual.Opened? && exists t :: RaisesAt(model, actual, t)
  }

  // ----------------------------------------------------- the differences, as sets

  function When(condition: bool, d: Difference): set<Difference> {
    if condition then {d} else {}
  }

  // Everything found at the named objects.
  function Union(names: set<string>, of: string -> set<Difference>): set<Difference> {
    set c, d | c in names && d in of(c) :: d
  }

  lemma UnionGrows(names: set<string>, c: string, of: string -> set<Difference>)
    ensures Union(names + {c}, of) == Union(names, of) + of(c)
  {
    forall d ensures d in Union(names + {c}, of) <==> d in Union(names, of) + of(c) {
      if d in Union(names, of) {
        var b :| b in names && d in of(b);
        assert b in names + {c};
      }
      if d in of(c) {
        assert c in names + {c};
      }
    }
  }

  function ExpectedColumn(table: string, expected: Table, actual: Table, c: string): set<Difference> {
    if c !in expected.columns then {}
    else if c !in actual.columns then {Difference(MissingColumn, table, Some(c))}
    else
      When(!TypesCompatible(expected.columns[c].kind, actual.columns[c].kind), Difference(TypeMismatch, table, Some(c)))
      + When(expected.columns[c].nullable != actual.columns[c].nullable, Difference(NullableMismatch, table, Some(c)))
  }

  function ActualColumn(table: string, expected: Table, c: string): set<Difference> {
    When(c !in expected.columns, Difference(ExtraColumn, table, Some(c)))
  }

  function ColumnDifferences(table: string, expected: Table, actual: Table): set<Difference> {
    Union(expected.columns.Keys, c => ExpectedColumn(table, expected, actual, c))
    + Union(actual.columns.Keys, c => ActualColumn(table, expected, c))
  }

  function KeyDifferences(table: string, expected: Table, actual: Table): set<Difference> {
    When(expected.primaryKey != actual.primaryKey, Difference(PrimaryKeyMismatch, table, None))
    + When(expected.foreignKeys != actual.foreignKeys, Difference(ForeignKeyMismatch, table, None))
    + When(expected.indexes != actual.indexes, Difference(IndexMismatch, table, None))
  }

  function ConstraintDifferences(table: string, expected: Table, actual: Table): set<Difference> {
    KeyDifferences(table, expected, actual)
    + When(expected.uniques != actual.uniques, Difference(UniqueMismatch, table, None))
    + When(expected.checks != actual.checks, Difference(CheckMismatch, table, None))
  }

  function TableDifferences(table: string, expected: Table, actual: Inspection): set<Difference> {
    match actual
    case Failed => {Difference(InspectionFailure, table, None)}
    case Inspected(found) => ColumnDifferences(table, expected, found) + ConstraintDifferences(table, expected, found)
  }

  const VERSION_TABLE := "alembic_version"

  function VersionDifferences(version: VersionTable, head: string): set<Difference> {
    match version
    case Absent => {}
    case UnreadableRows => {Difference(InspectionFailure, VERSION_TABLE, None)}
    case Rows(revisions) => When(revisions != [head], Difference(RevisionMismatch, VERSION_TABLE, None))
  }

  function ModelTable(model: map<string, Table>, actual: Schema, t: string): set<Difference>
    requires actual.Opened?
  {
    if t !in model then {}
    else if t !in actual.tables then {Difference(MissingTable, t, None)}
    else TableDifferences(t, model[t], actual.tables[t])
  }

  function FoundTable(model: map<string, Table>, t: string): set<Difference> {
    When(t !in model, Difference(ExtraTable, t, None))
  }

  function SchemaDifferences(model: map<string, Table>, actual: Schema, head: string, changed: bool): set<Difference>
    requires actual.Opened?
  {
    VersionDifferences(actual.version, head)
    + Union(actual.tables.Keys, t => FoundTable(model, t))
    + Union(model.Keys, t => ModelTable(model, actual, t))
    + When(changed, Difference(ChangedDuringRead, "", None))
  }

  // ------------------------------------------------------------- the comparator

  // _add_difference, under the condition that calls for it.
  method AddIf(differences: seq<Difference>, condition: bool, d: Difference) returns (after: seq<Difference>)
    ensures Elements(after) == Elements(differences) + When(condition, d)
  {
    after := if condition then differences + [d] else differences;
  }

  method CompareColumn(table: string, expected: Table, actual: Table, c: string, differences: seq<Difference>)
    returns (after: seq<Difference>)
    requires c in expected.columns
    ensures Elements(after) == Elements(differences) + ExpectedColumn(table, expected, actual, c)
  {
    if c !in actual.columns {
      after := AddIf(differences, true, Difference(MissingColumn, table, Some(c)));
    } else {
      after := AddIf(differences, !TypesCompatible(expected.columns[c].kind, actual.columns[c].kind),
                     Difference(TypeMismatch, table, Some(c)));
      after := AddIf(after, expected.columns[c].nullable != actual.columns[c].nullable,
                     Difference(NullableMismatch, table, Some(c)));
    }
  }

  method CompareExpected(table: string, expected: Table, actual: Table, differences: seq<Difference>)
    returns (after: seq<Difference>)
    ensures Elements(after) ==
              Elements(differences) + Union(expected.columns.Keys, c => ExpectedColumn(table, expected, actual, c))
  {
    ghost var of := c => ExpectedColumn(table, expected, actual, c);
    after := differences;
    var rest := expected.columns.Keys;
    while rest != {}
      invariant rest <= expected.columns.Keys
      invariant Elements(after) == Elements(differences) + Union(expected.columns.Keys - rest, of)
      decreases |rest|
    {
      var c :| c in rest;
      UnionGrows(expected.columns.Keys - rest, c, of);
      assert expected.columns.Keys - (rest - {c}) == (expected.columns.Keys - rest) + {c};
      after := CompareColumn(table, expected, actual, c, after);
      rest := rest - {c};
    }
  }

  method FindExtra(table: string, expected: Table, actual: Table, differences: seq<Difference>)
    returns (after: seq<Difference>)
    ensures Elements(after) == Elements(differences) + Union(actual.columns.Keys, c => ActualColumn(table, expected, c))
  {
    ghost var of := c => ActualColumn(table, expected, c);
    after := differences;
    var rest := actual.columns.Keys;
    while rest != {}
      invariant rest <= actual.columns.Keys
      invariant Elements(after) == Elements(differences) + Union(actual.columns.Keys - rest, of)
      decreases |rest|
    {
      var c :| c in rest;
      UnionGrows(actual.columns.Keys - rest, c, of);
      assert actual.columns.Keys - (rest - {c}) == (actual.columns.Keys - rest) + {c};
      after := AddIf(after, c !in expected.columns, Difference(ExtraColumn, table, Some(c)));
      rest := rest - {c};
    }
  }

  // The column loops of _compare_table, over the columns in any order.
  method CompareColumns(table: string, expected: Table, actual: Table, differences: seq<Difference>)
    returns (after: seq<Difference>)
    ensures Elements(after) == Elements(differences) + ColumnDifferences(table, expected, actual)
  {
    after := CompareExpected(table, expected, actual, differences);
    after := FindExtra(table, expected, actual, after);
  }

  // _add_difference, with both sides sorted as its arguments.
  method AddSorted<B(!new, ==), A(!new, ==)>(lessB: (B, B) -> bool, lessA: (A, A) -> bool,
                                             expected: set<Named<B, A>>, found: set<Named<B, A>>,
                                             differences: seq<Difference>, d: Difference)
    returns (after: seq<Difference>, raised: bool)
    requires StrictTotal(lessB) && StrictTotal(lessA)
    ensures raised <==> ReportRaises(expected, found)
    ensures !raised ==> Elements(after) == Elements(differences) + When(expected != found, d)
  {
    if expected == found {
      return differences, false;
    }
    var left := Sort(lessB, lessA, expected);
    if left.None? {
      return differences, true;
    }
    var right := Sort(lessB, lessA, found);
    if right.None? {
      return differences, true;
    }
    return differences + [d], false;
  }

  method CompareKeys(table: string, expected: Table, found: Table, differences: seq<Difference>)
    returns (after: seq<Difference>, raised: bool)
    ensures raised <==>
              ReportRaises(expected.foreignKeys, found.foreignKeys) || ReportRaises(expected.indexes, found.indexes)
    ensures !raised ==> Elements(after) == Elements(differences) + KeyDifferences(table, expected, found)
  {
    TupleOrders();
    after := AddIf(differences, expected.primaryKey != found.primaryKey, Difference(PrimaryKeyMismatch, table, None));
    after, raised := AddSorted(ReferenceLess, NothingLess, expected.foreignKeys, found.foreignKeys, after,
                               Difference(ForeignKeyMismatch, table, None));
    if raised { return; }
    after, raised := AddSorted(NothingLess, ColumnsLess, expected.indexes, found.indexes, after,
                               Difference(IndexMismatch, table, None));
  }

  method CompareConstraints(table: string, expected: Table, found: Table, differences: seq<Difference>)
    returns (after: seq<Difference>, raised: bool)
    ensures raised <==> TableRaises(expected, found)
    ensures !raised ==> Elements(after) == Elements(differences) + ConstraintDifferences(table, expected, found)
  {
    TupleOrders();
    after, raised := CompareKeys(table, expected, found, differences);
    if raised { return; }
    after, raised := AddSorted(NothingLess, TextsLess, expected.uniques, found.uniques, after,
                               Difference(UniqueMismatch, table, None));
    if raised { return; }
    after, raised := AddSorted(NothingLess, TextsLess, expected.checks, found.checks, after,
                               Difference(CheckMismatch, table, None));
  }

  method CompareTable(table: string, expected: Table, actual: Inspection, differences: seq<Difference>)
    returns (after: seq<Difference>, raised: bool)
    ensures raised <==> actual.Inspected? && TableRaises(expected, actual.table)
    ensures !raised ==> Elements(after) == Elements(differences) + TableDifferences(table, expected, actual)
  {
    if actual.Failed? {
      return differences + [Difference(InspectionFailure, table, None)], false;
    }
    after := CompareColumns(table, expected, actual.table, differences);
    after, raised := CompareConstraints(table, expected, actual.table, after);
  }

  method CompareVersion(version: VersionTable, head: string) returns (differences: seq<Difference>)
    ensures Elements(differences) == VersionDifferences(version, head)
  {
    differences := [];
    match version
    case Absent =>
    case UnreadableRows => differences := [Difference(InspectionFailure, VERSION_TABLE, None)];
    case Rows(revisions) =>
      differences := AddIf([], revisions != [head], Difference(RevisionMismatch, VERSION_TABLE, None));
  }

  // The table loops of check_sqlite_schema.
  method FindExtraTables(model: map<string, Table>, actual: Schema, differences: seq<Difference>)
    returns (after: seq<Difference>)
    requires actual.Opened?
    ensures Elements(after) == Elements(differences) + Union(actual.tables.Keys, t => FoundTable(model, t))
  {
    ghost var of := t => FoundTable(model, t);
    after := differences;
    var rest := actual.tables.Keys;
    while rest != {}
      invariant rest <= actual.tables.Keys
      invariant Elements(after) == Elements(differences) + Union(actual.tables.Keys - rest, of)
      decreases |rest|
    {
      var t :| t in rest;
      UnionGrows(actual.tables.Keys - rest, t, of);
      assert actual.tables.Keys - (rest - {t}) == (actual.tables.Keys - rest) + {t};
      after := AddIf(after, t !in model, Difference(ExtraTable, t, None));
      rest := rest - {t};
    }
  }

  method CompareModelTable(model: map<string, Table>, actual: Schema, t: string, differences: seq<Difference>)
    returns (after: seq<Difference>, raised: bool)
    requires actual.Opened? && t in model
    ensures raised <==> RaisesAt(model, actual, t)
    ensures !raised ==> Elements(after) == Elements(differences) + ModelTable(model, actual, t)
  {
    raised := false;
    if t !in actual.tables {
      after := AddIf(differences, true, Difference(MissingTable, t, None));
    } else {
      after, raised := CompareTable(t, model[t], actual.tables[t], differences);
    }
  }

  method CompareTables(model: map<string, Table>, actual: Schema, differences: seq<Difference>)
    returns (after: seq<Difference>, raised: bool)
    requires actual.Opened?
    ensures raised <==> Raises(model, actual)
    ensures !raised ==> Elements(after) == Elements(differences) + Union(model.Keys, t => ModelTable(model, actual, t))
  {
    ghost var of := t => ModelTable(model, actual, t);
    after, raised := differences, false;
    var rest := model.Keys;
    while rest != {}
      invariant rest <= model.Keys
      invariant forall t | t in model && t !in rest :: !RaisesAt(model, actual, t)
      invariant Elements(after) == Elements(differences) + Union(model.Keys - rest, of)
      decreases |rest|
    {
      var t :| t in rest;
      UnionGrows(model.Keys - rest, t, of);
      assert model.Keys - (rest - {t}) == (model.Keys - rest) + {t};
      after, raised := CompareModelTable(model, actual, t, after);
      if raised { return; }
      rest := rest - {t};
    }
  }

  ghost function ParityOf(model: map<string, Table>, actual: Schema, head: string, changed: bool): Option<Decision> {
    if actual.Unopened? then Some(Unverifiable)
    else if Raises(model, actual) then None
    else Some(DecisionOf(SchemaDifferences(model, actual, head, changed)))
  }

  // check_sqlite_schema: a decision, or an exception. `changed` is the hash or the
  // timestamp moving meanwhile.
  method CheckSchema(model: map<string, Table>, actual: Schema, head: string, changed: bool)
    returns (decision: Option<Decision>)
    ensures decision == ParityOf(model, actual, head, changed)
    ensures decision.None? <==> Raises(model, actual)
  {
    if actual.Unopened? {
      return Some(Unverifiable);
    }
    var differences := CompareVersion(actual.version, head);
    differences := FindExtraTables(model, actual, differences);
    var raised;
    differences, raised := CompareTables(model, actual, differences);
    if raised {
      return None;
    }
    differences := AddIf(differences, changed, Difference(ChangedDuringRead, "", None));
    var decided := Decide(differences);
    decision := Some(decided);
  }

  // ---------------------------------------------------- what the decision means

  ghost predicate SameColumns(expected: Table, actual: Table) {
    && expected.columns.Keys == actual.columns.Keys
    && forall c | c in expected.columns ::
         && TypesCompatible(expected.columns[c].kind, actual.columns[c].kind)
         && expected.columns[c].nullable == actual.columns[c].nullable
  }

  ghost predicate SameConstraints(expected: Table, actual: Table) {
    && expected.primaryKey == actual.primaryKey && expected.foreignKeys == actual.foreignKeys
    && expected.indexes == actual.indexes && expected.uniques == actual.uniques && expected.checks == actual.checks
  }

  // The file has the model's schema, and no revision but the head.
  ghost predicate SameSchema(model: map<string, Table>, actual: Schema, head: string) {
    && actual.Opened?
    && actual.tables.Keys == model.Keys
    && (forall t | t in model :: actual.tables[t].Inspected?
          && SameColumns(model[t], actual.tables[t].table) && SameConstraints(model[t], actual.tables[t].table))
    && (actual.version == Absent || actual.version == Rows([head]))
  }

  lemma NoDifferenceAt(names: set<string>, of: string -> set<Difference>)
    ensures Union(names, of) == {} <==> forall c | c in names :: of(c) == {}
  {
    if Union(names, of) == {} {
      forall c | c in names ensures of(c) == {} {
        forall d ensures d !in of(c) {
          assert d !in Union(names, of);
        }
      }
    }
  }

  lemma SameTableHasNoDifference(table: string, expected: Table, found: Table)
    ensures TableDifferences(table, expected, Inspected(found)) == {} <==>
              SameColumns(expected, found) && SameConstraints(expected, found)
  {
    var left, right := c => ExpectedColumn(table, expected, found, c), c => ActualColumn(table, expected, c);
    NoDifferenceAt(expected.columns.Keys, left);
    NoDifferenceAt(found.columns.Keys, right);
    assert ColumnDifferences(table, expected, found) == {} <==> SameColumns(expected, found) by {
      if ColumnDifferences(table, expected, found) == {} {
        assert forall c | c in expected.columns :: left(c) == {};
        assert forall c | c in found.columns :: right(c) == {};
        assert forall c | c in expected.columns :: c in found.columns;
        assert forall c | c in found.columns :: c in expected.columns;
      }
    }
  }

  ghost predicate SameTable(expected: Table, actual: Inspection) {
    actual.Inspected? && SameColumns(expected, actual.table) && SameConstraints(expected, actual.table)
  }

  ghost predicate TablesAgree(model: map<string, Table>, actual: Schema)
    requires actual.Opened?
  {
    && actual.tables.Keys == model.Keys
    && forall t | t in model :: SameTable(model[t], actual.tables[t])
  }

  lemma EveryTableAgrees(model: map<string, Table>, actual: Schema)
    requires actual.Opened?
    ensures (Union(actual.tables.Keys, t => FoundTable(model, t)) == {}
             && Union(model.Keys, t => ModelTable(model, actual, t)) == {})
              <==> TablesAgree(model, actual)
  {
    var found, expected := t => FoundTable(model, t), t => ModelTable(model, actual, t);
    NoDifferenceAt(actual.tables.Keys, found);
    NoDifferenceAt(model.Keys, expected);
    assert (forall t | t in actual.tables :: found(t) == {}) <==> actual.tables.Keys <= model.Keys;
    forall t | t in model
      ensures expected(t) == {} <==> (t in actual.tables && SameTable(model[t], actual.tables[t]))
    {
      if t in actual.tables && actual.tables[t].Inspected? {
        SameTableHasNoDifference(t, model[t], actual.tables[t].table);
      }
    }
  }

  lemma SafeMeansNoDifference(differences: set<Difference>)
    ensures DecisionOf(differences) == SafeToStamp <==> differences == {}
  {
  }

  // safe_to_stamp is exact: it is said of the same schema, and of nothing else.
  lemma SafeToStampIsExact(model: map<string, Table>, actual: Schema, head: string, changed: bool)
    ensures ParityOf(model, actual, head, changed) == Some(SafeToStamp) <==>
              SameSchema(model, actual, head) && !changed
  {
    if actual.Opened? {
      EveryTableAgrees(model, actual);
      SafeMeansNoDifference(SchemaDifferences(model, actual, head, changed));
    }
  }

  predicate LengthsAgree(a: Option<nat>, b: Option<nat>) {
    a.Some? && b.Some? ==> a.value == b.value
  }

  // What may stand in the file for a type of the model: the same type, with the same
  // length where both declare one; text of limited length for an enumeration; and text
  // of either sort for JSON.
  predicate StandsFor(expected: ColumnType, found: ColumnType) {
    match expected
    case VarChar(n) => found.VarChar? && LengthsAgree(n, found.length)
    case LongText(n) => found.LongText? && LengthsAgree(n, found.length)
    case Enumeration(n) => (found.Enumeration? && LengthsAgree(n, found.length)) || found.VarChar?
    case Json => found.Json? || found.LongText? || found.VarChar?
    case DateTime => found.DateTime?
    case Boolean => found.Boolean?
    case Integer => found.Integer?
    case Unknown(name, n) => found.Unknown? && found.name == name && LengthsAgree(n, found.length)
  }

  lemma TypesStandExactly(expected: ColumnType, found: ColumnType)
    ensures TypesCompatible(expected, found) <==> StandsFor(expected, found)
    ensures TypesCompatible(expected, expected)
  {
  }

  // What safe_to_stamp means of every column of the model.
  lemma SafeColumnsStand(model: map<string, Table>, actual: Schema, head: string, changed: bool, t: string, c: string)
    requires ParityOf(model, actual, head, changed) == Some(SafeToStamp) && t in model && c in model[t].columns
    ensures actual.Opened? && t in actual.tables && actual.tables[t].Inspected?
    ensures c in actual.tables[t].table.columns
    ensures var expected, found := model[t].columns[c], actual.tables[t].table.columns[c];
            StandsFor(expected.kind, found.kind) && expected.nullable == found.nullable
  {
    SafeToStampIsExact(model, actual, head, changed);
    TypesStandExactly(model[t].columns[c].kind, actual.tables[t].table.columns[c].kind);
  }

  // ---------------------------------------------------- the other three decisions

  predicate OfInspection(d: Difference) {
    d.category == InspectionFailure
  }

  ghost predicate Clear(differences: set<Difference>, bad: Difference -> bool) {
    forall d | d in differences :: !bad(d)
  }

  lemma ClearUnion(names: set<string>, of: string -> set<Difference>, bad: Difference -> bool)
    ensures Clear(Union(names, of), bad) <==> forall c | c in names :: Clear(of(c), bad)
  {
    if Clear(Union(names, of), bad) {
      forall c, d | c in names && d in of(c) ensures !bad(d) {
        assert d in Union(names, of);
      }
    }
  }

  lemma ClearBoth(a: set<Difference>, b: set<Difference>, bad: Difference -> bool)
    ensures Clear(a + b, bad) <==> Clear(a, bad) && Clear(b, bad)
  {
  }

  // Some part of the file could not be read.
  ghost predicate Unreadable(model: map<string, Table>, actual: Schema)
    requires actual.Opened?
  {
    || actual.version.UnreadableRows?
    || exists t | t in model && t in actual.tables :: actual.tables[t].Failed?
  }

  ghost predicate ColumnEmbeds(expected: Table, found: Table, c: string)
    requires c in expected.columns
  {
    && c in found.columns
    && TypesCompatible(expected.columns[c].kind, found.columns[c].kind)
    && expected.columns[c].nullable == found.columns[c].nullable
  }

  // The expected table is there unharmed, whatever columns it has besides.
  ghost predicate Embeds(expected: Table, actual: Inspection) {
    && actual.Inspected?
    && (forall c | c in expected.columns :: ColumnEmbeds(expected, actual.table, c))
    && SameConstraints(expected, actual.table)
  }

  ghost predicate SchemaEmbeds(model: map<string, Table>, actual: Schema, head: string) {
    && actual.Opened?
    && (actual.version == Absent || actual.version == Rows([head]))
    && forall t | t in model :: t in actual.tables && Embeds(model[t], actual.tables[t])
  }

  lemma ColumnIsClear(table: string, expected: Table, found: Table, c: string)
    requires c in expected.columns
    ensures Clear(ExpectedColumn(table, expected, found, c), Critical) <==> ColumnEmbeds(expected, found, c)
  {
    var missing := Difference(MissingColumn, table, Some(c));
    var kind, nullable := Difference(TypeMismatch, table, Some(c)), Difference(NullableMismatch, table, Some(c));
    assert Critical(missing) && Critical(kind) && Critical(nullable);
  }

  lemma ColumnsAreClear(table: string, expected: Table, found: Table)
    ensures Clear(ColumnDifferences(table, expected, found), Critical) <==>
              forall c | c in expected.columns :: ColumnEmbeds(expected, found, c)
  {
    var left, right := c => ExpectedColumn(table, expected, found, c), c => ActualColumn(table, expected, c);
    ClearUnion(expected.columns.Keys, left, Critical);
    ClearUnion(found.columns.Keys, right, Critical);
    ClearBoth(Union(expected.columns.Keys, left), Union(found.columns.Keys, right), Critical);
    forall c | c in expected.columns ensures Clear(left(c), Critical) <==> ColumnEmbeds(expected, found, c) {
      ColumnIsClear(table, expected, found, c);
    }
  }

  lemma ConstraintsAreClear(table: string, expected: Table, found: Table)
    ensures Clear(ConstraintDifferences(table, expected, found), Critical) <==> SameConstraints(expected, found)
  {
    var all := ConstraintDifferences(table, expected, found);
    assert forall d | d in all :: Critical(d);
    assert all == {} <==> SameConstraints(expected, found);
    if all != {} {
      var d :| d in all;
    }
  }

  lemma TableIsClear(table: string, expected: Table, actual: Inspection)
    ensures Clear(TableDifferences(table, expected, actual), Critical) <==> Embeds(expected, actual)
  {
    if actual.Inspected? {
      ColumnsAreClear(table, expected, actual.table);
      ConstraintsAreClear(table, expected, actual.table);
      ClearBoth(ColumnDifferences(table, expected, actual.table),
                ConstraintDifferences(table, expected, actual.table), Critical);
    } else {
      assert Critical(Difference(InspectionFailure, table, None));
      assert Difference(InspectionFailure, table, None) in TableDifferences(table, expected, actual);
    }
  }

  lemma TableWasInspected(table: string, expected: Table, actual: Inspection)
    ensures Clear(TableDifferences(table, expected, actual), OfInspection) <==> actual.Inspected?
  {
    if actual.Failed? {
      assert Difference(InspectionFailure, table, None) in TableDifferences(table, expected, actual);
    }
  }

  lemma InspectionsAreClear(model: map<string, Table>, actual: Schema, head: string, changed: bool)
    requires actual.Opened?
    ensures Clear(SchemaDifferences(model, actual, head, changed), OfInspection) <==> !Unreadable(model, actual)
  {
    var found, expected := t => FoundTable(model, t), t => ModelTable(model, actual, t);
    ClearUnion(actual.tables.Keys, found, OfInspection);
    ClearUnion(model.Keys, expected, OfInspection);
    forall t | t in model
      ensures Clear(expected(t), OfInspection) <==> (t in actual.tables ==> actual.tables[t].Inspected?)
    {
      if t in actual.tables {
        TableWasInspected(t, model[t], actual.tables[t]);
      }
    }
    var version := VersionDifferences(actual.version, head);
    assert Clear(version, OfInspection) <==> !actual.version.UnreadableRows? by {
      if actual.version.UnreadableRows? {
        assert Difference(InspectionFailure, VERSION_TABLE, None) in version;
      }
    }
    assert Clear(SchemaDifferences(model, actual, head, changed), OfInspection) <==>
      && Clear(version, OfInspection)
      && Clear(Union(actual.tables.Keys, found), OfInspection)
      && Clear(Union(model.Keys, expected), OfInspection);
  }

  // unverifiable is said of what could not be read, and of nothing else.
  lemma UnverifiableIsExact(model: map<string, Table>, actual: Schema, head: string, changed: bool)
    ensures ParityOf(model, actual, head, changed) == Some(Unverifiable) <==>
              actual.Unopened? || (Unreadable(model, actual) && !Raises(model, actual))
  {
    if actual.Opened? {
      InspectionsAreClear(model, actual, head, changed);
      var all := SchemaDifferences(model, actual, head, changed);
      assert DecisionOf(all) == Unverifiable <==> !Clear(all, OfInspection);
    }
  }

  lemma VersionIsClear(version: VersionTable, head: string)
    ensures Clear(VersionDifferences(version, head), Critical) <==> (version == Absent || version == Rows([head]))
  {
    assert forall d | d in VersionDifferences(version, head) :: Critical(d);
    if VersionDifferences(version, head) != {} {
      var d :| d in VersionDifferences(version, head);
    }
  }

  lemma ModelIsClear(model: map<string, Table>, actual: Schema)
    requires actual.Opened?
    ensures Clear(Union(model.Keys, t => ModelTable(model, actual, t)), Critical) <==>
              forall t | t in model :: t in actual.tables && Embeds(model[t], actual.tables[t])
  {
    var expected := t => ModelTable(model, actual, t);
    ClearUnion(model.Keys, expected, Critical);
    forall t | t in model
      ensures Clear(expected(t), Critical) <==> (t in actual.tables && Embeds(model[t], actual.tables[t]))
    {
      if t in actual.tables {
        TableIsClear(t, model[t], actual.tables[t]);
      } else {
        assert Critical(Difference(MissingTable, t, None)) && Difference(MissingTable, t, None) in expected(t);
      }
    }
  }

  lemma SurplusIsClear(model: map<string, Table>, actual: Schema)
    requires actual.Opened?
    ensures Clear(Union(actual.tables.Keys, t => FoundTable(model, t)), Critical)
  {
    ClearUnion(actual.tables.Keys, t => FoundTable(model, t), Critical);
  }

  lemma OnlyCriticalOnesForbidARepair(differences: set<Difference>)
    ensures DecisionOf(differences) in {SafeToStamp, RepairRequired} <==> Clear(differences, Critical)
  {
    assert forall d | d in differences && d.category == InspectionFailure :: Critical(d);
  }

  lemma CriticalOnesAreClear(model: map<string, Table>, actual: Schema, head: string, changed: bool)
    requires actual.Opened?
    ensures Clear(SchemaDifferences(model, actual, head, changed), Critical) <==>
              SchemaEmbeds(model, actual, head) && !changed
  {
    var version := VersionDifferences(actual.version, head);
    var late := When(changed, Difference(ChangedDuringRead, "", None));
    var surplus := Union(actual.tables.Keys, t => FoundTable(model, t));
    var tables := Union(model.Keys, t => ModelTable(model, actual, t));
    VersionIsClear(actual.version, head);
    SurplusIsClear(model, actual);
    ModelIsClear(model, actual);
    ClearBoth(version, surplus, Critical);
    ClearBoth(version + surplus, tables, Critical);
    ClearBoth(version + surplus + tables, late, Critical);
    var moved := Difference(ChangedDuringRead, "", None);
    assert changed ==> Critical(moved) && moved in late;
  }

  // Only surplus tables and columns stand between repair_required and safe_to_stamp.
  lemma RepairRequiredIsExact(model: map<string, Table>, actual: Schema, head: string, changed: bool)
    ensures ParityOf(model, actual, head, changed) in {Some(SafeToStamp), Some(RepairRequired)} <==>
              SchemaEmbeds(model, actual, head) && !changed
  {
    if actual.Opened? {
      CriticalOnesAreClear(model, actual, head, changed);
      OnlyCriticalOnesForbidARepair(SchemaDifferences(model, actual, head, changed));
    }
  }

  // A column that does not stand for the model's is never safe, nor repairable.
  lemma WrongColumnsAreIncompatible(model: map<string, Table>, actual: Schema, head: string, changed: bool,
                                    t: string, c: string)
    requires actual.Opened? && t in model && t in actual.tables && actual.tables[t].Inspected?
    requires c in model[t].columns && c in actual.tables[t].table.columns
    requires var expected, found := model[t].columns[c], actual.tables[t].table.columns[c];
             !StandsFor(expected.kind, found.kind) || expected.nullable != found.nullable
    ensures ParityOf(model, actual, head, changed) !in {Some(SafeToStamp), Some(RepairRequired)}
  {
    RepairRequiredIsExact(model, actual, head, changed);
    TypesStandExactly(model[t].columns[c].kind, actual.tables[t].table.columns[c].kind);
    assert SchemaEmbeds(model, actual, head) ==> ColumnEmbeds(model[t], actual.tables[t].table, c);
  }

  // ------------------------------------------------------------ no decision at all

  // No name is missing beside a text.
  predicate Orderly(table: Table) {
    !Clash(table.foreignKeys) && !Clash(table.indexes) && !Clash(table.uniques) && !Clash(table.checks)
  }

  // Where no name is missing beside a text, on either side, a decision is returned.
  lemma OrderedNamesGetADecision(model: map<string, Table>, actual: Schema, head: string, changed: bool)
    requires actual.Opened?
    requires forall t | t in model && t in actual.tables && actual.tables[t].Inspected? ::
               Orderly(model[t]) && Orderly(actual.tables[t].table)
    ensures ParityOf(model, actual, head, changed).Some?
  {
    assert forall t :: !RaisesAt(model, actual, t);
  }

  predicate AllNamed<B(==), A(==)>(keys: set<Named<B, A>>) {
    forall k | k in keys :: k.name.Some?
  }

  // The naming convention of backend/database.py gives every key and constraint a name.
  predicate FullyNamed(table: Table) {
    && AllNamed(table.foreignKeys) && AllNamed(table.indexes)
    && AllNamed(table.uniques) && AllNamed(table.checks)
  }

  lemma OneReportNeedsTheFile<B, A>(expected: set<Named<B, A>>, found: set<Named<B, A>>)
    requires AllNamed(expected)
    ensures ReportRaises(expected, found) <==> Clash(found)
  {
  }

  // Against such a model the file alone decides: an exception exactly when some table
  // that both have holds a missing name beside a text.
  lemma TheFileAloneDecides(model: map<string, Table>, actual: Schema, head: string, changed: bool)
    requires actual.Opened? && forall t | t in model :: FullyNamed(model[t])
    ensures ParityOf(model, actual, head, changed) == None <==>
              exists t :: t in model && t in actual.tables && actual.tables[t].Inspected?
                && !Orderly(actual.tables[t].table)
  {
    forall t | t in model && t in actual.tables && actual.tables[t].Inspected?
      ensures RaisesAt(model, actual, t) <==> !Orderly(actual.tables[t].table)
    {
      var expected, found := model[t], actual.tables[t].table;
      OneReportNeedsTheFile(expected.foreignKeys, found.foreignKeys);
      OneReportNeedsTheFile(expected.indexes, found.indexes);
      OneReportNeedsTheFile(expected.uniques, found.uniques);
      OneReportNeedsTheFile(expected.checks, found.checks);
    }
  }

  lemma OneTableDecides(t: string, expected: Table, found: Table, head: string)
    requires FullyNamed(expected) && !Orderly(found)
    ensures ParityOf(map[t := expected], Opened(map[t := Inspected(found)], Absent), head, false) == None
  {
    var model, actual := map[t := expected], Opened(map[t := Inspected(found)], Absent);
    assert t in model && actual.tables[t] == Inspected(found);
    TheFileAloneDecides(model, actual, head, false);
  }

  // A table of the model, and a file whose own constraint on it is unnamed beside a
  // named one.
  const GRANTS := Table(map[], [], {}, {},
                        {ConstraintOf(Some("uq_role_permissions_role"), ["role", "permission_key"])}, {})
  const HALF_NAMED := GRANTS.(uniques := {ConstraintOf(None, ["role", "permission_key"]),
                                          ConstraintOf(Some("uq"), ["role"])})

  lemma HalfNamedIsNotOrderly()
    ensures FullyNamed(GRANTS) && !Orderly(HALF_NAMED)
  {
    var unnamed, named := ConstraintOf(None, ["role", "permission_key"]), ConstraintOf(Some("uq"), ["role"]);
    assert unnamed in HALF_NAMED.uniques && named in HALF_NAMED.uniques;
  }

  lemma AnUnnamedConstraintCanRaise(head: string)
    ensures FullyNamed(GRANTS)
    ensures ParityOf(map["role_permissions" := GRANTS],
                     Opened(map["role_permissions" := Inspected(HALF_NAMED)], Absent), head, false) == None
  {
    HalfNamedIsNotOrderly();
    OneTableDecides("role_permissions", GRANTS, HALF_NAMED, head);
  }
}
