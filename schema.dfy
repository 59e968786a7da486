/** The product table under its runtime schema: the (name, type, default)
    triples that PRAGMA table_info reports, the rows, and the operations
    that change them (ALTER TABLE ADD COLUMN, the rebuild behind drop and
    modify, and the UPDATE of one product's cells). */
module Schema {
  import opened Outcomes
  import opened Values
  import opened Identifiers
  import opened Price

  /** One column as a rebuild carries it: name, declared type, default. A
      column read back from PRAGMA table_info carries its default as the
      SQL text of the DEFAULT clause, quotes included; the new triple of a
      modify carries the form's text. */
  datatype Column = Column(name: string, ctype: string, dflt: Option<string>)

  /** A row of the product table: column name to cell. */
  type Row = map<string, Value>

  /** One `column = ?` of an UPDATE's SET list. */
  datatype Assignment = Assignment(column: string, value: Value)

  const IdColumn := "id"

  /** The table as db.create_all() makes it from the Product model. */
  const InitialSchema := [
    Column("id", "INTEGER", None),
    Column("name", "VARCHAR(120)", None),
    Column("description", "TEXT", None),
    Column("price_cents", "INTEGER", None),
    Column("stock", "INTEGER", None),
    Column("category", "VARCHAR(80)", None),
    Column("image_url", "VARCHAR(400)", None)
  ]

  /** The initial table has distinct names, among them id, and no column
      with a DEFAULT clause. */
  lemma InitialSchemaShape()
    ensures DistinctNames(InitialSchema) && IdColumn in NameSet(InitialSchema)
    ensures NameSet(InitialSchema) == {"id", "name", "description", "price_cents", "stock", "category", "image_url"}
    ensures forall i :: 0 <= i < |InitialSchema| ==> InitialSchema[i].dflt == None
  {
    var cols := InitialSchema;
    forall n | n in NameSet(cols)
      ensures n in {"id", "name", "description", "price_cents", "stock", "category", "image_url"}
    {
      var i :| 0 <= i < |cols| && cols[i].name == n;
    }
    assert cols[0].name in NameSet(cols) && cols[1].name in NameSet(cols) && cols[2].name in NameSet(cols);
    assert cols[3].name in NameSet(cols) && cols[4].name in NameSet(cols);
    assert cols[5].name in NameSet(cols) && cols[6].name in NameSet(cols);
  }

  function Names(cols: seq<Column>): seq<string> {
    seq(|cols|, i requires 0 <= i < |cols| => cols[i].name)
  }

  function NameSet(cols: seq<Column>): set<string> {
    set i | 0 <= i < |cols| :: cols[i].name
  }

  /** No two columns share a name, as SQLite requires of every table. */
  predicate DistinctNames(cols: seq<Column>) {
    forall i, j :: 0 <= i < j < |cols| ==> cols[i].name != cols[j].name
  }

  /** dict.get: the cell of a column, None when the row has no such key. */
  function Get(row: Row, name: string): Value {
    if name in row then row[name] else Null
  }

  /** The default a column is declared with: a DEFAULT clause is written only
      for a default that is neither None nor ''. */
  function Declared(dflt: Option<string>): Option<string> {
    if dflt == Some("") then None else dflt
  }

  /** The text between the quotes of DEFAULT '...' is one SQL string
      literal exactly when every quote in it is doubled. */
  predicate StringBody(d: string)
    decreases |d|
  {
    if d == [] then true
    else if d[0] == '\'' then |d| >= 2 && d[1] == '\'' && StringBody(d[2..])
    else StringBody(d[1..])
  }

  /** The value of the literal '...' around d: a doubled quote reads as one. */
  function Unescape(d: string): string
    decreases |d|
  {
    if d == [] then []
    else if |d| >= 2 && d[0] == '\'' && d[1] == '\'' then "'" + Unescape(d[2..])
    else [d[0]] + Unescape(d[1..])
  }

  /** A text with no quote in it is a literal's body, and its own value. */
  lemma {:induction false} UnescapePlain(d: string)
    requires forall i :: 0 <= i < |d| ==> d[i] != '\''
    ensures StringBody(d) && Unescape(d) == d
    decreases |d|
  {
    if d != [] {
      UnescapePlain(d[1..]);
      assert d == [d[0]] + d[1..];
    }
  }

  /** How a text is written inside a literal so that it reads back as
      itself: every quote doubled. */
  function Escape(v: string): string {
    if v == [] then []
    else (if v[0] == '\'' then "''" else [v[0]]) + Escape(v[1..])
  }

  /** StringBody and Unescape describe the literals exactly: every text has
      a body that reads back as it. */
  lemma {:induction false} EscapeRoundTrip(v: string)
    ensures StringBody(Escape(v)) && Unescape(Escape(v)) == v
  {
    if v != [] {
      EscapeRoundTrip(v[1..]);
      var rest := Escape(v[1..]);
      if v[0] == '\'' {
        assert Escape(v) == "''" + rest;
        assert (Escape(v))[2..] == rest;
      } else {
        assert Escape(v) == [v[0]] + rest;
        assert (Escape(v))[1..] == rest;
      }
      assert v == [v[0]] + v[1..];
    }
  }

  /** A DEFAULT clause, when one is written, parses. */
  predicate DefaultWritable(dflt: Option<string>) {
    match Declared(dflt)
    case None => true
    case Some(d) => StringBody(d)
  }

  /** What PRAGMA table_info reports as the default of a column declared
      with DEFAULT '...': the literal's SQL text, quotes included. */
  function Reported(dflt: Option<string>): (r: Option<string>)
    ensures r == None <==> dflt == None || dflt == Some("")
    ensures r.Some? ==> |r.value| >= 2 && r.value[0] == '\'' && r.value[|r.value| - 1] == '\''
  {
    match Declared(dflt)
    case None => None
    case Some(d) => Some("'" + d + "'")
  }

  /** A default read back from PRAGMA and written into a second DEFAULT
      '...' no longer parses: its opening quote ends the literal at once. */
  lemma ReportedUnwritable(d: string)
    requires d != "" && d[0] != '\''
    ensures !DefaultWritable(Reported(Some(d)))
  {
    var t := "'" + d + "'";
    assert t[0] == '\'' && t[1] == d[0];
  }

  /** The cell a row receives for a column it had no value for: NULL without
      a DEFAULT clause, otherwise the value of the literal written. */
  function DefaultCell(dflt: Option<string>): (v: Value)
    ensures v == Null || v.Text?
    ensures v == Null <==> dflt == None || dflt == Some("")
    ensures dflt.Some? && dflt.value != "" && (forall i :: 0 <= i < |dflt.value| ==> dflt.value[i] != '\'') ==>
      v == Text(dflt.value)
  {
    match Declared(dflt)
    case None => Null
    case Some(s) =>
      if forall i :: 0 <= i < |s| ==> s[i] != '\'' then UnescapePlain(s); Text(Unescape(s))
      else Text(Unescape(s))
  }

  // ---------------------------------------------------------------------
  // Adding a column

  /** Every existing row reads the new column's default. */
  function WithCell(rows: seq<Row>, name: string, v: Value): seq<Row> {
    seq(|rows|, k requires 0 <= k < |rows| => rows[k][name := v])
  }

  /** Adding a column touches no existing cell, and every row reads the
      declared default, or NULL, in the new one. */
  lemma AddedColumnKeepsData(rows: seq<Row>, name: string, dflt: Option<string>)
    ensures |WithCell(rows, name, DefaultCell(dflt))| == |rows|
    ensures forall k :: 0 <= k < |rows| ==>
      WithCell(rows, name, DefaultCell(dflt))[k].Keys == rows[k].Keys + {name} &&
      WithCell(rows, name, DefaultCell(dflt))[k][name] == DefaultCell(dflt) &&
      forall n :: n in rows[k] && n != name ==> WithCell(rows, name, DefaultCell(dflt))[k][n] == rows[k][n]
  {
  }

  // ---------------------------------------------------------------------
  // Planning a drop or a modify

  /** The triples of cols not named col, in their original order. */
  function Without(cols: seq<Column>, col: string): seq<Column> {
    if cols == [] then []
    else Without(cols[..|cols| - 1], col) + (if cols[|cols| - 1].name != col then [cols[|cols| - 1]] else [])
  }

  /** The drop planning loop: keep every triple whose name is not col; if
      none was removed, the column was not found and nothing is rebuilt. */
  method PlanDrop(cols: seq<Column>, col: string) returns (r: Result<seq<Column>>)
    ensures r == if |Without(cols, col)| == |cols| then Err(ColumnNotFound) else Ok(Without(cols, col))
  {
    var kept := [];
    var i := 0;
    while i < |cols|
      invariant 0 <= i <= |cols|
      invariant kept == Without(cols[..i], col)
    {
      assert cols[..i + 1][..i] == cols[..i];
      if cols[i].name != col {
        kept := kept + [cols[i]];
      }
      i := i + 1;
    }
    assert cols[..|cols|] == cols;
    if |kept| == |cols| {
      r := Err(ColumnNotFound);
    } else {
      r := Ok(kept);
    }
  }

  /** A triple survives the drop exactly when it is not named col. */
  lemma {:induction false} WithoutMembers(cols: seq<Column>, col: string)
    ensures forall c :: c in Without(cols, col) <==> c in cols && c.name != col
  {
    if cols != [] {
      var init := cols[..|cols| - 1];
      WithoutMembers(init, col);
      assert cols == init + [cols[|cols| - 1]];
    }
  }

  /** Nothing is dropped exactly when no triple is named col. */
  lemma {:induction false} WithoutLength(cols: seq<Column>, col: string)
    ensures |Without(cols, col)| <= |cols|
    ensures |Without(cols, col)| == |cols| <==> forall i :: 0 <= i < |cols| ==> cols[i].name != col
  {
    if cols != [] {
      var init := cols[..|cols| - 1];
      WithoutLength(init, col);
      if forall i :: 0 <= i < |cols| ==> cols[i].name != col {
        assert forall i :: 0 <= i < |init| ==> init[i].name != col by {
          forall i | 0 <= i < |init| ensures init[i].name != col {
            assert init[i] == cols[i];
          }
        }
      } else {
        var i :| 0 <= i < |cols| && cols[i].name == col;
        if i < |init| {
          assert init[i] == cols[i];
        }
      }
    }
  }

  lemma {:induction false} WithoutNothing(cols: seq<Column>, col: string)
    requires forall i :: 0 <= i < |cols| ==> cols[i].name != col
    ensures Without(cols, col) == cols
  {
    if cols != [] {
      var init := cols[..|cols| - 1];
      assert forall i :: 0 <= i < |init| ==> init[i] == cols[i];
      WithoutNothing(init, col);
      assert cols == init + [cols[|cols| - 1]];
    }
  }

  /** Dropping from a concatenation drops from each part. */
  lemma {:induction false} WithoutAppend(a: seq<Column>, b: seq<Column>, col: string)
    ensures Without(a + b, col) == Without(a, col) + Without(b, col)
  {
    if b == [] {
      assert a + b == a;
    } else {
      var init := b[..|b| - 1];
      WithoutAppend(a, init, col);
      assert (a + b)[..|a + b| - 1] == a + init;
      assert (a + b)[|a + b| - 1] == b[|b| - 1];
    }
  }

  lemma WithoutSingle(c: Column, col: string)
    requires c.name == col
    ensures Without([c], col) == []
  {
    assert [c][..0] == [];
  }

  /** Dropping the middle triple of before + [c] + after, when neither side
      holds its name. */
  lemma DropMiddle(before: seq<Column>, c: Column, after: seq<Column>)
    requires forall j :: 0 <= j < |before| ==> before[j].name != c.name
    requires forall j :: 0 <= j < |after| ==> after[j].name != c.name
    ensures Without(before + [c] + after, c.name) == before + after
  {
    WithoutAppend(before + [c], after, c.name);
    WithoutAppend(before, [c], c.name);
    WithoutSingle(c, c.name);
    WithoutNothing(before, c.name);
    WithoutNothing(after, c.name);
    assert before + [] == before;
  }

  /** When no other column shares the i-th column's name, dropping it leaves
      the others exactly as they were, in their original order. */
  lemma {:induction false} DropOne(cols: seq<Column>, i: nat)
    requires i < |cols|
    requires forall j :: 0 <= j < |cols| && j != i ==> cols[j].name != cols[i].name
    ensures Without(cols, cols[i].name) == cols[..i] + cols[i + 1..]
  {
    var before, after := cols[..i], cols[i + 1..];
    assert forall j :: 0 <= j < |before| ==> before[j] == cols[j];
    assert forall j :: 0 <= j < |after| ==> after[j] == cols[i + 1 + j];
    assert cols == before + [cols[i]] + after;
    DropMiddle(before, cols[i], after);
  }

  /** The modify plan: every triple named colOld is replaced in place. */
  function ModifyPlan(cols: seq<Column>, colOld: string, replacement: Column): seq<Column> {
    if cols == [] then []
    else ModifyPlan(cols[..|cols| - 1], colOld, replacement)
         + [if cols[|cols| - 1].name == colOld then replacement else cols[|cols| - 1]]
  }

  /** The modify planning loop. */
  method PlanModify(cols: seq<Column>, colOld: string, colNew: string, colType: string, colDefault: Option<string>)
    returns (r: seq<Column>)
    ensures r == ModifyPlan(cols, colOld, Column(colNew, colType, colDefault))
  {
    r := [];
    var i := 0;
    while i < |cols|
      invariant 0 <= i <= |cols|
      invariant r == ModifyPlan(cols[..i], colOld, Column(colNew, colType, colDefault))
    {
      assert cols[..i + 1][..i] == cols[..i];
      if cols[i].name == colOld {
        r := r + [Column(colNew, colType, colDefault)];
      } else {
        r := r + [cols[i]];
      }
      i := i + 1;
    }
    assert cols[..|cols|] == cols;
  }

  /** Modify keeps the length and the order: each triple named colOld becomes
      the replacement, every other one stays as it was. */
  lemma {:induction false} ModifyPlanAt(cols: seq<Column>, colOld: string, replacement: Column)
    ensures |ModifyPlan(cols, colOld, replacement)| == |cols|
    ensures forall i :: 0 <= i < |cols| ==>
      ModifyPlan(cols, colOld, replacement)[i] == if cols[i].name == colOld then replacement else cols[i]
  {
    if cols != [] {
      var init := cols[..|cols| - 1];
      ModifyPlanAt(init, colOld, replacement);
      assert forall i :: 0 <= i < |init| ==> init[i] == cols[i];
    }
  }

  // ---------------------------------------------------------------------
  // The rebuild

  /** [c for c in new_cols if c in old_cols]: the names whose data is copied. */
  function Common(newNames: seq<string>, oldNames: set<string>): (r: seq<string>)
    ensures forall n :: n in r <==> n in newNames && n in oldNames
  {
    if newNames == [] then []
    else
      var init := newNames[..|newNames| - 1];
      var last := newNames[|newNames| - 1];
      assert newNames == init + [last];
      Common(init, oldNames) + (if last in oldNames then [last] else [])
  }

  /** The cell a copied row has in column c: the old value when the old table
      had a column of that name, the column's default otherwise. */
  function Cell(oldRow: Row, c: Column, oldNames: set<string>): Value {
    if c.name in oldNames then Get(oldRow, c.name) else DefaultCell(c.dflt)
  }

  function CopiedRow(oldRow: Row, oldNames: set<string>, target: seq<Column>): Row
    requires DistinctNames(target)
  {
    map i | 0 <= i < |target| :: target[i].name := Cell(oldRow, target[i], oldNames)
  }

  /** The rows of the rebuilt table. INSERT INTO ... SELECT is issued only
      when some column survives by name; otherwise no row is copied. */
  function RebuiltRows(rows: seq<Row>, oldCols: seq<Column>, target: seq<Column>): seq<Row>
    requires DistinctNames(target)
  {
    if Common(Names(target), NameSet(oldCols)) == [] then []
    else seq(|rows|, k requires 0 <= k < |rows| => CopiedRow(rows[k], NameSet(oldCols), target))
  }

  /** The schema the rebuilt table reports: the target triples, each
      default as PRAGMA reads back the DEFAULT clause written for it. */
  function Normalized(target: seq<Column>): seq<Column> {
    seq(|target|, i requires 0 <= i < |target| => Column(target[i].name, target[i].ctype, Reported(target[i].dflt)))
  }

  /** Every DEFAULT clause of the target layout parses. */
  predicate DefaultsWritable(target: seq<Column>) {
    forall i :: 0 <= i < |target| ==> DefaultWritable(target[i].dflt)
  }

  /** Why CREATE TABLE refuses the target layout, if it does: an empty
      column list, a repeated name, or a DEFAULT clause that does not parse. */
  function RebuildError(target: seq<Column>): (e: Option<Error>)
    ensures e == None <==> target != [] && DistinctNames(target) && DefaultsWritable(target)
  {
    if target == [] then Some(EmptyStatement)
    else if !DistinctNames(target) then Some(DuplicateColumn)
    else if !DefaultsWritable(target) then Some(SyntaxError)
    else None
  }

  /** The outcome of recreate_table_with_schema. A CREATE TABLE that fails
      stops it before anything is changed; otherwise the table is replaced
      by its rebuilt copy. */
  ghost predicate Rebuilt(oldSchema: seq<Column>, oldRows: seq<Row>, target: seq<Column>,
                          r: Result<()>, newSchema: seq<Column>, newRows: seq<Row>)
  {
    match RebuildError(target)
    case Some(e) => r == Err(e) && newSchema == oldSchema && newRows == oldRows
    case None =>
      r == Ok(()) && newSchema == Normalized(target) && newRows == RebuiltRows(oldRows, oldSchema, target)
  }

  /** Some target column exists in the old table by name. */
  predicate Survives(oldCols: seq<Column>, target: seq<Column>) {
    exists i :: 0 <= i < |target| && target[i].name in NameSet(oldCols)
  }

  /** After a rebuild the table has exactly the target names in the target
      order, every row has exactly those columns, and the rows are all kept
      unless no column survived by name (then none is). */
  lemma RebuiltShape(rows: seq<Row>, oldCols: seq<Column>, target: seq<Column>)
    requires DistinctNames(target)
    ensures Names(Normalized(target)) == Names(target)
    ensures NameSet(Normalized(target)) == NameSet(target)
    ensures |RebuiltRows(rows, oldCols, target)| == if Survives(oldCols, target) then |rows| else 0
    ensures forall k :: 0 <= k < |RebuiltRows(rows, oldCols, target)| ==>
      RebuiltRows(rows, oldCols, target)[k].Keys == NameSet(target)
  {
    var common := Common(Names(target), NameSet(oldCols));
    if Survives(oldCols, target) {
      var i :| 0 <= i < |target| && target[i].name in NameSet(oldCols);
      assert Names(target)[i] == target[i].name;
      assert target[i].name in common;
    }
    if common != [] {
      assert common[0] in Names(target);
      var i :| 0 <= i < |target| && Names(target)[i] == common[0];
      assert target[i].name in NameSet(oldCols);
      assert Survives(oldCols, target);
    }
    var norm := Normalized(target);
    forall n | n in NameSet(norm) ensures n in NameSet(target) {
      var j :| 0 <= j < |norm| && norm[j].name == n;
    }
    forall n | n in NameSet(target) ensures n in NameSet(norm) {
      var j :| 0 <= j < |target| && target[j].name == n;
      assert norm[j].name == n;
    }
  }

  /** A column that exists before and after the rebuild keeps every row's
      value; a column new by name holds its default, or NULL. */
  lemma RebuiltCells(rows: seq<Row>, oldCols: seq<Column>, target: seq<Column>, k: nat, i: nat)
    requires DistinctNames(target)
    requires k < |RebuiltRows(rows, oldCols, target)| && i < |target|
    ensures RebuiltRows(rows, oldCols, target)[k][target[i].name] ==
      if target[i].name in NameSet(oldCols) then Get(rows[k], target[i].name) else DefaultCell(target[i].dflt)
  {
    var row := CopiedRow(rows[k], NameSet(oldCols), target);
    assert row[target[i].name] == Cell(rows[k], target[i], NameSet(oldCols));
  }

  /** Every column of the result of a drop was a column before it. */
  lemma WithoutSubset(cols: seq<Column>, col: string, j: nat)
    requires j < |Without(cols, col)|
    ensures Without(cols, col)[j].name in NameSet(cols)
    ensures Without(cols, col)[j].name != col
  {
    WithoutMembers(cols, col);
    var c := Without(cols, col)[j];
    assert c in cols;
    var j' :| 0 <= j' < |cols| && cols[j'] == c;
  }

  /** Dropping a column that exists, from a table with another column left,
      keeps every row and every other cell, and the dropped column is gone. */
  /** The plan of dropping a uniquely named column: one triple shorter, of
      distinct names, each an old name other than the dropped one. */
  lemma DropPlanFacts(cols: seq<Column>, i: nat)
    requires DistinctNames(cols) && i < |cols| && |cols| > 1
    ensures var target := Without(cols, cols[i].name);
      DistinctNames(target) && |target| == |cols| - 1 &&
      forall j :: 0 <= j < |target| ==> target[j].name in NameSet(cols) && target[j].name != cols[i].name
  {
    var col := cols[i].name;
    var target := Without(cols, col);
    DropOne(cols, i);
    assert forall j :: 0 <= j < |target| ==> target[j] == cols[if j < i then j else j + 1];
    assert DistinctNames(target);
    forall j | 0 <= j < |target| ensures target[j].name in NameSet(cols) && target[j].name != col {
      WithoutSubset(cols, col, j);
    }
  }

  lemma DropKeepsOtherData(cols: seq<Column>, rows: seq<Row>, i: nat)
    requires DistinctNames(cols) && i < |cols| && |cols| > 1
    requires forall k :: 0 <= k < |rows| ==> rows[k].Keys == NameSet(cols)
    ensures var target := Without(cols, cols[i].name);
      DistinctNames(target) && |target| == |cols| - 1 &&
      |RebuiltRows(rows, cols, target)| == |rows| &&
      forall k :: 0 <= k < |rows| ==>
        cols[i].name !in RebuiltRows(rows, cols, target)[k] &&
        forall j :: 0 <= j < |target| ==>
          target[j].name in rows[k] && RebuiltRows(rows, cols, target)[k][target[j].name] == rows[k][target[j].name]
  {
    var col := cols[i].name;
    var target := Without(cols, col);
    DropPlanFacts(cols, i);
    RebuiltShape(rows, cols, target);
    forall k | 0 <= k < |rows|
      ensures col !in RebuiltRows(rows, cols, target)[k]
      ensures forall j :: 0 <= j < |target| ==>
        target[j].name in rows[k] && RebuiltRows(rows, cols, target)[k][target[j].name] == rows[k][target[j].name]
    {
      DroppedRow(rows, cols, col, target, k);
    }
  }

  /** One row of a drop's rebuild: every kept column keeps its cell and the
      dropped name is gone. */
  lemma DroppedRow(rows: seq<Row>, cols: seq<Column>, col: string, target: seq<Column>, k: nat)
    requires DistinctNames(target)
    requires forall j :: 0 <= j < |target| ==> target[j].name in NameSet(cols) && target[j].name != col
    requires k < |RebuiltRows(rows, cols, target)| && rows[k].Keys == NameSet(cols)
    ensures var row := RebuiltRows(rows, cols, target)[k];
      col !in row &&
      forall j :: 0 <= j < |target| ==> target[j].name in rows[k] && row[target[j].name] == rows[k][target[j].name]
  {
    RebuiltShape(rows, cols, target);
    forall j | 0 <= j < |target| ensures RebuiltRows(rows, cols, target)[k][target[j].name] == rows[k][target[j].name] {
      RebuiltCells(rows, cols, target, k, j);
    }
  }

  /** The i-th column is the only one with its name. */
  lemma UniqueAt(cols: seq<Column>, i: nat)
    requires DistinctNames(cols) && i < |cols|
    ensures forall j :: 0 <= j < |cols| && j != i ==> cols[j].name != cols[i].name
  {
    forall j | 0 <= j < |cols| && j != i ensures cols[j].name != cols[i].name {
      if j < i {
        assert cols[j].name != cols[i].name;
      } else {
        assert cols[i].name != cols[j].name;
      }
    }
  }

  /** Modifying the i-th column, when no other column shares its name: the
      plan differs from the old schema in that one place only. */
  lemma ModifyOne(cols: seq<Column>, i: nat, replacement: Column)
    requires DistinctNames(cols) && i < |cols|
    ensures ModifyPlan(cols, cols[i].name, replacement) == cols[i := replacement]
  {
    UniqueAt(cols, i);
    ModifyPlanAt(cols, cols[i].name, replacement);
  }

  /** Two schemas with the same names, position by position, name the same
      set of columns. */
  lemma SameNameSet(cols: seq<Column>, target: seq<Column>)
    requires |target| == |cols|
    requires forall j :: 0 <= j < |cols| ==> target[j].name == cols[j].name
    ensures NameSet(target) == NameSet(cols)
  {
    forall n | n in NameSet(target) ensures n in NameSet(cols) {
      var j :| 0 <= j < |target| && target[j].name == n;
      assert cols[j].name == n;
    }
    forall n | n in NameSet(cols) ensures n in NameSet(target) {
      var j :| 0 <= j < |cols| && cols[j].name == n;
      assert target[j].name == n;
    }
  }

  /** A rebuild onto the same names, in the same order, is the identity on
      the rows. */
  lemma RebuiltSameNames(rows: seq<Row>, cols: seq<Column>, target: seq<Column>)
    requires DistinctNames(target) && |target| == |cols| && |cols| > 0
    requires forall j :: 0 <= j < |cols| ==> target[j].name == cols[j].name
    requires forall k :: 0 <= k < |rows| ==> rows[k].Keys == NameSet(cols)
    ensures RebuiltRows(rows, cols, target) == rows
  {
    SameNameSet(cols, target);
    assert target[0].name in NameSet(cols);
    RebuiltShape(rows, cols, target);
    var rebuilt := RebuiltRows(rows, cols, target);
    forall k | 0 <= k < |rows| ensures rebuilt[k] == rows[k] {
      SameNamesRow(rows, cols, target, k);
    }
  }

  /** One row of such a rebuild: every cell is copied under its own name. */
  lemma SameNamesRow(rows: seq<Row>, cols: seq<Column>, target: seq<Column>, k: nat)
    requires DistinctNames(target) && NameSet(target) == NameSet(cols)
    requires k < |RebuiltRows(rows, cols, target)| && rows[k].Keys == NameSet(cols)
    ensures RebuiltRows(rows, cols, target)[k] == rows[k]
  {
    RebuiltShape(rows, cols, target);
    var row := RebuiltRows(rows, cols, target)[k];
    assert row.Keys == rows[k].Keys;
    forall n | n in row ensures row[n] == rows[k][n] {
      var j :| 0 <= j < |target| && target[j].name == n;
      RebuiltCells(rows, cols, target, k, j);
    }
    SameCells(row, rows[k]);
  }

  /** Two rows with the same columns and the same cells are the same row. */
  lemma SameCells(a: Row, b: Row)
    requires a.Keys == b.Keys && forall n :: n in a ==> a[n] == b[n]
    ensures a == b
  {
  }

  /** A modify that keeps the name and changes only the type or the default
      keeps every row and every cell. */
  lemma RetypeKeepsData(cols: seq<Column>, rows: seq<Row>, i: nat, colType: string, colDefault: Option<string>)
    requires DistinctNames(cols) && i < |cols|
    requires forall k :: 0 <= k < |rows| ==> rows[k].Keys == NameSet(cols)
    ensures var target := ModifyPlan(cols, cols[i].name, Column(cols[i].name, colType, colDefault));
      DistinctNames(target) && Names(target) == Names(cols) &&
      RebuiltRows(rows, cols, target) == rows
  {
    var target := ModifyPlan(cols, cols[i].name, Column(cols[i].name, colType, colDefault));
    ModifyOne(cols, i, Column(cols[i].name, colType, colDefault));
    assert forall j :: 0 <= j < |cols| ==> target[j].name == cols[j].name;
    assert Names(target) == Names(cols);
    RebuiltSameNames(rows, cols, target);
  }

  /** Giving the i-th column a name not in use keeps the names distinct. */
  lemma RenamedDistinct(cols: seq<Column>, i: nat, replacement: Column)
    requires DistinctNames(cols) && i < |cols|
    requires replacement.name !in NameSet(cols)
    ensures DistinctNames(cols[i := replacement])
  {
    var target := cols[i := replacement];
    forall a, b | 0 <= a < b < |target| ensures target[a].name != target[b].name {
      if a == i {
        assert cols[b].name in NameSet(cols);
      } else if b == i {
        assert cols[a].name in NameSet(cols);
      }
    }
  }

  /** Renaming a column to a name not in use loses its data: every row holds
      the new column's default instead, the old name is gone, and the other
      columns keep their cells. If it was the only column, no row is left. */
  lemma RenameLosesData(cols: seq<Column>, rows: seq<Row>, i: nat, colNew: string, colType: string,
                        colDefault: Option<string>)
    requires DistinctNames(cols) && i < |cols|
    requires forall k :: 0 <= k < |rows| ==> rows[k].Keys == NameSet(cols)
    requires colNew !in NameSet(cols)
    ensures var target := ModifyPlan(cols, cols[i].name, Column(colNew, colType, colDefault));
      DistinctNames(target) &&
      var rebuilt := RebuiltRows(rows, cols, target);
      |rebuilt| == (if |cols| > 1 then |rows| else 0) &&
      forall k :: 0 <= k < |rebuilt| ==>
        cols[i].name !in rebuilt[k] && Get(rebuilt[k], colNew) == DefaultCell(colDefault) &&
        forall j :: 0 <= j < |cols| && j != i ==> Get(rebuilt[k], cols[j].name) == Get(rows[k], cols[j].name)
  {
    var colOld := cols[i].name;
    var replacement := Column(colNew, colType, colDefault);
    var target := ModifyPlan(cols, colOld, replacement);
    ModifyOne(cols, i, replacement);
    RenamedDistinct(cols, i, replacement);
    UniqueAt(cols, i);
    assert colOld in NameSet(cols);
    if |cols| > 1 {
      var j0 := if i == 0 then 1 else 0;
      assert cols[j0].name in NameSet(cols);
      assert target[j0] == cols[j0];
      assert Survives(cols, target);
    } else {
      assert !Survives(cols, target);
    }
    RebuiltShape(rows, cols, target);
    var rebuilt := RebuiltRows(rows, cols, target);
    forall k | 0 <= k < |rebuilt|
      ensures colOld !in rebuilt[k] && Get(rebuilt[k], colNew) == DefaultCell(colDefault)
      ensures forall j :: 0 <= j < |cols| && j != i ==> Get(rebuilt[k], cols[j].name) == Get(rows[k], cols[j].name)
    {
      RenamedRow(rows, cols, i, replacement, k);
    }
  }

  /** One row of a rename's rebuild: the new name holds its default, the old
      name is gone, and every other column keeps its cell. */
  lemma RenamedRow(rows: seq<Row>, cols: seq<Column>, i: nat, replacement: Column, k: nat)
    requires DistinctNames(cols) && i < |cols| && replacement.name !in NameSet(cols)
    requires DistinctNames(cols[i := replacement])
    requires k < |RebuiltRows(rows, cols, cols[i := replacement])|
    ensures var row := RebuiltRows(rows, cols, cols[i := replacement])[k];
      cols[i].name !in row && Get(row, replacement.name) == DefaultCell(replacement.dflt) &&
      forall j :: 0 <= j < |cols| && j != i ==> Get(row, cols[j].name) == Get(rows[k], cols[j].name)
  {
    var target := cols[i := replacement];
    RebuiltShape(rows, cols, target);
    UniqueAt(cols, i);
    var row := RebuiltRows(rows, cols, target)[k];
    RebuiltCells(rows, cols, target, k, i);
    assert cols[i].name !in NameSet(target) by {
      assert cols[i].name in NameSet(cols);
    }
    forall j | 0 <= j < |cols| && j != i ensures Get(row, cols[j].name) == Get(rows[k], cols[j].name) {
      assert cols[j].name in NameSet(cols);
      RebuiltCells(rows, cols, target, k, j);
    }
  }

  /** A drop plan keeps the names distinct. */
  lemma {:induction false} WithoutDistinct(cols: seq<Column>, col: string)
    requires DistinctNames(cols)
    ensures DistinctNames(Without(cols, col))
  {
    if cols != [] {
      var init, last := cols[..|cols| - 1], cols[|cols| - 1];
      assert forall i :: 0 <= i < |init| ==> init[i] == cols[i];
      WithoutDistinct(init, col);
      WithoutMembers(init, col);
      var rest := Without(init, col);
      forall j | 0 <= j < |rest| ensures rest[j].name != last.name {
        assert rest[j] in init;
        var p :| 0 <= p < |init| && init[p] == rest[j];
      }
    }
  }

  /** A drop that leaves some column rebuilds exactly when every remaining
      DEFAULT clause parses, and fails with a syntax error otherwise. */
  lemma DropOutcome(cols: seq<Column>, col: string)
    requires DistinctNames(cols) && |Without(cols, col)| > 0
    ensures RebuildError(Without(cols, col)) ==
      if DefaultsWritable(Without(cols, col)) then None else Some(SyntaxError)
  {
    WithoutDistinct(cols, col);
  }

  /** Once another column reports a default that does not itself begin with
      a quote (any default add_column_sqlite or a modify gave it, in
      practice), dropping a column fails with a syntax error and changes
      nothing. */
  lemma DropBlockedByDefault(cols: seq<Column>, col: string, j: nat, d: string)
    requires DistinctNames(cols) && j < |cols| && cols[j].name != col
    requires cols[j].dflt == Reported(Some(d)) && d != "" && d[0] != '\''
    ensures RebuildError(Without(cols, col)) == Some(SyntaxError)
  {
    WithoutMembers(cols, col);
    var plan := Without(cols, col);
    assert cols[j] in plan;
    var p :| 0 <= p < |plan| && plan[p] == cols[j];
    ReportedUnwritable(d);
    DropOutcome(cols, col);
  }

  /** The same for a modify: a column it does not replace that reports such
      a default makes the rebuild fail, with a syntax error unless the new
      name repeats another one. */
  lemma ModifyBlockedByDefault(cols: seq<Column>, colOld: string, replacement: Column, j: nat, d: string)
    requires j < |cols| && cols[j].name != colOld
    requires cols[j].dflt == Reported(Some(d)) && d != "" && d[0] != '\''
    ensures var plan := ModifyPlan(cols, colOld, replacement);
      RebuildError(plan) == if DistinctNames(plan) then Some(SyntaxError) else Some(DuplicateColumn)
  {
    ModifyPlanAt(cols, colOld, replacement);
    ReportedUnwritable(d);
    var plan := ModifyPlan(cols, colOld, replacement);
    assert plan[j] == cols[j];
  }

  /** Renaming a column onto the name of another one repeats a name, so the
      rebuild's CREATE TABLE fails and nothing changes. */
  lemma RenameOntoExisting(cols: seq<Column>, i: nat, j: nat, colType: string, colDefault: Option<string>)
    requires DistinctNames(cols) && i < |cols| && j < |cols| && i != j
    ensures !DistinctNames(ModifyPlan(cols, cols[i].name, Column(cols[j].name, colType, colDefault)))
  {
    var target := ModifyPlan(cols, cols[i].name, Column(cols[j].name, colType, colDefault));
    ModifyOne(cols, i, Column(cols[j].name, colType, colDefault));
    assert target[i].name == target[j].name;
  }

  // ---------------------------------------------------------------------
  // UPDATE product SET ... WHERE id = ?

  /** The WHERE id = ? of every per-product statement. */
  predicate Matches(row: Row, pid: int) {
    IdColumn in row && row[IdColumn] == Int(pid)
  }

  /** A row after its SET list; a later assignment to the same column wins. */
  function Assigned(row: Row, sets: seq<Assignment>): Row {
    if sets == [] then row
    else Assigned(row, sets[..|sets| - 1])[sets[|sets| - 1].column := sets[|sets| - 1].value]
  }

  function UpdatedRows(rows: seq<Row>, pid: int, sets: seq<Assignment>): seq<Row> {
    seq(|rows|, k requires 0 <= k < |rows| => if Matches(rows[k], pid) then Assigned(rows[k], sets) else rows[k])
  }

  /** Every value of a SET list binds. */
  predicate BindsAll(sets: seq<Assignment>) {
    forall j :: 0 <= j < |sets| ==> Bindable(sets[j].value)
  }

  /** Why an UPDATE ... WHERE id = pid fails. SQLite refuses it while preparing
      it when the SET list is empty or names a column the table lacks, id
      included; sqlite3 then refuses to bind an integer, the id or a value,
      outside the 64-bit range. */
  function UpdateError(cols: seq<Column>, pid: int, sets: seq<Assignment>): Option<Error> {
    if sets == [] then Some(EmptyStatement)
    else if IdColumn !in NameSet(cols) || exists j :: 0 <= j < |sets| && sets[j].column !in NameSet(cols) then Some(NoSuchColumn)
    else if !Bindable(Int(pid)) || !BindsAll(sets) then Some(IntegerOverflow)
    else None
  }

  predicate DistinctColumns(sets: seq<Assignment>) {
    forall i, j :: 0 <= i < j < |sets| ==> sets[i].column != sets[j].column
  }

  /** The SET list leaves the row's columns as they were when it names only
      existing ones, gives each named column its value when no column is
      named twice, and leaves every other cell alone. */
  lemma {:induction false} AssignedCells(row: Row, sets: seq<Assignment>)
    requires forall j :: 0 <= j < |sets| ==> sets[j].column in row
    ensures Assigned(row, sets).Keys == row.Keys
    ensures forall n :: n in row && (forall j :: 0 <= j < |sets| ==> sets[j].column != n) ==> Assigned(row, sets)[n] == row[n]
    ensures DistinctColumns(sets) ==> forall j :: 0 <= j < |sets| ==> Assigned(row, sets)[sets[j].column] == sets[j].value
  {
    if sets != [] {
      var init := sets[..|sets| - 1];
      assert forall j :: 0 <= j < |init| ==> init[j] == sets[j];
      AssignedCells(row, init);
    }
  }

  /** An UPDATE whose WHERE matches no row changes nothing. */
  lemma UpdateNoMatch(rows: seq<Row>, pid: int, sets: seq<Assignment>)
    requires forall k :: 0 <= k < |rows| ==> !Matches(rows[k], pid)
    ensures UpdatedRows(rows, pid, sets) == rows
  {
  }

  lemma AssignedOne(row: Row, a: Assignment)
    ensures Assigned(row, [a]) == row[a.column := a.value]
  {
    assert [a][..0] == [];
  }

  /** Setting a column other than id twice on the same product is the same
      as setting it once to the second value. */
  lemma UpdateOverwrite(rows: seq<Row>, pid: int, field: string, a: Value, b: Value)
    requires field != IdColumn
    ensures UpdatedRows(UpdatedRows(rows, pid, [Assignment(field, a)]), pid, [Assignment(field, b)])
         == UpdatedRows(rows, pid, [Assignment(field, b)])
  {
    var once := UpdatedRows(rows, pid, [Assignment(field, a)]);
    var twice := UpdatedRows(once, pid, [Assignment(field, b)]);
    forall k | 0 <= k < |rows|
      ensures twice[k] == UpdatedRows(rows, pid, [Assignment(field, b)])[k]
    {
      AssignedOne(rows[k], Assignment(field, a));
      AssignedOne(rows[k], Assignment(field, b));
      AssignedOne(once[k], Assignment(field, b));
      if Matches(rows[k], pid) {
        assert once[k] == rows[k][field := a];
        assert Matches(once[k], pid);
        assert once[k][field := b] == rows[k][field := b];
      }
    }
  }

  /** The first row with the given id, as fetchone() returns it. */
  function FirstMatch(rows: seq<Row>, pid: int): (r: Option<nat>)
    ensures r.Some? ==> r.value < |rows| && Matches(rows[r.value], pid) &&
                        forall k :: 0 <= k < r.value ==> !Matches(rows[k], pid)
    ensures r.None? <==> forall k :: 0 <= k < |rows| ==> !Matches(rows[k], pid)
  {
    if rows == [] then None
    else if Matches(rows[0], pid) then Some(0)
    else match FirstMatch(rows[1..], pid)
      case None => None
      case Some(k) => Some(k + 1)
  }

  /** SELECT * FROM product WHERE id = ?: fails when the table has no id
      column or the id does not bind, finds nothing when no row has that id. */
  function Lookup(cols: seq<Column>, rows: seq<Row>, pid: int): (r: Result<Row>)
    ensures r.Ok? ==> r.value in rows && Matches(r.value, pid)
    ensures r == Err(RecordNotFound) <==>
      IdColumn in NameSet(cols) && Bindable(Int(pid)) && forall k :: 0 <= k < |rows| ==> !Matches(rows[k], pid)
    ensures r == Err(NoSuchColumn) <==> IdColumn !in NameSet(cols)
    ensures r == Err(IntegerOverflow) <==> IdColumn in NameSet(cols) && !Bindable(Int(pid))
  {
    if IdColumn !in NameSet(cols) then Err(NoSuchColumn)
    else if !Bindable(Int(pid)) then Err(IntegerOverflow)
    else match FirstMatch(rows, pid)
      case None => Err(RecordNotFound)
      case Some(k) => Ok(rows[k])
  }

  // ---------------------------------------------------------------------
  // The table

  class ProductTable {
    var schema: seq<Column>
    var rows: seq<Row>

    /** What SQLite keeps true of every table: distinct column names, and a
        cell in every row for exactly the columns of the schema. */
    ghost predicate Valid()
      reads this
    {
      DistinctNames(schema) && forall k :: 0 <= k < |rows| ==> rows[k].Keys == NameSet(schema)
    }

    constructor ()
      ensures Valid() && schema == InitialSchema && rows == []
    {
      schema := InitialSchema;
      rows := [];
    }

    /** add_column_sqlite: ALTER TABLE ADD COLUMN with the sanitized name,
        the upper-cased type and DEFAULT '...' around the default, when it
        is neither None nor ''. SQLite meets the repeated name before the
        DEFAULT clause. */
    method AddColumn(columnName: string, columnType: string, dflt: Option<string>) returns (r: Result<()>)
      requires Valid()
      modifies this
      ensures Valid()
      ensures var name := Sanitize(columnName);
        if name in NameSet(old(schema)) then
          r == Err(DuplicateColumn) && schema == old(schema) && rows == old(rows)
        else if !DefaultWritable(dflt) then
          r == Err(SyntaxError) && schema == old(schema) && rows == old(rows)
        else
          r == Ok(()) && schema == old(schema) + [Column(name, Upper(columnType), Reported(dflt))] &&
          rows == WithCell(old(rows), name, DefaultCell(dflt))
    {
      var name := Sanitize(columnName);
      if name in NameSet(schema) {
        r := Err(DuplicateColumn);
        return;
      }
      if !DefaultWritable(dflt) {
        r := Err(SyntaxError);
        return;
      }
      var col := Column(name, Upper(columnType), Reported(dflt));
      assert NameSet(schema + [col]) == NameSet(schema) + {name} by {
        forall n | n in NameSet(schema + [col]) ensures n in NameSet(schema) + {name} {
          var j :| 0 <= j < |schema + [col]| && (schema + [col])[j].name == n;
          if j < |schema| {
            assert schema[j].name == n;
          }
        }
        forall n | n in NameSet(schema) ensures n in NameSet(schema + [col]) {
          var j :| 0 <= j < |schema| && schema[j].name == n;
          assert (schema + [col])[j].name == n;
        }
        assert (schema + [col])[|schema|].name == name;
      }
      assert forall j :: 0 <= j < |schema| ==> schema[j].name in NameSet(schema);
      schema := schema + [col];
      rows := WithCell(rows, name, DefaultCell(dflt));
      r := Ok(());
    }

    /** recreate_table_with_schema: CREATE the target layout, copy the columns
        common by name, DROP the old table and RENAME the new one. */
    method Recreate(target: seq<Column>) returns (r: Result<()>)
      requires Valid()
      modifies this
      ensures Valid()
      ensures Rebuilt(old(schema), old(rows), target, r, schema, rows)
    {
      var e := RebuildError(target);
      if e.Some? {
        r := Err(e.value);
        return;
      }
      RebuiltShape(rows, schema, target);
      rows := RebuiltRows(rows, schema, target);
      schema := Normalized(target);
      r := Ok(());
    }

    /** The drop route: plan from the current schema, report a missing
        column, otherwise rebuild without it. */
    method DropColumn(col: string) returns (r: Result<()>)
      requires Valid()
      modifies this
      ensures Valid()
      ensures var plan := Without(old(schema), Sanitize(col));
        if |plan| == |old(schema)| then
          r == Err(ColumnNotFound) && schema == old(schema) && rows == old(rows)
        else
          Rebuilt(old(schema), old(rows), plan, r, schema, rows)
    {
      var plan := PlanDrop(schema, Sanitize(col));
      if plan.Err? {
        r := Err(plan.error);
        return;
      }
      r := Recreate(plan.value);
    }

    /** The modify route: the old name is sanitized, the new one stripped and
        sanitized, the type stripped and upper-cased; every triple named
        colOld is replaced and the table rebuilt, whether or not colOld
        exists. */
    method ModifyColumn(colOld: string, colNew: string, colType: string, colDefault: Option<string>)
      returns (r: Result<()>)
      requires Valid()
      modifies this
      ensures Valid()
      ensures Rebuilt(old(schema), old(rows),
                      ModifyPlan(old(schema), Sanitize(colOld), Column(Sanitize(Strip(colNew)), Upper(Strip(colType)), colDefault)),
                      r, schema, rows)
    {
      var plan := PlanModify(schema, Sanitize(colOld), Sanitize(Strip(colNew)), Upper(Strip(colType)), colDefault);
      r := Recreate(plan);
    }

    /** UPDATE product SET ... WHERE id = pid: every row with that id gets the
        SET list; the schema is not touched. */
    method Update(pid: int, sets: seq<Assignment>) returns (r: Result<()>)
      requires Valid()
      modifies this
      ensures Valid() && schema == old(schema)
      ensures match UpdateError(old(schema), pid, sets)
        case Some(e) => r == Err(e) && rows == old(rows)
        case None => r == Ok(()) && rows == UpdatedRows(old(rows), pid, sets)
    {
      var e := UpdateError(schema, pid, sets);
      if e.Some? {
        r := Err(e.value);
        return;
      }
      forall k | 0 <= k < |rows| ensures Assigned(rows[k], sets).Keys == rows[k].Keys {
        AssignedCells(rows[k], sets);
      }
      rows := UpdatedRows(rows, pid, sets);
      r := Ok(());
    }
  }
}
