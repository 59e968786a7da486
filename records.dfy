// The record-write logic of the add_product and edit_product routes: the
// value each non-id column receives from a submitted form, and the diff
// list handed to the ledger.

module Records {
  import opened Outcomes
  import opened Values
  import opened Price
  import opened Schema
  import opened Versions

  /** A submitted form: field name to the text typed in. */
  type Form = map<string, string>

  /** The column whose value comes from the form's "price" field, in cents. */
  const PriceColumn := "price_cents"
  const PriceField := "price"

  /** Creating a record starts from nothing; editing one from its current row. */
  datatype Mode = Create | Edit(current: Row)

  function FormText(form: Form, key: string, missing: string): string {
    if key in form then form[key] else missing
  }

  /** The value a column receives. The price is parsed from the stripped
      "price" field (missing: "0" on create, "" on edit, and an empty field
      keeps the current value on edit). Any other column takes the form's
      text when the form has that field; otherwise NULL on create and the
      current value on edit. */
  function FormValue(name: string, form: Form, mode: Mode): (r: Result<Value>)
    ensures r.Err? ==> name == PriceColumn && r.error == InvalidPrice
    ensures name != PriceColumn && name in form ==> r == Ok(Text(form[name]))
    ensures name != PriceColumn && name !in form ==> r == Ok(if mode.Create? then Null else Get(mode.current, name))
    ensures name == PriceColumn && mode.Create? ==>
      var p := ParsePrice(Strip(FormText(form, PriceField, "0")));
      (r.Ok? <==> p.Ok?) && (p.Ok? ==> r.value == Int(p.value))
    ensures name == PriceColumn && mode.Edit? ==>
      var raw := Strip(FormText(form, PriceField, ""));
      if raw == "" then r == Ok(Get(mode.current, PriceColumn))
      else (r.Ok? <==> ParsePrice(raw).Ok?) && (ParsePrice(raw).Ok? ==> r.value == Int(ParsePrice(raw).value))
  {
    if name == PriceColumn then
      match mode
      case Create =>
        (match ParsePrice(Strip(FormText(form, PriceField, "0")))
         case Ok(cents) => Ok(Int(cents))
         case Err(e) => Err(e))
      case Edit(current) =>
        var raw := Strip(FormText(form, PriceField, ""));
        if raw == "" then Ok(Get(current, PriceColumn))
        else
          match ParsePrice(raw)
          case Ok(cents) => Ok(Int(cents))
          case Err(e) => Err(e)
    else if name in form then Ok(Text(form[name]))
    else if mode.Create? then Ok(Null)
    else Ok(Get(mode.current, name))
  }

  /** The names the form fills: every column but id, in schema order. */
  function DataNames(cols: seq<Column>): (r: seq<string>)
    ensures forall n :: n in r <==> n in NameSet(cols) && n != IdColumn
  {
    if cols == [] then []
    else
      var init := cols[..|cols| - 1];
      var last := cols[|cols| - 1];
      var rest := DataNames(init);
      assert forall n :: n in NameSet(cols) <==> n in NameSet(init) || n == last.name by {
        forall n | n in NameSet(cols) ensures n in NameSet(init) || n == last.name {
          var j :| 0 <= j < |cols| && cols[j].name == n;
          if j < |init| {
            assert init[j].name == n;
          }
        }
        forall n | n in NameSet(init) ensures n in NameSet(cols) {
          var j :| 0 <= j < |init| && init[j].name == n;
          assert cols[j].name == n;
        }
        assert cols[|cols| - 1].name == last.name;
      }
      rest + (if last.name != IdColumn then [last.name] else [])
  }

  /** The positions of the non-id columns, in schema order. */
  function DataPositions(cols: seq<Column>): seq<nat> {
    if cols == [] then []
    else DataPositions(cols[..|cols| - 1]) + (if cols[|cols| - 1].name != IdColumn then [|cols| - 1] else [])
  }

  /** The names the form fills are the names of the non-id columns, each
      once for each such column, in schema order: the j-th name is that of
      the j-th non-id column. */
  lemma {:induction false} DataNamesInOrder(cols: seq<Column>)
    ensures var p := DataPositions(cols);
      |p| == |DataNames(cols)| &&
      (forall j :: 0 <= j < |p| ==> p[j] < |cols| && cols[p[j]].name != IdColumn && DataNames(cols)[j] == cols[p[j]].name) &&
      (forall j, k :: 0 <= j < k < |p| ==> p[j] < p[k]) &&
      (forall i :: 0 <= i < |cols| && cols[i].name != IdColumn ==> i in p)
  {
    if cols != [] {
      var init := cols[..|cols| - 1];
      DataNamesInOrder(init);
      assert forall i :: 0 <= i < |init| ==> init[i] == cols[i];
    }
  }

  /** The positions a sequence of positions lists. */
  function Members(p: seq<nat>): set<nat> {
    set x | x in p
  }

  /** A strictly increasing sequence of positions has as many elements as
      it has distinct ones. */
  lemma {:induction false} IncreasingCard(p: seq<nat>)
    requires forall j, k :: 0 <= j < k < |p| ==> p[j] < p[k]
    ensures |Members(p)| == |p|
  {
    if p == [] {
      assert Members(p) == {};
    } else {
      var init, last := p[..|p| - 1], p[|p| - 1];
      assert forall j :: 0 <= j < |init| ==> init[j] == p[j] && init[j] < last;
      IncreasingCard(init);
      assert p == init + [last];
      assert Members(p) == Members(init) + {last};
      assert last !in Members(init);
    }
  }

  /** The values dict has one entry per non-id column. */
  lemma DataNamesCount(cols: seq<Column>)
    ensures |DataNames(cols)| == |set i | 0 <= i < |cols| && cols[i].name != IdColumn|
  {
    DataNamesInOrder(cols);
    var p := DataPositions(cols);
    IncreasingCard(p);
    assert Members(p) == (set i | 0 <= i < |cols| && cols[i].name != IdColumn);
  }

  /** The values dict of either route: one assignment per non-id column, in
      schema order, or the first parse error. */
  function FormValues(cols: seq<Column>, form: Form, mode: Mode): Result<seq<Assignment>> {
    if cols == [] then Ok([])
    else
      var init := cols[..|cols| - 1];
      var last := cols[|cols| - 1];
      match FormValues(init, form, mode)
      case Err(e) => Err(e)
      case Ok(vals) =>
        if last.name == IdColumn then Ok(vals)
        else
          match FormValue(last.name, form, mode)
          case Err(e) => Err(e)
          case Ok(v) => Ok(vals + [Assignment(last.name, v)])
  }

  /** The values dict holds exactly the non-id columns, in schema order, each
      with its form value; it fails, with an invalid price, exactly when some
      column's value does. */
  lemma {:induction false} FormValuesMeaning(cols: seq<Column>, form: Form, mode: Mode)
    ensures var r := FormValues(cols, form, mode);
      (r.Ok? ==> (|r.value| == |DataNames(cols)| &&
        forall i :: 0 <= i < |r.value| ==>
          r.value[i].column == DataNames(cols)[i] && FormValue(r.value[i].column, form, mode) == Ok(r.value[i].value))) &&
      (r.Err? ==> r.error == InvalidPrice && PriceColumn in DataNames(cols) && FormValue(PriceColumn, form, mode).Err?) &&
      (r.Err? <==> exists n :: n in DataNames(cols) && FormValue(n, form, mode).Err?)
  {
    if cols != [] {
      var init := cols[..|cols| - 1];
      var last := cols[|cols| - 1];
      assert DataNames(cols) == DataNames(init) + (if last.name != IdColumn then [last.name] else []);
      FormValuesMeaning(init, form, mode);
    }
  }

  /** The values dict only names columns of the schema, and never id. */
  lemma FormValuesColumns(cols: seq<Column>, form: Form, mode: Mode, vals: seq<Assignment>)
    requires FormValues(cols, form, mode) == Ok(vals)
    ensures forall j :: 0 <= j < |vals| ==> vals[j].column in NameSet(cols) && vals[j].column != IdColumn
  {
    FormValuesMeaning(cols, form, mode);
    forall j | 0 <= j < |vals| ensures vals[j].column in NameSet(cols) && vals[j].column != IdColumn {
      assert vals[j].column in DataNames(cols);
    }
  }

  /** The loop over the schema of either route, stopping at the first
      invalid price. */
  method CollectFormValues(cols: seq<Column>, form: Form, mode: Mode) returns (r: Result<seq<Assignment>>)
    ensures r == FormValues(cols, form, mode)
  {
    var vals: seq<Assignment> := [];
    var i := 0;
    while i < |cols|
      invariant 0 <= i <= |cols|
      invariant FormValues(cols[..i], form, mode) == Ok(vals)
    {
      var name := cols[i].name;
      if name != IdColumn {
        var v := FormValue(name, form, mode);
        if v.Err? {
          assert FormValues(cols[..i + 1], form, mode) == Err(v.error) by {
            FormValuesStep(cols, form, mode, i);
          }
          FirstErrorStops(cols, form, mode, i + 1);
          return Err(v.error);
        }
        assert FormValues(cols[..i + 1], form, mode) == Ok(vals + [Assignment(name, v.value)]) by {
          FormValuesStep(cols, form, mode, i);
        }
        vals := vals + [Assignment(name, v.value)];
      } else {
        assert FormValues(cols[..i + 1], form, mode) == Ok(vals) by {
          FormValuesStep(cols, form, mode, i);
        }
      }
      i := i + 1;
    }
    assert cols[..|cols|] == cols;
    r := Ok(vals);
  }

  /** One more column of the schema. */
  lemma FormValuesStep(cols: seq<Column>, form: Form, mode: Mode, i: nat)
    requires i < |cols|
    ensures FormValues(cols[..i + 1], form, mode) ==
      match FormValues(cols[..i], form, mode)
      case Err(e) => Err(e)
      case Ok(vals) =>
        if cols[i].name == IdColumn then Ok(vals)
        else
          match FormValue(cols[i].name, form, mode)
          case Err(e) => Err(e)
          case Ok(v) => Ok(vals + [Assignment(cols[i].name, v)])
  {
    assert cols[..i + 1][..i] == cols[..i];
  }

  /** Once a prefix of the schema fails to produce values, so does the
      whole schema, with the same error. */
  lemma {:induction false} FirstErrorStops(cols: seq<Column>, form: Form, mode: Mode, n: nat)
    requires n <= |cols| && FormValues(cols[..n], form, mode).Err?
    ensures FormValues(cols, form, mode) == FormValues(cols[..n], form, mode)
    decreases |cols| - n
  {
    if n < |cols| {
      var pre := cols[..n + 1];
      assert pre[..|pre| - 1] == cols[..n];
      assert FormValues(pre, form, mode) == FormValues(cols[..n], form, mode);
      FirstErrorStops(cols, form, mode, n + 1);
    } else {
      assert cols[..n] == cols;
    }
  }

  // ---------------------------------------------------------------------
  // Diffs

  /** The None-or-str normalization of both sides differs. */
  predicate Changed(before: Value, after: Value) {
    Canonical(before) != Canonical(after)
  }

  /** The edit diff: the assignments whose normalized old and new values
      differ, in order. */
  function ChangedFields(vals: seq<Assignment>, current: Row): seq<Diff> {
    if vals == [] then []
    else
      var a := vals[|vals| - 1];
      ChangedFields(vals[..|vals| - 1], current) +
        (if Changed(Get(current, a.column), a.value) then [Diff(a.column, Get(current, a.column), a.value)] else [])
  }

  /** The edit diff holds (name, old, new) exactly for the assignments whose
      normalized old and new values differ, and no more entries than there
      are assignments. */
  lemma {:induction false} ChangedFieldsMeaning(vals: seq<Assignment>, current: Row)
    ensures |ChangedFields(vals, current)| <= |vals|
    ensures forall d :: d in ChangedFields(vals, current) <==>
      exists i :: 0 <= i < |vals| && d == Diff(vals[i].column, Get(current, vals[i].column), vals[i].value) &&
                  Changed(Get(current, vals[i].column), vals[i].value)
  {
    if vals != [] {
      var init := vals[..|vals| - 1];
      assert forall i :: 0 <= i < |init| ==> init[i] == vals[i];
      ChangedFieldsMeaning(init, current);
    }
  }

  /** The positions of the assignments whose normalized values differ. */
  function ChangedPositions(vals: seq<Assignment>, current: Row): seq<nat> {
    if vals == [] then []
    else
      var a := vals[|vals| - 1];
      ChangedPositions(vals[..|vals| - 1], current) + (if Changed(Get(current, a.column), a.value) then [|vals| - 1] else [])
  }

  /** The edit diff keeps the order of the SET list: its j-th entry is the
      j-th changed assignment, and every changed assignment has one. */
  lemma {:induction false} ChangedFieldsInOrder(vals: seq<Assignment>, current: Row)
    ensures var p := ChangedPositions(vals, current);
      var diffs := ChangedFields(vals, current);
      |p| == |diffs| &&
      (forall j :: 0 <= j < |p| ==>
        p[j] < |vals| && Changed(Get(current, vals[p[j]].column), vals[p[j]].value) &&
        diffs[j] == Diff(vals[p[j]].column, Get(current, vals[p[j]].column), vals[p[j]].value)) &&
      (forall j, k :: 0 <= j < k < |p| ==> p[j] < p[k]) &&
      (forall i :: 0 <= i < |vals| && Changed(Get(current, vals[i].column), vals[i].value) ==> i in p)
  {
    if vals != [] {
      var init := vals[..|vals| - 1];
      ChangedFieldsInOrder(init, current);
      assert forall i :: 0 <= i < |init| ==> init[i] == vals[i];
    }
  }

  /** k changed fields give exactly k ledger entries. */
  lemma ChangedFieldsCount(vals: seq<Assignment>, current: Row)
    ensures |ChangedFields(vals, current)| == |set i | 0 <= i < |vals| && Changed(Get(current, vals[i].column), vals[i].value)|
  {
    ChangedFieldsInOrder(vals, current);
    var p := ChangedPositions(vals, current);
    IncreasingCard(p);
    assert Members(p) == (set i | 0 <= i < |vals| && Changed(Get(current, vals[i].column), vals[i].value));
  }

  /** The diff loop of edit_product. */
  method ComputeDiffs(vals: seq<Assignment>, current: Row) returns (diffs: seq<Diff>)
    ensures diffs == ChangedFields(vals, current)
  {
    diffs := [];
    var i := 0;
    while i < |vals|
      invariant 0 <= i <= |vals|
      invariant diffs == ChangedFields(vals[..i], current)
    {
      assert vals[..i + 1][..i] == vals[..i];
      var a := vals[i];
      var before := Get(current, a.column);
      if Canonical(before) != Canonical(a.value) {
        diffs := diffs + [Diff(a.column, before, a.value)];
      }
      i := i + 1;
    }
    assert vals[..|vals|] == vals;
  }

  /** The create diff: (name, None, value) for every value. */
  function CreateDiffs(vals: seq<Assignment>): seq<Diff> {
    seq(|vals|, i requires 0 <= i < |vals| => Diff(vals[i].column, Null, vals[i].value))
  }

  /** On create, one diff per non-id column, in schema order, from NULL to
      the value the form gives that column. */
  lemma CreateDiffsShape(cols: seq<Column>, form: Form, vals: seq<Assignment>)
    requires FormValues(cols, form, Create) == Ok(vals)
    ensures var diffs := CreateDiffs(vals);
      |diffs| == |DataNames(cols)| &&
      forall i :: 0 <= i < |diffs| ==>
        diffs[i].field == DataNames(cols)[i] && diffs[i].before == Null &&
        FormValue(diffs[i].field, form, Create) == Ok(diffs[i].after)
  {
    FormValuesMeaning(cols, form, Create);
  }

  /** On edit, a column other than the price that the form leaves out, and
      the price when its field is blank, keep their current values and
      produce no diff. */
  lemma UntouchedNoDiff(cols: seq<Column>, form: Form, current: Row, vals: seq<Assignment>, name: string)
    requires FormValues(cols, form, Edit(current)) == Ok(vals)
    requires if name == PriceColumn then Strip(FormText(form, PriceField, "")) == "" else name !in form
    ensures forall i :: 0 <= i < |vals| && vals[i].column == name ==> vals[i].value == Get(current, name)
    ensures forall d :: d in ChangedFields(vals, current) ==> d.field != name
  {
    FormValuesMeaning(cols, form, Edit(current));
    ChangedFieldsMeaning(vals, current);
    forall i | 0 <= i < |vals| && vals[i].column == name ensures vals[i].value == Get(current, name) {
      assert FormValue(name, form, Edit(current)) == Ok(vals[i].value);
    }
  }

  /** On edit, a column whose form text normalizes to its current value
      produces no diff, and one whose text differs produces exactly that
      change. */
  lemma EditDiffOfText(cols: seq<Column>, form: Form, current: Row, vals: seq<Assignment>, i: nat)
    requires FormValues(cols, form, Edit(current)) == Ok(vals)
    requires i < |vals| && vals[i].column != PriceColumn && vals[i].column in form
    ensures var name := vals[i].column;
      Diff(name, Get(current, name), Text(form[name])) in ChangedFields(vals, current) <==>
      Canonical(Get(current, name)) != Some(form[name])
  {
    FormValuesMeaning(cols, form, Edit(current));
    ChangedFieldsMeaning(vals, current);
    var name := vals[i].column;
    assert FormValue(name, form, Edit(current)) == Ok(vals[i].value);
    assert vals[i].value == Text(form[name]);
  }
}
