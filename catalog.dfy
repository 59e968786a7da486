// The write paths that tie the product table to the change ledger: the
// edit and add routes and rollback_version.

module Catalog {
  import opened Outcomes
  import opened Values
  import opened Schema
  import opened Versions
  import opened Records

  /** The changed_by of the entries each write path records. */
  const EditAuthor := "edit"
  const CreateAuthor := "create"

  /** An edit SQLite will accept: the row it starts from and its SET list. */
  datatype PlannedEdit = PlannedEdit(current: Row, sets: seq<Assignment>)

  /** What edit_product decides before writing: the current row and the
      SET list, or why it stops — the SELECT fails or finds no row, a price
      is invalid, or the UPDATE fails. */
  function EditPlan(cols: seq<Column>, rows: seq<Row>, pid: int, form: Form): Result<PlannedEdit> {
    match Lookup(cols, rows, pid)
    case Err(e) => Err(e)
    case Ok(cur) =>
      match FormValues(cols, form, Edit(cur))
      case Err(e) => Err(e)
      case Ok(vals) =>
        match UpdateError(cols, pid, vals)
        case Some(e) => Err(e)
        case None => Ok(PlannedEdit(cur, vals))
  }

  /** An accepted edit starts from the first row with the id and sets every
      non-id column to its form value, in an UPDATE that SQLite accepts. */
  lemma EditPlanAccepted(cols: seq<Column>, rows: seq<Row>, pid: int, form: Form)
    ensures var plan := EditPlan(cols, rows, pid, form);
      plan.Ok? ==> plan.value.current in rows && Matches(plan.value.current, pid) &&
                   FormValues(cols, form, Edit(plan.value.current)) == Ok(plan.value.sets) &&
                   UpdateError(cols, pid, plan.value.sets) == None
  {
  }

  /** The SET list of an edit names only existing columns, so the edit
      fails as "no such column" exactly when the table has no id column. */
  lemma EditPlanNoSuchColumn(cols: seq<Column>, rows: seq<Row>, pid: int, form: Form)
    ensures EditPlan(cols, rows, pid, form) == Err(NoSuchColumn) <==> IdColumn !in NameSet(cols)
  {
    match Lookup(cols, rows, pid)
    case Err(_) =>
    case Ok(cur) =>
      match FormValues(cols, form, Edit(cur))
      case Err(_) =>
        FormValuesMeaning(cols, form, Edit(cur));
      case Ok(vals) =>
        FormValuesColumns(cols, form, Edit(cur), vals);
        assert UpdateError(cols, pid, vals) != Some(NoSuchColumn);
  }

  /** The UPDATE of an edit is empty exactly when the product is found in a
      table with nothing but id. */
  lemma EditPlanEmpty(cols: seq<Column>, rows: seq<Row>, pid: int, form: Form)
    ensures EditPlan(cols, rows, pid, form) == Err(EmptyStatement) <==> Lookup(cols, rows, pid).Ok? && DataNames(cols) == []
  {
    var look := Lookup(cols, rows, pid);
    if look.Ok? {
      var cur := look.value;
      FormValuesMeaning(cols, form, Edit(cur));
      if FormValues(cols, form, Edit(cur)).Err? {
        var n :| n in DataNames(cols) && FormValue(n, form, Edit(cur)).Err?;
      }
    }
  }

  /** The state an accepted edit leaves: the SET list applied to the rows
      with the product's id, and the normalized diff appended to the ledger. */
  ghost predicate EditApplied(rows0: seq<Row>, entries0: seq<VersionEntry>, last0: nat, pid: int, plan: PlannedEdit,
                              now: string, rows: seq<Row>, entries: seq<VersionEntry>, last: nat)
  {
    rows == UpdatedRows(rows0, pid, plan.sets) &&
    entries == entries0 + Stamped(last0 + 1, pid, ChangedFields(plan.sets, plan.current), now, EditAuthor) &&
    last == last0 + |ChangedFields(plan.sets, plan.current)|
  }

  /** The writing half of edit_product: UPDATE the row, then record the
      diff. */
  method ApplyEdit(t: ProductTable, l: Ledger, pid: int, plan: PlannedEdit, now: string)
    requires t.Valid() && l.Valid() && UpdateError(t.schema, pid, plan.sets) == None
    modifies t, l
    ensures t.Valid() && l.Valid() && t.schema == old(t.schema)
    ensures EditApplied(old(t.rows), old(l.entries), old(l.lastId), pid, plan, now, t.rows, l.entries, l.lastId)
  {
    var diffs := ComputeDiffs(plan.sets, plan.current);
    var u := t.Update(pid, plan.sets);
    l.Record(pid, diffs, EditAuthor, now);
  }

  /** edit_product (POST): fetch the row, merge the form into it, UPDATE
      every non-id column, then record the normalized diff; when the plan
      fails nothing is written. */
  method EditProduct(t: ProductTable, l: Ledger, pid: int, form: Form, now: string) returns (r: Result<()>)
    requires t.Valid() && l.Valid()
    modifies t, l
    ensures t.Valid() && l.Valid() && t.schema == old(t.schema)
    ensures match EditPlan(old(t.schema), old(t.rows), pid, form)
      case Err(e) =>
        r == Err(e) && t.rows == old(t.rows) && l.entries == old(l.entries) && l.lastId == old(l.lastId)
      case Ok(plan) =>
        r == Ok(()) && EditApplied(old(t.rows), old(l.entries), old(l.lastId), pid, plan, now, t.rows, l.entries, l.lastId)
  {
    var cur := Lookup(t.schema, t.rows, pid);
    if cur.Err? {
      r := Err(cur.error);
      return;
    }
    var vals := CollectFormValues(t.schema, form, Edit(cur.value));
    if vals.Err? {
      r := Err(vals.error);
      return;
    }
    var err := UpdateError(t.schema, pid, vals.value);
    if err.Some? {
      r := Err(err.value);
      return;
    }
    var plan := PlannedEdit(cur.value, vals.value);
    assert EditPlan(t.schema, t.rows, pid, form) == Ok(plan);
    ApplyEdit(t, l, pid, plan, now);
    r := Ok(());
  }

  /** add_product (POST), ledger side: collect the form values, then record
      one creation entry per non-id column for the new product's id. An
      invalid price stops it before anything is written, and so does a
      price the INSERT cannot bind. */
  method AddProduct(l: Ledger, schema: seq<Column>, form: Form, newId: int, now: string) returns (r: Result<()>)
    requires l.Valid()
    modifies l
    ensures l.Valid()
    ensures match FormValues(schema, form, Create)
      case Err(e) => r == Err(e) && l.entries == old(l.entries) && l.lastId == old(l.lastId)
      case Ok(vals) =>
        if !BindsAll(vals) then
          r == Err(IntegerOverflow) && l.entries == old(l.entries) && l.lastId == old(l.lastId)
        else
          r == Ok(()) &&
          l.entries == old(l.entries) + Stamped(old(l.lastId) + 1, newId, CreateDiffs(vals), now, CreateAuthor) &&
          l.lastId == old(l.lastId) + |vals|
  {
    var vals := CollectFormValues(schema, form, Create);
    if vals.Err? {
      r := Err(vals.error);
      return;
    }
    if !BindsAll(vals.value) {
      r := Err(IntegerOverflow);
      return;
    }
    l.Record(newId, CreateDiffs(vals.value), CreateAuthor, now);
    r := Ok(());
  }

  // ---------------------------------------------------------------------
  // rollback_version

  /** The UPDATE a rollback issues: the entry's field set to the value it
      stored as old. */
  function RollbackAssignment(e: VersionEntry): Assignment {
    Assignment(e.field, FromStored(e.oldValue))
  }

  /** The entry a rollback records: the same product and field with old and
      new swapped, so its old is the entry's new and not the live value. */
  function Inverse(e: VersionEntry, id: int, now: string, performer: string): VersionEntry {
    VersionEntry(id, e.productId, e.field, e.newValue, e.oldValue, now, performer)
  }

  /** The diff a rollback passes to record_field_versions stores exactly the
      inverse entry. */
  lemma InverseStamped(e: VersionEntry, lastId: nat, now: string, performer: string)
    ensures Stamped(lastId + 1, e.productId, [Diff(e.field, FromStored(e.newValue), FromStored(e.oldValue))], now, performer)
         == [Inverse(e, lastId + 1, now, performer)]
  {
    var s := Stamped(lastId + 1, e.productId, [Diff(e.field, FromStored(e.newValue), FromStored(e.oldValue))], now, performer);
    assert s[0] == Inverse(e, lastId + 1, now, performer);
  }

  /** rollback_version: an id sqlite3 cannot bind, or an unknown id, fails
      and changes nothing; an UPDATE that fails (a field the table lacks)
      stops it before anything is recorded;
      otherwise every row with the entry's product id gets the old value
      and the inverse entry is appended, whether or not a row matched. */
  method Rollback(t: ProductTable, l: Ledger, vid: int, performer: string, now: string) returns (r: Result<()>)
    requires t.Valid() && l.Valid()
    modifies t, l
    ensures t.Valid() && l.Valid() && t.schema == old(t.schema)
    ensures match GetVersionById(old(l.entries), vid)
      case Err(e) =>
        r == Err(e) && t.rows == old(t.rows) && l.entries == old(l.entries) && l.lastId == old(l.lastId)
      case Ok(None) =>
        r == Err(VersionNotFound) && t.rows == old(t.rows) && l.entries == old(l.entries) && l.lastId == old(l.lastId)
      case Ok(Some(e)) =>
        var err := UpdateError(old(t.schema), e.productId, [RollbackAssignment(e)]);
        if err.Some? then
          r == Err(err.value) && t.rows == old(t.rows) && l.entries == old(l.entries) && l.lastId == old(l.lastId)
        else
          r == Ok(()) && t.rows == UpdatedRows(old(t.rows), e.productId, [RollbackAssignment(e)]) &&
          l.entries == old(l.entries) + [Inverse(e, old(l.lastId) + 1, now, performer)] &&
          l.lastId == old(l.lastId) + 1
  {
    var lookup := GetVersionById(l.entries, vid);
    if lookup.Err? {
      r := Err(lookup.error);
      return;
    }
    if lookup.value.None? {
      r := Err(VersionNotFound);
      return;
    }
    var e := lookup.value.value;
    var u := t.Update(e.productId, [RollbackAssignment(e)]);
    if u.Err? {
      r := Err(u.error);
      return;
    }
    InverseStamped(e, l.lastId, now, performer);
    l.Record(e.productId, [Diff(e.field, FromStored(e.newValue), FromStored(e.oldValue))], performer, now);
    r := Ok(());
  }

  /** A rollback's UPDATE fails as "no such column" exactly when the table
      lacks the field or the id column; otherwise only an entry's product
      id outside the 64-bit range can stop it, since the old value is NULL
      or text. */
  lemma RollbackFails(cols: seq<Column>, e: VersionEntry)
    ensures UpdateError(cols, e.productId, [RollbackAssignment(e)]) ==
      if e.field !in NameSet(cols) || IdColumn !in NameSet(cols) then Some(NoSuchColumn)
      else if !Bindable(Int(e.productId)) then Some(IntegerOverflow)
      else None
  {
    var sets := [RollbackAssignment(e)];
    assert sets[0].column == e.field;
  }

  /** A rollback touches only the entry's field, and only in the rows with
      the entry's product id. */
  lemma RollbackCells(rows: seq<Row>, e: VersionEntry)
    ensures var after := UpdatedRows(rows, e.productId, [RollbackAssignment(e)]);
      |after| == |rows| &&
      forall k :: 0 <= k < |rows| ==>
        (Matches(rows[k], e.productId) ==> after[k] == rows[k][e.field := FromStored(e.oldValue)]) &&
        (!Matches(rows[k], e.productId) ==> after[k] == rows[k])
  {
    forall k | 0 <= k < |rows| {
      AssignedOne(rows[k], RollbackAssignment(e));
    }
  }

  /** The inverse entry is the newest one, found by its id. */
  lemma InverseFound(entries: seq<VersionEntry>, lastId: nat, e: VersionEntry, now: string, performer: string)
    requires IdsAscending(entries) && IdsAtMost(entries, lastId)
    ensures ById(entries + [Inverse(e, lastId + 1, now, performer)], lastId + 1) == Some(Inverse(e, lastId + 1, now, performer))
  {
    var all := entries + [Inverse(e, lastId + 1, now, performer)];
    forall i | 0 <= i < |all| - 1 ensures all[i].id != lastId + 1 {
      assert all[i] == entries[i];
    }
    assert all[|all| - 1].id == lastId + 1;
    var r := ById(all, lastId + 1);
    var j :| 0 <= j < |all| && all[j] == r.value;
    assert j == |all| - 1;
  }

  /** Rolling back a rollback: on a field other than id, the two UPDATEs
      leave each matching row holding the first entry's new value. */
  lemma RollbackTwiceRows(rows: seq<Row>, e: VersionEntry, id: int, now: string, performer: string)
    requires e.field != IdColumn
    ensures var inv := Inverse(e, id, now, performer);
      UpdatedRows(UpdatedRows(rows, e.productId, [RollbackAssignment(e)]), inv.productId, [RollbackAssignment(inv)])
        == UpdatedRows(rows, e.productId, [Assignment(e.field, FromStored(e.newValue))])
  {
    UpdateOverwrite(rows, e.productId, e.field, FromStored(e.oldValue), FromStored(e.newValue));
  }

  /** After a rollback of e succeeds, the inverse entry is the one found
      under the new id, when that id can be bound, and its UPDATE succeeds
      on the unchanged schema. */
  lemma SecondRollback(cols: seq<Column>, entries: seq<VersionEntry>, lastId: nat, e: VersionEntry, now: string, performer: string)
    requires IdsAscending(entries) && IdsAtMost(entries, lastId)
    requires UpdateError(cols, e.productId, [RollbackAssignment(e)]) == None
    ensures var inv := Inverse(e, lastId + 1, now, performer);
      GetVersionById(entries + [inv], lastId + 1) == (if Bindable(Int(lastId + 1)) then Ok(Some(inv)) else Err(IntegerOverflow)) &&
      UpdateError(cols, inv.productId, [RollbackAssignment(inv)]) == None
  {
    InverseFound(entries, lastId, e, now, performer);
    RollbackFails(cols, e);
    RollbackFails(cols, Inverse(e, lastId + 1, now, performer));
  }

  /** Two rollbacks in a row, the second of the entry the first recorded:
      when the first succeeds on a field other than id, so does the second,
      and the field is back at the first entry's new value, unless the new
      entry's id is too large for sqlite3 to bind. */
  method RollbackTwice(t: ProductTable, l: Ledger, vid: int, performer: string, now: string)
    returns (first: Result<()>, second: Result<()>)
    requires t.Valid() && l.Valid()
    modifies t, l
    ensures t.Valid() && l.Valid()
    ensures var found := ById(old(l.entries), vid);
      first.Ok? ==>
        (found.Some? &&
         (found.value.field != IdColumn ==>
           if Bindable(Int(old(l.lastId) + 1)) then
             second == Ok(()) &&
             t.rows == UpdatedRows(old(t.rows), found.value.productId, [Assignment(found.value.field, FromStored(found.value.newValue))])
           else second == Err(IntegerOverflow)))
  {
    ghost var rows0 := t.rows;
    ghost var found := ById(l.entries, vid);
    first := Rollback(t, l, vid, performer, now);
    if first.Err? {
      second := first;
      return;
    }
    var inverseId := l.lastId;
    SecondRollback(t.schema, old(l.entries), old(l.lastId), found.value, now, performer);
    second := Rollback(t, l, inverseId, performer, now);
    if found.value.field != IdColumn && second.Ok? {
      RollbackTwiceRows(rows0, found.value, inverseId, now, performer);
    }
  }
}
