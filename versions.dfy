// The field-level change ledger: the product_field_versions table, its
// AUTOINCREMENT ids, the insert loop of record_field_versions and the two
// read-only queries get_versions and get_version_by_id.

module Versions {
  import opened Outcomes
  import opened Values

  /** One row of product_field_versions. Values are stored as text, or as
      NULL for None. */
  datatype VersionEntry = VersionEntry(id: int, productId: int, field: string,
                                       oldValue: Option<string>, newValue: Option<string>,
                                       changedAt: string, changedBy: string)

  /** One (field, old, new) triple of a diff list. */
  datatype Diff = Diff(field: string, before: Value, after: Value)

  /** The entries an insert loop appends for a diff list, the first one
      taking id firstId: one per diff, in order, under a shared timestamp
      and author, each value stored as its canonical string. */
  function Stamped(firstId: int, pid: int, diffs: seq<Diff>, now: string, author: string): seq<VersionEntry> {
    seq(|diffs|, i requires 0 <= i < |diffs| =>
      VersionEntry(firstId + i, pid, diffs[i].field, Canonical(diffs[i].before), Canonical(diffs[i].after), now, author))
  }

  /** Row ids in insertion order are strictly increasing. */
  predicate IdsAscending(entries: seq<VersionEntry>) {
    forall i, j :: 0 <= i < j < |entries| ==> entries[i].id < entries[j].id
  }

  predicate IdsAtMost(entries: seq<VersionEntry>, bound: int) {
    forall i :: 0 <= i < |entries| ==> 0 < entries[i].id <= bound
  }

  /** The stamped entries keep the ledger's ids increasing and above every
      id used so far, every diff's values are stored as None when they are
      NULL and as their str() otherwise, and all of them share the
      timestamp and the author. */
  lemma {:induction false} StampedExtends(entries: seq<VersionEntry>, lastId: nat, pid: int, diffs: seq<Diff>,
                                          now: string, author: string)
    requires IdsAscending(entries) && IdsAtMost(entries, lastId)
    ensures var added := Stamped(lastId + 1, pid, diffs, now, author);
      IdsAscending(entries + added) && IdsAtMost(entries + added, lastId + |diffs|) &&
      (forall i :: 0 <= i < |added| ==> lastId < added[i].id) &&
      (forall i :: 0 <= i < |added| ==>
        added[i].field == diffs[i].field && added[i].changedAt == now && added[i].changedBy == author &&
        (added[i].oldValue.None? <==> diffs[i].before.Null?) &&
        (added[i].newValue.None? <==> diffs[i].after.Null?))
  {
    var added := Stamped(lastId + 1, pid, diffs, now, author);
    var all := entries + added;
    forall i, j | 0 <= i < j < |all| ensures all[i].id < all[j].id {
      if j < |entries| {
        assert all[i] == entries[i] && all[j] == entries[j];
      } else if i < |entries| {
        assert all[i] == entries[i];
        assert all[j] == added[j - |entries|];
      } else {
        assert all[i] == added[i - |entries|] && all[j] == added[j - |entries|];
      }
    }
    forall i | 0 <= i < |all| ensures 0 < all[i].id <= lastId + |diffs| {
      if i < |entries| {
        assert all[i] == entries[i];
      } else {
        assert all[i] == added[i - |entries|];
      }
    }
  }

  // ---------------------------------------------------------------------
  // get_versions

  /** `if product_id:` — None and 0 select every entry, any other id only
      the entries of that product. */
  predicate Eligible(e: VersionEntry, pid: Option<int>) {
    pid.None? || pid.value == 0 || e.productId == pid.value
  }

  /** The WHERE clause, keeping the order of the table. */
  function Matching(entries: seq<VersionEntry>, pid: Option<int>): (r: seq<VersionEntry>)
    ensures forall e :: e in r <==> e in entries && Eligible(e, pid)
    ensures |r| <= |entries|
    ensures IdsAscending(entries) ==> IdsAscending(r)
  {
    if entries == [] then []
    else
      var init := entries[..|entries| - 1];
      var last := entries[|entries| - 1];
      assert entries == init + [last];
      var rest := Matching(init, pid);
      assert IdsAscending(entries) ==> IdsAscending(init) && forall e :: e in rest ==> e.id < last.id by {
        if IdsAscending(entries) {
          assert IdsAscending(init);
        }
      }
      rest + (if Eligible(last, pid) then [last] else [])
  }

  /** The WHERE clause keeps table order: an entry appended to the table is
      appended to the selection exactly when it is eligible. */
  lemma MatchingAppend(entries: seq<VersionEntry>, e: VersionEntry, pid: Option<int>)
    ensures Matching(entries + [e], pid) == Matching(entries, pid) + (if Eligible(e, pid) then [e] else [])
  {
    var all := entries + [e];
    assert all[..|all| - 1] == entries;
    assert all[|all| - 1] == e;
  }

  function Reverse(s: seq<VersionEntry>): (r: seq<VersionEntry>)
    ensures |r| == |s|
    ensures forall i :: 0 <= i < |s| ==> r[i] == s[|s| - 1 - i]
  {
    if s == [] then [] else [s[|s| - 1]] + Reverse(s[..|s| - 1])
  }

  /** LIMIT: a negative limit means no limit in SQLite. */
  function Take(s: seq<VersionEntry>, limit: int): seq<VersionEntry> {
    if 0 <= limit < |s| then s[..limit] else s
  }

  /** get_versions: the eligible entries, newest id first: exactly limit of
      them when there are more, and every eligible entry otherwise. */
  function Newest(entries: seq<VersionEntry>, pid: Option<int>, limit: int): (r: seq<VersionEntry>)
    ensures |r| == if 0 <= limit < |Matching(entries, pid)| then limit else |Matching(entries, pid)|
    ensures forall e :: e in r ==> e in entries && Eligible(e, pid)
    ensures limit < 0 || |Matching(entries, pid)| <= limit ==>
      forall e :: e in entries && Eligible(e, pid) ==> e in r
  {
    var m := Matching(entries, pid);
    var rev := Reverse(m);
    assert forall e :: e in rev ==> e in m by {
      forall e | e in rev ensures e in m {
        var i :| 0 <= i < |rev| && rev[i] == e;
        assert m[|m| - 1 - i] == e;
      }
    }
    assert forall e :: e in m ==> e in rev by {
      forall e | e in m ensures e in rev {
        var i :| 0 <= i < |m| && m[i] == e;
        assert rev[|m| - 1 - i] == e;
      }
    }
    Take(rev, limit)
  }

  /** The result of get_versions is in strictly descending id order. */
  lemma NewestDescending(entries: seq<VersionEntry>, pid: Option<int>, limit: int)
    requires IdsAscending(entries)
    ensures var r := Newest(entries, pid, limit);
      forall i, j :: 0 <= i < j < |r| ==> r[i].id > r[j].id
  {
    var m := Matching(entries, pid);
    var rev := Reverse(m);
    var r := Newest(entries, pid, limit);
    assert r == Take(rev, limit);
    forall i, j | 0 <= i < j < |r| ensures r[i].id > r[j].id {
      assert r[i] == m[|m| - 1 - i] && r[j] == m[|m| - 1 - j];
    }
  }

  /** The result of get_versions holds the largest eligible ids: an eligible
      entry left out is older than every entry returned. */
  lemma NewestLargest(entries: seq<VersionEntry>, pid: Option<int>, limit: int)
    requires IdsAscending(entries)
    ensures var r := Newest(entries, pid, limit);
      forall e, i :: e in entries && Eligible(e, pid) && e !in r && 0 <= i < |r| ==> e.id < r[i].id
  {
    var m := Matching(entries, pid);
    var r := Newest(entries, pid, limit);
    assert r == Take(Reverse(m), limit);
    forall e, i | e in entries && Eligible(e, pid) && e !in r && 0 <= i < |r| ensures e.id < r[i].id {
      LeftOutIsOlder(m, limit, e, i);
    }
  }

  /** Of an ascending sequence reversed and cut at limit, an entry that is
      cut off is older than every entry kept. */
  lemma LeftOutIsOlder(m: seq<VersionEntry>, limit: int, e: VersionEntry, i: nat)
    requires IdsAscending(m) && e in m
    requires e !in Take(Reverse(m), limit) && i < |Take(Reverse(m), limit)|
    ensures e.id < Take(Reverse(m), limit)[i].id
  {
    var rev := Reverse(m);
    var p :| 0 <= p < |m| && m[p] == e;
    assert rev[|m| - 1 - p] == e;
    assert 0 <= limit < |m|;
    assert |m| - 1 - p >= limit;
    assert Take(rev, limit)[i] == m[|m| - 1 - i];
  }

  // ---------------------------------------------------------------------
  // get_version_by_id

  /** The entry with the given id, or None. */
  function ById(entries: seq<VersionEntry>, vid: int): (r: Option<VersionEntry>)
    ensures r.Some? ==> r.value in entries && r.value.id == vid
    ensures r.None? <==> forall i :: 0 <= i < |entries| ==> entries[i].id != vid
  {
    if entries == [] then None
    else if entries[0].id == vid then Some(entries[0])
    else
      var r := ById(entries[1..], vid);
      assert forall i :: 1 <= i < |entries| ==> entries[i] == entries[1..][i - 1];
      r
  }

  /** Ids are the primary key: with ascending ids the entry found is the
      only one with that id. */
  lemma ByIdUnique(entries: seq<VersionEntry>, i: nat)
    requires IdsAscending(entries) && i < |entries|
    ensures ById(entries, entries[i].id) == Some(entries[i])
  {
    var r := ById(entries, entries[i].id);
    var j :| 0 <= j < |entries| && entries[j] == r.value;
  }

  /** get_versions as sqlite3 runs it: the product id is bound only when it
      is given and not 0, the limit always, and a Python int outside the
      signed 64-bit range raises OverflowError before the query runs. */
  function GetVersions(entries: seq<VersionEntry>, pid: Option<int>, limit: int): (r: Result<seq<VersionEntry>>)
    ensures r.Err? <==> !Bindable(Int(limit)) || (pid.Some? && pid.value != 0 && !Bindable(Int(pid.value)))
    ensures r.Err? ==> r.error == IntegerOverflow
    ensures r.Ok? ==> r.value == Newest(entries, pid, limit)
  {
    if !Bindable(Int(limit)) || (pid.Some? && pid.value != 0 && !Bindable(Int(pid.value))) then Err(IntegerOverflow)
    else Ok(Newest(entries, pid, limit))
  }

  /** get_version_by_id as sqlite3 runs it: an id outside the signed 64-bit
      range raises OverflowError; otherwise the entry with that id, or None. */
  function GetVersionById(entries: seq<VersionEntry>, vid: int): (r: Result<Option<VersionEntry>>)
    ensures r.Err? <==> !Bindable(Int(vid))
    ensures r.Err? ==> r.error == IntegerOverflow
    ensures r.Ok? ==> r.value == ById(entries, vid)
  {
    if !Bindable(Int(vid)) then Err(IntegerOverflow) else Ok(ById(entries, vid))
  }

  // ---------------------------------------------------------------------
  // The table

  class Ledger {
    var entries: seq<VersionEntry>
    /** The AUTOINCREMENT counter: the largest id ever handed out. */
    var lastId: nat

    ghost predicate Valid()
      reads this
    {
      IdsAscending(entries) && IdsAtMost(entries, lastId)
    }

    constructor ()
      ensures Valid() && entries == [] && lastId == 0
    {
      entries := [];
      lastId := 0;
    }

    /** record_field_versions: one INSERT per diff, in order; no diff, no
        insert. */
    method Record(pid: int, diffs: seq<Diff>, changedBy: string, now: string)
      requires Valid()
      modifies this
      ensures Valid()
      ensures entries == old(entries) + Stamped(old(lastId) + 1, pid, diffs, now, changedBy)
      ensures lastId == old(lastId) + |diffs|
    {
      StampedExtends(entries, lastId, pid, diffs, now, changedBy);
      if diffs == [] {
        assert Stamped(lastId + 1, pid, diffs, now, changedBy) == [];
        assert entries + [] == entries;
        return;
      }
      ghost var start := entries;
      ghost var firstId := lastId + 1;
      var i := 0;
      while i < |diffs|
        invariant 0 <= i <= |diffs|
        invariant lastId == firstId - 1 + i
        invariant entries == start + Stamped(firstId, pid, diffs[..i], now, changedBy)
      {
        var d := diffs[i];
        lastId := lastId + 1;
        entries := entries + [VersionEntry(lastId, pid, d.field, Canonical(d.before), Canonical(d.after), now, changedBy)];
        assert Stamped(firstId, pid, diffs[..i + 1], now, changedBy)
            == Stamped(firstId, pid, diffs[..i], now, changedBy) + [VersionEntry(lastId, pid, d.field, Canonical(d.before), Canonical(d.after), now, changedBy)];
        i := i + 1;
      }
      assert diffs[..|diffs|] == diffs;
    }
  }
}
