/** The rows of the `tasks` table (main.py) and the pure computations the
    handlers perform on them: turning a fetched row into a Task response,
    merging a TaskUpdate into a stored row, what a full SELECT returns, and
    why an insert can always find an unused id. */
module Rows {
  import opened Models

  /** The columns of one row other than its INTEGER PRIMARY KEY `id`.
      `status` is plain text: the table itself has no CHECK on it. */
  datatype Row = Row(taskName: string, description: Option<string>, status: string, dateAdded: string)

  /** The columns that store a Task. */
  function Columns(t: Task): Row {
    Row(t.taskName, t.description, t.status, t.dateAdded)
  }

  /** A fetched row `(id, task_name, description, status, date_added)` as a
      Task response, field for field. */
  function ToTask(id: int, row: Row): (t: Task)
    ensures t.id == id && Columns(t) == row
  {
    Task(id, row.taskName, row.description, row.status, row.dateAdded)
  }

  /** The list comprehension of get_tasks over the fetched rows. */
  function ToTasks(scan: seq<(int, Row)>): (tasks: seq<Task>)
    ensures |tasks| == |scan|
    ensures forall i :: 0 <= i < |scan| ==> tasks[i].id == scan[i].0 && Columns(tasks[i]) == scan[i].1
  {
    seq(|scan|, i requires 0 <= i < |scan| => ToTask(scan[i].0, scan[i].1))
  }

  /** A stored row that the Task response model accepts. */
  predicate ValidRow(row: Row) {
    ValidName(row.taskName) && ValidDescription(row.description) && ValidStatus(row.status)
  }

  /** The row that create_task inserts for a validated request. */
  function Inserted(t: TaskCreate, dateAdded: string): (row: Row)
    ensures ValidCreate(t) ==> ValidRow(row)
  {
    Row(t.taskName, t.description, t.status, dateAdded)
  }

  /** The UPDATE of update_task: each field of the request that is not None
      replaces the stored one, the others and `date_added` are kept. */
  function Merge(row: Row, u: TaskUpdate): (r: Row)
    ensures r.dateAdded == row.dateAdded
    ensures ValidRow(row) && ValidUpdate(u) ==> ValidRow(r)
  {
    Row(
      if u.taskName.Some? then u.taskName.value else row.taskName,
      if u.description.Some? then u.description else row.description,
      if u.status.Some? then u.status.value else row.status,
      row.dateAdded)
  }

  /** Field by field: a given value wins, an omitted one keeps the row's. */
  lemma MergeTakesGivenKeepsOmitted(row: Row, u: TaskUpdate)
    ensures u.taskName.Some? ==> Merge(row, u).taskName == u.taskName.value
    ensures u.taskName.None? ==> Merge(row, u).taskName == row.taskName
    ensures u.description.Some? ==> Merge(row, u).description == u.description
    ensures u.description.None? ==> Merge(row, u).description == row.description
    ensures u.status.Some? ==> Merge(row, u).status == u.status.value
    ensures u.status.None? ==> Merge(row, u).status == row.status
  {
  }

  /** An update that carries no field leaves the row as it was. */
  lemma MergeNothing(row: Row)
    ensures Merge(row, TaskUpdate(None, None, None)) == row
  {
  }

  /** Sending the same update twice has the effect of sending it once. */
  lemma MergeIdempotent(row: Row, u: TaskUpdate)
    ensures Merge(Merge(row, u), u) == Merge(row, u)
  {
  }

  /** The later of two updates wins on every field it carries. */
  function Then(first: TaskUpdate, second: TaskUpdate): TaskUpdate {
    TaskUpdate(
      if second.taskName.Some? then second.taskName else first.taskName,
      if second.description.Some? then second.description else first.description,
      if second.status.Some? then second.status else first.status)
  }

  /** Two updates in a row merge as one combined update. */
  lemma MergeSequence(row: Row, first: TaskUpdate, second: TaskUpdate)
    ensures Merge(Merge(row, first), second) == Merge(row, Then(first, second))
  {
  }

  /** Once a row has a description, no update can make it absent again:
      null and absence both mean "keep". */
  lemma DescriptionNeverCleared(row: Row, u: TaskUpdate)
    requires row.description.Some?
    ensures Merge(row, u).description.Some?
  {
  }

  /** `scan` is what `SELECT id, task_name, description, status, date_added
      FROM tasks` fetches from `table`: as many rows as the table holds,
      each under its own id, no id twice, in an order SQL does not fix. */
  ghost predicate IsScanOf(scan: seq<(int, Row)>, table: map<int, Row>) {
    && |scan| == |table|
    && (forall i :: 0 <= i < |scan| ==> scan[i].0 in table && table[scan[i].0] == scan[i].1)
    && (forall i, j :: 0 <= i < j < |scan| ==> scan[i].0 != scan[j].0)
  }

  function IdsOf(scan: seq<(int, Row)>): set<int> {
    set i | 0 <= i < |scan| :: scan[i].0
  }

  /** A scan with pairwise different ids has as many ids as rows. */
  lemma {:induction false} DistinctIdsCount(scan: seq<(int, Row)>)
    requires forall i, j :: 0 <= i < j < |scan| ==> scan[i].0 != scan[j].0
    ensures |IdsOf(scan)| == |scan|
  {
    if scan != [] {
      var n := |scan| - 1;
      var init := scan[..n];
      assert forall i, j :: 0 <= i < j < |init| ==> init[i].0 != init[j].0 by {
        forall i, j | 0 <= i < j < |init| ensures init[i].0 != init[j].0 {
          assert init[i] == scan[i] && init[j] == scan[j];
        }
      }
      DistinctIdsCount(init);
      assert IdsOf(scan) == IdsOf(init) + {scan[n].0} by {
        forall id | id in IdsOf(scan) ensures id in IdsOf(init) + {scan[n].0} {
          var i :| 0 <= i < |scan| && scan[i].0 == id;
          if i < n { assert init[i] == scan[i]; }
        }
        forall id | id in IdsOf(init) ensures id in IdsOf(scan) {
          var i :| 0 <= i < |init| && init[i].0 == id;
          assert scan[i] == init[i];
        }
      }
      assert forall i :: 0 <= i < |init| ==> init[i].0 != scan[n].0 by {
        forall i | 0 <= i < |init| ensures init[i].0 != scan[n].0 {
          assert init[i] == scan[i];
        }
      }
      assert scan[n].0 !in IdsOf(init);
    }
  }

  /** A subset of a finite set with as many elements is the whole set. */
  lemma SubsetOfSameSize(a: set<int>, b: set<int>)
    requires a <= b && |a| == |b|
    ensures a == b
  {
    var d := b - a;
    assert b == a + d;
    assert a * d == {};
    assert |b| == |a| + |d|;
    assert d == {};
  }

  /** A scan misses no row: every id of the table is fetched. */
  lemma ScanIsComplete(scan: seq<(int, Row)>, table: map<int, Row>)
    requires IsScanOf(scan, table)
    ensures forall id :: id in table ==> exists i :: 0 <= i < |scan| && scan[i].0 == id
  {
    DistinctIdsCount(scan);
    assert IdsOf(scan) <= table.Keys;
    SubsetOfSameSize(IdsOf(scan), table.Keys);
  }

  /** Two scans of the same table fetch the same rows, each as often, and may
      differ only in their order. */
  lemma ScansAgree(a: seq<(int, Row)>, b: seq<(int, Row)>, table: map<int, Row>)
    requires IsScanOf(a, table) && IsScanOf(b, table)
    ensures |a| == |b|
    ensures forall p :: p in a <==> p in b
  {
    ScanIsComplete(a, table);
    ScanIsComplete(b, table);
    forall p | p in a ensures p in b {
      var j :| 0 <= j < |b| && b[j].0 == p.0;
      assert b[j] == p;
    }
    forall p | p in b ensures p in a {
      var i :| 0 <= i < |a| && a[i].0 == p.0;
      assert a[i] == p;
    }
  }

  /** A set of ids that is not empty has a member to pick. */
  lemma NonEmptyHasMember(ids: set<int>)
    requires ids != {}
    ensures exists id :: id in ids
  {
    if forall id :: id !in ids { assert false; }
  }

  /** The largest rowid: SQLite keeps a rowid in a signed 64-bit integer. */
  const MaxRowid: int := 0x7fff_ffff_ffff_ffff
  const MinRowid: int := -0x8000_0000_0000_0000

  /** An id the sqlite3 driver can bind as a statement parameter; for any
      other Python int it raises OverflowError before the statement runs. */
  predicate Bindable(id: int) {
    MinRowid <= id <= MaxRowid
  }

  /** An id SQLite gives a new row of an INTEGER PRIMARY KEY table: positive
      and within 64 bits. */
  predicate AssignableRowid(id: int) {
    1 <= id <= MaxRowid
  }

  predicate InSpan(lo: int, x: int, hi: int) {
    lo <= x <= hi
  }

  function Span(lo: int, hi: int): set<int> {
    set x | lo <= x <= hi && InSpan(lo, x, hi)
  }

  /** The integers from `lo` to `hi` are `hi - lo + 1` many. */
  lemma {:induction false} SpanSize(lo: int, hi: int)
    requires lo <= hi + 1
    ensures |Span(lo, hi)| == hi - lo + 1
    decreases hi - lo + 1
  {
    if lo <= hi {
      SpanSize(lo, hi - 1);
      assert Span(lo, hi) == Span(lo, hi - 1) + {hi};
    } else {
      assert Span(lo, hi) == {};
    }
  }

  /** While the table holds fewer rows than there are rowids, some rowid is
      still unused, so an insert has one to take. */
  lemma FreshRowidExists(ids: set<int>)
    requires |ids| < MaxRowid
    ensures exists id :: AssignableRowid(id) && id !in ids
  {
    var all := Span(1, MaxRowid);
    SpanSize(1, MaxRowid);
    var free := all - ids;
    assert all == (all * ids) + free;
    assert |all| == |all * ids| + |free|;
    assert ids == (all * ids) + (ids - all);
    assert |all * ids| <= |ids|;
    assert free != {};
    NonEmptyHasMember(free);
    var id :| id in free;
    assert AssignableRowid(id) && id !in ids;
  }
}
