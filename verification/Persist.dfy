/** The durable snapshot history (internal/persist/sqlite.go): a table of rows, lookups over it, and lazy pruning.
    A row's blob is the snapshot itself: encoding and decoding lose nothing.
 */
module Persist {
  import opened Wrappers
  import opened Seqs
  import opened Graph
  import opened Timeline

  const MINUTE: int := 60_000_000_000

  datatype Row = Row(id: nat, takenAt: int, roots: nat, edges: nat, sessions: nat, data: Snapshot)

  function RowOf(id: nat, s: Snapshot): Row {
    Row(id, s.takenAt, |s.roots|, |s.edges|, |s.sessions|, s)
  }

  predicate In64(t: int) {
    MIN64 <= t <= MAX64
  }

  /** Rows are what Save writes: their columns summarise their blob, their times fit the column. */
  ghost predicate WellFormed(rows: seq<Row>) {
    forall i :: 0 <= i < |rows| ==> rows[i] == RowOf(rows[i].id, rows[i].data) && In64(rows[i].takenAt)
  }

  function DataOf(r: Row): Snapshot {
    r.data
  }

  function Snaps(rows: seq<Row>): (s: seq<Snapshot>) {
    Map(DataOf, rows)
  }

  /** The table, the next row id, and when expired rows were last deleted. */
  datatype Db = Db(rows: seq<Row>, nextId: nat, lastPrune: Option<int>)

  /** What the environment does during one Save: does encoding and the insert succeed, what the clock reads when the
      call starts and at its three readings, does the delete succeed. */
  datatype SaveEnv = SaveEnv(insertOk: bool, startedAt: int, checkedAt: int, prunedAt: int, cutoffAt: int,
      deleteOk: bool)

  function KeepFrom(rows: seq<Row>, cutoff: int): (r: seq<Row>)
    ensures forall x :: x in r <==> x in rows && x.takenAt >= cutoff
  {
    if rows == [] then []
    else
      var rest := KeepFrom(rows[1..], cutoff);
      if rows[0].takenAt >= cutoff then [rows[0]] + rest else rest
  }

  function MaybePrune(db: Db, retention: int, env: SaveEnv): Db {
    if retention <= 0 then db
    else if db.lastPrune.Some? && env.checkedAt - db.lastPrune.value < MINUTE then db
    else
      Db(if env.deleteOk then KeepFrom(db.rows, env.cutoffAt - retention) else db.rows, db.nextId, Some(env.prunedAt))
  }

  function SaveDb(db: Db, retention: int, snap: Snapshot, env: SaveEnv): Db {
    if !env.insertOk then db
    else MaybePrune(Db(db.rows + [RowOf(db.nextId, snap)], db.nextId + 1, db.lastPrune), retention, env)
  }

  lemma SaveKeepsForm(db: Db, retention: int, snap: Snapshot, env: SaveEnv)
    ensures WellFormed(db.rows) && In64(snap.takenAt) ==> WellFormed(SaveDb(db, retention, snap, env).rows)
  {
  }

  /** WHERE taken_at <= t ORDER BY taken_at DESC LIMIT 1 */
  predicate LatestUpTo(rows: seq<Row>, t: int, k: nat) {
    && k < |rows| && rows[k].takenAt <= t
    && forall j :: 0 <= j < |rows| && rows[j].takenAt <= t ==> rows[j].takenAt <= rows[k].takenAt
  }

  /** WHERE taken_at >= t ORDER BY taken_at ASC LIMIT 1 */
  predicate EarliestFrom(rows: seq<Row>, t: int, k: nat) {
    && k < |rows| && rows[k].takenAt >= t
    && forall j :: 0 <= j < |rows| && rows[j].takenAt >= t ==> rows[k].takenAt <= rows[j].takenAt
  }

  lemma LatestExists(rows: seq<Row>, t: int)
    requires WellFormed(rows)
    ensures forall k: nat :: LatestUpTo(rows, t, k) <==> IsBelow(Snaps(rows), t, k)
    ensures (forall k: nat :: k < |rows| ==> !LatestUpTo(rows, t, k)) ==> forall j :: !IsBelow(Snaps(rows), t, j)
  {
  }

  lemma EarliestExists(rows: seq<Row>, t: int)
    requires WellFormed(rows)
    ensures forall k: nat :: EarliestFrom(rows, t, k) <==> IsAbove(Snaps(rows), t, k)
    ensures (forall k: nat :: k < |rows| ==> !EarliestFrom(rows, t, k)) ==> forall j :: !IsAbove(Snaps(rows), t, j)
  {
  }

  datatype Answer = DbError | NotFound | Found(snap: Snapshot)

  class SQLite {
    var rows: seq<Row>
    var nextId: nat
    const retention: int
    var lastPrune: Option<int>

    constructor (retention: int, rows: seq<Row>, nextId: nat)
      ensures this.retention == retention && State() == Db(rows, nextId, None)
    {
      this.retention, this.rows, this.nextId, this.lastPrune := retention, rows, nextId, None;
    }

    function State(): Db
      reads this
    {
      Db(rows, nextId, lastPrune)
    }

    /** Inserts the row, then deletes what has expired, at most once a minute. */
    method Save(snap: Snapshot, env: SaveEnv) returns (ok: bool)
      modifies this
      ensures ok == env.insertOk
      ensures State() == SaveDb(old(State()), retention, snap, env)
      ensures !ok ==> State() == old(State())
      ensures ok && retention <= 0 ==>
                rows == old(rows) + [Row(old(nextId), snap.takenAt, |snap.roots|, |snap.edges|, |snap.sessions|, snap)]
      ensures forall r :: r in rows ==>
                r in old(rows) || r == Row(old(nextId), snap.takenAt, |snap.roots|, |snap.edges|, |snap.sessions|, snap)
      ensures old(WellFormed(rows)) && In64(snap.takenAt) ==> WellFormed(rows)
      ensures ok && (retention > 0 ==> snap.takenAt >= env.cutoffAt - retention) ==> RowOf(old(nextId), snap) in rows
    {
      SaveKeepsForm(State(), retention, snap, env);
      if !env.insertOk {
        return false;
      }
      assert RowOf(nextId, snap) in rows + [RowOf(nextId, snap)];
      rows, nextId := rows + [RowOf(nextId, snap)], nextId + 1;
      Prune(env);
      ok := true;
    }

    method Prune(env: SaveEnv)
      modifies this
      ensures State() == MaybePrune(old(State()), retention, env)
    {
      if retention <= 0 {
        return;
      }
      if lastPrune.Some? && env.checkedAt - lastPrune.value < MINUTE {
        return;
      }
      lastPrune := Some(env.prunedAt);
      var cutoff := env.cutoffAt - retention;
      if env.deleteOk {
        rows := KeepFrom(rows, cutoff);
      }
    }

    /** The row the database returns for the latest one at or before the target. */
    method QueryBelow(target: int) returns (r: Option<nat>)
      requires WellFormed(rows)
      ensures r.Some? ==> IsBelow(Snaps(rows), target, r.value)
      ensures r.None? ==> forall j :: !IsBelow(Snaps(rows), target, j)
    {
      hide IsBelow, LatestUpTo, Snaps;
      LatestExists(rows, target);
      if k: nat :| k < |rows| && LatestUpTo(rows, target, k) {
        r := Some(k);
      } else {
        r := None;
      }
    }

    method QueryAbove(target: int) returns (r: Option<nat>)
      requires WellFormed(rows)
      ensures r.Some? ==> IsAbove(Snaps(rows), target, r.value)
      ensures r.None? ==> forall j :: !IsAbove(Snaps(rows), target, j)
    {
      hide IsAbove, EarliestFrom, Snaps;
      EarliestExists(rows, target);
      if k: nat :| k < |rows| && EarliestFrom(rows, target, k) {
        r := Some(k);
      } else {
        r := None;
      }
    }

    /** The stored snapshot nearest to the target: the neighbour below, unless the one above is strictly nearer. */
    method At(target: int, dbFails: bool) returns (a: Answer)
      requires WellFormed(rows)
      ensures a.DbError? == dbFails
      ensures !dbFails ==> IsSqlAnswer(Snaps(rows), target, if a.Found? then Some(a.snap) else None)
    {
      if dbFails {
        return DbError;
      }
      hide IsBelow, IsAbove, IsSqlPick, SqlDist;
      ghost var s := Snaps(rows);
      var best: Option<nat> := None;
      var bestDiff := MAX64;
      var below := QueryBelow(target);
      if below.Some? {
        BelowTies(s, target, below.value);
        var d := SqlDist(target, rows[below.value].takenAt);
        if d < bestDiff {
          bestDiff, best := d, below;
        }
      }
      var above := QueryAbove(target);
      if above.Some? {
        AboveTies(s, target, above.value);
        var d := SqlDist(target, rows[above.value].takenAt);
        if d < bestDiff {
          bestDiff, best := d, above;
        }
      }
      if best.None? {
        return NotFound;
      }
      BestIsPick(s, target, below, above, best.value);
      a := Found(rows[best.value].data);
    }

    /** The summaries of the rows in the window, by time. */
    method History(from: Option<int>, to: Option<int>) returns (out: seq<Meta>)
      requires WellFormed(rows)
      ensures IsSqlHistory(out, Snaps(rows), from, to)
    {
      var lo, hi := MIN64, MAX64;
      if from.Some? {
        lo := from.value;
      }
      if to.Some? {
        hi := to.value;
      }
      var selected := Sort(Select(rows, lo, hi), RowLeq);
      out := Scan(selected);
      HistoryIs(rows, lo, hi, from, to);
    }
  }

  /** The loop over the rows of a result. */
  method Scan(selected: seq<Row>) returns (out: seq<Meta>)
    ensures out == Map(ColumnsOf, selected)
  {
    out := [];
    for k := 0 to |selected|
      invariant out == Map(ColumnsOf, selected[..k])
    {
      assert selected[..k + 1] == selected[..k] + [selected[k]];
      MapConcat(ColumnsOf, selected[..k], [selected[k]]);
      out := out + [Meta(selected[k].takenAt, selected[k].roots, selected[k].edges, selected[k].sessions)];
    }
    assert selected[..|selected|] == selected;
  }

  lemma HistoryIs(rows: seq<Row>, lo: int, hi: int, from: Option<int>, to: Option<int>)
    requires WellFormed(rows)
    requires lo == (if from.Some? then from.value else MIN64) && hi == (if to.Some? then to.value else MAX64)
    ensures IsSqlHistory(Map(ColumnsOf, Sort(Select(rows, lo, hi), RowLeq)), Snaps(rows), from, to)
  {
    hide Sort, HistoryOf, Snaps, Select;
    var hits := Select(rows, lo, hi);
    var selected := Sort(hits, RowLeq);
    RowOrder();
    SortSorted(hits, RowLeq);
    MapPermuted(ColumnsOf, selected, hits);
    SelectedHistory(rows, lo, hi, from, to);
    assert Sorted(Map(ColumnsOf, selected), MetaLeq);
  }

  lemma BelowTies(s: seq<Snapshot>, t: int, i: int)
    requires IsBelow(s, t, i)
    ensures 0 <= i < |s| && forall j :: IsBelow(s, t, j) ==> 0 <= j < |s| && s[j].takenAt == s[i].takenAt
  {
  }

  lemma AboveTies(s: seq<Snapshot>, t: int, i: int)
    requires IsAbove(s, t, i)
    ensures 0 <= i < |s| && forall j :: IsAbove(s, t, j) ==> 0 <= j < |s| && s[j].takenAt == s[i].takenAt
  {
  }

  /** Comparing the two neighbours finds the pick. */
  lemma BestIsPick(s: seq<Snapshot>, t: int, below: Option<nat>, above: Option<nat>, best: nat)
    requires if below.Some? then IsBelow(s, t, below.value) else forall j :: !IsBelow(s, t, j)
    requires if above.Some? then IsAbove(s, t, above.value) else forall j :: !IsAbove(s, t, j)
    requires best < |s| && SqlDist(t, s[best].takenAt) < MAX64
    requires
      || (below == Some(best)
          && (above.Some? ==> above.value < |s| && SqlDist(t, s[best].takenAt) <= SqlDist(t, s[above.value].takenAt)))
      || (above == Some(best)
          && (below.Some? ==> below.value < |s| && SqlDist(t, s[best].takenAt) < SqlDist(t, s[below.value].takenAt)))
    ensures IsSqlPick(s, t, best)
  {
    hide SqlDist, IsBelow, IsAbove;
    if below.Some? { BelowTies(s, t, below.value); }
    if above.Some? { AboveTies(s, t, above.value); }
  }

  function ColumnsOf(r: Row): Meta {
    Meta(r.takenAt, r.roots, r.edges, r.sessions)
  }

  predicate RowLeq(a: Row, b: Row) {
    a.takenAt <= b.takenAt
  }

  lemma RowOrder()
    ensures TotalOrder(RowLeq)
  {
  }

  function Select(rows: seq<Row>, lo: int, hi: int): seq<Row> {
    if rows == [] then []
    else (if lo <= rows[0].takenAt <= hi then [rows[0]] else []) + Select(rows[1..], lo, hi)
  }

  lemma {:induction false} SelectedHistory(rows: seq<Row>, lo: int, hi: int, from: Option<int>, to: Option<int>)
    requires WellFormed(rows)
    requires lo == (if from.Some? then from.value else MIN64) && hi == (if to.Some? then to.value else MAX64)
    ensures Map(ColumnsOf, Select(rows, lo, hi)) == HistoryOf(Snaps(rows), from, to)
  {
    if rows != [] {
      SelectedHistory(rows[1..], lo, hi, from, to);
      MapConcat(ColumnsOf, if lo <= rows[0].takenAt <= hi then [rows[0]] else [], Select(rows[1..], lo, hi));
      assert Snaps(rows) == [rows[0].data] + Snaps(rows[1..]);
      assert Snaps(rows)[1..] == Snaps(rows[1..]);
    }
  }

  // ---- Pruning

  datatype SaveCall = SaveCall(snap: Snapshot, env: SaveEnv)

  function RunSaves(db: Db, retention: int, calls: seq<SaveCall>): Db
    decreases |calls|
  {
    if calls == [] then db
    else
      var last := calls[|calls| - 1];
      SaveDb(RunSaves(db, retention, calls[..|calls| - 1]), retention, last.snap, last.env)
  }

  /** Calls one after the other by a clock that never goes back; deletes succeed; no snapshot is older than the
      retention when its Save starts. */
  ghost predicate Punctual(retention: int, calls: seq<SaveCall>) {
    && (forall i :: 0 <= i < |calls| ==>
          var e := calls[i].env;
          e.startedAt <= e.checkedAt <= e.prunedAt <= e.cutoffAt && e.deleteOk
          && calls[i].snap.takenAt >= e.startedAt - retention)
    && (forall i, j :: 0 <= i < j < |calls| ==> calls[i].env.cutoffAt <= calls[j].env.startedAt)
  }

  /** No row younger than the retention is ever deleted: what some Save left in the table is still there after any
      number of further calls, unless its age exceeds the retention by the last of them. */
  lemma {:induction false} YoungRowsStay(db: Db, retention: int, calls: seq<SaveCall>, i: nat, r: Row)
    requires i <= |calls| && r in RunSaves(db, retention, calls[..i]).rows
    requires forall j :: i <= j < |calls| ==> r.takenAt >= calls[j].env.cutoffAt - retention
    ensures r in RunSaves(db, retention, calls).rows
    decreases |calls|
  {
    if i == |calls| {
      assert calls[..i] == calls;
    } else {
      var init := calls[..|calls| - 1];
      assert init[..i] == calls[..i];
      YoungRowsStay(db, retention, init, i, r);
    }
  }

  // ---- At most once a minute

  /** Calls one after the other by a clock that never goes back. */
  ghost predicate Clocked(calls: seq<SaveCall>) {
    && (forall i :: 0 <= i < |calls| ==>
          var e := calls[i].env; e.startedAt <= e.checkedAt <= e.prunedAt <= e.cutoffAt)
    && (forall i, j :: 0 <= i < j < |calls| ==> calls[i].env.cutoffAt <= calls[j].env.startedAt)
  }

  lemma RunSavesStep(db: Db, retention: int, calls: seq<SaveCall>, i: nat)
    requires i < |calls|
    ensures RunSaves(db, retention, calls[..i + 1]) ==
            SaveDb(RunSaves(db, retention, calls[..i]), retention, calls[i].snap, calls[i].env)
  {
    assert calls[..i + 1][..i] == calls[..i];
  }

  /** A save that drops a row remembers when; and it was not due before a minute had passed since the time
      remembered. */
  lemma DropsWhenDue(db: Db, retention: int, snap: Snapshot, env: SaveEnv, r: Row)
    requires var after := SaveDb(db, retention, snap, env); r in db.rows && r !in after.rows
    ensures SaveDb(db, retention, snap, env).lastPrune == Some(env.prunedAt)
    ensures db.lastPrune.Some? ==> env.checkedAt - db.lastPrune.value >= 60_000_000_000
  {
  }

  lemma LastPruneAfter(db: Db, retention: int, snap: Snapshot, env: SaveEnv, t: int)
    requires db.lastPrune.Some? && db.lastPrune.value >= t && env.prunedAt >= t
    ensures var after := SaveDb(db, retention, snap, env); after.lastPrune.Some? && after.lastPrune.value >= t
  {
  }

  lemma {:induction false} RemembersPrune(db: Db, retention: int, calls: seq<SaveCall>, i: nat, j: nat)
    requires Clocked(calls) && i < j <= |calls|
    requires RunSaves(db, retention, calls[..i + 1]).lastPrune == Some(calls[i].env.prunedAt)
    ensures var after := RunSaves(db, retention, calls[..j]);
            after.lastPrune.Some? && after.lastPrune.value >= calls[i].env.prunedAt
    decreases j
  {
    if i + 1 < j {
      hide RunSaves, SaveDb;
      var h := j - 1;
      RemembersPrune(db, retention, calls, i, h);
      RunSavesStep(db, retention, calls, h);
      LastPruneAfter(RunSaves(db, retention, calls[..h]), retention, calls[h].snap, calls[h].env,
          calls[i].env.prunedAt);
    }
  }

  /** Rows are deleted at most once a minute: between two saves that each drop a row that was in the table, at least
      a minute passes by the clock. */
  lemma PrunesApart(db: Db, retention: int, calls: seq<SaveCall>, i: nat, j: nat, r: Row, q: Row)
    requires Clocked(calls) && i < j < |calls|
    requires r in RunSaves(db, retention, calls[..i]).rows && r !in RunSaves(db, retention, calls[..i + 1]).rows
    requires q in RunSaves(db, retention, calls[..j]).rows && q !in RunSaves(db, retention, calls[..j + 1]).rows
    ensures calls[j].env.checkedAt - calls[i].env.prunedAt >= 60_000_000_000
  {
    hide RunSaves, SaveDb, Clocked;
    RunSavesStep(db, retention, calls, i);
    RunSavesStep(db, retention, calls, j);
    DropsWhenDue(RunSaves(db, retention, calls[..i]), retention, calls[i].snap, calls[i].env, r);
    RemembersPrune(db, retention, calls, i, j);
    DropsWhenDue(RunSaves(db, retention, calls[..j]), retention, calls[j].snap, calls[j].env, q);
  }

  /** A failed delete is not tried again within the minute either: on a fresh start, a save whose delete fails and
      one less than a minute later leave every row. */
  lemma FailedDeleteWaits(db: Db, retention: int, first: SaveCall, second: SaveCall)
    requires retention > 0 && db.lastPrune.None? && first.env.insertOk && !first.env.deleteOk
    requires second.env.checkedAt - first.env.prunedAt < 60_000_000_000
    ensures forall r :: r in db.rows ==> r in RunSaves(db, retention, [first, second]).rows
  {
    var calls := [first, second];
    RunSavesStep(db, retention, calls, 0);
    RunSavesStep(db, retention, calls, 1);
    assert calls[..0] == [] && calls[..2] == calls;
  }

  /** Nothing gets into the table but by a Save. */
  lemma {:induction false} RowsComeFromSaves(db: Db, retention: int, calls: seq<SaveCall>, r: Row)
    requires r in RunSaves(db, retention, calls).rows
    ensures r in db.rows || exists i :: 0 <= i < |calls| && calls[i].env.insertOk && r.data == calls[i].snap
    decreases |calls|
  {
    if calls != [] {
      var init := calls[..|calls| - 1];
      if r in RunSaves(db, retention, init).rows {
        RowsComeFromSaves(db, retention, init, r);
      } else {
        assert calls[|calls| - 1].env.insertOk && r.data == calls[|calls| - 1].snap;
      }
    }
  }

  lemma {:induction false} PruneInvariant(db: Db, retention: int, calls: seq<SaveCall>)
    requires retention > 0 && db.lastPrune == None && Punctual(retention, calls)
    ensures var after := RunSaves(db, retention, calls);
            after.lastPrune.Some? ==>
              && (forall r :: r in after.rows ==> r.takenAt >= after.lastPrune.value - retention)
              && calls != [] && after.lastPrune.value <= calls[|calls| - 1].env.cutoffAt
    decreases |calls|
  {
    if calls != [] {
      var init, last := calls[..|calls| - 1], calls[|calls| - 1];
      PruneInvariant(db, retention, init);
      var before := RunSaves(db, retention, init);
      assert init != [] ==> init[|init| - 1].env.cutoffAt <= last.env.startedAt;
    }
  }

  /** Although rows are deleted at most once a minute, after every successful Save no row is older than the retention
      and that minute - whatever rows an earlier process left behind. */
  lemma AgeBounded(db: Db, retention: int, calls: seq<SaveCall>)
    requires retention > 0 && db.lastPrune == None && Punctual(retention, calls)
    requires calls != [] && calls[|calls| - 1].env.insertOk
    ensures var t := calls[|calls| - 1].env.checkedAt;
            forall r :: r in RunSaves(db, retention, calls).rows ==> r.takenAt > t - retention - MINUTE
  {
    var init, last := calls[..|calls| - 1], calls[|calls| - 1];
    PruneInvariant(db, retention, init);
    PruneInvariant(db, retention, calls);
    var before, after := RunSaves(db, retention, init), RunSaves(db, retention, calls);
    if before.lastPrune.Some? && last.env.checkedAt - before.lastPrune.value < MINUTE {
      assert after.lastPrune == before.lastPrune;
    }
  }
}
