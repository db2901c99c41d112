/** Ring and database side by side over whole runs: what each holds, whatever was pruned, failed to be inserted, or
    was left by an earlier process (internal/store/store.go, internal/persist/sqlite.go).
 */
module HubHistory {
  import opened Wrappers
  import opened Seqs
  import opened Graph
  import opened Rings
  import opened Persist
  import opened Timeline
  import opened Hub
  import opened HubInvariant

  // ---- The table, from a time on

  /** The snapshots taken at `lo` or later. */
  function Since(s: seq<Snapshot>, lo: int): seq<Snapshot> {
    if s == [] then [] else (if s[0].takenAt >= lo then [s[0]] else []) + Since(s[1..], lo)
  }

  lemma {:induction false} SinceConcat(a: seq<Snapshot>, b: seq<Snapshot>, lo: int)
    ensures Since(a + b, lo) == Since(a, lo) + Since(b, lo)
  {
    if a == [] {
      assert a + b == b;
    } else {
      assert (a + b)[1..] == a[1..] + b;
      SinceConcat(a[1..], b, lo);
    }
  }

  lemma SinceNone(lo: int)
    ensures Since([], lo) == [] && Ascends([])
  {
  }

  lemma SinceOne(x: Snapshot, lo: int)
    ensures Since([x], lo) == if x.takenAt >= lo then [x] else []
  {
  }

  /** Those and no others, each as often as it was there, in the order they had. */
  lemma {:induction false} SinceMeans(s: seq<Snapshot>, lo: int) returns (at: seq<nat>)
    ensures Ascends(at) && forall i: nat :: i in at <==> i < |s| && s[i].takenAt >= lo
    ensures |Since(s, lo)| == |at| && forall k :: 0 <= k < |at| ==> at[k] < |s| && Since(s, lo)[k] == s[at[k]]
    decreases |s|
  {
    hide Since, Ascends;
    if s == [] {
      SinceNone(lo);
      at := [];
    } else {
      var n := |s| - 1;
      var init, x := s[..n], s[n];
      var front := SinceMeans(init, lo);
      assert s == init + [x];
      SinceConcat(init, [x], lo);
      SinceOne(x, lo);
      AscendsOne(front, n);
      at := if x.takenAt >= lo then front + [n] else front;
      forall i: nat ensures i in at <==> i < |s| && s[i].takenAt >= lo {
        assert i < n ==> init[i] == s[i];
      }
      forall k | 0 <= k < |at| ensures at[k] < |s| && Since(s, lo)[k] == s[at[k]] {
        if k < |front| {
          assert front[k] in front && init[front[k]] == s[front[k]];
        }
      }
    }
  }

  ghost predicate Timed(rows: seq<Row>) {
    forall r :: r in rows ==> r.takenAt == r.data.takenAt
  }

  lemma SnapsOne(r: Row, rows: seq<Row>)
    ensures Snaps([r] + rows) == [r.data] + Snaps(rows)
  {
    MapConcat(DataOf, [r], rows);
  }

  lemma {:induction false} KeepSince(rows: seq<Row>, cutoff: int, lo: int)
    requires Timed(rows) && cutoff <= lo
    ensures Since(Snaps(KeepFrom(rows, cutoff)), lo) == Since(Snaps(rows), lo)
  {
    if rows != [] {
      hide Snaps;
      var r, rest := rows[0], rows[1..];
      KeepSince(rest, cutoff, lo);
      assert rows == [r] + rest;
      SnapsOne(r, rest);
      SnapsOne(r, KeepFrom(rest, cutoff));
      assert ([r.data] + Snaps(rest))[1..] == Snaps(rest);
      assert ([r.data] + Snaps(KeepFrom(rest, cutoff)))[1..] == Snaps(KeepFrom(rest, cutoff));
    }
  }

  /** One save, seen from `lo` on: the snapshot is there if it was inserted, and nothing else changed. */
  lemma SaveSince(db: Db, retention: int, snap: Snapshot, env: SaveEnv, lo: int)
    requires Timed(db.rows) && (retention > 0 ==> env.cutoffAt - retention <= lo)
    ensures Since(Snaps(SaveDb(db, retention, snap, env).rows), lo) ==
            Since(Snaps(db.rows) + if env.insertOk then [snap] else [], lo)
  {
    hide Snaps, Since, KeepFrom;
    if env.insertOk {
      var more := db.rows + [RowOf(db.nextId, snap)];
      SnapsStep(db.rows, RowOf(db.nextId, snap));
      if retention > 0 {
        KeepSince(more, env.cutoffAt - retention, lo);
      }
    } else {
      assert Snaps(db.rows) + [] == Snaps(db.rows);
    }
  }

  /** Has everything pruned so far been older than `lo`? */
  ghost predicate PrunedBefore(cfg: Config, steps: seq<Step>, lo: int) {
    cfg.retention > 0 ==> forall i :: 0 <= i < |steps| && steps[i].Save? ==> steps[i].env.cutoffAt - cfg.retention <= lo
  }

  lemma StepSince(cfg: Config, st: State, step: Step, lo: int)
    requires cfg.cap > 0 && cfg.persist && Inv(cfg, st) && WellFormed(cfg.Found())
    requires step.Save? && cfg.retention > 0 ==> step.env.cutoffAt - cfg.retention <= lo
    requires Since(Snaps(st.db.rows), lo) == Since(Written(cfg, st), lo)
    ensures var next := Next(cfg, st, step);
            |next.inserted| <= |next.puts| && Since(Snaps(next.db.rows), lo) == Since(Written(cfg, next), lo)
  {
    hide Snaps, Since, SaveDb, Kept, Ring.Put, ClientsInv, Latest, Offer;
    if Enabled(st, step) {
      var found := Snaps(cfg.Found());
      if step.Lock? {
        KeptGrow(st.puts, [step.snap], st.inserted);
      } else if step.Save? {
        var snap, ok := st.phase.frame.snap, step.env.insertOk;
        var more := if ok then [snap] else [];
        assert Timed(st.db.rows);
        SaveSince(st.db, cfg.retention, snap, step.env, lo);
        HubInvariant.KeptStep(st.puts, st.inserted, ok);
        SinceConcat(Snaps(st.db.rows), more, lo);
        SinceConcat(Written(cfg, st), more, lo);
        assert found + (Kept(st.puts, st.inserted) + more) == found + Kept(st.puts, st.inserted) + more;
      }
    }
  }

  lemma {:induction false} RunSince(cfg: Config, empty: Snapshot, steps: seq<Step>, lo: int)
    requires cfg.cap > 0 && cfg.persist && WellFormed(cfg.Found()) && PrunedBefore(cfg, steps, lo)
    ensures var st := Run(cfg, empty, steps);
            |st.inserted| <= |st.puts| && Since(Snaps(st.db.rows), lo) == Since(Written(cfg, st), lo)
    decreases |steps|
  {
    hide Next, Inv, Since;
    if steps == [] {
      assert Snaps(cfg.Found()) + [] == Snaps(cfg.Found());
    } else {
      var init, last := steps[..|steps| - 1], steps[|steps| - 1];
      RunSince(cfg, empty, init, lo);
      RunInv(cfg, empty, init);
      StepSince(cfg, Run(cfg, empty, init), last, lo);
    }
  }

  /** In every reachable state the ring is the last puts, as many as fit. The table, from any time on that pruning
      has not reached, is what it held at the start and then every put whose insert succeeded, in order - the save of
      the last put may be still to come; the rest of it is of the same origin. */
  lemma RingAndTable(cfg: Config, empty: Snapshot, steps: seq<Step>, lo: int)
    requires cfg.cap > 0 && WellFormed(cfg.Found())
    ensures var st := Run(cfg, empty, steps);
            && st.ring.Contents() == LastN(st.puts, cfg.cap)
            && |st.inserted| == |st.puts| - (if st.phase.Saving? then 1 else 0)
            && (!cfg.persist ==> st.db.rows == [])
            && (cfg.persist && PrunedBefore(cfg, steps, lo) ==>
                  Since(Snaps(st.db.rows), lo) == Since(Snaps(cfg.Found()) + Kept(st.puts, st.inserted), lo))
            && (cfg.persist && cfg.retention <= 0 ==>
                Snaps(st.db.rows) == Snaps(cfg.Found()) + Kept(st.puts, st.inserted))
            && (forall r :: r in st.db.rows ==> r in cfg.Found() || r.data in st.puts)
  {
    hide Run, ClientsInv, PhaseInv, Since;
    RunInv(cfg, empty, steps);
    if cfg.persist && PrunedBefore(cfg, steps, lo) {
      RunSince(cfg, empty, steps, lo);
    }
  }

  // ---- Which puts were inserted

  /** The puts whose insert failed. */
  function Lost(puts: seq<Snapshot>, inserted: seq<bool>): seq<Snapshot>
    requires |inserted| <= |puts|
    decreases |inserted|
  {
    if inserted == [] then []
    else
      var n := |inserted| - 1;
      Lost(puts, inserted[..n]) + if inserted[n] then [] else [puts[n]]
  }

  /** The kept ones are just those, in order. */
  lemma {:induction false} KeptMeans(puts: seq<Snapshot>, inserted: seq<bool>) returns (at: seq<nat>)
    requires |inserted| <= |puts|
    ensures Ascends(at) && forall i: nat :: i in at <==> i < |inserted| && inserted[i]
    ensures |Kept(puts, inserted)| == |at|
    ensures forall k :: 0 <= k < |at| ==> at[k] < |puts| && Kept(puts, inserted)[k] == puts[at[k]]
    decreases |inserted|
  {
    hide Kept, Ascends;
    if inserted == [] {
      NoneKept(puts);
      at := [];
    } else {
      var n := |inserted| - 1;
      var front := KeptMeans(puts, inserted[..n]);
      OneMore(puts, inserted);
      AscendsOne(front, n);
      at := if inserted[n] then front + [n] else front;
      forall i: nat ensures i in at <==> i < |inserted| && inserted[i] {
        assert i < n ==> inserted[..n][i] == inserted[i];
      }
      forall k | 0 <= k < |at| ensures at[k] < |puts| && Kept(puts, inserted)[k] == puts[at[k]] {
        if k < |front| {
          assert front[k] in front;
        }
      }
    }
  }

  lemma NoneKept(puts: seq<Snapshot>)
    ensures Kept(puts, []) == [] && Ascends([])
  {
  }

  lemma {:induction false} KeptAll(puts: seq<Snapshot>, inserted: seq<bool>)
    requires |inserted| <= |puts| && forall i :: 0 <= i < |inserted| ==> inserted[i]
    ensures Kept(puts, inserted) == puts[..|inserted|] && Lost(puts, inserted) == []
    decreases |inserted|
  {
    if inserted != [] {
      var n := |inserted| - 1;
      KeptAll(puts, inserted[..n]);
      assert puts[..n + 1] == puts[..n] + [puts[n]];
    }
  }

  lemma {:induction false} KeptSplit(puts: seq<Snapshot>, inserted: seq<bool>, a: nat)
    requires a <= |inserted| <= |puts|
    ensures Kept(puts, inserted) == Kept(puts, inserted[..a]) + Kept(puts[a..], inserted[a..])
    decreases |inserted|
  {
    if a == |inserted| {
      assert inserted[..a] == inserted && inserted[a..] == [];
    } else {
      var n := |inserted| - 1;
      var init := inserted[..n];
      KeptSplit(puts, init, a);
      assert init[..a] == inserted[..a] && inserted[a..][..n - a] == init[a..];
      assert puts[a..][n - a] == puts[n];
    }
  }

  lemma {:induction false} FromPuts(puts: seq<Snapshot>, inserted: seq<bool>, x: Snapshot)
    requires |inserted| <= |puts| && x in Kept(puts, inserted)
    ensures exists i :: 0 <= i < |inserted| && puts[i] == x
    decreases |inserted|
  {
    var n := |inserted| - 1;
    if x in Kept(puts, inserted[..n]) {
      FromPuts(puts, inserted[..n], x);
    } else {
      assert puts[n] == x;
    }
  }

  lemma SortedAppend(s: seq<Snapshot>, x: Snapshot, leq: (Snapshot, Snapshot) -> bool)
    requires Sorted(s, leq) && forall i :: 0 <= i < |s| ==> leq(s[i], x)
    ensures Sorted(s + [x], leq)
  {
  }

  lemma {:induction false} KeptSorted(front: seq<Snapshot>, puts: seq<Snapshot>, inserted: seq<bool>,
      leq: (Snapshot, Snapshot) -> bool)
    requires |inserted| <= |puts| && Sorted(front + puts, leq)
    ensures Sorted(front + Kept(puts, inserted), leq)
    decreases |inserted|
  {
    var all := front + puts;
    if inserted == [] {
      assert forall i :: 0 <= i < |front| ==> all[i] == front[i];
      assert front + [] == front;
    } else {
      var n := |inserted| - 1;
      var kept := Kept(puts, inserted[..n]);
      KeptSorted(front, puts, inserted[..n], leq);
      forall i | 0 <= i < |front + kept| ensures leq((front + kept)[i], puts[n]) {
        assert all[|front| + n] == puts[n];
        if i < |front| {
          assert all[i] == front[i];
        } else {
          FromPuts(puts, inserted[..n], kept[i - |front|]);
          var k :| 0 <= k < n && puts[k] == kept[i - |front|];
          assert all[|front| + k] == puts[k];
        }
      }
      SortedAppend(front + kept, puts[n], leq);
      assert front + (kept + [puts[n]]) == front + kept + [puts[n]];
      assert kept + [] == kept;
    }
  }

  /** Every summary of a put that was tried to be inserted is a summary of one that was or of one that failed to be. */
  lemma {:induction false} KeptOrLost(puts: seq<Snapshot>, inserted: seq<bool>, from: Option<int>, to: Option<int>)
    requires |inserted| <= |puts|
    ensures multiset(HistoryOf(puts[..|inserted|], from, to)) ==
            multiset(HistoryOf(Kept(puts, inserted), from, to)) + multiset(HistoryOf(Lost(puts, inserted), from, to))
    decreases |inserted|
  {
    hide HistoryOf;
    if inserted == [] {
      HistoryNone(from, to);
      assert puts[..0] == [];
    } else {
      hide Kept, Lost;
      var n := |inserted| - 1;
      var init := inserted[..n];
      KeptOrLost(puts, init, from, to);
      assert puts[..n + 1] == puts[..n] + [puts[n]];
      HistoryBag(puts[..n], [puts[n]], from, to);
      HistoryBag(Kept(puts, init), [puts[n]], from, to);
      HistoryBag(Lost(puts, init), [puts[n]], from, to);
      OneMore(puts, inserted);
    }
  }

  lemma OneMore(puts: seq<Snapshot>, inserted: seq<bool>)
    requires 0 < |inserted| <= |puts|
    ensures var n := |inserted| - 1; var kept, lost := Kept(puts, inserted[..n]), Lost(puts, inserted[..n]);
            if inserted[n] then Kept(puts, inserted) == kept + [puts[n]] && Lost(puts, inserted) == lost
            else Kept(puts, inserted) == kept && Lost(puts, inserted) == lost + [puts[n]]
  {
  }

  lemma HistoryBag(a: seq<Snapshot>, b: seq<Snapshot>, from: Option<int>, to: Option<int>)
    ensures multiset(HistoryOf(a + b, from, to)) == multiset(HistoryOf(a, from, to)) + multiset(HistoryOf(b, from, to))
  {
    hide HistoryOf;
    HistoryConcat(a, b, from, to);
  }

  // ---- The two histories

  lemma {:induction false} HistorySince(s: seq<Snapshot>, lo: int, to: Option<int>)
    ensures HistoryOf(s, Some(lo), to) == HistoryOf(Since(s, lo), Some(lo), to)
  {
    if s != [] {
      HistorySince(s[1..], lo, to);
      var rest := Since(s[1..], lo);
      if s[0].takenAt >= lo {
        assert Since(s, lo) == [s[0]] + rest && ([s[0]] + rest)[1..] == rest;
      } else {
        assert Since(s, lo) == rest;
      }
    }
  }

  /** The number of puts that the ring no longer holds. */
  function Forgotten(cfg: Config, st: State): (a: nat)
    ensures a <= |st.puts|
  {
    if |st.puts| <= cfg.cap then 0 else |st.puts| - cfg.cap
  }

  /** Does the window begin where pruning has not reached - or anywhere, when there is no pruning? */
  ghost predicate Untouched(cfg: Config, steps: seq<Step>, from: Option<int>) {
    cfg.retention <= 0 || (from.Some? && PrunedBefore(cfg, steps, from.value))
  }

  predicate NotLater(x: Snapshot, y: Snapshot) {
    x.takenAt <= y.takenAt
  }

  predicate Earlier(x: Snapshot, y: Snapshot) {
    x.takenAt < y.takenAt
  }

  /** The table's list, whatever earlier processes left and whichever inserts failed. */
  lemma TableHistory(cfg: Config, empty: Snapshot, steps: seq<Step>, from: Option<int>, to: Option<int>)
    requires cfg.cap > 0 && cfg.persist && WellFormed(cfg.Found()) && Untouched(cfg, steps, from)
    ensures var st := Run(cfg, empty, steps);
            && |st.inserted| <= |st.puts|
            && HistoryOf(Snaps(st.db.rows), from, to) ==
               HistoryOf(Snaps(cfg.Found()), from, to) + HistoryOf(Kept(st.puts, st.inserted), from, to)
  {
    hide Run, HistoryOf, Since, Snaps, PrunedBefore;
    var st := Run(cfg, empty, steps);
    RingAndTable(cfg, empty, steps, if from.Some? then from.value else 0);
    HistoryConcat(Snaps(cfg.Found()), Kept(st.puts, st.inserted), from, to);
    if cfg.retention > 0 {
      HistorySince(Snaps(st.db.rows), from.value, to);
      HistorySince(Written(cfg, st), from.value, to);
    }
  }

  /** The ring's list: the puts that are past saving and still held, in order, then the one whose save is to come. */
  lemma RingHistory(cfg: Config, empty: Snapshot, steps: seq<Step>, from: Option<int>, to: Option<int>)
    requires cfg.cap > 0
    ensures var st := Run(cfg, empty, steps); var a, m := Forgotten(cfg, st), |st.inserted|;
            && a <= m == |st.puts| - (if st.phase.Saving? then 1 else 0)
            && HistoryOf(st.ring.Contents(), from, to) ==
                HistoryOf(st.puts[a..m], from, to) + HistoryOf(st.puts[m..], from, to)
            && (Sorted(st.puts, NotLater) ==> Sorted(HistoryOf(st.ring.Contents(), from, to), MetaLeq))
  {
    hide Run, HistoryOf, Sorted, ClientsInv;
    RunInv(cfg, empty, steps);
    var st := Run(cfg, empty, steps);
    var a, m := Forgotten(cfg, st), |st.inserted|;
    assert st.puts[a..] == st.ring.Contents() && st.puts[a..] == st.puts[a..m] + st.puts[m..];
    HistoryConcat(st.puts[a..m], st.puts[m..], from, to);
    if Sorted(st.puts, NotLater) {
      SortedDrop(st.puts, a);
      HistoryAscends(st.puts[a..], from, to);
    }
  }

  lemma SortedDrop(s: seq<Snapshot>, a: nat)
    requires a <= |s| && Sorted(s, NotLater)
    ensures Ascending(s[a..])
  {
  }

  /** The two histories line up, whatever was left by earlier processes, pruned before the window, or not inserted.
      Of the puts the ring still holds, its list has those that were inserted, those that failed to be, and the one
      whose save is to come; the table's has what was found at the start, the inserted puts the ring has forgotten,
      and the inserted ones it still holds - in this order when times never repeat or go back. */
  lemma HistoriesAgree(cfg: Config, empty: Snapshot, steps: seq<Step>, from: Option<int>, to: Option<int>,
      sql: seq<Meta>)
    requires cfg.cap > 0 && cfg.persist && WellFormed(cfg.Found()) && Untouched(cfg, steps, from)
    requires IsSqlHistory(sql, Snaps(Run(cfg, empty, steps).db.rows), from, to)
    ensures var st := Run(cfg, empty, steps); var a, m := Forgotten(cfg, st), |st.inserted|;
            && a <= m == |st.puts| - (if st.phase.Saving? then 1 else 0)
            && var found, forgotten, shared, lost, flying :=
                 HistoryOf(Snaps(cfg.Found()), from, to), HistoryOf(Kept(st.puts, st.inserted[..a]), from, to),
                 HistoryOf(Kept(st.puts[a..], st.inserted[a..]), from, to),
                 HistoryOf(Lost(st.puts[a..], st.inserted[a..]), from, to), HistoryOf(st.puts[m..], from, to);
               var ring := HistoryOf(st.ring.Contents(), from, to);
            && multiset(ring) == multiset(shared) + multiset(lost) + multiset(flying)
            && ((forall i :: a <= i < m ==> st.inserted[i]) ==> lost == [] && ring == shared + flying)
            && multiset(sql) == multiset(found + forgotten + shared)
            && (Sorted(Snaps(cfg.Found()) + st.puts, Earlier) ==> sql == found + forgotten + shared)
  {
    hide Run, IsSqlHistory, HistoryOf, Kept, Lost, Snaps, Untouched, Sorted, Forgotten, Ring.Contents;
    RingHistory(cfg, empty, steps, from, to);
    TableHistory(cfg, empty, steps, from, to);
    var st := Run(cfg, empty, steps);
    var a, m := Forgotten(cfg, st), |st.inserted|;
    var held, did := st.puts[a..], st.inserted[a..];
    KeptSplit(st.puts, st.inserted, a);
    HistoryConcat(Kept(st.puts, st.inserted[..a]), Kept(held, did), from, to);
    assert held[..|did|] == st.puts[a..m];
    KeptOrLost(held, did, from, to);
    if forall i :: a <= i < m ==> st.inserted[i] {
      KeptAll(held, did);
      HistoryNone(from, to);
    }
    TableOrder(cfg, st, from, to, sql);
  }

  lemma TableOrder(cfg: Config, st: State, from: Option<int>, to: Option<int>, sql: seq<Meta>)
    requires |st.inserted| <= |st.puts| && IsSqlHistory(sql, Snaps(st.db.rows), from, to)
    requires HistoryOf(Snaps(st.db.rows), from, to) ==
             HistoryOf(Snaps(cfg.Found()), from, to) + HistoryOf(Kept(st.puts, st.inserted), from, to)
    ensures var all := HistoryOf(Snaps(cfg.Found()), from, to) + HistoryOf(Kept(st.puts, st.inserted), from, to);
            multiset(sql) == multiset(all) && (Sorted(Snaps(cfg.Found()) + st.puts, Earlier) ==> sql == all)
  {
    hide HistoryOf, Kept, Snaps;
    if Sorted(Snaps(cfg.Found()) + st.puts, Earlier) {
      var written := Written(cfg, st);
      KeptSorted(Snaps(cfg.Found()), st.puts, st.inserted, Earlier);
      HistoryConcat(Snaps(cfg.Found()), Kept(st.puts, st.inserted), from, to);
      assert Ascending(written) && DistinctTimes(written);
      SqlHistoryUnique(sql, written, from, to);
    }
  }
}
