/** The two lookups in snapshot history - the snapshot nearest to a time, and the summaries in a window - as the
    store's ring (internal/store/store.go) and the database (internal/persist/sqlite.go) each answer them, and when
    the two agree. Times are nanoseconds.
 */
module Timeline {
  import opened Wrappers
  import opened Seqs
  import opened Graph

  const MAX64: int := 0x7FFF_FFFF_FFFF_FFFF
  const MIN64: int := -0x8000_0000_0000_0000

  function Abs(x: int): int {
    if x < 0 then -x else x
  }

  /** Absolute value of a 64-bit difference; the least value has none and stays. */
  function Abs64(x: int): int {
    if x < 0 then (if x == MIN64 then MIN64 else -x) else x
  }

  /** Time subtraction saturates at the ends of the 64-bit range. */
  function RingDist(t: int, takenAt: int): int {
    var d := t - takenAt;
    Abs64(if d > MAX64 then MAX64 else if d < MIN64 then MIN64 else d)
  }

  /** Integer subtraction wraps around. */
  function SqlDist(t: int, takenAt: int): int {
    Abs64((takenAt - t - MIN64) % 0x1_0000_0000_0000_0000 + MIN64)
  }

  /** Both distances, for all times: the ring's difference stops at the ends of the 64-bit range, the least one
      staying negative; the table's is off by 2^64 beyond them. */
  lemma DistancesAre(t: int, takenAt: int)
    ensures -0x8000_0000_0000_0000 < t - takenAt < 0x8000_0000_0000_0000 ==>
              RingDist(t, takenAt) == if t < takenAt then takenAt - t else t - takenAt
    ensures t - takenAt >= 0x8000_0000_0000_0000 ==> RingDist(t, takenAt) == 0x7FFF_FFFF_FFFF_FFFF
    ensures t - takenAt <= -0x8000_0000_0000_0000 ==> RingDist(t, takenAt) == -0x8000_0000_0000_0000
    ensures -0x8000_0000_0000_0000 < takenAt - t < 0x8000_0000_0000_0000 ==>
              SqlDist(t, takenAt) == if t < takenAt then takenAt - t else t - takenAt
    ensures takenAt - t == -0x8000_0000_0000_0000 ==> SqlDist(t, takenAt) == -0x8000_0000_0000_0000
    ensures 0x8000_0000_0000_0000 < takenAt - t < 0x1_0000_0000_0000_0000 ==>
              SqlDist(t, takenAt) == 0x1_0000_0000_0000_0000 - (takenAt - t)
    ensures takenAt - t == 0x8000_0000_0000_0000 ==> SqlDist(t, takenAt) == -0x8000_0000_0000_0000
    ensures -0x1_0000_0000_0000_0000 < takenAt - t < -0x8000_0000_0000_0000 ==>
              SqlDist(t, takenAt) == 0x1_0000_0000_0000_0000 - (t - takenAt)
  {
  }

  predicate Near(t: int, takenAt: int) {
    Abs(t - takenAt) < MAX64
  }

  lemma NearDist(t: int, takenAt: int)
    requires Near(t, takenAt)
    ensures RingDist(t, takenAt) == SqlDist(t, takenAt) == Abs(t - takenAt)
  {
  }

  // ---- Nearest snapshot

  /** What the ring's scan returns, for entries in the order they were put: of the nearest ones the one put last. */
  ghost predicate IsRingPick(s: seq<Snapshot>, t: int, k: int) {
    && 0 <= k < |s| && RingDist(t, s[k].takenAt) < MAX64
    && (forall j :: 0 <= j < |s| ==> RingDist(t, s[k].takenAt) <= RingDist(t, s[j].takenAt))
    && (forall j :: k < j < |s| ==> RingDist(t, s[k].takenAt) < RingDist(t, s[j].takenAt))
  }

  /** Of the entries from `from` on, `k` is the one the scan has kept; nothing when all are too far. */
  ghost predicate KeptFrom(s: seq<Snapshot>, t: int, from: int, k: Option<int>, diff: int) {
    0 <= from <= |s| &&
    match k
    case None => diff == MAX64 && forall j :: from <= j < |s| ==> RingDist(t, s[j].takenAt) >= MAX64
    case Some(i) =>
      && from <= i < |s| && diff == RingDist(t, s[i].takenAt) < MAX64
      && (forall j :: from <= j < |s| ==> diff <= RingDist(t, s[j].takenAt))
      && (forall j :: i < j < |s| ==> diff < RingDist(t, s[j].takenAt))
  }

  lemma KeptStep(s: seq<Snapshot>, t: int, from: int, k: Option<int>, diff: int)
    requires KeptFrom(s, t, from, k, diff) && from > 0
    ensures var d := RingDist(t, s[from - 1].takenAt);
            if d < diff then KeptFrom(s, t, from - 1, Some(from - 1), d) else KeptFrom(s, t, from - 1, k, diff)
  {
    hide RingDist;
  }

  lemma KeptNone(s: seq<Snapshot>, t: int)
    ensures KeptFrom(s, t, |s|, None, MAX64)
  {
  }

  /** The ring's answer: one of the nearest, the one put last; none only when all are too far. */
  ghost predicate IsRingAnswer(s: seq<Snapshot>, t: int, r: Option<Snapshot>) {
    && (r.Some? ==> exists k :: IsRingPick(s, t, k) && r.value == s[k])
    && (r.None? ==> forall j :: 0 <= j < |s| ==> RingDist(t, s[j].takenAt) >= MAX64)
  }

  lemma KeptAtEnd(s: seq<Snapshot>, t: int, k: Option<int>, diff: int, r: Option<Snapshot>)
    requires KeptFrom(s, t, 0, k, diff)
    requires if k.Some? then 0 <= k.value < |s| && r == Some(s[k.value]) else r.None?
    ensures IsRingAnswer(s, t, r)
  {
    hide RingDist;
    if k.Some? {
      assert IsRingPick(s, t, k.value);
    }
  }

  /** A row the database may return for the latest at or before `t`: among ties it is free to choose. */
  ghost predicate IsBelow(s: seq<Snapshot>, t: int, i: int) {
    && 0 <= i < |s| && s[i].takenAt <= t
    && forall j :: 0 <= j < |s| && s[j].takenAt <= t ==> s[j].takenAt <= s[i].takenAt
  }

  ghost predicate IsAbove(s: seq<Snapshot>, t: int, i: int) {
    && 0 <= i < |s| && s[i].takenAt >= t
    && forall j :: 0 <= j < |s| && s[j].takenAt >= t ==> s[i].takenAt <= s[j].takenAt
  }

  /** Does the database answer with row `k`, having looked at the neighbour below and the neighbour above? */
  ghost predicate IsSqlPick(s: seq<Snapshot>, t: int, k: int) {
    && 0 <= k < |s| && SqlDist(t, s[k].takenAt) < MAX64
    && ((IsBelow(s, t, k) && forall j :: IsAbove(s, t, j) ==> SqlDist(t, s[k].takenAt) <= SqlDist(t, s[j].takenAt))
        || (IsAbove(s, t, k) && forall j :: IsBelow(s, t, j) ==> SqlDist(t, s[k].takenAt) < SqlDist(t, s[j].takenAt)))
  }

  /** The database's answer; none only when the neighbours are too far. */
  ghost predicate IsSqlAnswer(s: seq<Snapshot>, t: int, r: Option<Snapshot>) {
    && (r.Some? ==> exists k :: IsSqlPick(s, t, k) && r.value == s[k])
    && (r.None? ==> forall j :: 0 <= j < |s| && (IsBelow(s, t, j) || IsAbove(s, t, j)) ==>
        SqlDist(t, s[j].takenAt) >= MAX64)
  }

  ghost predicate AllNear(s: seq<Snapshot>, t: int) {
    forall i :: 0 <= i < |s| ==> Near(t, s[i].takenAt)
  }

  ghost predicate IsNearest(s: seq<Snapshot>, t: int, k: int) {
    0 <= k < |s| && forall j :: 0 <= j < |s| ==> Abs(t - s[k].takenAt) <= Abs(t - s[j].takenAt)
  }

  ghost predicate DistinctTimes(s: seq<Snapshot>) {
    forall i, j :: 0 <= i < j < |s| ==> s[i].takenAt != s[j].takenAt
  }

  lemma BelowExists(s: seq<Snapshot>, t: int, i: nat)
    requires i < |s| && s[i].takenAt <= t
    ensures exists k :: IsBelow(s, t, k)
    decreases t - s[i].takenAt
  {
    if j :| 0 <= j < |s| && s[j].takenAt <= t && s[j].takenAt > s[i].takenAt {
      BelowExists(s, t, j);
    } else {
      assert IsBelow(s, t, i);
    }
  }

  lemma AboveExists(s: seq<Snapshot>, t: int, i: nat)
    requires i < |s| && s[i].takenAt >= t
    ensures exists k :: IsAbove(s, t, k)
    decreases s[i].takenAt - t
  {
    if j :| 0 <= j < |s| && s[j].takenAt >= t && s[j].takenAt < s[i].takenAt {
      AboveExists(s, t, j);
    } else {
      assert IsAbove(s, t, i);
    }
  }

  lemma RingPickNearest(s: seq<Snapshot>, t: int, k: int)
    requires AllNear(s, t)
    ensures IsRingPick(s, t, k) <==>
        IsNearest(s, t, k) && forall j :: k < j < |s| ==> Abs(t - s[j].takenAt) != Abs(t - s[k].takenAt)
  {
    hide RingDist, SqlDist, Near;
    forall i | 0 <= i < |s| ensures RingDist(t, s[i].takenAt) == Abs(t - s[i].takenAt) < MAX64 {
      NearDistBound(t, s[i].takenAt);
    }
  }

  lemma NearDistBound(t: int, takenAt: int)
    requires Near(t, takenAt)
    ensures RingDist(t, takenAt) == SqlDist(t, takenAt) == Abs(t - takenAt) < MAX64
  {
    NearDist(t, takenAt);
  }

  lemma SqlPickNearest(s: seq<Snapshot>, t: int, k: int)
    requires AllNear(s, t) && IsSqlPick(s, t, k)
    ensures IsNearest(s, t, k)
    ensures s[k].takenAt > t ==> forall j :: 0 <= j < |s| && s[j].takenAt <= t ==>
        Abs(t - s[k].takenAt) < Abs(t - s[j].takenAt)
  {
    hide RingDist, SqlDist, Near;
    forall i | 0 <= i < |s| ensures SqlDist(t, s[i].takenAt) == Abs(t - s[i].takenAt) {
      NearDistBound(t, s[i].takenAt);
    }
    forall j | 0 <= j < |s| ensures Abs(t - s[k].takenAt) <= Abs(t - s[j].takenAt)
      ensures s[k].takenAt > t && s[j].takenAt <= t ==> Abs(t - s[k].takenAt) < Abs(t - s[j].takenAt)
    {
      if s[j].takenAt <= t {
        BelowExists(s, t, j);
        var b :| IsBelow(s, t, b);
        assert Abs(t - s[b].takenAt) <= Abs(t - s[j].takenAt);
      } else {
        AboveExists(s, t, j);
        var a :| IsAbove(s, t, a);
        assert Abs(t - s[a].takenAt) <= Abs(t - s[j].takenAt);
      }
    }
  }

  /** Neither lookup comes back empty unless there is nothing to find. */
  lemma FoundUnlessEmpty(s: seq<Snapshot>, t: int, r: Option<Snapshot>, d: Option<Snapshot>)
    requires AllNear(s, t) && IsRingAnswer(s, t, r) && IsSqlAnswer(s, t, d)
    ensures (r.None? <==> s == []) && (d.None? <==> s == [])
  {
    hide RingDist, SqlDist, Near;
    if s != [] {
      NearDistBound(t, s[0].takenAt);
      if s[0].takenAt <= t {
        BelowExists(s, t, 0);
        var b :| IsBelow(s, t, b);
        NearDistBound(t, s[b].takenAt);
      } else {
        AboveExists(s, t, 0);
        var a :| IsAbove(s, t, a);
        NearDistBound(t, s[a].takenAt);
      }
    }
  }

  /** The ring comes back empty exactly when every snapshot it holds was taken 2^63 - 1 nanoseconds or more before the
      time asked for, or just that long after it. */
  lemma RingEmptyExactly(s: seq<Snapshot>, t: int)
    ensures IsRingAnswer(s, t, None) <==>
            forall i :: 0 <= i < |s| ==>
              t - s[i].takenAt >= 0x7FFF_FFFF_FFFF_FFFF || s[i].takenAt - t == 0x7FFF_FFFF_FFFF_FFFF
  {
    hide RingDist;
    forall i | 0 <= i < |s|
      ensures RingDist(t, s[i].takenAt) >= MAX64 <==> t - s[i].takenAt >= MAX64 || s[i].takenAt - t == MAX64
    {
      DistancesAre(t, s[i].takenAt);
    }
  }

  /** Over the same rows both lookups find a snapshot at the same, least, distance. */
  lemma SameDistance(s: seq<Snapshot>, t: int, r: int, d: int)
    requires AllNear(s, t) && IsRingPick(s, t, r) && IsSqlPick(s, t, d)
    ensures IsNearest(s, t, r) && IsNearest(s, t, d) && Abs(t - s[r].takenAt) == Abs(t - s[d].takenAt)
  {
    RingPickNearest(s, t, r);
    SqlPickNearest(s, t, d);
  }

  /** Are entries i and j the two nearest, equally far from `t`, one on each side, the later one put last? */
  ghost predicate SplitBy(s: seq<Snapshot>, t: int, i: int, j: int) {
    0 <= i < j < |s| && IsNearest(s, t, i) && s[i].takenAt < t < s[j].takenAt && t - s[i].takenAt == s[j].takenAt - t
  }

  /** With distinct times the two lookups return the same snapshot, except exactly when two are equally near and the one
      after `t` was put later: then the ring returns that one and the database the one before `t`. */
  lemma SamePick(s: seq<Snapshot>, t: int, r: int, d: int)
    requires AllNear(s, t) && DistinctTimes(s) && IsRingPick(s, t, r) && IsSqlPick(s, t, d)
    ensures r != d <==> exists i, j :: SplitBy(s, t, i, j)
    ensures r != d ==> SplitBy(s, t, d, r)
  {
    SameDistance(s, t, r, d);
    RingPickNearest(s, t, r);
    SqlPickNearest(s, t, d);
    if r != d {
      assert s[r].takenAt != s[d].takenAt;
      assert SplitBy(s, t, d, r);
    }
    if i, j :| SplitBy(s, t, i, j) {
      assert r >= j;
    }
  }

  /** And that happens: of two snapshots equally far from `t`, one on each side and put in order of time, the ring
      answers with the later, the database with the earlier. */
  lemma PicksDiffer(a: Snapshot, b: Snapshot, t: int)
    requires Near(t, a.takenAt) && Near(t, b.takenAt) && a.takenAt < t < b.takenAt && t - a.takenAt == b.takenAt - t
    ensures IsRingPick([a, b], t, 1) && IsSqlPick([a, b], t, 0)
  {
    hide RingDist, SqlDist;
    NearDist(t, a.takenAt);
    NearDist(t, b.takenAt);
    var s := [a, b];
    assert IsBelow(s, t, 0);
  }

  // ---- History

  datatype Meta = Meta(takenAt: int, roots: nat, edges: nat, sessions: nat)

  function MetaOf(s: Snapshot): Meta {
    Meta(s.takenAt, |s.roots|, |s.edges|, |s.sessions|)
  }

  /** Bounds are inclusive; a missing bound does not bound. */
  predicate InWindow(t: int, from: Option<int>, to: Option<int>) {
    (from.Some? ==> from.value <= t) && (to.Some? ==> t <= to.value)
  }

  /** The summaries of the wanted snapshots, in the order given. */
  function HistoryOf(s: seq<Snapshot>, from: Option<int>, to: Option<int>): seq<Meta> {
    if s == [] then []
    else (if InWindow(s[0].takenAt, from, to) then [MetaOf(s[0])] else []) + HistoryOf(s[1..], from, to)
  }

  predicate MetaLeq(a: Meta, b: Meta) {
    a.takenAt <= b.takenAt
  }

  /** A list the database may return: the summaries of the wanted rows, by time, ties in any order. */
  ghost predicate IsSqlHistory(out: seq<Meta>, s: seq<Snapshot>, from: Option<int>, to: Option<int>) {
    Sorted(out, MetaLeq) && multiset(out) == multiset(HistoryOf(s, from, to))
  }

  ghost predicate Ascending(s: seq<Snapshot>) {
    forall i, j :: 0 <= i < j < |s| ==> s[i].takenAt <= s[j].takenAt
  }

  lemma {:induction false} HistoryConcat(a: seq<Snapshot>, b: seq<Snapshot>, from: Option<int>, to: Option<int>)
    ensures HistoryOf(a + b, from, to) == HistoryOf(a, from, to) + HistoryOf(b, from, to)
  {
    if a == [] {
      assert a + b == b;
    } else {
      assert (a + b)[1..] == a[1..] + b;
      HistoryConcat(a[1..], b, from, to);
    }
  }

  lemma {:induction false} HistoryFrom(s: seq<Snapshot>, from: Option<int>, to: Option<int>, m: Meta)
    requires m in HistoryOf(s, from, to)
    ensures exists i :: 0 <= i < |s| && InWindow(s[i].takenAt, from, to) && m == MetaOf(s[i])
  {
    if m in HistoryOf(s[1..], from, to) {
      HistoryFrom(s[1..], from, to, m);
      var i :| 0 <= i < |s[1..]| && InWindow(s[1..][i].takenAt, from, to) && m == MetaOf(s[1..][i]);
      assert s[i + 1] == s[1..][i];
    }
  }

  /** In put order the summaries ascend when the put times never decrease; strictly when the put times do. */
  lemma {:induction false} HistoryAscends(s: seq<Snapshot>, from: Option<int>, to: Option<int>)
    requires Ascending(s)
    ensures Sorted(HistoryOf(s, from, to), MetaLeq)
    ensures DistinctTimes(s) ==>
              forall i, j :: 0 <= i < j < |HistoryOf(s, from, to)| ==>
                  HistoryOf(s, from, to)[i].takenAt < HistoryOf(s, from, to)[j].takenAt
  {
    if s != [] {
      var rest := HistoryOf(s[1..], from, to);
      HistoryAscends(s[1..], from, to);
      forall j | 0 <= j < |rest|
        ensures s[0].takenAt <= rest[j].takenAt && (DistinctTimes(s) ==> s[0].takenAt < rest[j].takenAt)
      {
        HistoryFrom(s[1..], from, to, rest[j]);
        var i :| 0 <= i < |s[1..]| && InWindow(s[1..][i].takenAt, from, to) && rest[j] == MetaOf(s[1..][i]);
        assert s[1..][i] == s[i + 1];
      }
    }
  }

  /** Is this the summary of `x`: its time, the number of its roots, of its edges and of its sessions? */
  predicate Summarises(m: Meta, x: Snapshot) {
    m.takenAt == x.takenAt && m.roots == |x.roots| && m.edges == |x.edges| && m.sessions == |x.sessions|
  }

  lemma HistoryNone(from: Option<int>, to: Option<int>)
    ensures HistoryOf([], from, to) == []
  {
  }

  /** Which summaries are listed: those of the snapshots in the window, bounds included, each once, in the order
      given. */
  lemma {:induction false} HistoryMeans(s: seq<Snapshot>, from: Option<int>, to: Option<int>) returns (at: seq<nat>)
    ensures Ascends(at)
    ensures forall i: nat :: i in at <==>
              i < |s| && (from.None? || from.value <= s[i].takenAt) && (to.None? || s[i].takenAt <= to.value)
    ensures |HistoryOf(s, from, to)| == |at|
    ensures forall k :: 0 <= k < |at| ==> at[k] < |s| && Summarises(HistoryOf(s, from, to)[k], s[at[k]])
    decreases |s|
  {
    hide HistoryOf, Summarises, Ascends;
    if s == [] {
      HistoryNone(from, to);
      NonePicked();
      at := [];
    } else {
      var n := |s| - 1;
      var init, x := s[..n], s[n];
      var front := HistoryMeans(init, from, to);
      assert s == init + [x];
      HistoryConcat(init, [x], from, to);
      HistoryOne(x, from, to);
      var wanted := (from.None? || from.value <= x.takenAt) && (to.None? || x.takenAt <= to.value);
      AscendsOne(front, n);
      at := if wanted then front + [n] else front;
      forall i: nat ensures i in at <==>
              i < |s| && (from.None? || from.value <= s[i].takenAt) && (to.None? || s[i].takenAt <= to.value)
      {
        assert i < n ==> init[i] == s[i];
      }
      forall k | 0 <= k < |at| ensures at[k] < |s| && Summarises(HistoryOf(s, from, to)[k], s[at[k]]) {
        if k < |front| {
          assert front[k] in front && init[front[k]] == s[front[k]];
        }
      }
    }
  }

  lemma NonePicked()
    ensures Ascends([])
  {
  }

  lemma HistoryOne(x: Snapshot, from: Option<int>, to: Option<int>)
    ensures var h := HistoryOf([x], from, to);
            if (from.None? || from.value <= x.takenAt) && (to.None? || x.takenAt <= to.value)
            then |h| == 1 && Summarises(h[0], x) else h == []
  {
  }

  /** When put times strictly increase, the database has no choice: its list is the one in put order. */
  lemma SqlHistoryUnique(out: seq<Meta>, s: seq<Snapshot>, from: Option<int>, to: Option<int>)
    requires Ascending(s) && DistinctTimes(s) && IsSqlHistory(out, s, from, to)
    ensures out == HistoryOf(s, from, to)
  {
    hide HistoryOf, Ascending, DistinctTimes;
    var h := HistoryOf(s, from, to);
    HistoryAscends(s, from, to);
    forall x, y | x in h && y in h && MetaLeq(x, y) && MetaLeq(y, x) ensures x == y {
      var i :| 0 <= i < |h| && h[i] == x;
      var j :| 0 <= j < |h| && h[j] == y;
      assert !(i < j) && !(j < i);
    }
    SortUnique(h, out, MetaLeq);
  }
}
