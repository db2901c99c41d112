/** The audit trail: the bounded in-memory sink (internal/audit/audit.go), the database sink
    (internal/persist/audit.go), and when their answers are the same.
 */
module Audit {
  import opened Seqs

  datatype Entry = Entry(at: int, actor: string, action: string, pid: int, victimQuery: string, delivered: bool,
      error: string)

  function Reversed<T>(s: seq<T>): (r: seq<T>)
    ensures |r| == |s| && forall i :: 0 <= i < |s| ==> r[i] == s[|s| - 1 - i]
  {
    seq(|s|, i requires 0 <= i < |s| => s[|s| - 1 - i])
  }

  /** The first `n` elements, or all there are. */
  function FirstN<T>(s: seq<T>, n: nat): seq<T> {
    if |s| <= n then s else s[..n]
  }

  // ---- In memory

  class Memory {
    var entries: seq<Entry>
    const cap: nat

    ghost predicate Valid()
      reads this
    {
      cap > 0 && |entries| <= cap
    }

    constructor (capacity: int)
      ensures Valid() && entries == [] && cap == if capacity < 1 then 1 else capacity
    {
      cap := if capacity < 1 then 1 else capacity;
      entries := [];
    }

    /** Appends, and forgets the oldest beyond the capacity. */
    method Record(e: Entry)
      requires Valid()
      modifies this
      ensures Valid() && entries == LastN(old(entries) + [e], cap)
    {
      entries := entries + [e];
      if |entries| > cap {
        entries := entries[|entries| - cap..];
      }
    }

    /** The newest entries, newest first. */
    method Recent(limit: int) returns (out: seq<Entry>)
      requires Valid()
      ensures out == MemoryRecent(entries, limit)
      ensures |out| == (if limit <= 0 || limit > |entries| then |entries| else limit)
      ensures forall i :: 0 <= i < |out| ==> out[i] == entries[|entries| - 1 - i]
    {
      var n := |entries|;
      var lim := if limit <= 0 || limit > n then n else limit;
      out := [];
      var i := n - 1;
      while i >= n - lim
        invariant n - lim - 1 <= i <= n - 1
        invariant out == FirstN(Reversed(entries), n - 1 - i)
      {
        out := out + [entries[i]];
        i := i - 1;
      }
    }
  }

  function MemoryRecent(entries: seq<Entry>, limit: int): seq<Entry> {
    FirstN(Reversed(entries), if limit <= 0 || limit > |entries| then |entries| else limit)
  }

  // ---- In the database

  datatype AuditRow = AuditRow(id: nat, entry: Entry)

  /** ORDER BY at DESC, id DESC. */
  predicate RowBefore(a: AuditRow, b: AuditRow) {
    if a.entry.at != b.entry.at then a.entry.at > b.entry.at else a.id >= b.id
  }

  function EntryOf(r: AuditRow): Entry {
    r.entry
  }

  function ClampLimit(limit: int): (n: nat) {
    if limit <= 0 || limit > 1000 then 1000 else limit
  }

  class SqlTrail {
    var rows: seq<AuditRow>

    constructor ()
      ensures rows == []
    {
      rows := [];
    }

    method Record(e: Entry, dbFails: bool) returns (ok: bool)
      modifies this
      ensures ok == !dbFails
      ensures rows == if dbFails then old(rows) else old(rows) + [AuditRow(|old(rows)| + 1, e)]
    {
      if dbFails {
        return false;
      }
      rows := rows + [AuditRow(|rows| + 1, e)];
      ok := true;
    }

    method Recent(limit: int) returns (out: seq<Entry>)
      ensures out == SqlRecent(rows, limit)
    {
      var lim := limit;
      if lim <= 0 || lim > 1000 {
        lim := 1000;
      }
      var selected := FirstN(Sort(rows, RowBefore), lim);
      out := [];
      for k := 0 to |selected|
        invariant out == Map(EntryOf, selected[..k])
      {
        assert selected[..k + 1] == selected[..k] + [selected[k]];
        MapConcat(EntryOf, selected[..k], [selected[k]]);
        out := out + [selected[k].entry];
      }
      assert selected[..|selected|] == selected;
    }
  }

  function SqlRecent(rows: seq<AuditRow>, limit: int): seq<Entry> {
    Map(EntryOf, FirstN(Sort(rows, RowBefore), ClampLimit(limit)))
  }

  /** Is row i to be listed before row j: later, or at the same time and recorded after? */
  predicate Precedes(rows: seq<AuditRow>, i: nat, j: nat)
    requires i < |rows| && j < |rows|
  {
    rows[i].entry.at > rows[j].entry.at || (rows[i].entry.at == rows[j].entry.at && rows[i].id >= rows[j].id)
  }

  /** What the page is: as many rows as the limit allows - at most a thousand - each once, in that order, and every
      row left out comes after every row on it. */
  lemma SqlRecentMeans(rows: seq<AuditRow>, limit: int) returns (page: seq<AuditRow>, rest: seq<AuditRow>)
    ensures multiset(page) + multiset(rest) == multiset(rows)
    ensures var most := if limit <= 0 || limit > 1000 then 1000 else limit;
            |page| == if |rows| < most then |rows| else most
    ensures |SqlRecent(rows, limit)| == |page| && forall k :: 0 <= k < |page| ==>
        SqlRecent(rows, limit)[k] == page[k].entry
    ensures forall i, j :: 0 <= i < j < |page + rest| ==> Precedes(page + rest, i, j)
  {
    var sorted := Sort(rows, RowBefore);
    SortLength(rows);
    SortIsSorted(rows);
    hide Sort, Map;
    page := FirstN(sorted, ClampLimit(limit));
    rest := sorted[|page|..];
    assert page + rest == sorted;
    assert multiset(page + rest) == multiset(page) + multiset(rest);
    forall i, j | 0 <= i < j < |page + rest| ensures Precedes(page + rest, i, j) {
      assert RowBefore(sorted[i], sorted[j]);
    }
  }

  // ---- Runs

  /** What each sink holds after the same run of records. */
  function MemoryAfter(run: seq<Entry>, cap: nat): (s: seq<Entry>)
    decreases |run|
  {
    if run == [] then [] else LastN(MemoryAfter(run[..|run| - 1], cap) + [run[|run| - 1]], cap)
  }

  function RowsAfter(run: seq<Entry>): (s: seq<AuditRow>)
    ensures |s| == |run| && forall i :: 0 <= i < |run| ==> s[i] == AuditRow(i + 1, run[i])
    decreases |run|
  {
    if run == [] then [] else RowsAfter(run[..|run| - 1]) + [AuditRow(|run|, run[|run| - 1])]
  }

  lemma {:induction false} MemoryHolds(run: seq<Entry>, cap: nat)
    requires cap > 0
    ensures MemoryAfter(run, cap) == LastN(run, cap)
    decreases |run|
  {
    if run != [] {
      hide LastN;
      MemoryHolds(run[..|run| - 1], cap);
      LastNStep(run[..|run| - 1], run[|run| - 1], cap);
      assert run == run[..|run| - 1] + [run[|run| - 1]];
    }
  }

  /** The last thousand entries are in order of time, and nothing before them is later than the first of them. */
  ghost predicate InOrder(run: seq<Entry>) {
    var k := if |run| <= 1000 then 0 else |run| - 1000;
    forall i, j :: 0 <= i < j < |run| && k <= j ==> run[i].at <= run[j].at
  }

  lemma RowOrderTotal()
    ensures TotalOrder(RowBefore)
  {
  }

  function Older(rows: seq<AuditRow>): seq<AuditRow> {
    if |rows| <= 1000 then [] else rows[..|rows| - 1000]
  }

  lemma ReversedPermutes<T>(s: seq<T>)
    ensures multiset(Reversed(s)) == multiset(s)
  {
    if s != [] {
      ReversedPermutes(s[1..]);
      assert Reversed(s) == Reversed(s[1..]) + [s[0]];
      assert s == [s[0]] + s[1..];
    }
  }

  lemma RowsInOrder(run: seq<Entry>)
    requires InOrder(run)
    ensures forall i, j :: 0 <= i < j < |run| && |Older(RowsAfter(run))| <= j ==>
        RowBefore(RowsAfter(run)[j], RowsAfter(run)[i])
  {
  }

  lemma WindowThenOlder(run: seq<Entry>)
    requires InOrder(run)
    ensures var rows := RowsAfter(run);
            Sorted(Reversed(LastN(rows, 1000)) + Sort(Older(rows), RowBefore), RowBefore)
  {
    hide Sort, RowBefore, Reversed, RowsAfter, InOrder;
    var rows := RowsAfter(run);
    var last, old' := LastN(rows, 1000), Older(rows);
    var b := Sort(old', RowBefore);
    var s := Reversed(last) + b;
    RowOrderTotal();
    SortSorted(old', RowBefore);
    SortKeeps(old', RowBefore);
    RowsInOrder(run);
    forall i, j | 0 <= i < j < |s| ensures RowBefore(s[i], s[j]) {
      if i < |last| {
        var p := |last| - 1 - i;
        assert s[i] == last[p] == rows[|old'| + p];
        if j < |last| {
          var q := |last| - 1 - j;
          assert s[j] == last[q] == rows[|old'| + q];
          assert RowBefore(rows[|old'| + p], rows[|old'| + q]);
        } else {
          assert s[j] == b[j - |last|];
          var k := Indexed(old', s[j]);
          assert rows[k] == s[j];
          assert RowBefore(rows[|old'| + p], rows[k]);
        }
      } else {
        assert s[i] == b[i - |last|] && s[j] == b[j - |last|];
      }
    }
  }

  lemma RowsUntied(run: seq<Entry>)
    ensures forall x, y :: x in RowsAfter(run) && y in RowsAfter(run) && RowBefore(x, y) && RowBefore(y, x) ==> x == y
  {
  }

  /** What the database lists, when the times are in order: the last thousand in reverse, then the others. */
  lemma SortedRows(run: seq<Entry>)
    requires InOrder(run)
    ensures var rows := RowsAfter(run);
            Sort(rows, RowBefore) == Reversed(LastN(rows, 1000)) + Sort(Older(rows), RowBefore)
  {
    hide Sort, RowsAfter, InOrder, Reversed, RowBefore;
    var rows := RowsAfter(run);
    var last, old' := LastN(rows, 1000), Older(rows);
    var s := Reversed(last) + Sort(old', RowBefore);
    WindowThenOlder(run);
    RowOrderTotal();
    SortSorted(rows, RowBefore);
    ReversedPermutes(last);
    assert old' + last == rows;
    assert multiset(s) == multiset(rows);
    SortKeeps(rows, RowBefore);
    RowsUntied(run);
    SortUnique(Sort(rows, RowBefore), s, RowBefore);
  }

  lemma MapReversed<T, U>(f: T -> U, s: seq<T>)
    ensures Map(f, Reversed(s)) == Reversed(Map(f, s))
  {
  }

  lemma MapFirst<T, U>(f: T -> U, s: seq<T>, n: nat)
    ensures Map(f, FirstN(s, n)) == FirstN(Map(f, s), n)
  {
  }

  lemma EntriesOfRows(run: seq<Entry>)
    ensures Map(EntryOf, LastN(RowsAfter(run), 1000)) == LastN(run, 1000)
  {
  }

  /** Both sinks give the same answer to every limit when the last thousand records came in order of time, none of them
      before an older one. */
  lemma SameRecent(run: seq<Entry>, limit: int)
    requires InOrder(run)
    ensures SqlRecent(RowsAfter(run), limit) == MemoryRecent(MemoryAfter(run, 1000), limit)
  {
    hide Sort, Map, InOrder, RowsAfter;
    var rows := RowsAfter(run);
    var last := LastN(rows, 1000);
    MemoryHolds(run, 1000);
    SortedRows(run);
    var n := ClampLimit(limit);
    var s := Reversed(last) + Sort(Older(rows), RowBefore);
    RowsCount(run);
    assert FirstN(s, n) == FirstN(Reversed(last), n);
    MapFirst(EntryOf, Reversed(last), n);
    MapReversed(EntryOf, last);
    EntriesOfRows(run);
  }

  lemma RowsCount(run: seq<Entry>)
    ensures |RowsAfter(run)| == |run| && |Older(RowsAfter(run))| == |run| - |LastN(run, 1000)|
    ensures |run| < 1000 ==> Sort(Older(RowsAfter(run)), RowBefore) == []
  {
  }

  function TimeOf(r: AuditRow): int {
    r.entry.at
  }

  function At(e: Entry): int {
    e.at
  }

  lemma TimesOfEntries(s: seq<AuditRow>)
    ensures Map(TimeOf, s) == Map(At, Map(EntryOf, s))
  {
  }

  lemma TimesConcat(a: seq<int>, b: seq<int>, c: seq<int>, d: seq<int>)
    requires multiset(a + b) == multiset(c + d) && multiset(a) == multiset(c)
    ensures multiset(b) == multiset(d)
  {
    assert multiset(b) == multiset(a + b) - multiset(a);
    assert multiset(d) == multiset(c + d) - multiset(c);
  }

  /** If the answers to "everything" agree, then so do the times on the first page of the database. */
  lemma TopTimes(run: seq<Entry>)
    requires SqlRecent(RowsAfter(run), 0) == MemoryRecent(MemoryAfter(run, 1000), 0)
    ensures var rows := RowsAfter(run);
            var last, top := LastN(rows, 1000), FirstN(Sort(rows, RowBefore), 1000);
            |top| == |last| && Map(TimeOf, top) == Map(TimeOf, Reversed(last))
  {
    hide Sort, Map, RowsAfter;
    var rows := RowsAfter(run);
    var last, top := LastN(rows, 1000), FirstN(Sort(rows, RowBefore), 1000);
    MemoryHolds(run, 1000);
    SortLength(rows);
    assert Map(EntryOf, top) == Reversed(LastN(run, 1000));
    EntriesOfRows(run);
    MapReversed(EntryOf, last);
    TimesOfEntries(top);
    TimesOfEntries(Reversed(last));
  }

  lemma SortedTimes(rows: seq<AuditRow>, p: nat, q: nat)
    requires p < q < |rows|
    ensures var s := Sort(rows, RowBefore); |s| == |rows| && TimeOf(s[p]) >= TimeOf(s[q])
  {
    hide Sort, RowBefore;
    SortLength(rows);
    SortIsSorted(rows);
    RowBeforeLater(Sort(rows, RowBefore)[p], Sort(rows, RowBefore)[q]);
  }

  lemma SortIsSorted(rows: seq<AuditRow>)
    ensures Sorted(Sort(rows, RowBefore), RowBefore)
  {
    hide Sort, Sorted;
    RowOrderTotal();
    SortSorted(rows, RowBefore);
  }

  lemma TimeAt(s: seq<AuditRow>, i: nat)
    requires i < |s|
    ensures Map(TimeOf, s)[i] == TimeOf(s[i])
  {
  }

  /** A row outside the window has its time among those past the first page. */
  lemma OlderPastTop(rows: seq<AuditRow>, top: seq<AuditRow>, bottom: seq<AuditRow>, i: nat) returns (k: nat)
    requires top + bottom == Sort(rows, RowBefore)
    requires Map(TimeOf, top) == Map(TimeOf, Reversed(LastN(rows, 1000)))
    requires i < |Older(rows)|
    ensures k < |bottom| && TimeOf(bottom[k]) == TimeOf(Older(rows)[i])
  {
    hide Sort, Map, Reversed, LastN, Older;
    SameMultisetBottom(rows, top, bottom);
    TimeAt(Older(rows), i);
    var m := TimeOf(Older(rows)[i]);
    assert m in multiset(Map(TimeOf, Older(rows)));
    k := Indexed(Map(TimeOf, bottom), m);
    TimeAt(bottom, k);
  }

  /** Rows past the first page are not later than any on it; so neither is an older row later than one in the window. */
  lemma OlderNotLater(rows: seq<AuditRow>, i: nat, j: nat)
    requires var last, top := LastN(rows, 1000), FirstN(Sort(rows, RowBefore), 1000);
             |top| == |last| && Map(TimeOf, top) == Map(TimeOf, Reversed(last))
    requires i < |Older(rows)| && j < |LastN(rows, 1000)|
    ensures rows[i].entry.at <= LastN(rows, 1000)[j].entry.at
  {
    hide Sort, Map, Reversed, RowBefore, LastN;
    var last, sorted := LastN(rows, 1000), Sort(rows, RowBefore);
    var top := FirstN(sorted, 1000);
    var bottom := sorted[|top|..];
    assert top + bottom == sorted;
    var k := OlderPastTop(rows, top, bottom, i);
    var p := |last| - 1 - j;
    SortLength(rows);
    SortedTimes(rows, p, |top| + k);
    assert TimeOf(top[p]) == TimeOf(last[j]) by {
      TimeAt(top, p);
      TimeAt(Reversed(last), p);
    }
  }

  lemma SameMultisetBottom(rows: seq<AuditRow>, top: seq<AuditRow>, bottom: seq<AuditRow>)
    requires top + bottom == Sort(rows, RowBefore)
    requires Map(TimeOf, top) == Map(TimeOf, Reversed(LastN(rows, 1000)))
    ensures multiset(Map(TimeOf, bottom)) == multiset(Map(TimeOf, Older(rows)))
  {
    hide Sort, Map, Reversed;
    var last, old' := LastN(rows, 1000), Older(rows);
    ReversedPermutes(last);
    MapPermuted(TimeOf, Reversed(last), last);
    MapPermuted(TimeOf, top + bottom, rows);
    assert rows == old' + last;
    MapConcat(TimeOf, top, bottom);
    MapConcat(TimeOf, old', last);
    TimesSwap(Map(TimeOf, old'), Map(TimeOf, last));
    TimesConcat(Map(TimeOf, top), Map(TimeOf, bottom), Map(TimeOf, last), Map(TimeOf, old'));
  }

  lemma InTheWindow(rows: seq<AuditRow>, j: nat)
    requires |Older(rows)| <= j < |rows|
    ensures j - |Older(rows)| < |LastN(rows, 1000)| && rows[j] == LastN(rows, 1000)[j - |Older(rows)|]
  {
  }

  /** Nothing weaker will do: if the answers to "everything" agree, the records came in that order. */
  lemma SameRecentOnlyIfInOrder(run: seq<Entry>)
    requires SqlRecent(RowsAfter(run), 0) == MemoryRecent(MemoryAfter(run, 1000), 0)
    ensures InOrder(run)
  {
    hide Sort, Map, Reversed, RowBefore, SqlRecent, MemoryRecent, LastN, Older, FirstN, Sorted, InOrder;
    var rows := RowsAfter(run);
    TopTimes(run);
    forall i, j | 0 <= i < j < |run| && |Older(rows)| <= j ensures run[i].at <= run[j].at {
      LaterRow(rows, i, j);
    }
    OrderIs(run);
  }

  lemma OrderIs(run: seq<Entry>)
    requires forall i, j :: 0 <= i < j < |run| && |Older(RowsAfter(run))| <= j ==> run[i].at <= run[j].at
    ensures InOrder(run)
  {
  }

  lemma LaterRow(rows: seq<AuditRow>, i: nat, j: nat)
    requires var last, top := LastN(rows, 1000), FirstN(Sort(rows, RowBefore), 1000);
             |top| == |last| && Map(TimeOf, top) == Map(TimeOf, Reversed(last))
    requires i < j < |rows| && |Older(rows)| <= j
    ensures rows[i].entry.at <= rows[j].entry.at
  {
    hide Sort, Map, Reversed, RowBefore, LastN, Older, Sorted;
    var n, sorted := |Older(rows)|, Sort(rows, RowBefore);
    InTheWindow(rows, j);
    if i < n {
      OlderNotLater(rows, i, j - n);
    } else {
      InTheWindow(rows, i);
      SortIsSorted(rows);
      SortLength(rows);
      WindowInOrder(LastN(rows, 1000), FirstN(sorted, 1000), sorted);
    }
  }

  lemma SortLength(rows: seq<AuditRow>)
    ensures |Sort(rows, RowBefore)| == |rows|
  {
    SameElements(Sort(rows, RowBefore), rows);
  }

  lemma TimesSwap(a: seq<int>, b: seq<int>)
    ensures multiset(a + b) == multiset(b + a)
  {
  }

  lemma WindowInOrder(last: seq<AuditRow>, top: seq<AuditRow>, sorted: seq<AuditRow>)
    requires Sorted(sorted, RowBefore) && top <= sorted && |top| == |last|
    requires Map(TimeOf, top) == Map(TimeOf, Reversed(last))
    ensures forall i, j :: 0 <= i < j < |last| ==> last[i].entry.at <= last[j].entry.at
  {
    hide Map, Reversed, RowBefore;
    var times := Map(TimeOf, top);
    forall i, j | 0 <= i < j < |last| ensures last[i].entry.at <= last[j].entry.at {
      var p, q := |last| - 1 - j, |last| - 1 - i;
      assert RowBefore(top[p], top[q]) by { assert top[p] == sorted[p] && top[q] == sorted[q]; }
      RowBeforeLater(top[p], top[q]);
      assert times[p] == TimeOf(top[p]) && times[q] == TimeOf(top[q]);
      assert times[p] == TimeOf(Reversed(last)[p]) == TimeOf(last[j]);
      assert times[q] == TimeOf(Reversed(last)[q]) == TimeOf(last[i]);
    }
  }

  lemma RowBeforeLater(a: AuditRow, b: AuditRow)
    requires RowBefore(a, b)
    ensures a.entry.at >= b.entry.at
  {
  }
}
