/** The poll loop (internal/poller/poller.go): pacing, backing off, and the status it reports. Times are nanoseconds. */
module Poller {
  import opened Wrappers
  import opened Seqs
  import opened Graph
  import opened Rings
  import opened Persist
  import opened Store
  import opened Ingest

  const MAX_BACKOFF: int := 30_000_000_000

  datatype Status = Status(cluster: string, connected: bool, lastPoll: Option<int>, lastError: string)

  /** What the environment does during one turn of the loop: what the source returns and how long that takes, whether
      the context was cancelled meanwhile, how late the clock is read, how much a sleep overruns, whether it is cut
      short. */
  datatype Turn = Turn(polled: Polled, env: SaveEnv, pollTime: nat, cancelled: bool, lag: nat, late: nat, stopped: bool)

  /** One poll: when it started, when the clock was read after it, whether it succeeded, and the delay asked for then
      - none when the loop ended instead. */
  datatype Poll = Poll(start: int, end: int, ok: bool, delay: Option<int>)

  function Pow2(k: nat): nat {
    if k == 0 then 1 else 2 * Pow2(k - 1)
  }

  /** The delay after the (k+1)-th failure in a row. */
  function Backoff(interval: int, k: nat): int {
    if interval >= MAX_BACKOFF then interval
    else if interval * Pow2(k) < MAX_BACKOFF then interval * Pow2(k) else MAX_BACKOFF
  }

  lemma BackoffStep(interval: int, k: nat)
    requires interval > 0
    ensures var b := Backoff(interval, k);
            Backoff(interval, k + 1) ==
                (if b < MAX_BACKOFF then (if b * 2 > MAX_BACKOFF then MAX_BACKOFF else b * 2) else b)
    ensures Backoff(interval, k) >= interval
  {
    assert Pow2(k) >= 1 by { PowPositive(k); }
    assert interval * Pow2(k + 1) == 2 * (interval * Pow2(k));
    assert interval * Pow2(k) >= interval;
  }

  lemma PowPositive(k: nat)
    ensures Pow2(k) >= 1
  {
  }

  /** How many polls in a row failed just before poll i. */
  function Streak(log: seq<Poll>, i: nat): nat
    requires i <= |log|
  {
    if i == 0 || log[i - 1].ok then 0 else 1 + Streak(log, i - 1)
  }

  /** How many of the first `i` polls succeeded. */
  function Successes(log: seq<Poll>, i: nat): nat
    requires i <= |log|
  {
    if i == 0 then 0 else Successes(log, i - 1) + if log[i - 1].ok then 1 else 0
  }

  lemma {:induction false} CountsPrefix(log: seq<Poll>, p: Poll, i: nat)
    requires i <= |log|
    ensures Streak(log + [p], i) == Streak(log, i) && Successes(log + [p], i) == Successes(log, i)
  {
    if i > 0 {
      assert (log + [p])[i - 1] == log[i - 1];
      CountsPrefix(log, p, i - 1);
    }
  }

  lemma CountsStep(log: seq<Poll>, p: Poll)
    ensures forall i :: 0 <= i <= |log| ==>
        Streak(log + [p], i) == Streak(log, i) && Successes(log + [p], i) == Successes(log, i)
    ensures Streak(log + [p], |log| + 1) == if p.ok then 0 else 1 + Streak(log, |log|)
    ensures Successes(log + [p], |log| + 1) == Successes(log, |log|) + if p.ok then 1 else 0
  {
    forall i | 0 <= i <= |log|
      ensures Streak(log + [p], i) == Streak(log, i) && Successes(log + [p], i) == Successes(log, i)
    {
      CountsPrefix(log, p, i);
    }
  }

  // ---- What a run looks like

  /** Does the loop end with this turn? When its sleep is cut short, or when the poll failed and the context was
      cancelled. */
  predicate Ends(t: Turn) {
    t.stopped || (t.polled.PollError? && t.cancelled)
  }

  /** What is left of the interval after a poll. */
  function Remainder(interval: int, p: Poll): int {
    var wait := interval - (p.end - p.start);
    if wait > 0 then wait else 0
  }

  /** Poll `p` is what turn `t` makes of it after `k` failures in a row. The delay is what is left of the interval
      after a success and the backoff after a failure; a cancelled failure asks for none. */
  predicate Took(interval: int, t: Turn, k: nat, p: Poll) {
    && p.ok == t.polled.Polled?
    && p.end == p.start + t.pollTime + (if p.ok then t.lag else 0)
    && p.delay == if p.ok then Some(Remainder(interval, p))
                  else if t.cancelled then None else Some(Backoff(interval, k))
  }

  /** The next poll starts when the delay is over. */
  predicate Resumes(t: Turn, p: Poll, at: int) {
    !Ends(t) && p.delay.Some? && at == p.end + p.delay.value + t.late
  }

  /** Is the next poll to start at this time? */
  predicate Due(turns: seq<Turn>, t0: int, log: seq<Poll>, at: int)
    requires |log| <= |turns|
  {
    if log == [] then at == t0 else Resumes(turns[|log| - 1], log[|log| - 1], at)
  }

  /** One poll per turn, the first at t0, every other one when the delay before it is over. */
  ghost predicate Played(interval: int, turns: seq<Turn>, t0: int, log: seq<Poll>) {
    && |log| <= |turns|
    && (log != [] ==> log[0].start == t0)
    && (forall i :: 0 <= i < |log| ==> Took(interval, turns[i], Streak(log, i), log[i]))
    && (forall i, j :: 0 <= i && j == i + 1 < |log| ==> Resumes(turns[i], log[i], log[j].start))
  }

  /** The loop went on until it was ended, or until the turns ran out. */
  predicate Complete(turns: seq<Turn>, log: seq<Poll>)
    requires |log| <= |turns|
  {
    |log| < |turns| ==> log != [] && Ends(turns[|log| - 1])
  }

  lemma PlayedStep(interval: int, turns: seq<Turn>, t0: int, log: seq<Poll>, p: Poll)
    requires Played(interval, turns, t0, log) && |log| < |turns|
    requires Took(interval, turns[|log|], Streak(log, |log|), p)
    requires Due(turns, t0, log, p.start)
    ensures Played(interval, turns, t0, log + [p])
  {
    hide Took, Resumes, Streak, Successes;
    CountsStep(log, p);
    var l := log + [p];
    forall i | 0 <= i < |l| ensures Took(interval, turns[i], Streak(l, i), l[i]) {
      assert Streak(l, i) == Streak(log, i);
      if i < |log| {
        assert l[i] == log[i];
      }
    }
    forall i, j | 0 <= i && j == i + 1 < |l| ensures Resumes(turns[i], l[i], l[j].start) {
      assert l[i] == log[i];
      if j < |log| {
        assert l[j] == log[j];
      }
    }
  }

  lemma PlayedAt(interval: int, turns: seq<Turn>, t0: int, log: seq<Poll>, i: nat)
    requires Played(interval, turns, t0, log) && i < |log|
    ensures i < |turns| && Took(interval, turns[i], Streak(log, i), log[i])
    ensures i == 0 ==> log[i].start == t0
    ensures i > 0 ==> Resumes(turns[i - 1], log[i - 1], log[i].start)
  {
    hide Took, Resumes, Streak;
    if i > 0 {
      assert Resumes(turns[i - 1], log[i - 1], log[i].start);
    }
  }

  lemma OneApart(interval: int, t: Turn, k: nat, p: Poll, next: Poll)
    requires interval > 0 && Took(interval, t, k, p) && Resumes(t, p, next.start)
    ensures next.start >= p.start + interval
  {
    hide Backoff;
    BackoffStep(interval, k);
  }

  lemma OneMore(a: int, b: int, c: int, n: nat, interval: int)
    requires n > 0 && b >= a + (n - 1) * interval && c >= b + interval
    ensures c >= a + n * interval
  {
    assert n * interval == (n - 1) * interval + interval;
  }

  /** Pacing: whatever succeeds, fails or comes late, `n` polls after any poll at least `n` intervals have gone by. */
  lemma {:induction false} PollsApart(interval: int, turns: seq<Turn>, t0: int, log: seq<Poll>, i: nat, n: nat)
    requires interval > 0 && Played(interval, turns, t0, log) && i + n < |log|
    ensures log[i + n].start >= log[i].start + n * interval
  {
    if n > 0 {
      hide Played, Took, Resumes, Streak;
      var h := i + n - 1;
      PollsApart(interval, turns, t0, log, i, n - 1);
      PlayedAt(interval, turns, t0, log, h);
      PlayedAt(interval, turns, t0, log, h + 1);
      OneApart(interval, turns[h], Streak(log, h), log[h], log[h + 1]);
      OneMore(log[i].start, log[h].start, log[h + 1].start, n, interval);
    }
  }

  /** When the next poll starts: after a success at the end of the interval or when this poll is over, whichever is
      later; after a failure when its delay is over; a little late each time. It starts only if nothing ended the
      loop. */
  lemma NextStart(interval: int, turns: seq<Turn>, t0: int, log: seq<Poll>, i: nat)
    requires Played(interval, turns, t0, log) && i + 1 < |log|
    ensures i + 1 < |turns| && log[0].start == t0
    ensures var t, p, next := turns[i], log[i], log[i + 1];
            && (p.ok <==> t.polled.Polled?) && !t.stopped && (p.ok || !t.cancelled)
            && (p.ok ==> p.end == p.start + t.pollTime + t.lag
                         && next.start == t.late + (if p.end > p.start + interval then p.end else p.start + interval))
            && (!p.ok ==>
                  p.end == p.start + t.pollTime && p.delay.Some? && next.start == t.late + p.end + p.delay.value)
  {
    hide Backoff, Streak, Played;
    PlayedAt(interval, turns, t0, log, 0);
    PlayedAt(interval, turns, t0, log, i);
    PlayedAt(interval, turns, t0, log, i + 1);
  }

  /** The delay after a failure: the interval after the first in a row, then each time twice the last one, capped at 30
      seconds; none when the context was cancelled. */
  lemma FailureDelay(interval: int, turns: seq<Turn>, t0: int, log: seq<Poll>, i: nat)
    requires interval > 0 && Played(interval, turns, t0, log) && i < |log| && !log[i].ok
    ensures i < |turns| && (turns[i].cancelled <==> log[i].delay.None?)
    ensures log[i].delay.Some? && (i == 0 || log[i - 1].ok) ==> log[i].delay.value == interval
    ensures log[i].delay.Some? && i > 0 && !log[i - 1].ok ==>
              log[i - 1].delay.Some? &&
              var last := log[i - 1].delay.value;
              log[i].delay.value ==
              if last >= 30_000_000_000 then last else if 2 * last > 30_000_000_000 then 30_000_000_000 else 2 * last
  {
    hide Backoff, Played;
    PlayedAt(interval, turns, t0, log, i);
    if i > 0 {
      PlayedAt(interval, turns, t0, log, i - 1);
      BackoffStep(interval, Streak(log, i - 1));
    }
    BackoffStart(interval);
  }

  /** The turns determine the polls: two complete logs are the same. */
  lemma PlayedUnique(interval: int, turns: seq<Turn>, t0: int, a: seq<Poll>, b: seq<Poll>)
    requires Played(interval, turns, t0, a) && Complete(turns, a)
    requires Played(interval, turns, t0, b) && Complete(turns, b)
    ensures a == b
  {
    hide Took, Streak, Ends, Resumes;
    NoLonger(interval, turns, t0, a, b);
    NoLonger(interval, turns, t0, b, a);
    forall i: nat | i < |a| ensures a[i] == b[i] {
      PlayedAgree(interval, turns, t0, a, b, i);
    }
  }

  lemma NoLonger(interval: int, turns: seq<Turn>, t0: int, a: seq<Poll>, b: seq<Poll>)
    requires |a| <= |turns| && Complete(turns, a) && Played(interval, turns, t0, b)
    ensures |b| <= |turns| && |b| <= |a|
  {
    hide Took, Streak, Ends;
    if |a| < |b| {
      PlayedAt(interval, turns, t0, b, |a|);
    }
  }

  lemma {:induction false} PlayedAgree(interval: int, turns: seq<Turn>, t0: int, a: seq<Poll>, b: seq<Poll>, i: nat)
    requires Played(interval, turns, t0, a) && Played(interval, turns, t0, b) && i < |a| && i < |b|
    ensures a[i] == b[i] && Streak(a, i) == Streak(b, i)
  {
    hide Played, Backoff, Ends;
    PlayedAt(interval, turns, t0, a, i);
    PlayedAt(interval, turns, t0, b, i);
    if i > 0 {
      PlayedAgree(interval, turns, t0, a, b, i - 1);
    }
  }

  // ---- What a run leaves behind

  /** Is this the save of the snapshot built from what turn `t` polled? */
  ghost predicate SavedFrom(cluster: string, t: Turn, takenAt: int, c: SaveCall) {
    t.polled.Polled? && c.env == t.env && IsBuild(c.snap, cluster, takenAt, t.polled.sessions, t.polled.labels)
  }

  /** One save per successful poll, in order. */
  ghost predicate Stored(cluster: string, turns: seq<Turn>, log: seq<Poll>, saves: seq<SaveCall>)
    requires |log| <= |turns|
  {
    && |saves| == Successes(log, |log|)
    && (forall i :: 0 <= i < |log| && log[i].ok ==>
          Successes(log, i) < |saves|
          && SavedFrom(cluster, turns[i], log[i].start + turns[i].pollTime, saves[Successes(log, i)]))
  }

  lemma StoredStep(cluster: string, turns: seq<Turn>, log: seq<Poll>, saves: seq<SaveCall>, p: Poll,
      more: seq<SaveCall>)
    requires |log| < |turns| && Stored(cluster, turns, log, saves)
    requires if p.ok then |more| == 1 && SavedFrom(cluster, turns[|log|], p.start + turns[|log|].pollTime, more[0])
        else more == []
    ensures Stored(cluster, turns, log + [p], saves + more)
  {
    hide SavedFrom, Streak, Successes;
    CountsStep(log, p);
    var l, all := log + [p], saves + more;
    forall i | 0 <= i < |l| && l[i].ok
      ensures Successes(l, i) < |all|
          && SavedFrom(cluster, turns[i], l[i].start + turns[i].pollTime, all[Successes(l, i)])
    {
      assert Successes(l, i) == Successes(log, i);
      if i < |log| {
        assert l[i] == log[i];
      }
    }
  }

  /** The status after these polls: the last one that was not cancelled decides. */
  function StatusAfter(s: Status, turns: seq<Turn>, log: seq<Poll>): Status
    requires |log| <= |turns|
    decreases |log|
  {
    if log == [] then s
    else
      var n := |log| - 1;
      var before := StatusAfter(s, turns, log[..n]);
      if log[n].ok then before.(connected := true, lastPoll := Some(log[n].start + turns[n].pollTime), lastError := "")
      else if log[n].delay.None? || turns[n].polled.Polled? then before
      else before.(connected := false, lastError := turns[n].polled.msg)
  }

  /** The status reports on the last poll that was not cancelled: connected or not, and the error; and it gives the
      time of the last success, if there was one. */
  lemma {:induction false} StatusMeans(s: Status, interval: int, turns: seq<Turn>, t0: int, log: seq<Poll>, i: nat)
    requires Played(interval, turns, t0, log) && i < |log| && (log[i].ok || log[i].delay.Some?)
    requires forall j :: i < j < |log| ==> !log[j].ok && log[j].delay.None?
    ensures var r := StatusAfter(s, turns, log);
            && r.cluster == s.cluster && (r.connected <==> log[i].ok)
            && r.lastError == (if turns[i].polled.Polled? then "" else turns[i].polled.msg)
            && (log[i].ok ==> r.lastPoll == Some(log[i].start + turns[i].pollTime))
            && (!log[i].ok ==> r.lastPoll == StatusAfter(s, turns, log[..i]).lastPoll)
    decreases |log|
  {
    hide Streak, Backoff, Remainder;
    var n := |log| - 1;
    PlayedPrefix(interval, turns, t0, log);
    PlayedAt(interval, turns, t0, log, i);
    if i < n {
      assert log[..n][..i] == log[..i];
      StatusMeans(s, interval, turns, t0, log[..n], i);
    } else {
      ClusterStays(s, turns, log[..n]);
    }
  }

  lemma {:induction false} ClusterStays(s: Status, turns: seq<Turn>, log: seq<Poll>)
    requires |log| <= |turns|
    ensures StatusAfter(s, turns, log).cluster == s.cluster
    ensures (forall j :: 0 <= j < |log| ==> !log[j].ok) ==> StatusAfter(s, turns, log).lastPoll == s.lastPoll
    decreases |log|
  {
    if log != [] {
      ClusterStays(s, turns, log[..|log| - 1]);
    }
  }

  lemma PlayedPrefix(interval: int, turns: seq<Turn>, t0: int, log: seq<Poll>)
    requires Played(interval, turns, t0, log) && log != []
    ensures Played(interval, turns, t0, log[..|log| - 1])
  {
    hide Took, Resumes, Streak;
    var n := |log| - 1;
    var l := log[..n];
    assert l + [log[n]] == log;
    CountsStep(l, log[n]);
    forall i | 0 <= i < |l| ensures Took(interval, turns[i], Streak(l, i), l[i]) {
      assert Took(interval, turns[i], Streak(log, i), log[i]);
    }
    forall i, j | 0 <= i && j == i + 1 < |l| ensures Resumes(turns[i], l[i], l[j].start) {
      assert Resumes(turns[i], log[i], log[j].start);
    }
  }

  lemma {:induction false} SuccessesAt(log: seq<Poll>, i: nat) returns (at: seq<nat>)
    requires i <= |log|
    ensures Ascends(at) && |at| == Successes(log, i)
    ensures forall j: nat :: j in at <==> j < i && log[j].ok
    ensures forall k :: 0 <= k < |at| ==> at[k] < i && Successes(log, at[k]) == k
  {
    if i == 0 {
      at := [];
    } else {
      at := SuccessesAt(log, i - 1);
      if log[i - 1].ok {
        AscendsOne(at, i - 1);
        at := at + [i - 1];
      }
    }
  }

  /** What was saved: one snapshot per successful poll, in order, built from what that poll returned. */
  lemma StoredMeans(cluster: string, turns: seq<Turn>, log: seq<Poll>, saves: seq<SaveCall>) returns (at: seq<nat>)
    requires |log| <= |turns| && Stored(cluster, turns, log, saves)
    ensures Ascends(at) && |saves| == |at| && forall j: nat :: j in at <==> j < |log| && log[j].ok
    ensures forall k :: 0 <= k < |at| ==>
              at[k] < |log| && turns[at[k]].polled.Polled? && saves[k].env == turns[at[k]].env
              && IsBuild(saves[k].snap, cluster, log[at[k]].start + turns[at[k]].pollTime,
                         turns[at[k]].polled.sessions, turns[at[k]].polled.labels)
  {
    hide IsBuild, Successes;
    at := SuccessesAt(log, |log|);
    forall k | 0 <= k < |at|
      ensures at[k] < |log| && turns[at[k]].polled.Polled? && saves[k].env == turns[at[k]].env
              && IsBuild(saves[k].snap, cluster, log[at[k]].start + turns[at[k]].pollTime,
                         turns[at[k]].polled.sessions, turns[at[k]].polled.labels)
    {
      assert at[k] in at && log[at[k]].ok && Successes(log, at[k]) == k;
    }
  }

  function SnapOf(c: SaveCall): Snapshot {
    c.snap
  }

  lemma RetainedFits(kept: seq<Snapshot>, cap: nat)
    requires |kept| <= cap
    ensures LastN(kept + Map(SnapOf, []), cap) == kept
  {
    assert kept + [] == kept;
  }

  lemma SavesStep(kept: seq<Snapshot>, cap: nat, db: Db, retention: int, saves: seq<SaveCall>, c: SaveCall)
    requires cap > 0
    ensures LastN(LastN(kept + Map(SnapOf, saves), cap) + [c.snap], cap) == LastN(kept + Map(SnapOf, saves + [c]), cap)
    ensures RunSaves(db, retention, saves + [c]) == SaveDb(RunSaves(db, retention, saves), retention, c.snap, c.env)
  {
    hide LastN, Map, SaveDb;
    assert (saves + [c])[..|saves|] == saves;
    MapConcat(SnapOf, saves, [c]);
    assert Map(SnapOf, [c]) == [c.snap];
    LastNStep(kept + Map(SnapOf, saves), c.snap, cap);
    assert kept + Map(SnapOf, saves) + [c.snap] == kept + Map(SnapOf, saves + [c]);
  }

  class Poller {
    const cluster: string
    const store: Store
    const interval: int
    var status: Status

    /** A status of "connected" means there is a latest snapshot to show. */
    ghost predicate Valid()
      reads this, store, store.buf, store.subs.Values
    {
      interval > 0 && store.Valid() && (status.connected ==> store.Retained() != [])
    }

    constructor (cluster: string, store: Store, interval: int)
      requires interval > 0 && store.Valid()
      ensures Valid() && this.store == store && this.interval == interval && status == Status(cluster, false, None, "")
    {
      this.cluster, this.store, this.interval := cluster, store, interval;
      status := Status(cluster, false, None, "");
    }

    method SetOK(now: int)
      modifies this
      ensures status == old(status).(connected := true, lastPoll := Some(now), lastError := "")
    {
      status := status.(connected := true, lastPoll := Some(now), lastError := "");
    }

    method SetError(msg: string)
      modifies this
      ensures status == old(status).(connected := false, lastError := msg)
    {
      status := status.(connected := false, lastError := msg);
    }

    /** One poll: on success exactly one new snapshot, built from what was polled, is put; a failure changes nothing. */
    method PollOnce(polled: Polled, now: int, env: SaveEnv) returns (ok: bool, ghost snap: Snapshot)
      requires Valid()
      modifies this, store`head, store`size, store.buf, store.subs.Values, store.persist
      ensures Valid() && ok == polled.Polled?
      ensures ok ==> IsBuild(snap, cluster, now, polled.sessions, polled.labels)
                     && store.Retained() == LastN(old(store.Retained()) + [snap], store.cap)
                     && status == old(status).(connected := true, lastPoll := Some(now), lastError := "")
      ensures ok && store.persist != null ==>
                store.persist.State() == SaveDb(old(store.persist.State()), store.persist.retention, snap, env)
      ensures ok ==> forall i :: i in store.subs ==>
                store.subs[i].items == if old(store.subs[i].items) == [] then [snap] else old(store.subs[i].items)
      ensures !ok ==> store.State() == old(store.State()) && status == old(status)
      ensures !ok ==> forall i :: i in store.subs ==> store.subs[i].items == old(store.subs[i].items)
      ensures !ok && store.persist != null ==> store.persist.State() == old(store.persist.State())
    {
      hide IsBuild, SaveDb, Ring.Contents;
      snap := ZERO;
      if polled.PollError? {
        return false, snap;
      }
      var s := Build(cluster, now, polled.sessions, polled.labels);
      store.Put(s, env);
      SetOK(now);
      return true, s;
    }

    /** Polls until the loop is ended, or the environment given runs out. `log` says what every turn came to, `saves`
        what was put and saved: one snapshot per successful poll, built from what that poll returned. */
    method Run(turns: seq<Turn>, t0: int) returns (log: seq<Poll>, ghost saves: seq<SaveCall>)
      requires Valid()
      modifies this, store`head, store`size, store.buf, store.subs.Values, store.persist
      ensures Valid() && Played(interval, turns, t0, log)
      ensures Complete(turns, log)
      ensures |log| < |turns| ==>
                log != [] && var t := turns[|log| - 1]; t.stopped || (t.polled.PollError? && t.cancelled)
      ensures Stored(cluster, turns, log, saves)
      ensures store.Retained() == LastN(old(store.Retained()) + Map(SnapOf, saves), store.cap)
      ensures store.persist != null ==>
                store.persist.State() == RunSaves(old(store.persist.State()), store.persist.retention, saves)
      ensures status == StatusAfter(old(status), turns, log)
    {
      hide Backoff, Streak, Successes, Played, Stored, IsBuild, LastN, Map, RunSaves, SaveDb, StatusAfter, Remainder,
          Ring.Contents;
      log, saves := [], [];
      ghost var kept := store.Retained();
      ghost var db, retention := Db([], 1, None), 0;
      if store.persist != null {
        db, retention := store.persist.State(), store.persist.retention;
      }
      ghost var status0 := status;
      RetainedFits(kept, store.cap);
      RunStart(interval, cluster, turns, t0, db, retention, status);
      var now := t0;
      var backoff := interval;
      for k := 0 to |turns|
        invariant Valid() && |log| == k && Due(turns, t0, log, now)
        invariant Played(interval, turns, t0, log) && Stored(cluster, turns, log, saves)
        invariant backoff == Backoff(interval, Streak(log, |log|))
        invariant store.Retained() == LastN(kept + Map(SnapOf, saves), store.cap)
        invariant store.persist != null ==>
                    store.persist.retention == retention && store.persist.State() == RunSaves(db, retention, saves)
        invariant status == StatusAfter(status0, turns, log)
      {
        var turn := turns[k];
        var start := now;
        now := now + turn.pollTime;
        var ok;
        ghost var snap;
        ok, snap := PollOnce(turn.polled, now, turn.env);
        if !ok {
          if turn.cancelled {
            var p := Poll(start, now, false, None);
            Turned(interval, cluster, turns, t0, log, saves, p, [], status0);
            log := log + [p];
            return;
          }
          SetError(turn.polled.msg);
          var p := Poll(start, now, false, Some(backoff));
          Turned(interval, cluster, turns, t0, log, saves, p, [], status0);
          log := log + [p];
          if turn.stopped {
            return;
          }
          now := now + backoff + turn.late;
          if backoff < MAX_BACKOFF {
            backoff := backoff * 2;
            if backoff > MAX_BACKOFF {
              backoff := MAX_BACKOFF;
            }
          }
          continue;
        }
        backoff := interval;
        now := now + turn.lag;
        var wait := interval - (now - start);
        var delay := if wait > 0 then wait else 0;
        ghost var call := SaveCall(snap, turn.env);
        var p := Poll(start, now, true, Some(delay));
        RemainderIs(interval, p);
        Turned(interval, cluster, turns, t0, log, saves, p, [call], status0);
        SavesStep(kept, store.cap, db, retention, saves, call);
        saves := saves + [call];
        log := log + [p];
        if turn.stopped {
          return;
        }
        now := now + delay + turn.late;
      }
    }
  }

  lemma RemainderIs(interval: int, p: Poll)
    ensures Remainder(interval, p) == if interval - (p.end - p.start) > 0 then interval - (p.end - p.start) else 0
  {
  }

  lemma RunStart(interval: int, cluster: string, turns: seq<Turn>, t0: int, db: Db, retention: int, s: Status)
    requires interval > 0
    ensures Played(interval, turns, t0, []) && Stored(cluster, turns, [], [])
        && Backoff(interval, Streak([], 0)) == interval
    ensures RunSaves(db, retention, []) == db && StatusAfter(s, turns, []) == s
  {
  }

  /** One more turn. */
  lemma Turned(interval: int, cluster: string, turns: seq<Turn>, t0: int, log: seq<Poll>, saves: seq<SaveCall>, p: Poll,
               more: seq<SaveCall>, s: Status)
    requires interval > 0 && Played(interval, turns, t0, log) && |log| < |turns| && Stored(cluster, turns, log, saves)
    requires Took(interval, turns[|log|], Streak(log, |log|), p)
    requires Due(turns, t0, log, p.start)
    requires if p.ok then |more| == 1 && SavedFrom(cluster, turns[|log|], p.start + turns[|log|].pollTime, more[0])
        else more == []
    ensures Played(interval, turns, t0, log + [p])
        && Stored(cluster, turns, log + [p], if p.ok then saves + more else saves)
    ensures var b := Backoff(interval, Streak(log, |log|));
            Backoff(interval, Streak(log + [p], |log| + 1)) ==
            if p.ok then interval
            else if b < MAX_BACKOFF then (if b * 2 > MAX_BACKOFF then MAX_BACKOFF else b * 2) else b
    ensures StatusAfter(s, turns, log + [p]) ==
            var t, before := turns[|log|], StatusAfter(s, turns, log);
            if p.ok then before.(connected := true, lastPoll := Some(p.start + t.pollTime), lastError := "")
            else if p.delay.None? then before
            else before.(connected := false, lastError := t.polled.msg)
  {
    hide Played, Stored, SavedFrom, Backoff, Streak, Successes, Resumes, Remainder;
    PlayedStep(interval, turns, t0, log, p);
    StoredStep(cluster, turns, log, saves, p, more);
    CountsStep(log, p);
    BackoffStep(interval, Streak(log, |log|));
    BackoffStart(interval);
    assert (log + [p])[..|log|] == log;
    assert saves + [] == saves;
  }

  lemma BackoffStart(interval: int)
    requires interval > 0
    ensures Backoff(interval, 0) == interval
  {
  }
}
