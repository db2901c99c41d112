/** Safety of the concurrent store over whole runs. */
module HubTheorems {
  import opened Wrappers
  import opened Seqs
  import opened Graph
  import opened Rings
  import opened Persist
  import opened Signal
  import opened Hub
  import opened HubInvariant

  // ---- A streaming client

  /** In every interleaving: the snapshot a client is sent first is at least as new as every put before it
      subscribed; of the frames it then receives at most the first two are not newer than that; and frames only get
      newer. */
  lemma StreamIsFresh(cfg: Config, empty: Snapshot, steps: seq<Step>, id: nat)
    requires cfg.cap > 0
    ensures var st := Run(cfg, empty, steps);
            id < |st.clients| && st.clients[id].seen.Some? ==>
              var c := st.clients[id]; var seen := c.seen.value;
              && c.since <= seen <= |st.puts|
              && c.first == (if seen == 0 then None else Some(st.puts[seen - 1]))
              && (forall j :: 2 <= j < |c.received| ==> c.received[j].idx >= seen)
              && (forall i, j :: 0 <= i < j < |c.received| ==> c.received[i].idx < c.received[j].idx)
              && (forall j :: 0 <= j < |c.received| ==>
                    c.since <= c.received[j].idx < |st.puts| && c.received[j].snap == st.puts[c.received[j].idx])
  {
    hide Run, ClientOk, StaleOk, OfferedOk;
    RunInv(cfg, empty, steps);
    var st := Run(cfg, empty, steps);
    if id < |st.clients| && st.clients[id].seen.Some? {
      FreshFrames(st.clients[id], st.puts, Pending(st, id));
    }
  }

  lemma FreshFrames(c: Client, puts: seq<Snapshot>, pending: bool)
    requires ClientOk(c, puts) && StaleOk(c, pending, |puts|) && c.seen.Some?
    ensures c.since <= c.seen.value <= |puts|
    ensures c.first == if c.seen.value == 0 then None else Some(puts[c.seen.value - 1])
    ensures forall j :: 2 <= j < |c.received| ==> c.received[j].idx >= c.seen.value
    ensures forall i, j :: 0 <= i < j < |c.received| ==> c.received[i].idx < c.received[j].idx
    ensures forall j :: 0 <= j < |c.received| ==>
              c.since <= c.received[j].idx < |puts| && c.received[j].snap == puts[c.received[j].idx]
  {
    hide Accounted;
    var all := c.received + c.slot;
    assert forall j :: 0 <= j < |c.received| ==> all[j] == c.received[j];
  }

  /** The bound of two is reached: one frame waits in the slot and one is in flight when the client reads the latest. */
  lemma TwoStaleFrames(cfg: Config, empty: Snapshot, s: Snapshot)
    requires cfg.cap > 0
    ensures exists steps ::
              var st := Run(cfg, empty, steps);
              |st.clients| == 1 && st.clients[0].seen == Some(2) &&
              |st.clients[0].received| == 2 && forall j :: 0 <= j < 2 ==> st.clients[0].received[j].idx < 2
  {
    hide Run, Next;
    var env := SaveEnv(false, 0, 0, 0, 0, false);
    var a := TwoPuts(cfg, empty, s, env);
    RunStep(cfg, empty, a, ReadLatest(0));
    RunStep(cfg, empty, a + [ReadLatest(0)], Receive(0));
    var b := a + [ReadLatest(0)] + [Receive(0)];
    RunStep(cfg, empty, b, Save(env));
    RunStep(cfg, empty, b + [Save(env)], Send);
    RunStep(cfg, empty, b + [Save(env)] + [Send], Receive(0));
    var st := Run(cfg, empty, a);
    ReadAndReceive(cfg, st);
    SendAndReceive(cfg, Run(cfg, empty, b), env);
    var steps := b + [Save(env)] + [Send] + [Receive(0)];
    assert |Run(cfg, empty, steps).clients| == 1;
  }

  lemma ReadAndReceive(cfg: Config, st: State)
    requires st.ring.Valid() && InFlight(st) && |st.clients| == 1 && |st.puts| == 2
    requires var c := st.clients[0]; c.open && c.seen.None? && c.received == [] && |c.slot| == 1
    ensures var st' := Next(cfg, Next(cfg, st, ReadLatest(0)), Receive(0));
            var c, d := st.clients[0], st'.clients[0];
            && st'.phase == st.phase && |st'.clients| == 1 && d.open && d.seen == Some(2) && d.received == c.slot
                && d.slot == []
  {
    hide Latest;
  }

  lemma SendAndReceive(cfg: Config, st: State, env: SaveEnv)
    requires st.ring.Valid() && st.phase.Saving? && st.phase.targets == [0] && |st.clients| == 1
    requires var c := st.clients[0]; c.open && c.seen.Some? && c.slot == []
    ensures var st' := Next(cfg, Next(cfg, Next(cfg, st, Save(env)), Send), Receive(0));
            var c, d := st.clients[0], st'.clients[0];
            && |st'.clients| == 1 && d.seen == c.seen && d.received == c.received + [st.phase.frame]
  {
    hide SaveDb;
  }

  lemma RunStep(cfg: Config, empty: Snapshot, steps: seq<Step>, step: Step)
    requires cfg.cap > 0
    ensures Run(cfg, empty, steps + [step]) == Next(cfg, Run(cfg, empty, steps), step)
  {
    hide Next;
    assert (steps + [step])[..|steps|] == steps;
  }

  lemma FirstPut(cfg: Config, empty: Snapshot, s: Snapshot, env: SaveEnv) returns (b: seq<Step>)
    requires cfg.cap > 0
    ensures var st := Run(cfg, empty, b);
            st.clients == [Client(0, true, [Frame(0, s)], None, None, [], [], 1)] && st.phase == Idle && st.puts == [s]
  {
    hide Run, Ring.Put, SaveDb, Latest, EntryFor;
    var z: seq<Step> := [];
    RunNone(cfg, empty);
    RunStep(cfg, empty, z, Subscribe);
    var a := z + [Subscribe];
    var st1 := Run(cfg, empty, a);
    assert st1.clients == [Client(0, true, [], None, None, [], [], 0)];
    assert IsOrder(st1, [0]);
    RunStep(cfg, empty, a, Lock(s, [0]));
    RunStep(cfg, empty, a + [Lock(s, [0])], Save(env));
    RunStep(cfg, empty, a + [Lock(s, [0])] + [Save(env)], Send);
    b := a + [Lock(s, [0])] + [Save(env)] + [Send];
    assert Run(cfg, empty, b).phase == Sending(Frame(0, s), []);
    RunStep(cfg, empty, b, Finish);
    b := b + [Finish];
  }

  lemma TwoPuts(cfg: Config, empty: Snapshot, s: Snapshot, env: SaveEnv) returns (b: seq<Step>)
    requires cfg.cap > 0
    ensures var st := Run(cfg, empty, b);
            && st.clients == [Client(0, true, [Frame(0, s)], None, None, [], [], 1)]
            && st.phase == Saving(Frame(1, s), [0]) && |st.puts| == 2
  {
    hide Run, Ring.Put, SaveDb, Latest, EntryFor;
    b := FirstPut(cfg, empty, s, env);
    assert IsOrder(Run(cfg, empty, b), [0]);
    RunStep(cfg, empty, b, Lock(s, [0]));
    b := b + [Lock(s, [0])];
  }

  lemma RunNone(cfg: Config, empty: Snapshot)
    requires cfg.cap > 0
    ensures Run(cfg, empty, []) == Init(cfg, empty)
  {
  }

  lemma {:induction false} RangeCounts(a: nat, b: nat, k: nat)
    requires a <= b
    ensures multiset(Range(a, b))[k] == if a <= k < b then 1 else 0
    decreases b
  {
    if a < b {
      RangeStep(a, b - 1);
      RangeCounts(a, b - 1, k);
    }
  }

  lemma AccountedCounts(c: Client, k: nat)
    requires Accounted(c)
    ensures |c.received| + |c.slot| + |c.dropped| == c.upTo - c.since
    ensures multiset(Indices(Bag(c)))[k] == if c.since <= k < c.upTo then 1 else 0
  {
    hide Map, Range;
    SameElements(Indices(Bag(c)), Range(c.since, c.upTo));
    RangeCounts(c.since, c.upTo, k);
  }

  /** Conservation, put by put: every put a client was offered was received, is in its slot, or was dropped - exactly
      one of these, exactly once; and an open client has been offered every put since it subscribed, but for the one
      in flight to it. */
  lemma OffersConserved(cfg: Config, empty: Snapshot, steps: seq<Step>, id: nat, k: nat)
    requires cfg.cap > 0
    ensures var st := Run(cfg, empty, steps);
            id < |st.clients| ==>
              var c := st.clients[id];
              && |c.received| + |c.slot| + |c.dropped| == c.upTo - c.since
              && multiset(Indices(Bag(c)))[k] == (if c.since <= k < c.upTo then 1 else 0)
              && (c.open && !st.phase.Panicked? ==> c.upTo == if Pending(st, id) then |st.puts| - 1 else |st.puts|)
  {
    hide Run, Accounted, FramesOk, Rising, StaleOk;
    RunInv(cfg, empty, steps);
    var st := Run(cfg, empty, steps);
    if id < |st.clients| {
      AccountedCounts(st.clients[id], k);
    }
  }

  /** Has a client whose slot was empty, its next offer being put k, been given that put - unless it was not offered
      yet? */
  ghost predicate GivenNext(c: Client, k: nat) {
    (c.upTo == k && c.slot == []) || exists f :: f in c.received + c.slot && f.idx == k
  }

  lemma GivenNextStep(cfg: Config, st: State, step: Step, id: nat, k: nat)
    requires cfg.cap > 0 && Inv(cfg, st) && id < |st.clients| && GivenNext(st.clients[id], k)
    ensures var next := Next(cfg, st, step); id < |next.clients| && GivenNext(next.clients[id], k)
  {
    hide Accounted, FramesOk, Rising, StaleOk, SaveDb, EntryFor, DbInv, Ring.Put, Latest;
    var c, next := st.clients[id], Next(cfg, st, step);
    var d := next.clients[id];
    if step.Send? && Enabled(st, step) && d != c {
      assert d == Offer(c, st.phase.frame) && Pending(st, id);
      if c.upTo == k && c.slot == [] {
        assert st.phase.frame in d.received + d.slot;
      } else {
        var f :| f in c.received + c.slot && f.idx == k;
        assert f in d.received + d.slot;
      }
    } else if step.Receive? && Enabled(st, step) && d != c {
      assert d.received + d.slot == c.received + c.slot;
    } else {
      assert d.received == c.received && d.slot == c.slot && d.upTo == c.upTo;
    }
  }

  lemma GivenNothing(c: Client)
    requires c.slot == []
    ensures GivenNext(c, c.upTo)
  {
  }

  lemma RunLast(cfg: Config, empty: Snapshot, steps: seq<Step>, init: seq<Step>, last: Step)
    requires cfg.cap > 0
    ensures Run(cfg, empty, steps + (init + [last])) == Next(cfg, Run(cfg, empty, steps + init), last)
  {
    hide Next;
    var all := steps + (init + [last]);
    assert all[..|all| - 1] == steps + init;
  }

  /** A client that has drained its slot gets the next put it is offered, whatever happens in between; only a client
      with a full slot misses one. */
  lemma {:induction false} DrainedGetsNext(cfg: Config, empty: Snapshot, steps: seq<Step>, more: seq<Step>, id: nat)
    requires cfg.cap > 0
    requires var st := Run(cfg, empty, steps); id < |st.clients| && st.clients[id].slot == []
    ensures var before, after := Run(cfg, empty, steps), Run(cfg, empty, steps + more);
            id < |after.clients| && GivenNext(after.clients[id], before.clients[id].upTo)
    decreases |more|
  {
    hide Run, Next, GivenNext, Inv;
    if more == [] {
      assert steps + more == steps;
      GivenNothing(Run(cfg, empty, steps).clients[id]);
    } else {
      var init, last := more[..|more| - 1], more[|more| - 1];
      DrainedGetsNext(cfg, empty, steps, init, id);
      RunLast(cfg, empty, steps, init, last);
      assert more == init + [last];
      RunInv(cfg, empty, steps + init);
      GivenNextStep(cfg, Run(cfg, empty, steps + init), last, id, Run(cfg, empty, steps).clients[id].upTo);
    }
  }

  // ---- A put that nothing interrupts

  ghost function RunFrom(cfg: Config, st: State, steps: seq<Step>): (end: State)
    requires st.ring.Valid()
    ensures end.ring.Valid()
    decreases |steps|
  {
    if steps == [] then st else RunFrom(cfg, Next(cfg, st, steps[0]), steps[1..])
  }

  lemma RunFromFirst(cfg: Config, st: State, step: Step, rest: seq<Step>)
    requires st.ring.Valid()
    ensures RunFrom(cfg, st, [step] + rest) == RunFrom(cfg, Next(cfg, st, step), rest)
  {
    hide Next;
    assert ([step] + rest)[1..] == rest;
  }

  lemma RunFromNone(cfg: Config, st: State)
    requires st.ring.Valid()
    ensures RunFrom(cfg, st, []) == st
  {
  }

  function Sends(n: nat): seq<Step> {
    if n == 0 then [] else [Send] + Sends(n - 1)
  }

  /** One send for every target still to be offered the frame, then the end of the put. */
  lemma {:induction false} SendAll(cfg: Config, st: State)
    requires st.ring.Valid() && st.phase.Sending? && NoDuplicates(st.phase.targets)
    requires forall id :: id in st.phase.targets ==> IsOpen(st, id)
    ensures var end := RunFrom(cfg, st, Sends(|st.phase.targets|) + [Finish]);
            && end == st.(phase := Idle, clients := end.clients) && |end.clients| == |st.clients|
            && forall id :: 0 <= id < |st.clients| ==>
                 end.clients[id] == if id in st.phase.targets then Offer(st.clients[id], st.phase.frame)
                     else st.clients[id]
    decreases |st.phase.targets|
  {
    hide RunFrom, Offer;
    var targets := st.phase.targets;
    RunFromNone(cfg, Next(cfg, st, Finish));
    if targets == [] {
      RunFromFirst(cfg, st, Finish, []);
      assert Sends(0) + [Finish] == [Finish] + [];
    } else {
      var id, rest := targets[0], targets[1..];
      var next := Next(cfg, st, Send);
      assert id in targets && targets == [id] + rest && id !in rest;
      SentOnce(cfg, st);
      SendAll(cfg, next);
      RunFromFirst(cfg, st, Send, Sends(|rest|) + [Finish]);
      assert Sends(|targets|) + [Finish] == [Send] + (Sends(|rest|) + [Finish]);
    }
  }

  lemma SentOnce(cfg: Config, st: State)
    requires st.ring.Valid() && st.phase.Sending? && st.phase.targets != [] && NoDuplicates(st.phase.targets)
    requires forall id :: id in st.phase.targets ==> IsOpen(st, id)
    ensures var next := Next(cfg, st, Send); var t := st.phase.targets;
            && next == st.(phase := Sending(st.phase.frame, t[1..]), clients := next.clients)
            && next.clients == st.clients[t[0] := Offer(st.clients[t[0]], st.phase.frame)]
            && NoDuplicates(t[1..]) && forall id :: id in t[1..] ==> id in t && IsOpen(next, id)
  {
    var t := st.phase.targets;
    assert IsOpen(st, t[0]);
    forall id | id in t[1..] ensures id in t && IsOpen(Next(cfg, st, Send), id) {
      assert id in t && IsOpen(st, id);
    }
  }

  function SnapOf(f: Frame): Snapshot {
    f.snap
  }

  /** The snapshots waiting in the client's channel. */
  function Items(c: Client): seq<Snapshot> {
    Map(SnapOf, c.slot)
  }

  /** Without interruption the steps of a put come to what the method `Store.Put` promises of ring, table and every
      channel: the step system and the method are two views of the same operation. */
  lemma UninterruptedPut(cfg: Config, st: State, snap: Snapshot, order: seq<nat>, env: SaveEnv)
    requires st.ring.Valid() && st.phase == Idle && IsOrder(st, order)
    ensures var end := RunFrom(cfg, st, [Lock(snap, order)] + ([Save(env)] + (Sends(|order|) + [Finish])));
            && end.phase == Idle && |end.clients| == |st.clients| && end.audit == st.audit
                && end.puts == st.puts + [snap]
            && end.ring == st.ring.Put(snap)
            && end.ring.Contents() == LastN(st.ring.Contents() + [snap], |st.ring.buf|)
            && end.db == (if cfg.persist then SaveDb(st.db, cfg.retention, snap, env) else st.db)
            && forall id :: 0 <= id < |st.clients| ==>
                 && end.clients[id].open == st.clients[id].open
                 && Items(end.clients[id]) ==
                    if st.clients[id].open && Items(st.clients[id]) == [] then [snap] else Items(st.clients[id])
  {
    hide RunFrom, SaveDb, Ring.Put, Ring.Contents, Sends;
    var sends := Sends(|order|) + [Finish];
    var locked := Next(cfg, st, Lock(snap, order));
    var saved := Next(cfg, locked, Save(env));
    RunFromFirst(cfg, st, Lock(snap, order), [Save(env)] + sends);
    RunFromFirst(cfg, locked, Save(env), sends);
    PutContents(st.ring, snap);
    assert forall id :: id in order <==> IsOpen(st, id);
    SendAll(cfg, saved);
  }

  // ---- Unsubscribing during a put

  /** Is a closed channel still to be sent on? */
  ghost predicate Doomed(st: State) {
    InFlight(st) && exists id :: id in st.phase.targets && !IsOpen(st, id)
  }

  /** Does step i close the channel of a client that the put in flight is still to be offered to? */
  ghost predicate Overlap(cfg: Config, empty: Snapshot, steps: seq<Step>, i: nat)
    requires cfg.cap > 0 && i < |steps|
  {
    var st := Run(cfg, empty, steps[..i]);
    steps[i].Unsubscribe? && Enabled(st, steps[i]) && Pending(st, steps[i].id)
  }

  lemma DoomStep(cfg: Config, st: State, step: Step)
    requires cfg.cap > 0 && Inv(cfg, st)
    ensures var next := Next(cfg, st, step);
            next.phase.Panicked? || Doomed(next) <==>
            st.phase.Panicked? || Doomed(st) || (step.Unsubscribe? && Enabled(st, step) && Pending(st, step.id))
  {
    hide DbInv, ClientsInv, SaveDb, EntryFor, Latest, Ring.Put;
    var next := Next(cfg, st, step);
    if Enabled(st, step) {
      match step
      case Lock(snap, order) => assert !Doomed(next);
      case Send =>
        var id, rest := st.phase.targets[0], st.phase.targets[1..];
        assert st.phase.targets == [id] + rest;
        if IsOpen(st, id) {
          assert forall k :: IsOpen(st, k) <==> IsOpen(next, k);
          assert forall k :: k in st.phase.targets <==> k == id || k in rest;
        }
      case Subscribe =>
        assert forall k: nat :: k < |st.clients| ==> (IsOpen(st, k) <==> IsOpen(next, k));
      case ReadLatest(id) => assert forall k :: IsOpen(st, k) <==> IsOpen(next, k);
      case Receive(id) => assert forall k :: IsOpen(st, k) <==> IsOpen(next, k);
      case Unsubscribe(id) => assert forall k :: k != id ==> (IsOpen(st, k) <==> IsOpen(next, k));
      case _ => assert forall k :: IsOpen(st, k) <==> IsOpen(next, k);
    }
  }

  /** Sending on a closed channel, which panics, is reached or unavoidable exactly when some client unsubscribed
      while a put was still to be offered to it. In particular, without such an overlap there is no panic. */
  lemma {:induction false} PanicExactly(cfg: Config, empty: Snapshot, steps: seq<Step>)
    requires cfg.cap > 0
    ensures var st := Run(cfg, empty, steps);
            st.phase.Panicked? || Doomed(st) <==> exists i: nat :: i < |steps| && Overlap(cfg, empty, steps, i)
    decreases |steps|
  {
    if steps != [] {
      hide Next, Doomed, Inv, Overlap;
      var n := |steps| - 1;
      var init, last := steps[..n], steps[n];
      PanicExactly(cfg, empty, init);
      RunInv(cfg, empty, init);
      DoomStep(cfg, Run(cfg, empty, init), last);
      OverlapLast(cfg, empty, steps);
      OverlapInit(cfg, empty, steps);
    }
  }

  /** And there are such runs: a client that unsubscribes between the lock and the send makes the producer panic. */
  lemma PanicReached(cfg: Config, empty: Snapshot)
    requires cfg.cap > 0
    ensures exists steps :: Run(cfg, empty, steps).phase.Panicked?
  {
    hide Run, SaveDb, Ring.Put, Latest, EntryFor;
    var env := SaveEnv(false, 0, 0, 0, 0, false);
    var a := TwoPuts(cfg, empty, empty, env);
    RunStep(cfg, empty, a, Unsubscribe(0));
    var b := a + [Unsubscribe(0)];
    RunStep(cfg, empty, b, Save(env));
    var c := b + [Save(env)];
    RunStep(cfg, empty, c, Send);
    assert Run(cfg, empty, c + [Send]).phase.Panicked?;
  }

  lemma OverlapLast(cfg: Config, empty: Snapshot, steps: seq<Step>)
    requires cfg.cap > 0 && steps != []
    ensures var n := |steps| - 1; var st := Run(cfg, empty, steps[..n]);
            Overlap(cfg, empty, steps, n) <==>
                steps[n].Unsubscribe? && Enabled(st, steps[n]) && Pending(st, steps[n].id)
  {
  }

  lemma OverlapInit(cfg: Config, empty: Snapshot, steps: seq<Step>)
    requires cfg.cap > 0 && steps != []
    ensures var n := |steps| - 1;
            forall i: nat :: i < n ==> (Overlap(cfg, empty, steps[..n], i) <==> Overlap(cfg, empty, steps, i))
  {
    hide Run, Enabled, Pending;
    var n := |steps| - 1;
    forall i: nat | i < n ensures Overlap(cfg, empty, steps[..n], i) <==> Overlap(cfg, empty, steps, i) {
      assert steps[..n][..i] == steps[..i];
    }
  }
}
