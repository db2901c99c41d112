/** What every reachable state of the concurrent store satisfies: after any number of steps, in any interleaving. */
module HubInvariant {
  import opened Wrappers
  import opened Seqs
  import opened Graph
  import opened Rings
  import opened Persist
  import opened Signal
  import opened Hub

  // ---- Ring, database, producer

  ghost predicate RingInv(cfg: Config, st: State) {
    st.ring.Valid() && |st.ring.buf| == cfg.cap && st.ring.Contents() == LastN(st.puts, cfg.cap)
  }

  /** The puts whose insert succeeded. */
  function Kept(puts: seq<Snapshot>, inserted: seq<bool>): seq<Snapshot>
    requires |inserted| <= |puts|
    decreases |inserted|
  {
    if inserted == [] then []
    else
      var n := |inserted| - 1;
      Kept(puts, inserted[..n]) + if inserted[n] then [puts[n]] else []
  }

  /** What the database was given to keep: what it held at the start, then the puts whose insert succeeded. */
  function Written(cfg: Config, st: State): seq<Snapshot>
    requires |st.inserted| <= |st.puts|
  {
    Snaps(cfg.Found()) + Kept(st.puts, st.inserted)
  }

  /** Every save has been tried, except for the put that is about to. Without pruning the table holds exactly what it
      was given, in order; with pruning, at least nothing else. */
  ghost predicate DbInv(cfg: Config, st: State) {
    && |st.inserted| == |st.puts| - (if st.phase.Saving? then 1 else 0)
    && (cfg.persist && cfg.retention <= 0 ==> Snaps(st.db.rows) == Written(cfg, st))
    && (!cfg.persist ==> st.db.rows == [])
    && (forall r :: r in st.db.rows ==> r in cfg.Found() || (r == RowOf(r.id, r.data) && r.data in st.puts))
  }

  ghost predicate InFlight(st: State) {
    st.phase.Saving? || st.phase.Sending?
  }

  ghost predicate Pending(st: State, id: nat) {
    InFlight(st) && id in st.phase.targets
  }

  /** The frame in flight is the last put; whoever it is still to be offered to had subscribed before. */
  ghost predicate PhaseInv(st: State) {
    InFlight(st) ==>
      && |st.puts| > 0 && st.phase.frame == Frame(|st.puts| - 1, st.puts[|st.puts| - 1])
      && NoDuplicates(st.phase.targets)
      && forall id :: id in st.phase.targets ==> id < |st.clients|
  }

  // ---- Clients

  function Idx(f: Frame): nat {
    f.idx
  }

  function Indices(fs: seq<Frame>): seq<nat> {
    Map(Idx, fs)
  }

  /** All frames the client has been offered, wherever they ended. */
  function Bag(c: Client): seq<Frame> {
    c.received + c.slot + c.dropped
  }

  function Range(a: nat, b: nat): (s: seq<nat>)
    requires a <= b
    ensures |s| == b - a && forall i :: 0 <= i < |s| ==> s[i] == a + i
  {
    seq(b - a, i requires 0 <= i < b - a => a + i)
  }

  ghost predicate FramesOk(fs: seq<Frame>, from: nat, upTo: nat, puts: seq<Snapshot>) {
    forall i :: 0 <= i < |fs| ==> from <= fs[i].idx < upTo <= |puts| && fs[i].snap == puts[fs[i].idx]
  }

  ghost predicate Rising(fs: seq<Frame>) {
    forall i, j :: 0 <= i < j < |fs| ==> fs[i].idx < fs[j].idx
  }

  /** Every put offered so far is accounted for exactly once: received, in the slot, or dropped. */
  ghost predicate Accounted(c: Client) {
    c.since <= c.upTo && multiset(Indices(Bag(c))) == multiset(Range(c.since, c.upTo))
  }

  ghost predicate ClientOk(c: Client, puts: seq<Snapshot>) {
    && c.since <= c.upTo <= |puts|
    && |c.slot| <= 1
    && FramesOk(c.received + c.slot, c.since, c.upTo, puts) && FramesOk(c.dropped, c.since, c.upTo, puts)
    && Rising(c.received + c.slot) && Rising(c.dropped)
    && Accounted(c)
    && (c.seen.None? ==> c.received == [] && c.first.None?)
    && (c.seen.Some? ==>
          && c.since <= c.seen.value <= |puts|
          && c.first == if c.seen.value == 0 then None else Some(puts[c.seen.value - 1]))
  }

  /** At most two frames received, in the slot, or in flight are not newer than what was sent first. */
  ghost predicate StaleOk(c: Client, pending: bool, now: nat) {
    c.seen.Some? ==>
      && (forall j :: 0 <= j < |c.received| && c.received[j].idx < c.seen.value ==> j <= 1)
      && (c.slot != [] && c.slot[0].idx < c.seen.value ==> |c.received| <= 1)
      && (pending && now <= c.seen.value ==> |c.received| + |c.slot| <= 1)
  }

  /** An open client has been offered every put since it subscribed, but for the one still in flight to it. */
  ghost predicate OfferedOk(c: Client, pending: bool, now: nat) {
    && (c.open ==> c.upTo == if pending then now - 1 else now)
    && (pending ==> c.upTo < now)
  }

  ghost predicate ClientInv(c: Client, puts: seq<Snapshot>, pending: bool) {
    ClientOk(c, puts) && StaleOk(c, pending, |puts|) && OfferedOk(c, pending, |puts|)
  }

  ghost predicate ClientsInv(st: State) {
    forall id :: 0 <= id < |st.clients| ==>
      var c, pending := st.clients[id], Pending(st, id);
      ClientOk(c, st.puts) && StaleOk(c, pending, |st.puts|) && (st.phase.Panicked? || OfferedOk(c, pending, |st.puts|))
  }

  ghost predicate Inv(cfg: Config, st: State) {
    RingInv(cfg, st) && DbInv(cfg, st) && PhaseInv(st) && ClientsInv(st)
  }

  // ---- One client, one event

  lemma RangeStep(a: nat, b: nat)
    requires a <= b
    ensures Range(a, b + 1) == Range(a, b) + [b]
  {
  }

  lemma IdxOne(f: Frame)
    ensures Map(Idx, [f]) == [f.idx]
  {
  }

  lemma AccountOne(c: Client, d: Client, f: Frame)
    requires Accounted(c) && c.upTo == f.idx && d.since == c.since && d.upTo == f.idx + 1
    requires multiset(Bag(d)) == multiset(Bag(c) + [f])
    ensures Accounted(d)
  {
    hide Map, Range;
    MapPermuted(Idx, Bag(d), Bag(c) + [f]);
    MapConcat(Idx, Bag(c), [f]);
    IdxOne(f);
    RangeStep(c.since, f.idx);
  }

  lemma OfferBag(c: Client, f: Frame)
    ensures multiset(Bag(Offer(c, f))) == multiset(Bag(c) + [f])
  {
    if c.slot == [] {
      assert Bag(Offer(c, f)) == c.received + [f] + c.dropped && Bag(c) == c.received + c.dropped;
    } else {
      assert Bag(Offer(c, f)) == Bag(c) + [f];
    }
  }

  lemma FramesGrow(fs: seq<Frame>, from: nat, upTo: nat, puts: seq<Snapshot>)
    requires FramesOk(fs, from, upTo, puts) && upTo < |puts|
    ensures FramesOk(fs, from, upTo + 1, puts)
  {
  }

  lemma FramesAppend(fs: seq<Frame>, f: Frame, from: nat, puts: seq<Snapshot>)
    requires FramesOk(fs, from, f.idx, puts) && from <= f.idx < |puts| && f.snap == puts[f.idx] && Rising(fs)
    ensures FramesOk(fs + [f], from, f.idx + 1, puts) && Rising(fs + [f])
  {
  }

  lemma OfferFrames(c: Client, f: Frame, puts: seq<Snapshot>)
    requires FramesOk(c.received + c.slot, c.since, f.idx, puts) && FramesOk(c.dropped, c.since, f.idx, puts)
    requires Rising(c.received + c.slot) && Rising(c.dropped)
    requires c.since <= f.idx < |puts| && f.snap == puts[f.idx]
    ensures var d := Offer(c, f);
            FramesOk(d.received + d.slot, c.since, d.upTo, puts) && FramesOk(d.dropped, c.since, d.upTo, puts)
            && Rising(d.received + d.slot) && Rising(d.dropped)
  {
    hide FramesOk, Rising;
    var d := Offer(c, f);
    if c.slot == [] {
      assert d.received + d.slot == c.received + c.slot + [f];
      FramesAppend(c.received + c.slot, f, c.since, puts);
      FramesGrow(c.dropped, c.since, f.idx, puts);
    } else {
      FramesGrow(c.received + c.slot, c.since, f.idx, puts);
      FramesAppend(c.dropped, f, c.since, puts);
    }
  }

  lemma OfferOk(c: Client, f: Frame, puts: seq<Snapshot>)
    requires ClientInv(c, puts, true) && c.open && |puts| > 0 && f == Frame(|puts| - 1, puts[|puts| - 1])
    ensures ClientInv(Offer(c, f), puts, false)
  {
    hide Accounted, Bag, FramesOk, Rising;
    OfferBag(c, f);
    AccountOne(c, Offer(c, f), f);
    OfferFrames(c, f, puts);
  }

  lemma ReceiveOk(c: Client, puts: seq<Snapshot>, pending: bool)
    requires ClientInv(c, puts, pending) && c.seen.Some? && c.slot != []
    ensures ClientInv(c.(received := c.received + [c.slot[0]], slot := c.slot[1..]), puts, pending)
  {
    hide FramesOk, Rising, Indices, Range;
    var d := c.(received := c.received + [c.slot[0]], slot := c.slot[1..]);
    assert d.received + d.slot == c.received + c.slot;
  }

  /** Another put is locked; whoever is open gets it in flight. */
  lemma LockOk(c: Client, puts: seq<Snapshot>, snap: Snapshot)
    requires ClientInv(c, puts, false)
    ensures ClientInv(c, puts + [snap], c.open)
  {
    hide Accounted;
    var more := puts + [snap];
    assert forall i :: 0 <= i < |puts| ==> more[i] == puts[i];
  }

  lemma SeenOk(c: Client, puts: seq<Snapshot>, pending: bool, first: Option<Snapshot>)
    requires ClientInv(c, puts, pending) && c.seen.None?
    requires first == if |puts| == 0 then None else Some(puts[|puts| - 1])
    ensures ClientInv(c.(seen := Some(|puts|), first := first), puts, pending)
  {
    hide Accounted, FramesOk, Rising;
    SameFrames(c, c.(seen := Some(|puts|), first := first));
  }

  lemma SameFrames(c: Client, d: Client)
    requires d.since == c.since && d.upTo == c.upTo && d.received == c.received && d.slot == c.slot
        && d.dropped == c.dropped
    ensures Accounted(d) == Accounted(c)
  {
  }

  lemma NewOk(puts: seq<Snapshot>)
    ensures ClientInv(Client(|puts|, true, [], None, None, [], [], |puts|), puts, false)
  {
  }

  // ---- One step

  lemma RingStep(cfg: Config, st: State, step: Step)
    requires cfg.cap > 0 && Inv(cfg, st)
    ensures RingInv(cfg, Next(cfg, st, step))
  {
    if Enabled(st, step) && step.Lock? {
      PutContents(st.ring, step.snap);
      LastNStep(st.puts, step.snap, cfg.cap);
    }
  }

  lemma {:induction false} KeptGrow(puts: seq<Snapshot>, more: seq<Snapshot>, inserted: seq<bool>)
    requires |inserted| <= |puts|
    ensures Kept(puts + more, inserted) == Kept(puts, inserted)
    decreases |inserted|
  {
    if inserted != [] {
      KeptGrow(puts, more, inserted[..|inserted| - 1]);
    }
  }

  lemma KeptStep(puts: seq<Snapshot>, inserted: seq<bool>, ok: bool)
    requires |inserted| < |puts|
    ensures Kept(puts, inserted + [ok]) == Kept(puts, inserted) + if ok then [puts[|inserted|]] else []
  {
    assert (inserted + [ok])[..|inserted|] == inserted;
  }

  lemma SnapsStep(rows: seq<Row>, r: Row)
    ensures Snaps(rows + [r]) == Snaps(rows) + [r.data]
  {
    MapConcat(DataOf, rows, [r]);
  }

  lemma DbStep(cfg: Config, st: State, step: Step)
    requires cfg.cap > 0 && Inv(cfg, st)
    ensures DbInv(cfg, Next(cfg, st, step))
  {
    hide Ring.Put, EntryFor, Latest, Offer, RingInv, ClientsInv, Snaps, Kept;
    if Enabled(st, step) {
      if step.Lock? {
        KeptGrow(st.puts, [step.snap], st.inserted);
      } else if step.Save? {
        var snap := st.phase.frame.snap;
        hide SaveDb;
        KeptStep(st.puts, st.inserted, step.env.insertOk);
        assert snap in st.puts;
        SaveRows(st.db, cfg.retention, snap, step.env);
      }
    }
  }

  /** What one save does to the rows. */
  lemma SaveRows(db: Db, retention: int, snap: Snapshot, env: SaveEnv)
    ensures var rows := SaveDb(db, retention, snap, env).rows;
            && (forall r :: r in rows ==> r in db.rows || r == RowOf(db.nextId, snap))
            && (retention <= 0 ==> Snaps(rows) == Snaps(db.rows) + if env.insertOk then [snap] else [])
  {
    SnapsStep(db.rows, RowOf(db.nextId, snap));
    assert Snaps(db.rows) + [] == Snaps(db.rows);
  }

  lemma PhaseStep(cfg: Config, st: State, step: Step)
    requires cfg.cap > 0 && Inv(cfg, st)
    ensures PhaseInv(Next(cfg, st, step))
  {
    hide Ring.Put, SaveDb, EntryFor, Latest, Offer, RingInv, DbInv, ClientsInv;
    if Enabled(st, step) && step.Lock? {
      assert forall id :: id in step.order ==> IsOpen(st, id);
    } else if Enabled(st, step) && step.Send? {
      TailTargets(st.phase.targets, |st.clients|);
    }
  }

  lemma TailTargets(targets: seq<nat>, n: nat)
    requires targets != [] && NoDuplicates(targets) && forall id :: id in targets ==> id < n
    ensures NoDuplicates(targets[1..]) && forall id :: id in targets[1..] ==> id < n
  {
    forall id | id in targets[1..] ensures id < n {
      assert id in targets;
    }
  }

  lemma LatestIsLastPut(cfg: Config, st: State)
    requires cfg.cap > 0 && RingInv(cfg, st)
    ensures Hub.Latest(st) == if |st.puts| == 0 then None else Some(st.puts[|st.puts| - 1])
  {
  }

  lemma ClientsUpdate(st: State, id: nat, d: Client)
    requires ClientsInv(st) && !st.phase.Panicked? && id < |st.clients| && ClientInv(d, st.puts, Pending(st, id))
    ensures ClientsInv(WithClient(st, id, d))
  {
    hide ClientOk, StaleOk, OfferedOk;
    forall k ensures Pending(WithClient(st, id, d), k) == Pending(st, k) {
    }
  }

  /** Steps that leave the clients alone, and whom the put in flight is still to be offered to. */
  lemma ClientsSame(st: State, next: State)
    requires ClientsInv(st) && next.clients == st.clients && next.puts == st.puts
    requires next.phase.Panicked? == st.phase.Panicked? && forall id :: Pending(next, id) == Pending(st, id)
    ensures ClientsInv(next)
  {
    hide ClientOk, StaleOk, OfferedOk;
  }

  lemma ClientsSubscribe(st: State, next: State)
    requires ClientsInv(st) && PhaseInv(st) && !st.phase.Panicked?
    requires next == st.(clients := st.clients + [Client(|st.puts|, true, [], None, None, [], [], |st.puts|)])
    ensures ClientsInv(next)
  {
    NewOk(st.puts);
    hide ClientOk, StaleOk, OfferedOk;
    assert !Pending(next, |st.clients|);
    forall k | 0 <= k < |st.clients| ensures Pending(next, k) == Pending(st, k) {
    }
  }

  lemma ClientsStep(cfg: Config, st: State, step: Step)
    requires cfg.cap > 0 && Inv(cfg, st)
    ensures ClientsInv(Next(cfg, st, step))
  {
    hide ClientOk, StaleOk, OfferedOk, SaveDb, EntryFor, Ring.Put;
    if Enabled(st, step) {
      var next := Next(cfg, st, step);
      match step
      case Lock(snap, order) => ClientsLock(cfg, st, snap, order);
      case Send => ClientsSend(cfg, st);
      case Subscribe => ClientsSubscribe(st, next);
      case ReadLatest(id) =>
        LatestIsLastPut(cfg, st);
        SeenOk(st.clients[id], st.puts, Pending(st, id), Hub.Latest(st));
        ClientsUpdate(st, id, next.clients[id]);
      case Receive(id) =>
        ReceiveOk(st.clients[id], st.puts, Pending(st, id));
        ClientsUpdate(st, id, next.clients[id]);
      case Unsubscribe(id) =>
        ClosedOk(st.clients[id], st.puts, Pending(st, id));
        ClientsUpdate(st, id, next.clients[id]);
      case _ => ClientsSame(st, next);
    }
  }

  lemma ClosedOk(c: Client, puts: seq<Snapshot>, pending: bool)
    requires ClientInv(c, puts, pending)
    ensures ClientInv(c.(open := false), puts, pending)
  {
    hide Accounted, FramesOk, Rising;
    SameFrames(c, c.(open := false));
  }

  lemma ClientsLock(cfg: Config, st: State, snap: Snapshot, order: seq<nat>)
    requires cfg.cap > 0 && Inv(cfg, st) && Enabled(st, Lock(snap, order))
    ensures ClientsInv(Next(cfg, st, Lock(snap, order)))
  {
    hide ClientOk, StaleOk, OfferedOk;
    forall id | 0 <= id < |st.clients| ensures ClientInv(st.clients[id], st.puts + [snap], id in order) {
      LockOk(st.clients[id], st.puts, snap);
    }
  }

  lemma ClientsSend(cfg: Config, st: State)
    requires cfg.cap > 0 && Inv(cfg, st) && Enabled(st, Send)
    ensures ClientsInv(Next(cfg, st, Send))
  {
    hide ClientOk, StaleOk, OfferedOk;
    var id := st.phase.targets[0];
    var rest := st.phase.targets[1..];
    assert id !in rest;
    if IsOpen(st, id) {
      OfferOk(st.clients[id], st.phase.frame, st.puts);
      assert forall k :: k != id ==> (k in st.phase.targets <==> k in rest);
    } else {
      forall k | 0 <= k < |st.clients| ensures StaleOk(st.clients[k], false, |st.puts|) {
        StaleWithout(st.clients[k], Pending(st, k), |st.puts|);
      }
    }
  }

  lemma StaleWithout(c: Client, pending: bool, now: nat)
    requires StaleOk(c, pending, now)
    ensures StaleOk(c, false, now)
  {
  }

  // ---- All runs

  lemma {:induction false} RunInv(cfg: Config, empty: Snapshot, steps: seq<Step>)
    requires cfg.cap > 0
    ensures Inv(cfg, Run(cfg, empty, steps))
    decreases |steps|
  {
    hide Next;
    if steps == [] {
      InitInv(cfg, empty);
    } else {
      var init, last := steps[..|steps| - 1], steps[|steps| - 1];
      RunInv(cfg, empty, init);
      var st := Run(cfg, empty, init);
      RingStep(cfg, st, last);
      DbStep(cfg, st, last);
      PhaseStep(cfg, st, last);
      ClientsStep(cfg, st, last);
    }
  }

  lemma InitInv(cfg: Config, empty: Snapshot)
    requires cfg.cap > 0
    ensures Inv(cfg, Init(cfg, empty))
  {
  }
}
