/** What can happen in the concurrent store, and that it does: no step the source allows is missing from its runs
    (internal/store/store.go, internal/api/stream.go, internal/signal/signal.go).
 */
module HubSteps {
  import opened Wrappers
  import opened Seqs
  import opened Graph
  import opened Rings
  import opened Persist
  import opened Audit
  import opened Hub
  import opened HubInvariant
  import opened HubTheorems

  // ---- Clients

  /** Subscribing works at any time, in the middle of a put as well: it adds an open client that has been offered
      nothing. */
  lemma SubscribeTakes(cfg: Config, empty: Snapshot, steps: seq<Step>)
    requires cfg.cap > 0 && Run(cfg, empty, steps).phase != Panicked
    ensures var st, next := Run(cfg, empty, steps), Run(cfg, empty, steps + [Subscribe]);
            next == st.(clients := st.clients + [Client(|st.puts|, true, [], None, None, [], [], |st.puts|)])
  {
    hide Run;
    RunStep(cfg, empty, steps, Subscribe);
  }

  /** An open client reads the latest put, once; it does so at any time. */
  lemma ReadLatestTakes(cfg: Config, empty: Snapshot, steps: seq<Step>, id: nat)
    requires cfg.cap > 0 && Run(cfg, empty, steps).phase != Panicked
    requires var st := Run(cfg, empty, steps); id < |st.clients| && st.clients[id].open && st.clients[id].seen.None?
    ensures var st, next := Run(cfg, empty, steps), Run(cfg, empty, steps + [ReadLatest(id)]);
            var n := |st.puts|;
            next == st.(clients := st.clients[id := st.clients[id].(
                          seen := Some(n), first := if n == 0 then None else Some(st.puts[n - 1]))])
  {
    hide Run, Latest;
    RunStep(cfg, empty, steps, ReadLatest(id));
    RunInv(cfg, empty, steps);
    LatestIsLastPut(cfg, Run(cfg, empty, steps));
  }

  /** And then takes what waits in its channel, at any time. */
  lemma ReceiveTakes(cfg: Config, empty: Snapshot, steps: seq<Step>, id: nat)
    requires cfg.cap > 0 && Run(cfg, empty, steps).phase != Panicked
    requires var st := Run(cfg, empty, steps);
             id < |st.clients| && var c := st.clients[id]; c.open && c.seen.Some? && c.slot != []
    ensures var st, next := Run(cfg, empty, steps), Run(cfg, empty, steps + [Receive(id)]);
            next == st.(clients := st.clients[id := st.clients[id].(
                          received := st.clients[id].received + st.clients[id].slot, slot := [])])
  {
    hide Run, DbInv, PhaseInv;
    RunStep(cfg, empty, steps, Receive(id));
    RunInv(cfg, empty, steps);
    var c := Run(cfg, empty, steps).clients[id];
    OneWaits(c, Run(cfg, empty, steps).puts);
  }

  lemma OneWaits(c: Client, puts: seq<Snapshot>)
    requires ClientOk(c, puts) && c.slot != []
    ensures [c.slot[0]] == c.slot && c.slot[1..] == []
  {
  }

  /** And it may leave at any time. */
  lemma UnsubscribeTakes(cfg: Config, empty: Snapshot, steps: seq<Step>, id: nat)
    requires cfg.cap > 0 && Run(cfg, empty, steps).phase != Panicked
    requires var st := Run(cfg, empty, steps); id < |st.clients| && st.clients[id].open
    ensures var st, next := Run(cfg, empty, steps), Run(cfg, empty, steps + [Unsubscribe(id)]);
            next == st.(clients := st.clients[id := st.clients[id].(open := false)])
  {
    hide Run;
    RunStep(cfg, empty, steps, Unsubscribe(id));
  }

  /** After a panic nothing happens any more. */
  lemma PanicIsFinal(cfg: Config, empty: Snapshot, steps: seq<Step>, step: Step)
    requires cfg.cap > 0 && Run(cfg, empty, steps).phase == Panicked
    ensures Run(cfg, empty, steps + [step]) == Run(cfg, empty, steps)
  {
    hide Run;
    RunStep(cfg, empty, steps, step);
  }

  // ---- The producer

  /** When no put is in flight, the next one can start, for every order of exactly the open clients - and there is
      one. */
  lemma LockTakes(cfg: Config, empty: Snapshot, steps: seq<Step>, snap: Snapshot, order: seq<nat>)
    requires cfg.cap > 0 && Run(cfg, empty, steps).phase == Idle
    requires var st := Run(cfg, empty, steps);
             && (forall i, j :: 0 <= i < j < |order| ==> order[i] != order[j])
             && forall id: nat :: id in order <==> id < |st.clients| && st.clients[id].open
    ensures var st, next := Run(cfg, empty, steps), Run(cfg, empty, steps + [Lock(snap, order)]);
            && next.puts == st.puts + [snap] && next.phase == Saving(Frame(|st.puts|, snap), order)
            && next == st.(ring := next.ring, puts := next.puts, phase := next.phase)
            && next.ring.Contents() == LastN(st.puts + [snap], cfg.cap)
  {
    hide Run, Ring.Put;
    var st := Run(cfg, empty, steps);
    assert IsOrder(st, order);
    RunStep(cfg, empty, steps, Lock(snap, order));
    RunInv(cfg, empty, steps + [Lock(snap, order)]);
  }

  lemma OpenOrder(clients: seq<Client>) returns (order: seq<nat>)
    ensures forall i, j :: 0 <= i < j < |order| ==> order[i] != order[j]
    ensures forall id: nat :: id in order <==> id < |clients| && clients[id].open
  {
    order := [];
    for n := 0 to |clients|
      invariant forall i, j :: 0 <= i < j < |order| ==> order[i] != order[j]
      invariant forall id: nat :: id in order <==> id < n && clients[id].open
    {
      if clients[n].open {
        order := order + [n];
      }
    }
  }

  /** The save may come out any way. */
  lemma SaveTakes(cfg: Config, empty: Snapshot, steps: seq<Step>, env: SaveEnv)
    requires cfg.cap > 0 && Run(cfg, empty, steps).phase.Saving?
    ensures var st, next := Run(cfg, empty, steps), Run(cfg, empty, steps + [Save(env)]);
            && |st.puts| > 0
            && next.inserted == st.inserted + [env.insertOk] && next.phase == Sending(st.phase.frame, st.phase.targets)
            && next == st.(db := next.db, inserted := next.inserted, phase := next.phase)
            && next.db == if cfg.persist then SaveDb(st.db, cfg.retention, st.puts[|st.puts| - 1], env) else st.db
  {
    hide Run, SaveDb, ClientsInv, DbInv;
    RunStep(cfg, empty, steps, Save(env));
    RunInv(cfg, empty, steps);
  }

  /** One send to the next client on the list: into an empty channel, or dropped. */
  lemma SendTakes(cfg: Config, empty: Snapshot, steps: seq<Step>)
    requires cfg.cap > 0
    requires var st := Run(cfg, empty, steps);
             st.phase.Sending? && st.phase.targets != []
             && var id := st.phase.targets[0]; id < |st.clients| && st.clients[id].open
    ensures var st, next := Run(cfg, empty, steps), Run(cfg, empty, steps + [Send]);
            var id, f := st.phase.targets[0], st.phase.frame;
            var c, d := st.clients[id], next.clients[id];
            && next.phase == Sending(f, st.phase.targets[1..])
            && next == st.(phase := next.phase, clients := st.clients[id := d])
            && d == c.(slot := d.slot, dropped := d.dropped, upTo := f.idx + 1)
            && d.slot == (if c.slot == [] then [f] else c.slot)
            && d.dropped == (if c.slot == [] then c.dropped else c.dropped + [f])
  {
    hide Run;
    RunStep(cfg, empty, steps, Send);
  }

  lemma FinishTakes(cfg: Config, empty: Snapshot, steps: seq<Step>)
    requires cfg.cap > 0
    requires var st := Run(cfg, empty, steps); st.phase.Sending? && st.phase.targets == []
    ensures Run(cfg, empty, steps + [Finish]) == Run(cfg, empty, steps).(phase := Idle)
  {
    hide Run;
    RunStep(cfg, empty, steps, Finish);
  }

  /** Are all clients the put in flight is still to be offered to open? */
  ghost predicate TargetsOpen(st: State) {
    InFlight(st) ==> forall id :: id in st.phase.targets ==> id < |st.clients| && st.clients[id].open
  }

  /** A put never gets stuck: unless the channel of a client still to be offered the put was closed, it can always be
      brought to its end, whatever clients do meanwhile being their business. */
  lemma {:induction false} PutEnds(cfg: Config, empty: Snapshot, steps: seq<Step>, env: SaveEnv)
      returns (more: seq<Step>)
    requires cfg.cap > 0 && Run(cfg, empty, steps).phase != Panicked && TargetsOpen(Run(cfg, empty, steps))
    ensures Run(cfg, empty, steps + more).phase == Idle
        && Run(cfg, empty, steps + more).puts == Run(cfg, empty, steps).puts
    decreases var p := Run(cfg, empty, steps).phase;
              if p.Saving? then |p.targets| + 2 else if p.Sending? then |p.targets| + 1 else 0
  {
    hide Run;
    var st := Run(cfg, empty, steps);
    if st.phase == Idle {
      more := [];
      assert steps + [] == steps;
    } else {
      var step := if st.phase.Saving? then Save(env) else if st.phase.targets == [] then Finish else Send;
      RunInv(cfg, empty, steps);
      OneOn(cfg, empty, steps, step, env);
      var rest := PutEnds(cfg, empty, steps + [step], env);
      more := [step] + rest;
      assert steps + [step] + rest == steps + more;
    }
  }

  lemma OneOn(cfg: Config, empty: Snapshot, steps: seq<Step>, step: Step, env: SaveEnv)
    requires cfg.cap > 0 && Inv(cfg, Run(cfg, empty, steps)) && InFlight(Run(cfg, empty, steps))
    requires TargetsOpen(Run(cfg, empty, steps))
    requires var p := Run(cfg, empty, steps).phase;
             step == if p.Saving? then Save(env) else if p.targets == [] then Finish else Send
    ensures var st, next := Run(cfg, empty, steps), Run(cfg, empty, steps + [step]);
            && next.puts == st.puts && next.phase != Panicked && TargetsOpen(next)
            && match step
               case Save(_) => next.phase == Sending(st.phase.frame, st.phase.targets)
               case Send => next.phase == Sending(st.phase.frame, st.phase.targets[1..])
               case _ => next.phase == Idle
  {
    hide Run, DbInv, ClientsInv, RingInv;
    var st := Run(cfg, empty, steps);
    match step
    case Save(_) => SaveTakes(cfg, empty, steps, env);
    case Send =>
      var t := st.phase.targets;
      assert t[0] in t;
      SendTakes(cfg, empty, steps);
      assert forall id :: id in t[1..] ==> id in t;
    case _ => FinishTakes(cfg, empty, steps);
  }

  // ---- The audit trail

  /** Is step i an attempt, made before a panic? */
  ghost predicate ActsAt(cfg: Config, empty: Snapshot, steps: seq<Step>, i: nat)
    requires cfg.cap > 0
  {
    i < |steps| && steps[i].Act? && Run(cfg, empty, steps[..i]).phase != Panicked
  }

  /** Is this the entry of the attempt at step i? */
  ghost predicate RecordedAt(cfg: Config, empty: Snapshot, steps: seq<Step>, i: nat, e: Entry)
    requires cfg.cap > 0
  {
    i < |steps| && Recorded(e, steps[i], Run(cfg, empty, steps[..i]).puts)
  }

  lemma Earlier(cfg: Config, empty: Snapshot, steps: seq<Step>, i: nat, e: Entry)
    requires cfg.cap > 0 && i < |steps| - 1
    ensures ActsAt(cfg, empty, steps[..|steps| - 1], i) == ActsAt(cfg, empty, steps, i)
    ensures RecordedAt(cfg, empty, steps[..|steps| - 1], i, e) == RecordedAt(cfg, empty, steps, i, e)
  {
    hide Run, Recorded;
    assert steps[..|steps| - 1][..i] == steps[..i];
  }

  lemma LastAct(cfg: Config, empty: Snapshot, steps: seq<Step>)
    requires cfg.cap > 0 && steps != []
    ensures var n := |steps| - 1; var before, after := Run(cfg, empty, steps[..n]).audit, Run(cfg, empty, steps).audit;
            if ActsAt(cfg, empty, steps, n) then
              |after| == |before| + 1 && before <= after && RecordedAt(cfg, empty, steps, n, after[|before|])
            else after == before
  {
    hide Recorded, Next;
    var n := |steps| - 1;
    RunInv(cfg, empty, steps[..n]);
    AuditStep(cfg, Run(cfg, empty, steps[..n]), steps[n]);
  }

  lemma NoAudit(cfg: Config, empty: Snapshot)
    requires cfg.cap > 0
    ensures Run(cfg, empty, []).audit == cfg.FoundAudit() && Ascends([])
  {
  }

  /** The audit trail is what was found at the start, then one entry per attempt before a panic, in order, with the
      victim's query as the newest put then had it. */
  lemma {:induction false} AuditIs(cfg: Config, empty: Snapshot, steps: seq<Step>) returns (at: seq<nat>)
    requires cfg.cap > 0
    ensures Ascends(at) && forall i: nat :: i in at <==> ActsAt(cfg, empty, steps, i)
    ensures var trail, found := Run(cfg, empty, steps).audit, cfg.FoundAudit();
            && |trail| == |found| + |at| && found <= trail
            && forall k :: 0 <= k < |at| ==> RecordedAt(cfg, empty, steps, at[k], trail[|found| + k])
    decreases |steps|
  {
    hide Run, ActsAt, RecordedAt, Ascends;
    if steps == [] {
      at := [];
      NoAudit(cfg, empty);
      NobodyActs(cfg, empty);
    } else {
      var n := |steps| - 1;
      var front := AuditIs(cfg, empty, steps[..n]);
      LastAct(cfg, empty, steps);
      ActsBelow(cfg, empty, steps[..n]);
      AscendsOne(front, n);
      at := if ActsAt(cfg, empty, steps, n) then front + [n] else front;
      var before, trail, found := Run(cfg, empty, steps[..n]).audit, Run(cfg, empty, steps).audit, cfg.FoundAudit();
      ActsBelow(cfg, empty, steps);
      forall i: nat ensures i in at <==> ActsAt(cfg, empty, steps, i) {
        if i < n {
          Earlier(cfg, empty, steps, i, Entry(0, "", "", 0, "", false, ""));
        }
      }
      forall k | 0 <= k < |at| ensures RecordedAt(cfg, empty, steps, at[k], trail[|found| + k]) {
        if k < |front| {
          assert front[k] in front;
          assert trail[|found| + k] == before[|found| + k];
          Earlier(cfg, empty, steps, front[k], trail[|found| + k]);
        }
      }
    }
  }

  lemma NobodyActs(cfg: Config, empty: Snapshot)
    requires cfg.cap > 0
    ensures forall i: nat :: !ActsAt(cfg, empty, [], i)
  {
  }

  lemma ActsBelow(cfg: Config, empty: Snapshot, steps: seq<Step>)
    requires cfg.cap > 0
    ensures forall i: nat :: ActsAt(cfg, empty, steps, i) ==> i < |steps|
  {
    hide Run;
  }

  /** Is this the entry of the attempt, made when these were the puts? */
  predicate Recorded(e: Entry, step: Step, puts: seq<Snapshot>) {
    && step.Act? && e.at == step.at && e.actor == step.actor && e.action == step.action && e.pid == step.pid
    && e.victimQuery == (if puts != [] && step.pid in puts[|puts| - 1].sessions
                         then puts[|puts| - 1].sessions[step.pid].query else "")
    && var known := step.action == "cancel" || step.action == "terminate";
       && (e.delivered <==> known && step.reply.delivered && step.reply.err.None?)
       && e.error == (if known && step.reply.err.Some? then step.reply.err.value else "")
  }

  lemma AuditStep(cfg: Config, st: State, step: Step)
    requires cfg.cap > 0 && Inv(cfg, st)
    ensures var next := Next(cfg, st, step);
            if step.Act? && st.phase != Panicked then
              |next.audit| == |st.audit| + 1 && st.audit <= next.audit
                  && Recorded(next.audit[|st.audit|], step, st.puts)
            else next.audit == st.audit
  {
    hide DbInv, ClientsInv, PhaseInv, SaveDb, Ring.Put, Offer;
    LatestIsLastPut(cfg, st);
  }

  // ---- Joining in the middle of a put

  /** A client that subscribes while a put is in flight: it is sent that put first, and is not offered it. */
  lemma JoinsDuringPut(cfg: Config, empty: Snapshot, s: Snapshot, env: SaveEnv) returns (steps: seq<Step>)
    requires cfg.cap > 0
    ensures steps == [Subscribe, Lock(s, [0]), Subscribe, ReadLatest(1), Save(env), Send, Finish]
    ensures var st := Run(cfg, empty, steps);
            && st.phase == Idle && st.puts == [s] && |st.clients| == 2
            && st.clients[0].slot == [Frame(0, s)]
            && st.clients[1].open && st.clients[1].since == 1 && st.clients[1].first == Some(s)
            && st.clients[1].received + st.clients[1].slot + st.clients[1].dropped == []
  {
    hide Run, Offer, SaveDb;
    var z: seq<Step> := [];
    RunNone(cfg, empty);
    SubscribeTakes(cfg, empty, z);
    var a := z + [Subscribe];
    LockTakes(cfg, empty, a, s, [0]);
    var b := a + [Lock(s, [0])];
    SubscribeTakes(cfg, empty, b);
    var c := b + [Subscribe];
    ReadLatestTakes(cfg, empty, c, 1);
    var d := c + [ReadLatest(1)];
    SaveTakes(cfg, empty, d, env);
    var e := d + [Save(env)];
    SendTakes(cfg, empty, e);
    var f := e + [Send];
    FinishTakes(cfg, empty, f);
    steps := f + [Finish];
  }
}
