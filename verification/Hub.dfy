/** The store as a concurrent system: one producer that puts snapshots (internal/poller/poller.go), any number of
    streaming clients (internal/api/stream.go), and audited actions, interleaved step by step.
    A put is several steps: under the lock it writes the ring and copies the subscriber list; outside it saves, then
    sends to one subscriber after the other (internal/store/store.go). A state remembers what every step did, so that
    invariants can speak about whole runs.
 */
module Hub {
  import opened Wrappers
  import opened Seqs
  import opened Graph
  import opened Rings
  import opened Persist
  import opened Audit
  import opened Signal

  /** A snapshot on its way to clients, with the number of puts that came before it. */
  datatype Frame = Frame(idx: nat, snap: Snapshot)

  /** A streaming client and its channel.
      - since: how many puts there had been when it subscribed
      - open: still registered, channel not closed
      - slot: the channel's buffer
      - seen: how many puts there had been when it read the latest snapshot to send it first; None before that
      - first: that snapshot
      - received, dropped: the frames taken from the channel, the frames not sent because the slot was full
      - upTo: every put from since on, up to but not including this one, has been offered to it */
  datatype Client = Client(
    since: nat, open: bool, slot: seq<Frame>, seen: Option<nat>, first: Option<Snapshot>,
    received: seq<Frame>, dropped: seq<Frame>, upTo: nat)

  datatype Phase =
    | Idle
    | Saving(frame: Frame, targets: seq<nat>)
    | Sending(frame: Frame, targets: seq<nat>)
    | Panicked

  datatype State = State(
    ring: Ring<Snapshot>, db: Db, phase: Phase, clients: seq<Client>, audit: seq<Entry>,
    puts: seq<Snapshot>, inserted: seq<bool>)

  /** What the process starts with: the ring's capacity, whether there is a database, how long it keeps rows, and what
      earlier processes left in it - history rows, the next row id, audit entries. */
  datatype Config = Config(cap: nat, persist: bool, retention: int, leftRows: seq<Row>, nextId: nat,
      leftAudit: seq<Entry>) {
    function Found(): seq<Row> {
      if persist then leftRows else []
    }

    function FoundAudit(): seq<Entry> {
      if persist then leftAudit else []
    }
  }

  datatype Step =
    | Lock(snap: Snapshot, order: seq<nat>)
    | Save(env: SaveEnv)
    | Send
    | Finish
    | Subscribe
    | ReadLatest(id: nat)
    | Receive(id: nat)
    | Unsubscribe(id: nat)
    | Act(action: string, pid: int, actor: string, reply: Reply, at: int)

  function Init(cfg: Config, empty: Snapshot): State {
    State(Ring(seq(cfg.cap, i => empty), 0, 0), Db(cfg.Found(), cfg.nextId, None), Idle, [], cfg.FoundAudit(), [], [])
  }

  function Latest(st: State): Option<Snapshot>
    requires st.ring.Valid()
  {
    var s := st.ring.Contents();
    if s == [] then None else Some(s[|s| - 1])
  }

  predicate IsOpen(st: State, id: nat) {
    id < |st.clients| && st.clients[id].open
  }

  /** The subscriber list, in the arbitrary order a map is walked in. */
  ghost predicate IsOrder(st: State, order: seq<nat>) {
    NoDuplicates(order) && forall id :: id in order <==> IsOpen(st, id)
  }

  ghost predicate Enabled(st: State, step: Step) {
    && st.phase != Panicked
    && match step
       case Lock(_, order) => st.phase == Idle && IsOrder(st, order)
       case Save(_) => st.phase.Saving?
       case Send => st.phase.Sending? && st.phase.targets != []
       case Finish => st.phase.Sending? && st.phase.targets == []
       case Subscribe => true
       case ReadLatest(id) => IsOpen(st, id) && st.clients[id].seen.None?
       case Receive(id) => IsOpen(st, id) && st.clients[id].seen.Some? && st.clients[id].slot != []
       case Unsubscribe(id) => IsOpen(st, id)
       case Act(_, _, _, _, _) => true
  }

  /** One offer: sent if the slot is empty, otherwise dropped. */
  function Offer(c: Client, f: Frame): Client {
    if c.slot == [] then c.(slot := [f], upTo := f.idx + 1)
    else c.(dropped := c.dropped + [f], upTo := f.idx + 1)
  }

  function WithClient(st: State, id: nat, c: Client): State
    requires id < |st.clients|
  {
    st.(clients := st.clients[id := c])
  }

  ghost function Apply(cfg: Config, st: State, step: Step): State
    requires st.ring.Valid() && Enabled(st, step)
  {
    match step
    case Lock(snap, order) =>
      st.(ring := st.ring.Put(snap), puts := st.puts + [snap], phase := Saving(Frame(|st.puts|, snap), order))
    case Save(env) =>
      st.(db := if cfg.persist then SaveDb(st.db, cfg.retention, st.phase.frame.snap, env) else st.db,
          inserted := st.inserted + [env.insertOk], phase := Sending(st.phase.frame, st.phase.targets))
    case Send =>
      var id := st.phase.targets[0];
      if !IsOpen(st, id) then st.(phase := Panicked)
      else
        WithClient(st, id, Offer(st.clients[id], st.phase.frame)).(
          phase := Sending(st.phase.frame, st.phase.targets[1..]))
    case Finish => st.(phase := Idle)
    case Subscribe => st.(clients := st.clients + [Client(|st.puts|, true, [], None, None, [], [], |st.puts|)])
    case ReadLatest(id) => WithClient(st, id, st.clients[id].(seen := Some(|st.puts|), first := Latest(st)))
    case Receive(id) =>
      var c := st.clients[id];
      WithClient(st, id, c.(received := c.received + [c.slot[0]], slot := c.slot[1..]))
    case Unsubscribe(id) => WithClient(st, id, st.clients[id].(open := false))
    case Act(action, pid, actor, reply, at) =>
      st.(audit := st.audit + [EntryFor(action, pid, actor, reply, Latest(st), at)])
  }

  /** A step that is not possible does nothing; so every list of steps is an interleaving, and every interleaving is
      one. */
  ghost function Next(cfg: Config, st: State, step: Step): (next: State)
    requires st.ring.Valid()
    ensures next.ring.Valid()
  {
    if Enabled(st, step) then Apply(cfg, st, step) else st
  }

  ghost function Run(cfg: Config, empty: Snapshot, steps: seq<Step>): (st: State)
    requires cfg.cap > 0
    ensures st.ring.Valid()
    decreases |steps|
  {
    if steps == [] then Init(cfg, empty)
    else Next(cfg, Run(cfg, empty, steps[..|steps| - 1]), steps[|steps| - 1])
  }
}
