/** Cancel and terminate, with one audit entry per attempt (internal/signal/signal.go, cmd/pglockr/main.go). */
module Signal {
  import opened Wrappers
  import opened Seqs
  import opened Graph
  import opened Audit

  /** What the database server answers: was the signal delivered, and did the call fail. */
  datatype Reply = Reply(delivered: bool, err: Option<string>)

  datatype Outcome = Outcome(action: string, pid: int, delivered: bool, at: int)

  /** The victim's query in the latest snapshot; empty when there is no snapshot or no such session. */
  function VictimQuery(latest: Option<Snapshot>, pid: int): string {
    if latest.Some? && pid in latest.value.sessions then latest.value.sessions[pid].query else ""
  }

  /** Only the two known actions reach the server. */
  function ReplyTo(action: string, reply: Reply): Reply {
    if action == "cancel" || action == "terminate" then reply else Reply(false, None)
  }

  function EntryFor(action: string, pid: int, actor: string, reply: Reply, latest: Option<Snapshot>, at: int): Entry {
    var r := ReplyTo(action, reply);
    Entry(at, actor, action, pid, VictimQuery(latest, pid), r.delivered && r.err.None?,
          if r.err.Some? then r.err.value else "")
  }

  /** Where entries go: nowhere, into the bounded memory, or into the database (cmd/pglockr/main.go). */
  datatype Sink = NoSink | InMemory(memory: Memory) | InDatabase(trail: SqlTrail) {
    function Objects(): set<object> {
      match this
      case NoSink => {}
      case InMemory(m) => {m}
      case InDatabase(t) => {t}
    }
  }

  class Service {
    const sink: Sink
    var observed: seq<(string, bool)>

    constructor (sink: Sink)
      ensures this.sink == sink && observed == []
    {
      this.sink, observed := sink, [];
    }

    /** One attempt: signals, looks the victim up, records exactly one entry - delivered or not - and reports. A
        database that fails to record changes neither the outcome nor what is observed. */
    method Do(action: string, pid: int, actor: string, reply: Reply, latest: Option<Snapshot>, at: int, dbFails: bool)
      returns (out: Outcome, err: Option<string>)
      requires sink.InMemory? ==> sink.memory.Valid()
      modifies this, sink.Objects()
      ensures var e := EntryFor(action, pid, actor, reply, latest, at);
              var known := action == "cancel" || action == "terminate";
              && e.at == at && e.actor == actor && e.action == action && e.pid == pid
              && (latest.Some? && pid in latest.value.sessions ==> e.victimQuery == latest.value.sessions[pid].query)
              && (latest.None? || pid !in latest.value.sessions ==> e.victimQuery == "")
              && (e.delivered <==> known && reply.delivered && reply.err.None?)
              && e.error == (if known && reply.err.Some? then reply.err.value else "")
              && err == (if known then reply.err else None)
              && (sink.InMemory? ==>
                  sink.memory.Valid() && sink.memory.entries == LastN(old(sink.memory.entries) + [e], sink.memory.cap))
              && (sink.InDatabase? ==>
                    sink.trail.rows == old(sink.trail.rows) + if dbFails then []
                        else [AuditRow(|old(sink.trail.rows)| + 1, e)])
              && observed == old(observed) + [(action, e.delivered)]
              && err == ReplyTo(action, reply).err
              && out == Outcome(action, pid, e.delivered, at)
    {
      var delivered := false;
      err := None;
      if action == "cancel" {
        delivered, err := reply.delivered, reply.err;
      } else if action == "terminate" {
        delivered, err := reply.delivered, reply.err;
      }
      var victimQuery := VictimQuery(latest, pid);
      var entry := Entry(at, actor, action, pid, victimQuery, delivered && err.None?, "");
      if err.Some? {
        entry := entry.(error := err.value);
      }
      match sink {
        case NoSink =>
        case InMemory(memory) => memory.Record(entry);
        case InDatabase(trail) => var _ := trail.Record(entry, dbFails);
      }
      observed := observed + [(action, entry.delivered)];
      if err.Some? {
        return Outcome(action, pid, false, at), err;
      }
      out := Outcome(action, pid, delivered, at);
    }
  }
}
