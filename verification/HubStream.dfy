/** What a streaming client's connection is sent: the loop (internal/api/stream.go) fed by the concurrent store
    (internal/store/store.go).
 */
module HubStream {
  import opened Seqs
  import opened Graph
  import opened Stream
  import opened Hub
  import opened HubTheorems

  /** Do these events bring exactly these frames, each written, with answered pings in between? */
  ghost predicate Brings(events: seq<Event>, frames: seq<Frame>)
    decreases |events|
  {
    if events == [] then frames == []
    else
      var n, last := |events| - 1, events[|events| - 1];
      if last.Received? then
        last.writeOk && frames != [] && last.snap == frames[|frames| - 1].snap
            && Brings(events[..n], frames[..|frames| - 1])
      else last.Ping? && last.answered && Brings(events[..n], frames)
  }

  lemma {:induction false} BroughtSnaps(events: seq<Event>, frames: seq<Frame>)
    requires Brings(events, frames)
    ensures Snaps(events) == Map(SnapOf, frames)
    ensures forall i :: 0 <= i < |events| ==> GoesOn(events[i])
    decreases |events|
  {
    if events != [] {
      var n, last := |events| - 1, events[|events| - 1];
      var front := if last.Received? then frames[..|frames| - 1] else frames;
      BroughtSnaps(events[..n], front);
      forall i | 0 <= i < |events| ensures GoesOn(events[i]) {
        assert i < n ==> events[..n][i] == events[i];
      }
      if last.Received? {
        assert frames == front + [frames[|frames| - 1]];
        MapConcat(SnapOf, front, [frames[|frames| - 1]]);
      }
    }
  }

  /** The loop gets through all of them and no further, when the end follows. */
  lemma ServedAll(events: seq<Event>, rest: seq<Event>)
    requires forall i :: 0 <= i < |events| ==> GoesOn(events[i])
    requires rest == [] || !GoesOn(rest[0])
    ensures (events + rest)[..Served(events + rest)] == events
  {
    var all := events + rest;
    assert forall i :: 0 <= i < |events| ==> all[i] == events[i];
    assert rest != [] ==> all[|events|] == rest[0];
  }

  /** The loop writes what the hub's client is sent first and then receives, and nothing else. */
  lemma WrittenIsReceived(c: Client, events: seq<Event>, rest: seq<Event>)
    requires Brings(events, c.received) && (rest == [] || !GoesOn(rest[0]))
    ensures Written(c.first, true, events + rest) ==
            (if c.first.None? then [] else [c.first.value]) + Map(SnapOf, c.received)
  {
    BroughtSnaps(events, c.received);
    ServedAll(events, rest);
  }

  /** So in every interleaving what is written on the connection is: the newest put when the client read it, not
      older than any put before it subscribed; then puts made since it subscribed, each newer than the one before, of
      which at most the first two are not newer than what was written first. */
  lemma WrittenIsFresh(cfg: Config, empty: Snapshot, steps: seq<Step>, id: nat, events: seq<Event>, rest: seq<Event>)
    requires cfg.cap > 0 && id < |Run(cfg, empty, steps).clients|
    requires var c := Run(cfg, empty, steps).clients[id];
             c.seen.Some? && Brings(events, c.received) && (rest == [] || !GoesOn(rest[0]))
    ensures var st := Run(cfg, empty, steps); var c := st.clients[id];
            var out, f := Written(c.first, true, events + rest), if c.seen.value == 0 then 0 else 1;
            && c.since <= c.seen.value <= |st.puts|
            && |out| == f + |c.received|
            && (f == 1 ==> out[0] == st.puts[c.seen.value - 1])
            && (forall k :: 0 <= k < |c.received| ==>
                  c.since <= c.received[k].idx < |st.puts| && out[f + k] == st.puts[c.received[k].idx])
            && (forall j, k :: 0 <= j < k < |c.received| ==> c.received[j].idx < c.received[k].idx)
            && (forall k :: 2 <= k < |c.received| ==> c.received[k].idx >= c.seen.value)
  {
    hide Run, Written, Brings;
    StreamIsFresh(cfg, empty, steps, id);
    WrittenIsReceived(Run(cfg, empty, steps).clients[id], events, rest);
  }
}
