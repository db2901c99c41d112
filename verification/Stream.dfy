/** The loop that serves one streaming client (internal/api/stream.go). */
module Stream {
  import opened Wrappers
  import opened Seqs
  import opened Graph

  /** What the select statement can see next: cancellation, a snapshot from the channel and whether writing it
      succeeds, a closed channel, a keepalive ping and whether it is answered. */
  datatype Event = Cancelled | Received(snap: Snapshot, writeOk: bool) | ChannelClosed | Ping(answered: bool)

  predicate GoesOn(e: Event) {
    match e
    case Cancelled => false
    case Received(_, ok) => ok
    case ChannelClosed => false
    case Ping(ok) => ok
  }

  /** How many events the loop gets through: all before the first that ends it. */
  function Served(events: seq<Event>): (n: nat)
    ensures n <= |events| && (forall i :: 0 <= i < n ==> GoesOn(events[i])) && (n < |events| ==> !GoesOn(events[n]))
  {
    if events == [] || !GoesOn(events[0]) then 0
    else
      assert forall i :: 1 <= i < |events| ==> events[i] == events[1..][i - 1];
      1 + Served(events[1..])
  }

  function Snaps(events: seq<Event>): seq<Snapshot>
    decreases |events|
  {
    if events == [] then []
    else
      var last := events[|events| - 1];
      Snaps(events[..|events| - 1]) + if last.Received? then [last.snap] else []
  }

  /** What the client gets. */
  function Written(latest: Option<Snapshot>, latestOk: bool, events: seq<Event>): seq<Snapshot> {
    if latest.None? then Snaps(events[..Served(events)])
    else if latestOk then [latest.value] + Snaps(events[..Served(events)])
    else []
  }

  lemma {:induction false} SnapsAt(events: seq<Event>) returns (at: seq<nat>)
    ensures Ascends(at) && forall i: nat :: i in at <==> i < |events| && events[i].Received?
    ensures |Snaps(events)| == |at|
    ensures forall k :: 0 <= k < |at| ==>
        at[k] < |events| && events[at[k]].Received? && Snaps(events)[k] == events[at[k]].snap
    decreases |events|
  {
    if events == [] {
      at := [];
    } else {
      var n := |events| - 1;
      var init := events[..n];
      var front := SnapsAt(init);
      at := front;
      if events[n].Received? {
        AscendsOne(front, n);
        at := front + [n];
      }
      forall k | 0 <= k < |at|
        ensures at[k] < |events| && events[at[k]].Received? && Snaps(events)[k] == events[at[k]].snap
      {
        if k < |front| {
          assert front[k] in front && init[front[k]] == events[front[k]];
        }
      }
    }
  }

  /** The stream ends at `n`: with a cancellation, a closed channel, a failed write or an unanswered ping - or it has
      not ended. If the first write worked, the client gets, behind the latest snapshot, exactly the snapshots
      received before that, all of them and in order. */
  lemma WrittenAre(latest: Option<Snapshot>, latestOk: bool, events: seq<Event>) returns (n: nat, at: seq<nat>)
    ensures n <= |events|
    ensures forall i :: 0 <= i < n ==>
              (events[i].Received? && events[i].writeOk) || (events[i].Ping? && events[i].answered)
    ensures n < |events| ==>
              && !(events[n].Received? && events[n].writeOk) && !(events[n].Ping? && events[n].answered)
    ensures Ascends(at) && forall i: nat :: i in at <==> i < n && events[i].Received?
    ensures var out := Written(latest, latestOk, events);
            var front := if latest.None? then [] else [latest.value];
            if latest.Some? && !latestOk then out == []
            else
              && |out| == |front| + |at| && front <= out
              && forall k :: 0 <= k < |at| ==>
                   at[k] < n && events[at[k]].Received? && out[|front| + k] == events[at[k]].snap
  {
    n := Served(events);
    hide Served, Snaps;
    at := SnapsAt(events[..n]);
    forall i: nat ensures i in at <==> i < n && events[i].Received? {
      if i < n {
        assert events[..n][i] == events[i];
      }
    }
    forall k | 0 <= k < |at|
      ensures at[k] < n && events[at[k]].Received? && Snaps(events[..n])[k] == events[at[k]].snap
    {
      assert at[k] in at && events[..n][at[k]] == events[at[k]];
    }
  }

  /** Writes the latest snapshot, if there is one, then every snapshot received, until something ends the stream. The
      client gets exactly these, in this order: nothing received before the end is left out, nothing is written after
      it. */
  method HandleStream(latest: Option<Snapshot>, latestOk: bool, events: seq<Event>) returns (written: seq<Snapshot>)
    ensures written == Written(latest, latestOk, events)
  {
    written := [];
    if latest.Some? {
      if !latestOk {
        return;
      }
      written := [latest.value];
    }
    ghost var first := written;
    assert written == first + Snaps(events[..0]);
    for k := 0 to |events|
      invariant k <= Served(events) && written == first + Snaps(events[..k])
    {
      assert events[..k + 1][..k] == events[..k];
      match events[k] {
        case Cancelled => return;
        case Received(snap, ok) =>
          if !ok {
            return;
          }
          written := written + [snap];
        case ChannelClosed => return;
        case Ping(answered) =>
          if !answered {
            return;
          }
      }
    }
  }
}
