/** The snapshot store (internal/store/store.go): ring, subscribers, and the optional database behind it. */
module Store {
  import opened Wrappers
  import opened Seqs
  import opened Graph
  import opened Rings
  import opened Timeline
  import opened Persist

  /** A channel with room for one snapshot. */
  class Chan {
    var items: seq<Snapshot>
    var closed: bool

    constructor ()
      ensures items == [] && !closed
    {
      items, closed := [], false;
    }

    /** Sends if there is room, otherwise drops. Sending on a closed channel would panic. */
    method TrySend(x: Snapshot)
      requires !closed
      modifies this`items
      ensures items == if old(items) == [] then [x] else old(items)
    {
      if |items| < 1 {
        items := items + [x];
      }
    }
  }

  /** The elements of a set, in any order. */
  method AnyOrder(all: set<Chan>) returns (s: seq<Chan>)
    ensures NoDuplicates(s) && forall c :: c in s <==> c in all
  {
    s := [];
    var rest := all;
    while rest != {}
      invariant rest <= all && NoDuplicates(s)
      invariant forall c :: c in s ==> c in all && c !in rest
      invariant forall c :: c in all && c !in rest ==> c in s
      decreases rest
    {
      var c :| c in rest;
      rest := rest - {c};
      s := s + [c];
    }
  }

  /** Offers `x` to every channel, one after the other. */
  method SendAll(chans: seq<Chan>, x: Snapshot)
    requires NoDuplicates(chans) && forall c :: c in chans ==> !c.closed
    modifies (set c | c in chans)`items
    ensures forall c :: c in chans ==> c.items == if old(c.items) == [] then [x] else old(c.items)
  {
    for k := 0 to |chans|
      invariant forall j :: 0 <= j < k ==> chans[j].items == if old(chans[j].items) == [] then [x]
          else old(chans[j].items)
      invariant forall j :: k <= j < |chans| ==> chans[j].items == old(chans[j].items)
    {
      chans[k].TrySend(x);
    }
  }

  const ZERO := Snapshot("", 0, map[], [], [])

  class Store {
    var buf: array<Snapshot>
    var head: nat
    var size: nat
    const cap: nat
    var subs: map<nat, Chan>
    var nextID: nat
    var persist: SQLite?

    ghost predicate Valid()
      reads this, buf, subs.Values
    {
      && buf.Length == cap && head < cap && size <= cap
      && (forall i :: i in subs ==> i < nextID && !subs[i].closed)
      && (forall i, j :: i in subs && j in subs && i != j ==> subs[i] != subs[j])
    }

    function State(): Ring<Snapshot>
      reads this, buf
    {
      Ring(buf[..], head, size)
    }

    /** What is retained, oldest first. */
    ghost function Retained(): seq<Snapshot>
      requires Valid()
      reads this, buf, subs.Values
    {
      State().Contents()
    }

    constructor (ringSize: int)
      ensures Valid() && Retained() == [] && cap == (if ringSize < 1 then 1 else ringSize)
      ensures fresh(buf) && subs == map[] && persist == null
    {
      var n := if ringSize < 1 then 1 else ringSize;
      buf := new Snapshot[n](i => ZERO);
      head, size, cap := 0, 0, n;
      subs, nextID, persist := map[], 0, null;
    }

    /** The part of Put under the lock: writes the ring and copies the list of subscribers, in any order. */
    method PutLocked(snap: Snapshot) returns (chans: seq<Chan>)
      requires Valid()
      modifies this`head, this`size, buf
      ensures Valid() && State() == old(State()).Put(snap)
      ensures Retained() == LastN(old(Retained()) + [snap], cap)
      ensures NoDuplicates(chans) && forall c :: c in chans <==> c in subs.Values
    {
      PutContents(State(), snap);
      buf[head] := snap;
      head := (head + 1) % cap;
      if size < cap {
        size := size + 1;
      }
      assert State() == old(State()).Put(snap);
      chans := AnyOrder(subs.Values);
    }

    /** Writes the ring, then saves, then offers the snapshot to every subscriber; with no other step in between. */
    method Put(snap: Snapshot, env: SaveEnv)
      requires Valid()
      modifies this`head, this`size, buf, subs.Values, persist
      ensures Valid() && Retained() == LastN(old(Retained()) + [snap], cap)
      ensures persist != null ==> persist.State() == SaveDb(old(persist.State()), persist.retention, snap, env)
      ensures forall i :: i in subs ==> subs[i].items == if old(subs[i].items) == [] then [snap] else old(subs[i].items)
    {
      var chans := PutLocked(snap);
      if persist != null {
        var _ := persist.Save(snap, env);
      }
      SendAll(chans, snap);
    }

    method Latest() returns (r: Option<Snapshot>)
      requires Valid()
      ensures r == if Retained() == [] then None else Some(Retained()[|Retained()| - 1])
    {
      if size == 0 {
        return None;
      }
      var idx := (head - 1 + cap) % cap;
      IndexWraps(State(), size - 1);
      Wrap(head - 1 + cap, cap);
      assert buf[idx] == Retained()[size - 1];
      r := Some(buf[idx]);
    }

    /** The ring's scan, newest first. */
    method AtRing(t: int) returns (r: Option<Snapshot>)
      requires Valid()
      ensures IsRingAnswer(Retained(), t, r)
    {
      hide RingDist, KeptFrom, IsRingAnswer, Ring.Contents;
      r := None;
      ghost var s := Retained();
      ghost var best: Option<int> := None;
      var bestDiff := MAX64;
      KeptNone(s, t);
      if size == 0 {
        KeptAtEnd(s, t, best, bestDiff, r);
        return;
      }
      for i := 0 to size
        invariant KeptFrom(s, t, size - i, best, bestDiff)
        invariant if best.Some? then 0 <= best.value < size && r == Some(s[best.value]) else r.None?
      {
        var idx := (head - 1 - i + cap * 2) % cap;
        IndexBack(State(), i);
        assert buf[idx] == s[size - 1 - i];
        KeptStep(s, t, size - i, best, bestDiff);
        var d := RingDist(t, buf[idx].takenAt);
        if d < bestDiff {
          bestDiff, r := d, Some(buf[idx]);
          best := Some(size - 1 - i);
        }
      }
      KeptAtEnd(s, t, best, bestDiff, r);
    }

    /** The snapshot nearest to `t`: from the database when there is one and it answers, otherwise from the ring. */
    method At(t: int, dbFails: bool) returns (r: Option<Snapshot>)
      requires Valid() && (persist != null ==> WellFormed(persist.rows))
      ensures if persist != null && !dbFails then IsSqlAnswer(Snaps(persist.rows), t, r)
          else IsRingAnswer(Retained(), t, r)
    {
      if persist != null {
        var a := persist.At(t, dbFails);
        if !a.DbError? {
          return if a.Found? then Some(a.snap) else None;
        }
      }
      r := AtRing(t);
    }

    method HistoryRing(from: Option<int>, to: Option<int>) returns (out: seq<Meta>)
      requires Valid()
      ensures out == HistoryOf(Retained(), from, to)
    {
      out := [];
      ghost var s := Retained();
      for i := 0 to size
        invariant out == HistoryOf(s[..i], from, to)
      {
        var idx := (head - size + i + cap * 2) % cap;
        var snap := buf[idx];
        assert snap == s[i];
        HistoryNext(s, i, from, to);
        if from.Some? && snap.takenAt < from.value {
          continue;
        }
        if to.Some? && snap.takenAt > to.value {
          continue;
        }
        out := out + [Meta(snap.takenAt, |snap.roots|, |snap.edges|, |snap.sessions|)];
      }
      assert s[..size] == s;
    }

    method History(from: Option<int>, to: Option<int>, dbFails: bool) returns (out: seq<Meta>)
      requires Valid() && (persist != null ==> WellFormed(persist.rows))
      ensures if persist != null && !dbFails then IsSqlHistory(out, Snaps(persist.rows), from, to)
              else out == HistoryOf(Retained(), from, to)
    {
      if persist != null && !dbFails {
        out := persist.History(from, to);
      } else {
        out := HistoryRing(from, to);
      }
    }

    method Subscribe() returns (id: nat, ch: Chan)
      requires Valid()
      modifies this`subs, this`nextID
      ensures Valid() && Retained() == old(Retained())
      ensures id == old(nextID) && id !in old(subs) && subs == old(subs)[id := ch] && nextID == id + 1
      ensures fresh(ch) && ch.items == [] && !ch.closed
    {
      id := nextID;
      nextID := nextID + 1;
      ch := new Chan();
      subs := subs[id := ch];
    }

    /** Removes the subscriber and closes its channel; a second call does nothing. */
    method Unsubscribe(id: nat)
      requires Valid()
      modifies this`subs, subs.Values
      ensures Valid() && Retained() == old(Retained())
      ensures subs == old(subs) - {id}
      ensures id in old(subs) ==> old(subs)[id].closed && old(subs)[id].items == old(subs[id].items)
      ensures forall c :: c in subs.Values ==> c.items == old(c.items)
    {
      if id in subs {
        var c := subs[id];
        subs := subs - {id};
        c.closed := true;
      }
    }
  }

  lemma HistoryNext(s: seq<Snapshot>, i: nat, from: Option<int>, to: Option<int>)
    requires i < |s|
    ensures HistoryOf(s[..i + 1], from, to) ==
            HistoryOf(s[..i], from, to) + if InWindow(s[i].takenAt, from, to) then [MetaOf(s[i])] else []
  {
    assert s[..i + 1] == s[..i] + [s[i]];
    HistoryConcat(s[..i], [s[i]], from, to);
  }
}
