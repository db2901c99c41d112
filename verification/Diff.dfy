/** What changed between two snapshots (internal/store/diff.go). */
module Diffs {
  import opened Seqs
  import opened Graph

  datatype Diff = Diff(added: seq<int>, removed: seq<int>, changed: seq<int>)

  /** The fields of a session that the forest view shows. */
  datatype View = View(state: string, waitEvent: string, waitEventType: string, isRoot: bool, query: string,
      blockedBy: seq<int>)

  function ViewOf(s: Session): View {
    View(s.state, s.waitEvent, s.waitEventType, s.isRoot, s.query, s.blockedBy)
  }

  method EqualInts(a: seq<int>, b: seq<int>) returns (r: bool)
    ensures r <==> a == b
  {
    if |a| != |b| {
      return false;
    }
    for i := 0 to |a|
      invariant a[..i] == b[..i]
    {
      if a[i] != b[i] {
        return false;
      }
    }
    assert a == a[..|a|] == b[..|b|] == b;
    return true;
  }

  method SessionChanged(a: Session, b: Session) returns (r: bool)
    ensures r <==> ViewOf(a) != ViewOf(b)
    ensures r <==> !(a.state == b.state && a.waitEvent == b.waitEvent && a.waitEventType == b.waitEventType
                     && a.isRoot == b.isRoot && a.query == b.query && a.blockedBy == b.blockedBy)
  {
    if a.state != b.state || a.waitEvent != b.waitEvent || a.waitEventType != b.waitEventType ||
       a.isRoot != b.isRoot || a.query != b.query {
      return true;
    }
    var same := EqualInts(a.blockedBy, b.blockedBy);
    r := !same;
  }

  ghost predicate Lists(s: seq<int>, what: set<int>) {
    NoDuplicates(s) && forall p :: p in s <==> p in what
  }

  lemma ListsNone()
    ensures Lists([], {})
  {
  }

  lemma ListsMore(s: seq<int>, what: set<int>, p: int)
    requires Lists(s, what) && p !in what
    ensures Lists(s + [p], what + {p})
  {
  }

  ghost function ChangedPids(prev: map<int, Session>, cur: map<int, Session>): set<int> {
    set p | p in prev && p in cur && ViewOf(prev[p]) != ViewOf(cur[p])
  }

  /** Three lists without duplicates: who came, who went, who stayed but looks different. Their order is not
      determined. */
  ghost predicate IsDiff(d: Diff, prev: Snapshot, cur: Snapshot) {
    && Lists(d.added, cur.sessions.Keys - prev.sessions.Keys)
    && Lists(d.removed, prev.sessions.Keys - cur.sessions.Keys)
    && Lists(d.changed, ChangedPids(prev.sessions, cur.sessions))
  }

  /** Walks both maps in an arbitrary order. */
  method DiffSnapshots(prev: Snapshot, cur: Snapshot) returns (d: Diff)
    ensures IsDiff(d, prev, cur)
  {
    var added, removed, changed := [], [], [];
    hide Lists;
    ListsNone();
    var rest := cur.sessions.Keys;
    assert (cur.sessions.Keys - rest) - prev.sessions.Keys == {};
    while rest != {}
      invariant rest <= cur.sessions.Keys
      invariant Lists(added, (cur.sessions.Keys - rest) - prev.sessions.Keys)
      decreases rest
    {
      Inhabited(rest);
      var pid :| pid in rest;
      ghost var done := cur.sessions.Keys - rest;
      rest := rest - {pid};
      assert cur.sessions.Keys - rest == done + {pid};
      if pid !in prev.sessions {
        ListsMore(added, done - prev.sessions.Keys, pid);
        assert done + {pid} - prev.sessions.Keys == (done - prev.sessions.Keys) + {pid};
        added := added + [pid];
      } else {
        assert done + {pid} - prev.sessions.Keys == done - prev.sessions.Keys;
      }
    }
    assert cur.sessions.Keys - rest == cur.sessions.Keys;
    removed, changed := Compare(prev, cur);
    d := Diff(added, removed, changed);
  }

  /** The second loop: over the previous sessions. */
  method Compare(prev: Snapshot, cur: Snapshot) returns (removed: seq<int>, changed: seq<int>)
    ensures Lists(removed, prev.sessions.Keys - cur.sessions.Keys)
    ensures Lists(changed, ChangedPids(prev.sessions, cur.sessions))
  {
    hide Lists, ViewOf;
    ListsNone();
    removed, changed := [], [];
    ghost var goes, changes := prev.sessions.Keys - cur.sessions.Keys, ChangedPids(prev.sessions, cur.sessions);
    var rest := prev.sessions.Keys;
    assert goes - rest == {} && changes - rest == {};
    while rest != {}
      invariant rest <= prev.sessions.Keys
      invariant Lists(removed, goes - rest) && Lists(changed, changes - rest)
      decreases rest
    {
      Inhabited(rest);
      var pid :| pid in rest;
      ghost var before := rest;
      rest := rest - {pid};
      if pid !in cur.sessions {
        ListsMore(removed, goes - before, pid);
        assert goes - rest == (goes - before) + {pid} && changes - rest == changes - before;
        removed := removed + [pid];
        continue;
      }
      assert goes - rest == goes - before;
      var c := SessionChanged(prev.sessions[pid], cur.sessions[pid]);
      if c {
        ListsMore(changed, changes - before, pid);
        assert changes - rest == (changes - before) + {pid};
        changed := changed + [pid];
      } else {
        assert changes - rest == changes - before;
      }
    }
    assert goes - rest == goes && changes - rest == changes;
  }

  /** What a client does with a diff: drops who went, takes who came or changed from the new snapshot, keeps the
      rest. */
  function Patch(prev: map<int, Session>, d: Diff, cur: map<int, Session>): map<int, Session> {
    map p | p in prev.Keys + cur.Keys && p !in d.removed && (p in prev || p in d.added) ::
      if p in cur && (p !in prev || p in d.added || p in d.changed) then cur[p] else prev[p]
  }

  /** Does a snapshot patched this way show what the new one shows: the same processes, each with the same view? */
  ghost predicate Patches(prev: Snapshot, d: Diff, cur: Snapshot) {
    var m := Patch(prev.sessions, d, cur.sessions);
    m.Keys == cur.sessions.Keys && forall p :: p in m ==> ViewOf(m[p]) == ViewOf(cur.sessions[p])
  }

  /** Which diffs do: exactly those that name everyone the computed one names and remove nobody who is still there.
      So the computed diff patches, and leaving out any of its entries breaks that. */
  lemma PatchesExactly(prev: Snapshot, cur: Snapshot, d: Diff, e: Diff)
    requires IsDiff(d, prev, cur)
    ensures Patches(prev, d, cur)
    ensures Patches(prev, e, cur) <==>
            && (forall p :: p in d.added ==> p in e.added)
            && (forall p :: p in d.removed ==> p in e.removed)
            && (forall p :: p in d.changed ==> p in e.changed || p in e.added)
            && (forall p :: p in e.removed ==> p !in cur.sessions)
  {
    PatchedIf(prev, cur, d, d);
    if Patches(prev, e, cur) {
      var m := Patch(prev.sessions, e, cur.sessions);
      forall p ensures (p in d.added ==> p in e.added) && (p in d.removed ==> p in e.removed)
                       && (p in d.changed ==> p in e.changed || p in e.added)
                       && (p in e.removed ==> p !in cur.sessions) {
        assert p in m <==> p in cur.sessions;
      }
    } else if (forall p :: p in d.added ==> p in e.added) && (forall p :: p in d.removed ==> p in e.removed)
              && (forall p :: p in d.changed ==> p in e.changed || p in e.added)
              && (forall p :: p in e.removed ==> p !in cur.sessions) {
      PatchedIf(prev, cur, d, e);
    }
  }

  lemma PatchedIf(prev: Snapshot, cur: Snapshot, d: Diff, e: Diff)
    requires IsDiff(d, prev, cur)
    requires forall p :: p in d.added ==> p in e.added
    requires forall p :: p in d.removed ==> p in e.removed
    requires forall p :: p in d.changed ==> p in e.changed || p in e.added
    requires forall p :: p in e.removed ==> p !in cur.sessions
    ensures Patches(prev, e, cur)
  {
    var m := Patch(prev.sessions, e, cur.sessions);
    forall p ensures p in m <==> p in cur.sessions {
      assert p in d.added <==> p in cur.sessions.Keys - prev.sessions.Keys;
      assert p in d.removed <==> p in prev.sessions.Keys - cur.sessions.Keys;
    }
    forall p | p in m ensures ViewOf(m[p]) == ViewOf(cur.sessions[p]) {
      assert p in d.changed <==> p in ChangedPids(prev.sessions, cur.sessions);
    }
  }

  /** What the three lists are, field by field. */
  lemma DiffMeans(prev: Snapshot, cur: Snapshot, d: Diff)
    requires IsDiff(d, prev, cur)
    ensures forall p :: p in d.added <==> p in cur.sessions && p !in prev.sessions
    ensures forall p :: p in d.removed <==> p in prev.sessions && p !in cur.sessions
    ensures forall p :: p in d.changed <==>
              && p in prev.sessions && p in cur.sessions
              && var a, b := prev.sessions[p], cur.sessions[p];
                 !(a.state == b.state && a.waitEvent == b.waitEvent && a.waitEventType == b.waitEventType
                   && a.isRoot == b.isRoot && a.query == b.query && a.blockedBy == b.blockedBy)
  {
    forall p ensures p in d.changed <==> p in ChangedPids(prev.sessions, cur.sessions) {
    }
  }

  /** The way back: who came goes, who went comes. */
  function Reverse(d: Diff): Diff {
    Diff(d.removed, d.added, d.changed)
  }

  /** One diff serves both directions: reversed it is a diff from the new snapshot to the previous one, and undoes
      the patch. Its three lists have nobody in common. */
  lemma DiffReverses(prev: Snapshot, cur: Snapshot, d: Diff)
    ensures IsDiff(d, prev, cur) <==> IsDiff(Reverse(d), cur, prev)
    ensures IsDiff(d, prev, cur) ==>
              && Patches(cur, Reverse(d), prev)
              && forall p :: !(p in d.added && p in d.removed) && !(p in d.added && p in d.changed)
                  && !(p in d.removed && p in d.changed)
  {
    hide Patches, ViewOf;
    assert ChangedPids(prev.sessions, cur.sessions) == ChangedPids(cur.sessions, prev.sessions);
    if IsDiff(d, prev, cur) {
      PatchesExactly(cur, prev, Reverse(d), Reverse(d));
    }
  }
}
