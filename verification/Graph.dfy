/** The wait-for graph (internal/graph/types.go, internal/graph/builder.go). Times are nanoseconds. */
module Graph {
  import opened Seqs

  datatype Session = Session(
    pid: int, user: string, appName: string, clientAddr: string, state: string,
    waitEventType: string, waitEvent: string, backendType: string,
    xactStart: int, queryStart: int, waitStart: int,
    query: string, blockedBy: seq<int>, isRoot: bool)

  datatype Edge = Edge(waiter: int, blocker: int, lockType: string, relation: string, waiterMode: string,
      blockerMode: string)

  datatype EdgeKey = EdgeKey(waiter: int, blocker: int)

  datatype LockLabel = LockLabel(lockType: string, relation: string, waiterMode: string, blockerMode: string)

  datatype Snapshot = Snapshot(cluster: string, takenAt: int, sessions: map<int, Session>, edges: seq<Edge>,
      roots: seq<int>)

  // ---- What Build promises

  /** The edge for a confirmed pair, with its label if there is one. */
  function EdgeOf(w: int, b: int, labels: map<EdgeKey, LockLabel>): Edge {
    var k := EdgeKey(w, b);
    if k in labels then
      Edge(w, b, labels[k].lockType, labels[k].relation, labels[k].waiterMode, labels[k].blockerMode)
    else Edge(w, b, "", "", "", "")
  }

  /** How often a pair was confirmed: the number of times `b` is listed as a blocker of `w`. */
  function Confirmed(sessions: map<int, Session>, w: int, b: int): nat {
    if w in sessions then multiset(sessions[w].blockedBy)[b] else 0
  }

  predicate EdgeLeq(x: Edge, y: Edge) {
    if x.waiter != y.waiter then x.waiter < y.waiter else x.blocker <= y.blocker
  }

  predicate IntLeq(x: int, y: int) {
    x <= y
  }

  ghost predicate Blocks(sessions: map<int, Session>, p: int) {
    exists w :: w in sessions && p in sessions[w].blockedBy
  }

  /** Head blockers: known, blocking someone, waiting for nobody. */
  ghost predicate IsHead(sessions: map<int, Session>, p: int) {
    p in sessions && sessions[p].blockedBy == [] && Blocks(sessions, p)
  }

  function Marked(s: Session, root: bool): Session {
    if root then s.(isRoot := true) else s
  }

  /** The edges are the sorted arrangement of the confirmed pairs, each as often as it was confirmed. */
  ghost predicate EdgesFor(edges: seq<Edge>, sessions: map<int, Session>, labels: map<EdgeKey, LockLabel>) {
    && (forall e :: e in edges ==> e == EdgeOf(e.waiter, e.blocker, labels))
    && (forall w, b :: multiset(edges)[EdgeOf(w, b, labels)] == Confirmed(sessions, w, b))
  }

  ghost predicate IsBuild(snap: Snapshot, cluster: string, takenAt: int, sessions: map<int, Session>,
      labels: map<EdgeKey, LockLabel>) {
    && snap.cluster == cluster && snap.takenAt == takenAt
    && Sorted(snap.edges, EdgeLeq) && EdgesFor(snap.edges, sessions, labels)
    && Sorted(snap.roots, IntLeq) && NoDuplicates(snap.roots)
    && (forall p :: p in snap.roots <==> IsHead(sessions, p))
    && snap.sessions.Keys == sessions.Keys
    && (forall p :: p in sessions ==> snap.sessions[p] == Marked(sessions[p], p in snap.roots))
  }

  // ---- Build

  /** Both maps are walked in an arbitrary order. */
  method Build(cluster: string, takenAt: int, input: map<int, Session>, labels: map<EdgeKey, LockLabel>)
      returns (snap: Snapshot)
    ensures IsBuild(snap, cluster, takenAt, input, labels)
    ensures (forall p :: p in input ==> !input[p].isRoot) ==>
              forall p :: p in snap.roots <==> p in snap.sessions && snap.sessions[p].isRoot
    ensures forall p :: p in input ==> snap.sessions[p].(isRoot := false) == input[p].(isRoot := false)
    ensures forall p :: p in snap.roots <==>
              && p in snap.sessions
              && (exists e :: e in snap.edges && e.blocker == p) && (forall e :: e in snap.edges ==> e.waiter != p)
  {
    hide EdgesFor, IsHead, Sorted, NoDuplicates;
    var edges, isBlocker := Edges(input, labels);
    var sessions, roots := Roots(input, isBlocker);
    EdgesSorted(edges, input, labels);
    RootsSorted(roots);
    snap := Snapshot(cluster, takenAt, sessions, Sort(edges, EdgeLeq), Sort(roots, IntLeq));
    assert forall p :: p in snap.roots <==> p in roots;
    RootFlags(snap, cluster, takenAt, input, labels);
    RootsMean(snap, cluster, takenAt, input, labels);
  }

  lemma EdgesSorted(edges: seq<Edge>, sessions: map<int, Session>, labels: map<EdgeKey, LockLabel>)
    requires EdgesFor(edges, sessions, labels)
    ensures EdgesFor(Sort(edges, EdgeLeq), sessions, labels) && Sorted(Sort(edges, EdgeLeq), EdgeLeq)
  {
    EdgeOrder();
    SortSorted(edges, EdgeLeq);
    SortKeeps(edges, EdgeLeq);
  }

  lemma RootsSorted(roots: seq<int>)
    requires NoDuplicates(roots)
    ensures var r := Sort(roots, IntLeq); Sorted(r, IntLeq) && NoDuplicates(r) && forall p :: p in r <==> p in roots
  {
    EdgeOrder();
    SortSorted(roots, IntLeq);
    SortKeeps(roots, IntLeq);
    SortNoDuplicates(roots, IntLeq);
  }

  /** The root flags are the roots, when the sessions come in unflagged - and nothing else changes. */
  lemma RootFlags(snap: Snapshot, cluster: string, takenAt: int, sessions: map<int, Session>,
      labels: map<EdgeKey, LockLabel>)
    requires IsBuild(snap, cluster, takenAt, sessions, labels)
    ensures (forall p :: p in sessions ==> !sessions[p].isRoot) ==>
              forall p :: p in snap.roots <==> p in snap.sessions && snap.sessions[p].isRoot
    ensures snap.sessions.Keys == sessions.Keys
    ensures forall p :: p in sessions ==> snap.sessions[p].(isRoot := false) == sessions[p].(isRoot := false)
  {
  }

  method Edges(sessions: map<int, Session>, labels: map<EdgeKey, LockLabel>)
      returns (edges: seq<Edge>, isBlocker: set<int>)
    ensures EdgesFor(edges, sessions, labels)
    ensures forall p :: p in isBlocker <==> Blocks(sessions, p)
  {
    edges, isBlocker := [], {};
    var rest := sessions.Keys;
    while rest != {}
      invariant rest <= sessions.Keys
      invariant forall e :: e in edges ==> e == EdgeOf(e.waiter, e.blocker, labels)
      invariant forall w, b :: multiset(edges)[EdgeOf(w, b, labels)] == if w in rest then 0
          else Confirmed(sessions, w, b)
      invariant forall p :: p in isBlocker <==> exists w :: w in sessions && w !in rest && p in sessions[w].blockedBy
      decreases rest
    {
      Inhabited(rest);
      var pid :| pid in rest;
      edges, isBlocker := EdgesOfWaiter(pid, sessions[pid].blockedBy, labels, edges, isBlocker);
      rest := rest - {pid};
    }
  }

  method EdgesOfWaiter(pid: int, blockedBy: seq<int>, labels: map<EdgeKey, LockLabel>, edges0: seq<Edge>,
      isBlocker0: set<int>)
    returns (edges: seq<Edge>, isBlocker: set<int>)
    requires forall e :: e in edges0 ==> e == EdgeOf(e.waiter, e.blocker, labels)
    ensures forall e :: e in edges ==> e == EdgeOf(e.waiter, e.blocker, labels)
    ensures forall w, b :: multiset(edges)[EdgeOf(w, b, labels)] ==
                           multiset(edges0)[EdgeOf(w, b, labels)] + if w == pid then multiset(blockedBy)[b] else 0
    ensures forall p :: p in isBlocker <==> p in isBlocker0 || p in blockedBy
  {
    edges, isBlocker := edges0, isBlocker0;
    for k := 0 to |blockedBy|
      invariant forall e :: e in edges ==> e == EdgeOf(e.waiter, e.blocker, labels)
      invariant forall w, b :: multiset(edges)[EdgeOf(w, b, labels)] ==
                               multiset(edges0)[EdgeOf(w, b, labels)] + if w == pid then multiset(blockedBy[..k])[b]
                                   else 0
      invariant forall p :: p in isBlocker <==> p in isBlocker0 || p in blockedBy[..k]
    {
      var blocker := blockedBy[k];
      assert blockedBy[..k + 1] == blockedBy[..k] + [blocker];
      isBlocker := isBlocker + {blocker};
      var e := Edge(pid, blocker, "", "", "", "");
      var key := EdgeKey(pid, blocker);
      if key in labels {
        var l := labels[key];
        e := e.(lockType := l.lockType, relation := l.relation, waiterMode := l.waiterMode,
            blockerMode := l.blockerMode);
      }
      edges := edges + [e];
    }
    assert blockedBy[..|blockedBy|] == blockedBy;
  }

  method Roots(input: map<int, Session>, isBlocker: set<int>) returns (sessions: map<int, Session>, roots: seq<int>)
    requires forall p :: p in isBlocker <==> Blocks(input, p)
    ensures NoDuplicates(roots) && forall p :: p in roots <==> IsHead(input, p)
    ensures forall p :: p in roots <==> p in isBlocker && p in input && |input[p].blockedBy| == 0
    ensures sessions.Keys == input.Keys && forall p :: p in input ==> sessions[p] == Marked(input[p], p in roots)
  {
    sessions, roots := input, [];
    var rest := isBlocker;
    while rest != {}
      invariant rest <= isBlocker
      invariant NoDuplicates(roots) && forall p :: p in roots <==> IsHead(input, p) && p !in rest
      invariant sessions.Keys == input.Keys && forall p :: p in input ==> sessions[p] == Marked(input[p], p in roots)
      decreases rest
    {
      Inhabited(rest);
      var pid :| pid in rest;
      rest := rest - {pid};
      if pid !in sessions {
        continue;
      }
      var s := sessions[pid];
      if |s.blockedBy| == 0 {
        s := s.(isRoot := true);
        sessions := sessions[pid := s];
        roots := roots + [pid];
      }
    }
  }

  lemma Inhabited(s: set<int>)
    ensures s == {} || exists x :: x in s
  {
    if forall x :: x !in s {
      assert s == {};
    }
  }

  lemma EdgeOrder()
    ensures TotalOrder(EdgeLeq) && TotalOrder(IntLeq)
  {
  }

  // ---- One result

  lemma EdgesSame(a: seq<Edge>, b: seq<Edge>, sessions: map<int, Session>, la: map<EdgeKey, LockLabel>,
      lb: map<EdgeKey, LockLabel>)
    requires EdgesFor(a, sessions, la) && EdgesFor(b, sessions, lb)
    requires forall w, p :: Confirmed(sessions, w, p) > 0 ==> EdgeOf(w, p, la) == EdgeOf(w, p, lb)
    ensures multiset(a) == multiset(b)
  {
    forall e ensures multiset(a)[e] == multiset(b)[e] {
      assert e in a <==> e in multiset(a);
      assert e in b <==> e in multiset(b);
      var w, p := e.waiter, e.blocker;
      assert multiset(a)[EdgeOf(w, p, la)] == Confirmed(sessions, w, p) == multiset(b)[EdgeOf(w, p, lb)];
    }
  }

  /** Build has one result, whatever order it walks its maps in and however it sorts; labels of pairs that were not
      confirmed have no part in it. */
  lemma BuildUnique(x: Snapshot, y: Snapshot, cluster: string, takenAt: int, sessions: map<int, Session>,
                    lx: map<EdgeKey, LockLabel>, ly: map<EdgeKey, LockLabel>)
    requires IsBuild(x, cluster, takenAt, sessions, lx) && IsBuild(y, cluster, takenAt, sessions, ly)
    requires forall w, b :: Confirmed(sessions, w, b) > 0 ==> EdgeOf(w, b, lx) == EdgeOf(w, b, ly)
    ensures x == y
  {
    EdgesSame(x.edges, y.edges, sessions, lx, ly);
    EdgesUntied(x.edges, sessions, lx);
    SortUnique(x.edges, y.edges, EdgeLeq);
    RootsSame(x.roots, y.roots);
    forall p | p in sessions ensures x.sessions[p] == y.sessions[p] {
      assert x.sessions[p] == Marked(sessions[p], p in x.roots);
      assert y.sessions[p] == Marked(sessions[p], p in y.roots);
    }
    assert x.sessions == y.sessions;
  }

  lemma EdgesUntied(edges: seq<Edge>, sessions: map<int, Session>, labels: map<EdgeKey, LockLabel>)
    requires EdgesFor(edges, sessions, labels)
    ensures forall e, f :: e in edges && f in edges && EdgeLeq(e, f) && EdgeLeq(f, e) ==> e == f
  {
  }

  lemma RootsSame(x: seq<int>, y: seq<int>)
    requires Sorted(x, IntLeq) && NoDuplicates(x) && Sorted(y, IntLeq) && NoDuplicates(y)
    requires forall p :: p in x <==> p in y
    ensures x == y
  {
    NoDuplicatesCounts(x);
    NoDuplicatesCounts(y);
    forall p ensures multiset(x)[p] == multiset(y)[p] {
      assert p in x <==> p in multiset(x);
      assert p in y <==> p in multiset(y);
    }
    SortUnique(x, y, IntLeq);
  }

  function PairOf(e: Edge): (int, int) {
    (e.waiter, e.blocker)
  }

  lemma {:induction false} PairsCounted(edges: seq<Edge>, labels: map<EdgeKey, LockLabel>, w: int, b: int)
    requires forall e :: e in edges ==> e == EdgeOf(e.waiter, e.blocker, labels)
    ensures multiset(Map(PairOf, edges))[(w, b)] == multiset(edges)[EdgeOf(w, b, labels)]
  {
    if edges != [] {
      var e, rest := edges[0], edges[1..];
      PairsCounted(rest, labels, w, b);
      assert edges == [e] + rest && Map(PairOf, edges) == [PairOf(e)] + Map(PairOf, rest);
      assert e == EdgeOf(e.waiter, e.blocker, labels);
    }
  }

  /** Has the edge the label of its pair - or none, if the pair has none? */
  predicate Labelled(e: Edge, labels: map<EdgeKey, LockLabel>) {
    var k := EdgeKey(e.waiter, e.blocker);
    if k in labels then
      && e.lockType == labels[k].lockType && e.relation == labels[k].relation
      && e.waiterMode == labels[k].waiterMode && e.blockerMode == labels[k].blockerMode
    else e.lockType == e.relation == e.waiterMode == e.blockerMode == ""
  }

  /** What is in the snapshot, field by field: the edges are the confirmed pairs, sorted, each as often as it was
      confirmed, with the label of the pair or none; a root is a known process that blocks somebody in the graph and
      waits for nobody in it; of the sessions only the root flags change. */
  lemma BuildMeans(snap: Snapshot, cluster: string, takenAt: int, sessions: map<int, Session>,
      labels: map<EdgeKey, LockLabel>)
    requires IsBuild(snap, cluster, takenAt, sessions, labels)
    ensures snap.cluster == cluster && snap.takenAt == takenAt && snap.sessions.Keys == sessions.Keys
    ensures forall w, b ::
              multiset(Map(PairOf, snap.edges))[(w, b)] == if w in sessions then multiset(sessions[w].blockedBy)[b]
                  else 0
    ensures forall e :: e in snap.edges ==> Labelled(e, labels)
    ensures forall i, j :: 0 <= i < j < |snap.edges| ==>
              var x, y := snap.edges[i], snap.edges[j];
              x.waiter < y.waiter || (x.waiter == y.waiter && x.blocker <= y.blocker)
    ensures forall p :: p in snap.roots <==>
              && p in snap.sessions
              && (exists e :: e in snap.edges && e.blocker == p) && (forall e :: e in snap.edges ==> e.waiter != p)
    ensures snap.edges == [] ==> snap.roots == []
    ensures forall i, j :: 0 <= i < j < |snap.roots| ==> snap.roots[i] < snap.roots[j]
    ensures forall p :: p in sessions ==>
              && snap.sessions[p].isRoot == (sessions[p].isRoot || p in snap.roots)
              && snap.sessions[p].(isRoot := false) == sessions[p].(isRoot := false)
  {
    hide *;
    HeaderMeans(snap, cluster, takenAt, sessions, labels);
    EdgesMean(snap.edges, sessions, labels);
    RootsMean(snap, cluster, takenAt, sessions, labels);
    assert |snap.roots| > 0 ==> snap.roots[0] in snap.roots;
  }

  lemma HeaderMeans(snap: Snapshot, cluster: string, takenAt: int, sessions: map<int, Session>,
      labels: map<EdgeKey, LockLabel>)
    requires IsBuild(snap, cluster, takenAt, sessions, labels)
    ensures snap.cluster == cluster && snap.takenAt == takenAt && snap.sessions.Keys == sessions.Keys
    ensures EdgesFor(snap.edges, sessions, labels)
    ensures forall i, j :: 0 <= i < j < |snap.edges| ==>
              var x, y := snap.edges[i], snap.edges[j];
              x.waiter < y.waiter || (x.waiter == y.waiter && x.blocker <= y.blocker)
    ensures forall i, j :: 0 <= i < j < |snap.roots| ==> snap.roots[i] < snap.roots[j]
    ensures forall p :: p in sessions ==>
              && snap.sessions[p].isRoot == (sessions[p].isRoot || p in snap.roots)
              && snap.sessions[p].(isRoot := false) == sessions[p].(isRoot := false)
  {
    hide EdgesFor, IsHead;
    forall i, j | 0 <= i < j < |snap.roots| ensures snap.roots[i] < snap.roots[j] {
      assert IntLeq(snap.roots[i], snap.roots[j]);
    }
    forall i, j | 0 <= i < j < |snap.edges|
      ensures var x, y := snap.edges[i], snap.edges[j];
              x.waiter < y.waiter || (x.waiter == y.waiter && x.blocker <= y.blocker)
    {
      assert EdgeLeq(snap.edges[i], snap.edges[j]);
    }
  }

  lemma EdgesMean(edges: seq<Edge>, sessions: map<int, Session>, labels: map<EdgeKey, LockLabel>)
    requires EdgesFor(edges, sessions, labels)
    ensures forall w, b ::
              multiset(Map(PairOf, edges))[(w, b)] == if w in sessions then multiset(sessions[w].blockedBy)[b] else 0
    ensures forall e :: e in edges ==> Labelled(e, labels)
  {
    hide Map;
    forall w, b ensures multiset(Map(PairOf, edges))[(w, b)] ==
                        if w in sessions then multiset(sessions[w].blockedBy)[b] else 0
    {
      PairsCounted(edges, labels, w, b);
      assert multiset(edges)[EdgeOf(w, b, labels)] == Confirmed(sessions, w, b);
    }
    forall e | e in edges ensures Labelled(e, labels) {
      assert e == EdgeOf(e.waiter, e.blocker, labels);
    }
  }

  /** A pair is an edge exactly when it was confirmed. */
  lemma EdgeExists(edges: seq<Edge>, sessions: map<int, Session>, labels: map<EdgeKey, LockLabel>, w: int, b: int)
    requires EdgesFor(edges, sessions, labels)
    ensures (exists e :: e in edges && e.waiter == w && e.blocker == b) <==> w in sessions && b in sessions[w].blockedBy
  {
    var x := EdgeOf(w, b, labels);
    assert x in edges <==> x in multiset(edges);
    assert w in sessions ==> (b in sessions[w].blockedBy <==> b in multiset(sessions[w].blockedBy));
    if w in sessions && b in sessions[w].blockedBy {
      assert x in edges;
    }
  }

  lemma RootMeans(edges: seq<Edge>, sessions: map<int, Session>, labels: map<EdgeKey, LockLabel>, p: int)
    requires EdgesFor(edges, sessions, labels)
    ensures IsHead(sessions, p) <==>
            && p in sessions
            && (exists e :: e in edges && e.blocker == p) && (forall e :: e in edges ==> e.waiter != p)
  {
    hide EdgesFor;
    if e :| e in edges && e.blocker == p {
      EdgeExists(edges, sessions, labels, e.waiter, p);
    }
    if Blocks(sessions, p) {
      var w :| w in sessions && p in sessions[w].blockedBy;
      EdgeExists(edges, sessions, labels, w, p);
    }
    if e :| e in edges && e.waiter == p {
      EdgeExists(edges, sessions, labels, p, e.blocker);
    }
    if p in sessions && sessions[p].blockedBy != [] {
      EdgeExists(edges, sessions, labels, p, sessions[p].blockedBy[0]);
    }
  }

  lemma RootsMean(snap: Snapshot, cluster: string, takenAt: int, sessions: map<int, Session>,
      labels: map<EdgeKey, LockLabel>)
    requires IsBuild(snap, cluster, takenAt, sessions, labels)
    ensures forall p :: p in snap.roots <==>
              && p in snap.sessions
              && (exists e :: e in snap.edges && e.blocker == p) && (forall e :: e in snap.edges ==> e.waiter != p)
  {
    hide EdgesFor, IsHead, Sorted, NoDuplicates;
    forall p
      ensures p in snap.roots <==>
              && p in snap.sessions
              && (exists e :: e in snap.edges && e.blocker == p) && (forall e :: e in snap.edges ==> e.waiter != p)
    {
      RootMeans(snap.edges, sessions, labels, p);
    }
  }

  // ---- Where blocking chains end

  /** A walk along the blocked-by lists: every pid but the last is known, and waits for the next. */
  ghost predicate Walk(sessions: map<int, Session>, p: seq<int>) {
    p != [] && forall i :: 0 <= i < |p| - 1 ==> p[i] in sessions && p[i + 1] in sessions[p[i]].blockedBy
  }

  /** Does some process wait for itself, directly or over others? */
  ghost predicate Cyclic(sessions: map<int, Session>) {
    exists p :: Walk(sessions, p) && |p| > 1 && p[0] == p[|p| - 1]
  }

  ghost predicate BlockersKnown(sessions: map<int, Session>) {
    forall w, b :: w in sessions && b in sessions[w].blockedBy ==> b in sessions
  }

  lemma RepeatIsCycle(sessions: map<int, Session>, p: seq<int>)
    requires Walk(sessions, p) && !NoDuplicates(p)
    ensures Cyclic(sessions)
  {
    var i, j :| 0 <= i < j < |p| && p[i] == p[j];
    var c := p[i..j + 1];
    assert Walk(sessions, c);
  }

  /** Without a cycle no walk visits more than all known processes and one unknown one. */
  lemma WalkBounded(sessions: map<int, Session>, p: seq<int>)
    requires Walk(sessions, p) && !Cyclic(sessions)
    ensures |p| <= |sessions| + 1
    ensures BlockersKnown(sessions) && p[0] in sessions ==> |p| <= |sessions|
  {
    if !NoDuplicates(p) {
      RepeatIsCycle(sessions, p);
    }
    var q := p[..|p| - 1];
    NoDuplicatesFits(q, sessions.Keys);
    if BlockersKnown(sessions) && p[0] in sessions {
      assert |p| > 1 ==> p[|p| - 1] in sessions[p[|p| - 2]].blockedBy;
      NoDuplicatesFits(p, sessions.Keys);
    }
  }

  lemma LastBlocks(sessions: map<int, Session>, p: seq<int>)
    requires Walk(sessions, p) && |p| > 1
    ensures Blocks(sessions, p[|p| - 1])
    ensures BlockersKnown(sessions) ==> p[|p| - 1] in sessions
  {
    var i := |p| - 2;
    var w, b := p[i], p[i + 1];
    assert w in sessions && b in sessions[w].blockedBy;
    assert b == p[|p| - 1];
  }

  /** Can nobody be named that `p` waits for? */
  ghost predicate Stuck(sessions: map<int, Session>, p: int) {
    p in sessions ==> sessions[p].blockedBy == []
  }

  /** A walk that cannot go on ends at a head blocker, or outside the known sessions. */
  lemma StuckAtHead(sessions: map<int, Session>, p: seq<int>)
    requires Walk(sessions, p) && |p| > 1 && Stuck(sessions, p[|p| - 1])
    ensures var last := p[|p| - 1]; last !in sessions || IsHead(sessions, last)
  {
    LastBlocks(sessions, p);
  }

  /** Follow any walk on, always taking the first blocker: it reaches a head blocker, leaves the known sessions, or
      closes a cycle. */
  lemma {:induction false} WalkOn(sessions: map<int, Session>, p: seq<int>) returns (q: seq<int>)
    requires Walk(sessions, p) && |p| > 1 && NoDuplicates(p)
    ensures Walk(sessions, q) && p <= q
    ensures var last := q[|q| - 1]; last !in sessions || IsHead(sessions, last) || !NoDuplicates(q)
    decreases |sessions| + 2 - |p|
  {
    var last := p[|p| - 1];
    NoDuplicatesFits(p[..|p| - 1], sessions.Keys);
    if last !in sessions || sessions[last].blockedBy == [] {
      StuckAtHead(sessions, p);
      q := p;
    } else {
      var next := p + [sessions[last].blockedBy[0]];
      assert Walk(sessions, next);
      if NoDuplicates(next) {
        q := WalkOn(sessions, next);
      } else {
        q := next;
      }
    }
  }

  /** Every blocking chain ends: whoever waits is, directly or over others, blocked by a head blocker or by a process
      outside the known sessions, or by a cycle. */
  lemma ChainsEnd(sessions: map<int, Session>, w: int) returns (q: seq<int>)
    requires w in sessions && sessions[w].blockedBy != []
    ensures Walk(sessions, q) && |q| > 1 && q[0] == w
    ensures var last := q[|q| - 1]; IsHead(sessions, last) || last !in sessions || !NoDuplicates(q)
  {
    var p := [w, sessions[w].blockedBy[0]];
    if NoDuplicates(p) {
      q := WalkOn(sessions, p);
      assert q[0] == p[0] == w;
    } else {
      q := p;
    }
  }

  /** In an acyclic graph whose blockers are all known, every waiter is transitively blocked by a process that Build
      reports as a root; and no choice of blockers leads anywhere else. */
  lemma RootsBlockAll(snap: Snapshot, cluster: string, takenAt: int, sessions: map<int, Session>,
      labels: map<EdgeKey, LockLabel>, w: int)
    requires IsBuild(snap, cluster, takenAt, sessions, labels)
    requires !Cyclic(sessions) && BlockersKnown(sessions)
    requires w in sessions && sessions[w].blockedBy != []
    ensures exists q :: Walk(sessions, q) && |q| > 1 && q[0] == w && q[|q| - 1] in snap.roots
    ensures forall q :: Walk(sessions, q) && |q| > 1 && q[0] == w && Stuck(sessions, q[|q| - 1]) ==>
        q[|q| - 1] in snap.roots
  {
    var q := ChainsEnd(sessions, w);
    if !NoDuplicates(q) {
      RepeatIsCycle(sessions, q);
    }
    LastBlocks(sessions, q);
    forall q | Walk(sessions, q) && |q| > 1 && q[0] == w && Stuck(sessions, q[|q| - 1])
      ensures q[|q| - 1] in snap.roots
    {
      LastBlocks(sessions, q);
      StuckAtHead(sessions, q);
    }
  }

  /** Edges without roots mean a cycle, or a blocker nobody knows. */
  lemma NoRootsMeansCycle(snap: Snapshot, cluster: string, takenAt: int, sessions: map<int, Session>,
      labels: map<EdgeKey, LockLabel>)
    requires IsBuild(snap, cluster, takenAt, sessions, labels)
    requires snap.edges != [] && snap.roots == []
    ensures Cyclic(sessions) || !BlockersKnown(sessions)
  {
    var e := snap.edges[0];
    assert e in multiset(snap.edges);
    assert Confirmed(sessions, e.waiter, e.blocker) > 0;
    if !Cyclic(sessions) && BlockersKnown(sessions) {
      RootsBlockAll(snap, cluster, takenAt, sessions, labels, e.waiter);
    }
  }
}
