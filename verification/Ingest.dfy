/** Redaction at ingestion (internal/redact/source.go), and what it means for everything behind it: no unmasked query
    text in the ring, the table, the channels or the audit trail, in any run (internal/poller/poller.go,
    cmd/pglockr/main.go). A masked text reads as literal-free; that the literals of the original are gone takes more,
    see `Exact`.
 */
module Ingest {
  import opened Lexer
  import opened Redact
  import opened MaskTheory
  import opened Exact
  import opened Graph
  import opened Rings
  import opened Persist
  import opened Audit
  import opened Signal
  import opened Hub
  import opened HubInvariant

  /** A poll of the cluster: sessions and lock labels, or an error. */
  datatype Polled = Polled(sessions: map<int, Session>, labels: map<EdgeKey, LockLabel>) | PollError(msg: string)

  function MaskText(q: string): string {
    Masked(false, q)
  }

  function MaskSession(s: Session): Session {
    s.(query := MaskText(s.query))
  }

  function MaskSessions(sessions: map<int, Session>): (r: map<int, Session>)
    ensures r.Keys == sessions.Keys && forall p :: p in sessions ==> r[p] == MaskSession(sessions[p])
  {
    map p | p in sessions :: MaskSession(sessions[p])
  }

  /** Passes an error on; otherwise masks the query of every session, in any order. */
  method SourceSnapshot(inner: Polled) returns (out: Polled)
    ensures out == if inner.PollError? then inner else Polled(MaskSessions(inner.sessions), inner.labels)
    ensures inner.Polled? ==> out.Polled? && out.sessions.Keys == inner.sessions.Keys && out.labels == inner.labels
    ensures inner.Polled? ==> forall p :: p in inner.sessions ==>
              out.sessions[p] == inner.sessions[p].(query := Masked(false, inner.sessions[p].query))
  {
    if inner.PollError? {
      return inner;
    }
    hide MaskText;
    var sessions := inner.sessions;
    var rest := sessions.Keys;
    while rest != {}
      invariant rest <= inner.sessions.Keys && sessions.Keys == inner.sessions.Keys
      invariant forall p :: p in sessions ==>
                  sessions[p] == if p in rest then inner.sessions[p] else MaskSession(inner.sessions[p])
      decreases rest
    {
      Inhabited(rest);
      var pid :| pid in rest;
      var query := Redact.Mask(sessions[pid].query);
      MaskTextIs(sessions[pid].query);
      sessions := sessions[pid := sessions[pid].(query := query)];
      rest := rest - {pid};
    }
    assert forall p :: p in sessions ==> sessions[p] == MaskSessions(inner.sessions)[p];
    assert sessions == MaskSessions(inner.sessions);
    out := Polled(sessions, inner.labels);
  }

  lemma MaskTextIs(q: string)
    ensures MaskText(q) == Render(EraseAll(Lex(false, q)))
  {
  }

  // ---- Over runs

  /** Is masking this text again without effect - that is, does reading it find no literal? */
  predicate IsMasked(q: string) {
    MaskText(q) == q
  }

  /** Is this one of the queries polled, with each of its literals and comment texts replaced - or no query at all? */
  ghost predicate IsErased(q: string, polled: string -> bool) {
    q == "" || exists original :: polled(original) && q == ExactMasked(false, original)
  }

  /** Is every query text of the snapshot ok? */
  ghost predicate Texts(s: Snapshot, ok: string -> bool) {
    forall p :: p in s.sessions ==> ok(s.sessions[p].query)
  }

  /** Is `s` what one poll puts with redaction on, `polled` holding of every query polled? */
  ghost predicate IsRedactedPut(s: Snapshot, polled: string -> bool) {
    exists cluster: string, takenAt: int, sessions: map<int, Session>, labels: map<EdgeKey, LockLabel> ::
      && (forall p :: p in sessions ==> polled(sessions[p].query))
      && IsBuild(s, cluster, takenAt, MaskSessions(sessions), labels)
  }

  predicate NoGlitch(q: string) {
    !Glitch(Lex(false, q))
  }

  predicate NoDrift(q: string) {
    !Drifts(ExactLex(false, q))
  }

  lemma QueriesKept(s: Snapshot, cluster: string, takenAt: int, sessions: map<int, Session>,
      labels: map<EdgeKey, LockLabel>)
    requires IsBuild(s, cluster, takenAt, sessions, labels)
    ensures s.sessions.Keys == sessions.Keys && forall p :: p in sessions ==> s.sessions[p].query == sessions[p].query
  {
  }

  lemma RedactedTexts(s: Snapshot, polled: string -> bool, ok: string -> bool)
    requires IsRedactedPut(s, polled) && forall q :: polled(q) ==> ok(MaskText(q))
    ensures Texts(s, ok)
  {
    hide MaskText, IsBuild;
    var cluster: string, takenAt: int, sessions: map<int, Session>, labels: map<EdgeKey, LockLabel> :|
      (forall p :: p in sessions ==> polled(sessions[p].query))
      && IsBuild(s, cluster, takenAt, MaskSessions(sessions), labels);
    QueriesKept(s, cluster, takenAt, MaskSessions(sessions), labels);
    forall p | p in s.sessions ensures ok(s.sessions[p].query) {
      assert s.sessions[p].query == MaskText(sessions[p].query);
    }
  }

  /** Everything that stores or passes on query texts, but for these rows and audit entries. */
  ghost predicate AllTexts(st: State, ok: string -> bool, rows: seq<Row>, trail: seq<Entry>)
    requires st.ring.Valid()
  {
    && (forall i :: 0 <= i < |st.ring.Contents()| ==> Texts(st.ring.Contents()[i], ok))
    && (forall r :: r in st.db.rows ==> r in rows || Texts(r.data, ok))
    && (forall id :: 0 <= id < |st.clients| ==> ClientTexts(st.clients[id], ok))
    && (forall e :: e in st.audit ==> e in trail || ok(e.victimQuery))
  }

  /** Are the query texts that the database held at the start ok? Not if an earlier process ran with redaction off. */
  ghost predicate FoundTexts(cfg: Config, ok: string -> bool) {
    && (forall r :: r in cfg.Found() ==> Texts(r.data, ok))
    && (forall e :: e in cfg.FoundAudit() ==> ok(e.victimQuery))
  }

  /** Everything this process adds is ok; and all there is, if what it found was. */
  ghost predicate AddsOnly(cfg: Config, st: State, ok: string -> bool)
    requires st.ring.Valid()
  {
    && AllTexts(st, ok, cfg.Found(), cfg.FoundAudit())
    && (FoundTexts(cfg, ok) ==> AllTexts(st, ok, [], []))
  }

  ghost predicate ClientTexts(c: Client, ok: string -> bool) {
    && (c.first.Some? ==> Texts(c.first.value, ok))
    && (forall i :: 0 <= i < |c.slot| ==> Texts(c.slot[i].snap, ok))
    && (forall i :: 0 <= i < |c.received| ==> Texts(c.received[i].snap, ok))
  }

  ghost predicate PutsTexts(st: State, ok: string -> bool) {
    forall i :: 0 <= i < |st.puts| ==> Texts(st.puts[i], ok)
  }

  ghost predicate AuditTexts(cfg: Config, st: State, ok: string -> bool) {
    forall e :: e in st.audit ==> e in cfg.FoundAudit() || ok(e.victimQuery)
  }

  lemma AuditStep(cfg: Config, st: State, step: Step, ok: string -> bool)
    requires cfg.cap > 0 && Inv(cfg, st) && ok("") && PutsTexts(st, ok) && AuditTexts(cfg, st, ok)
    ensures AuditTexts(cfg, Next(cfg, st, step), ok)
  {
    hide DbInv, ClientsInv, SaveDb, Ring.Put, Offer;
    if step.Act? && Enabled(st, step) {
      LatestIsLastPut(cfg, st);
    }
  }

  lemma ClientMasked(c: Client, puts: seq<Snapshot>, ok: string -> bool)
    requires ClientOk(c, puts) && forall i :: 0 <= i < |puts| ==> Texts(puts[i], ok)
    ensures ClientTexts(c, ok)
  {
    hide Accounted, Texts;
    var all := c.received + c.slot;
    assert forall i :: 0 <= i < |c.received| ==> c.received[i] == all[i];
    assert forall i :: 0 <= i < |c.slot| ==> c.slot[i] == all[|c.received| + i];
  }

  lemma {:induction false} RunTexts(cfg: Config, empty: Snapshot, steps: seq<Step>, ok: string -> bool)
    requires cfg.cap > 0 && ok("") && forall i :: 0 <= i < |steps| && steps[i].Lock? ==> Texts(steps[i].snap, ok)
    ensures var st := Run(cfg, empty, steps); PutsTexts(st, ok) && AuditTexts(cfg, st, ok)
    decreases |steps|
  {
    hide Inv, Texts, AuditTexts;
    if steps == [] {
      NoTexts(cfg, empty, ok);
    } else {
      var init, last := steps[..|steps| - 1], steps[|steps| - 1];
      RunTexts(cfg, empty, init, ok);
      RunInv(cfg, empty, init);
      var st := Run(cfg, empty, init);
      AuditStep(cfg, st, last, ok);
      PutsStep(cfg, st, last, ok);
    }
  }

  lemma NoTexts(cfg: Config, empty: Snapshot, ok: string -> bool)
    requires cfg.cap > 0
    ensures var st := Run(cfg, empty, []); PutsTexts(st, ok) && AuditTexts(cfg, st, ok)
  {
  }

  lemma PutsStep(cfg: Config, st: State, step: Step, ok: string -> bool)
    requires st.ring.Valid() && PutsTexts(st, ok) && (step.Lock? ==> Texts(step.snap, ok))
    ensures PutsTexts(Next(cfg, st, step), ok)
  {
    hide Texts, SaveDb, Ring.Put, Offer, EntryFor, Latest;
  }

  /** Whatever holds of the query texts of every snapshot put, and of the empty text, holds in every reachable state
      of every query text in the ring, the channels, what clients were sent, and - but for what the database held at
      the start - in the table and the audit trail: none of them makes one up. */
  lemma TextsComeFromPuts(cfg: Config, empty: Snapshot, steps: seq<Step>, ok: string -> bool)
    requires cfg.cap > 0 && ok("") && forall i :: 0 <= i < |steps| && steps[i].Lock? ==> Texts(steps[i].snap, ok)
    ensures AddsOnly(cfg, Run(cfg, empty, steps), ok)
  {
    hide Run, Texts, ClientOk, StaleOk, OfferedOk, ClientTexts;
    RunTexts(cfg, empty, steps, ok);
    RunInv(cfg, empty, steps);
    var st := Run(cfg, empty, steps);
    forall id | 0 <= id < |st.clients| ensures ClientTexts(st.clients[id], ok) {
      ClientMasked(st.clients[id], st.puts, ok);
    }
  }

  /** Did redaction see every snapshot put, `polled` holding of every query it was given? */
  ghost predicate RedactedRun(steps: seq<Step>, polled: string -> bool) {
    forall i :: 0 <= i < |steps| && steps[i].Lock? ==> IsRedactedPut(steps[i].snap, polled)
  }

  lemma RunRedacted(cfg: Config, empty: Snapshot, steps: seq<Step>, polled: string -> bool, ok: string -> bool)
    requires cfg.cap > 0 && RedactedRun(steps, polled) && ok("") && forall q :: polled(q) ==> ok(MaskText(q))
    ensures AddsOnly(cfg, Run(cfg, empty, steps), ok)
  {
    hide Run, Texts, IsRedactedPut, AddsOnly, MaskText;
    forall i | 0 <= i < |steps| && steps[i].Lock? ensures Texts(steps[i].snap, ok) {
      RedactedTexts(steps[i].snap, polled, ok);
    }
    TextsComeFromPuts(cfg, empty, steps, ok);
  }

  /** With redaction on and no glitch in what is polled: in every reachable state every query text this process
      stores or passes on is one that masking leaves as it is. What a drift lets through can still be among them: see
      `Exact.StringEscapes`. */
  lemma RedactionHolds(cfg: Config, empty: Snapshot, steps: seq<Step>)
    requires cfg.cap > 0 && RedactedRun(steps, NoGlitch)
    ensures AddsOnly(cfg, Run(cfg, empty, steps), IsMasked)
  {
    hide Run, RedactedRun, AddsOnly, Masked, Glitch;
    assert IsMasked("") by { MaskedEmpty(false); }
    forall q | NoGlitch(q) ensures IsMasked(MaskText(q)) {
      MaskIdempotent(q);
    }
    RunRedacted(cfg, empty, steps, NoGlitch, IsMasked);
  }

  /** With redaction on and no drift in the queries polled: every query text this process stores or passes on is one of
      these queries with each of its literals and comment texts replaced. */
  lemma LiteralsKeptOut(cfg: Config, empty: Snapshot, steps: seq<Step>, polled: string -> bool)
    requires cfg.cap > 0 && RedactedRun(steps, polled) && forall q :: polled(q) ==> NoDrift(q)
    ensures AddsOnly(cfg, Run(cfg, empty, steps), q => IsErased(q, polled))
  {
    hide Run, RedactedRun, AddsOnly, Masked, ExactMasked, NoDrift;
    forall q | polled(q) ensures IsErased(MaskText(q), polled) {
      ErasedIfExact(q);
    }
    RunRedacted(cfg, empty, steps, polled, q => IsErased(q, polled));
  }

  lemma ErasedIfExact(q: string)
    requires NoDrift(q)
    ensures MaskText(q) == ExactMasked(false, q)
  {
    hide Lex, ExactLex, Drifts;
    LiteralsGone(q);
  }

  /** ASCII queries drift nowhere. */
  lemma AsciiPut(s: Snapshot, cluster: string, takenAt: int, sessions: map<int, Session>,
      labels: map<EdgeKey, LockLabel>)
    requires forall p :: p in sessions ==> Ascii(sessions[p].query)
    requires IsBuild(s, cluster, takenAt, MaskSessions(sessions), labels)
    ensures IsRedactedPut(s, NoDrift) && IsRedactedPut(s, NoGlitch)
  {
    hide Glitch, Lex, Drifts, ExactLex, Ascii;
    forall p | p in sessions ensures NoDrift(sessions[p].query) && NoGlitch(sessions[p].query) {
      AsciiNoDrift(false, sessions[p].query);
      AsciiHasNoGlitch(false, sessions[p].query);
    }
  }
}
