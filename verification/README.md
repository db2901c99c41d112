# pglockr, modelled and proved in Dafny

pglockr watches a PostgreSQL cluster for blocked sessions. It polls, builds a wait-for graph, keeps the last snapshots in a
ring (and all of them in SQLite if asked to), streams them to web clients, and records every cancel or terminate in an audit
trail. Literals in query texts are masked before a snapshot goes anywhere.

This project models that logic and proves what holds for every input and every run. `dafny verify dfyconfig.toml` checks it.

| file | what it models |
|---|---|
| `Lexer.dfy`, `Redact.dfy`, `MaskTheory.dfy` | the query masker: its tokens, its loop, what masking guarantees |
| `Reading.dfy` | the masker's tokens described by their characters alone, and what that means for numbers, names and whole queries |
| `Exact.dfy` | the reading the masker's rules mean, when it is the masker's, and what escapes masking when it is not |
| `Independent.dfy` | masking does not look inside what it replaces |
| `Grants.dfy` | the provisioning script and its quoting, which prints what the masker's rules read |
| `Graph.dfy` | the wait-for graph builder, and where blocking chains end |
| `Ring.dfy`, `Store.dfy`, `Timeline.dfy` | the snapshot ring with its modular indices, the store, lookups in history |
| `Persist.dfy` | the SQLite history: saving, lookups, pruning |
| `Hub.dfy`, `HubInvariant.dfy`, `HubTheorems.dfy` | the store as a concurrent system: one producer, any number of streaming clients |
| `HubSteps.dfy` | what can happen in that system: no step is missing, a put can always be finished |
| `HubStream.dfy` | what a client's connection is sent when that system feeds its loop |
| `HubHistory.dfy` | what ring and table hold in that system, over runs that prune, fail to insert and start on an old database |
| `Stream.dfy`, `Poller.dfy` | the loop of one streaming client, the poll loop |
| `Audit.dfy`, `Signal.dfy` | the two audit sinks, and the service that writes to them |
| `Ingest.dfy` | redaction at ingestion, and what it means for every place a query text can end up |
| `Diff.dfy`, `Signature.dfy` | the snapshot diff, the web page's key for the graph's shape |
| `Seqs.dfy`, `Wrappers.dfy` | sorting, multisets, options |

## How to read the model

*Masker.* The lexer works on the text still to be read, plus one bit: is the character before it a word character? Strings are
sequences of Unicode characters, as the source's runes are. The masker adds a byte offset to a character index when it looks
for the end of a dollar quote (`internal/redact/redact.go:76-79`). The model keeps that. `Reading.MaskReads` gives a second,
independent description of the tokens and their marks, and shows that the masker's are these and no others. `Lexer.Advance` counts the body of a
dollar quote in UTF-8 bytes. The package comment promises that dollar-quoted strings are replaced; the code overshoots when such
a string holds non-ASCII text. Everything proved here is about the code, and two conditions tell how far its promise holds:

- *No glitch* (`MaskTheory.Glitch`): no overshoot ends behind a word character and in front of a digit. Exactly then masking is
  idempotent and reading the masked text again finds no literal. That says nothing about the query's own literals: an overshoot
  that swallows the opening quote of a string leaves the string's text in the output, as in `Exact.StringEscapes`.
- *No drift* (`Exact.Drifts`): every dollar quote with something behind it is ASCII. Exactly then the masker's tokens are the
  ones with every closing tag where it stands; and then every literal of the query is replaced. ASCII texts have no drift, and no
  drift means no glitch.

Tokenisation, losslessness, splitting and the independence from quoted values hold for every text.

*Concurrent store.* `Hub.State` is stepped by `Hub.Step`. A put is a lock step (write the ring, copy the subscriber list in any
order), a save step, one send step per subscriber, and a finish step, as in `internal/store/store.go:61-93`; subscribing, reading
the latest snapshot, receiving, unsubscribing and audited actions may come between any two of them. A step that is not enabled
does nothing, so a run is any list of steps and every interleaving is covered. A run starts on whatever history rows and audit
entries earlier processes left in the database (`Hub.Config`). There is one producer, because
`internal/poller/poller.go:117` is the only caller of `Put`. `Store.Store` has the same operations as methods on an object with an
array, proved against the same ring functions. Sending on a channel that was closed in between is a panic, as in Go; the theorems
about clients, ring, table and redaction hold in all runs, `HubTheorems.PanicExactly` says when a panic comes, and
`HubTheorems.PanicReached` that it can. `HubTheorems.UninterruptedPut` ties the two models of a put together.

*Environment.* Clocks, poll results, errors, and whether an insert or delete succeeds are parameters. A database query is its
meaning over a sequence of rows; where SQL leaves the order of ties open, so does the specification. Map iteration order is an
arbitrary choice. Times are nanoseconds; 64-bit subtraction wraps in the database lookup and saturates in the ring's.

## Model

| member | source | states |
|---|---|---|
| Redact.Mask | internal/redact/redact.go:17-128 | the indexed loop with its output buffer writes exactly the erased tokens of the query, for every text |
| Reading.NextTokenIs | internal/redact/redact.go:27-126 | the next token has a kind and a length exactly when the text reads that way, said with character ranges, first occurrences and where each kind may end |
| Reading.MaskReads | internal/redact/redact.go:17-128 | every query has exactly one list of such tokens, and what is written is the mark of each |
| Reading.NumberMasked | internal/redact/redact.go:111-120 | digits, an optional fraction and an optional signed exponent, not behind a word character, become one question mark |
| Reading.NumeralMasked | internal/redact/redact.go:111-120 | so does anything a number goes on with: digits, points, exponent markers, and signs right behind a marker |
| Reading.NameMasked | internal/redact/redact.go:23-25 | letters, digits and underscores that do not begin with a digit pass through, and what follows stands behind a word |
| Redact.MaskToken | internal/redact/redact.go:27-126 | one turn of the loop advances the index by the token's extent, including the byte-offset overshoot, and writes what is kept of it |
| Redact.MaskDollar | internal/redact/redact.go:68-94 | a dollar sign opens a dollar quote only with a complete tag; otherwise it and its digits are copied |
| MaskTheory.BlockStop | internal/redact/redact.go:38-47 | a block comment ends at its first end marker, and at the end of the text only when there is none |
| MaskTheory.IndexFirst | internal/redact/redact.go:77 | the tag that closes a dollar quote is the first one found behind the opening tag |
| Lexer.LexLossless | internal/redact/redact.go:27-126 | the tokens spell the query: no character is skipped or read twice |
| MaskTheory.MaskSplits | internal/redact/redact.go:27-126 | masking splits at every token boundary, and the second part can be masked on its own exactly when it does not begin with a digit that continues a word |
| MaskTheory.MaskIdempotent | internal/redact/redact.go:17-128 | masking twice is masking once, exactly when the query holds no glitch |
| MaskTheory.MaskLiteralFree | internal/redact/redact.go:6-11 | reading a masked query again finds no string, dollar quote, number or comment text, exactly when the query held no glitch; then its tokens are the erased ones |
| MaskTheory.FixedIffLiteralFree | internal/redact/redact.go:6-11 | the texts masking leaves alone are exactly those that read as literal-free |
| MaskTheory.DollarQuoteExact | internal/redact/redact.go:68-80 | the masker stops exactly behind a closed dollar quote if and only if its body is ASCII, and otherwise overshoots |
| MaskTheory.AsciiHasNoGlitch | internal/redact/redact.go:68-80 | ASCII queries hold no glitch |
| Independent.TokenReplaced | internal/redact/redact.go:27-126 | another literal or comment of the same kind in place of one leaves every token before it as it was |
| Independent.MaskIgnores | internal/redact/redact.go:6-11 | two queries that differ only inside one line comment, block comment, string, number or dollar quote mask alike; for a dollar quote exactly unless only one of the two ends in a word character and a digit follows |
| Exact.LexExact | internal/redact/redact.go:27-126 | the masker's tokens are those with every closing tag where it stands if and only if every dollar quote with something behind it is ASCII |
| Exact.ExactLossless | internal/redact/redact.go:27-126 | that reading, too, loses nothing |
| Exact.LiteralsGone | internal/redact/redact.go:6-11 | without a drift the masked text is the query with every literal and comment text replaced, and reading it again finds just these tokens |
| Exact.AsciiNoDrift | internal/redact/redact.go:76-79 | ASCII queries have no drift |
| Exact.StringEscapes | internal/redact/redact.go:76-79 | with a drift the whole text of a string literal can stay in the masked query, although there is no glitch |
| MaskTheory.NotAlwaysIdempotent | internal/redact/redact.go:76-79 | a concrete query with a two-byte character in a dollar quote that a second pass changes |
| MaskTheory.MaskedLength | internal/redact/redact.go:31-47 | three times the masked length is at most four times the query's plus seven |
| MaskTheory.MaskedLengthTight | internal/redact/redact.go:38-47 | an unterminated empty block comment reaches that bound |
| Grants.LiteralRoundTrip | internal/setup/grants.go:68-71 | a quoted literal in front of anything but a quote is one string token, and reading it back gives the value |
| Grants.ClosedIsQuoted | internal/redact/redact.go:52-65 | the other way round: a string token that anything follows is the quoted form of the value read from it |
| Grants.LiteralMasked | internal/setup/grants.go:68-71 | a text with a quoted literal behind a place where a quote starts fresh masks to the masked front, a question mark and the masked rest |
| Grants.LiteralIndependent | internal/setup/grants.go:68-71 | so the masked text does not depend on the value |
| Grants.IdentMasked | internal/setup/grants.go:63-66 | a quoted identifier passes through the masker unchanged, whatever it quotes and whatever follows |
| Grants.ScriptMasked | internal/setup/grants.go:23-37 | the masked provisioning script, written out for every role and password: empty comments, no password, the CREATE ROLE and GRANT statements with the role intact, the viewer comment emptied |
| Grants.ScriptHidesPassword | internal/setup/grants.go:23-37 | two scripts that differ in the password mask to the same text |
| Grants.ScriptSays | internal/setup/grants.go:23-37 | read back, the script creates the given role with the given password and grants to that role, the signal role exactly when asked for |
| Graph.Build | internal/graph/builder.go:25-73 | edges are the sorted confirmed pairs, each as often as confirmed, with their labels; roots are the sorted head blockers; only root flags of sessions change, and with unflagged input they hold exactly on the roots |
| Graph.BuildMeans | internal/graph/builder.go:25-73 | the snapshot field by field: how often each pair is an edge, the label fields, the order of edges and roots; a root is a known process that some edge has as blocker and none as waiter; all other session fields as polled |
| Graph.EdgesOfWaiter | internal/graph/builder.go:29-41 | one waiter contributes one labelled edge per listed blocker, and its blockers are remembered |
| Graph.Roots | internal/graph/builder.go:44-55 | whatever the order, exactly the known blockers that wait for nobody become roots and are flagged |
| Graph.BuildUnique | internal/graph/builder.go:18-24 | the result is the same for every map order and every sort, and labels of unconfirmed pairs have no part in it |
| Graph.ChainsEnd | internal/graph/builder.go:43-55 | following blockers from any waiter reaches a head blocker, an unknown process, or a repetition |
| Graph.WalkBounded | internal/graph/builder.go:29-55 | without a cycle no blocking chain is longer than the known sessions and one unknown process |
| Graph.RootsBlockAll | internal/graph/builder.go:43-55 | in an acyclic graph with known blockers every waiter is transitively blocked by a reported root, and every chain that cannot go on ends at one |
| Graph.NoRootsMeansCycle | internal/graph/builder.go:43-55 | edges without roots mean a cycle or an unknown blocker |
| Rings.PutContents | internal/store/store.go:63-67 | a write through the modular index adds the newest entry and drops the oldest once full |
| Rings.RingHoldsLast | internal/store/store.go:22-30 | after any run of writes the ring, read through its indices, is the last writes, as many as fit, oldest first |
| Rings.RingEntries | internal/store/store.go:22-30 | entry by entry, and how many |
| Store.Store.PutLocked | internal/store/store.go:62-75 | under the lock: the ring gains the snapshot and every subscriber's channel is listed once |
| Store.Store.Put | internal/store/store.go:61-93 | ring, table and every channel after an uninterrupted put: an empty channel gets the snapshot, a full one keeps what it has |
| Store.Store.Latest | internal/store/store.go:96-104 | the newest retained snapshot, if any |
| Store.Store.AtRing | internal/store/store.go:123-141 | of the nearest retained snapshots the one put last; none only when all are out of 64-bit range |
| Store.Store.At | internal/store/store.go:108-142 | answers from the table when there is one and it works, otherwise from the ring |
| Store.Store.HistoryRing | internal/store/store.go:174-192 | the summaries of the retained snapshots in the window, oldest first |
| Store.Store.Subscribe | internal/store/store.go:197-203 | a fresh open empty channel under a new id; nothing else changes |
| Store.Store.Unsubscribe | internal/store/store.go:204-211 | removes and closes that channel once; a second call does nothing |
| Persist.SQLite.Save | internal/persist/sqlite.go:80-98 | the whole new state of the table: the row with its summary columns, then pruning at most once a minute; a saved snapshot within the retention is there |
| Persist.SQLite.At | internal/persist/sqlite.go:101-145 | the nearer of the neighbour below and the neighbour above, the one below when equal |
| Persist.SQLite.History | internal/persist/sqlite.go:149-180 | the summaries of the rows in the window by time, ties in any order |
| Persist.PrunesApart | internal/persist/sqlite.go:184-199 | two saves that each drop a row that was in the table are at least 60000000000 nanoseconds apart |
| Persist.FailedDeleteWaits | internal/persist/sqlite.go:189-199 | a failed delete is not tried again within that time |
| Persist.AgeBounded | internal/persist/sqlite.go:184-200 | after every successful save no row is older than the retention and one minute, whatever an earlier process left |
| Persist.YoungRowsStay | internal/persist/sqlite.go:196-197 | no row younger than the retention is ever deleted |
| Persist.RowsComeFromSaves | internal/persist/sqlite.go:80-98 | every row was there before or was put in by a save |
| Timeline.DistancesAre | internal/store/store.go:126-133 | both distances for all times: saturating with a negative least value in the ring, wrapping in the table |
| Timeline.RingEmptyExactly | internal/store/store.go:123-141 | for which times the ring answers with nothing |
| Timeline.SameDistance | internal/persist/sqlite.go:106-136 | over the same rows ring and table find a snapshot at the same least distance |
| Timeline.SamePick | internal/store/store.go:123-141 | with distinct times they find the same snapshot, except exactly when two are equally near and the later one was put last: then the ring takes that one and the table the earlier |
| Timeline.PicksDiffer | internal/store/store.go:123-141 | two snapshots equally near, in order of time: the ring answers with the later, the table with the earlier |
| Timeline.FoundUnlessEmpty | internal/persist/sqlite.go:137-139 | neither lookup comes back empty unless nothing is stored |
| Timeline.HistoryMeans | internal/store/store.go:174-192 | the list holds the summaries of exactly the snapshots in the window, bounds included, in order, each with its four fields |
| Timeline.HistoryAscends | internal/store/store.go:153-155 | in put order the summaries ascend when put times never decrease |
| Timeline.SqlHistoryUnique | internal/persist/sqlite.go:161-163 | when put times strictly increase the table's list is determined |
| HubInvariant.RunInv | internal/store/store.go:61-93 | every step of every interleaving keeps the invariant on ring, table, put in flight and clients |
| HubSteps.SubscribeTakes | internal/store/store.go:197-203 | in every reachable state, in the middle of a put as well, subscribing adds an open client that has been offered nothing |
| HubSteps.ReadLatestTakes | internal/api/stream.go:37-46 | an open client can read the newest put at any time, once |
| HubSteps.ReceiveTakes | internal/api/stream.go:48-58 | and then take what waits in its channel at any time |
| HubSteps.UnsubscribeTakes | internal/store/store.go:204-211 | and leave at any time |
| HubSteps.LockTakes | internal/store/store.go:61-75 | without a put in flight the next one can start, for every order of the open clients |
| HubSteps.SaveTakes | internal/store/store.go:77-84 | the save may come out any way |
| HubSteps.SendTakes | internal/store/store.go:85-92 | one send fills an empty channel or is dropped, and changes nothing else |
| HubSteps.PutEnds | internal/store/store.go:61-93 | a put whose remaining clients are all open can always be finished |
| HubSteps.PanicIsFinal | internal/store/store.go:85-92 | after a panic nothing changes any more |
| HubSteps.AuditIs | internal/signal/signal.go:64-119 | over every run the audit trail is what was found and then one entry per attempt, in order, field by field |
| HubSteps.JoinsDuringPut | internal/store/store.go:61-93 | a run in which a client subscribes between the lock and the send: it is sent that put first and is not offered it |
| HubTheorems.StreamIsFresh | internal/api/stream.go:34-58 | the first snapshot sent is at least as new as every put before the client subscribed, at most two later frames are not newer, and frames only get newer |
| HubTheorems.TwoStaleFrames | internal/api/stream.go:34-58 | a run in which two frames are not newer: the bound is reached |
| HubTheorems.OffersConserved | internal/store/store.go:85-92 | every put offered to a client was received, waits in its slot or was dropped, exactly one of these once; an open client was offered every put since it subscribed but the one in flight |
| HubTheorems.DrainedGetsNext | internal/store/store.go:86-87 | a client with an empty slot gets the next put it is offered |
| HubTheorems.UninterruptedPut | internal/store/store.go:61-93 | lock, save, one send per subscriber and finish, with nothing in between, come to what `Store.Put` promises of ring, table and channels |
| HubHistory.RingAndTable | internal/store/store.go:61-93 | in every reachable state the ring is the last puts; the table, from any time on that no prune has reached, is what it held at the start and then the puts whose insert succeeded, in order, for any retention; nothing else is ever in it |
| HubHistory.RingHistory | internal/store/store.go:171-193 | the ring's list is that of the held puts past saving, then that of the one whose save is to come; it ascends when put times never decrease |
| HubHistory.TableHistory | internal/persist/sqlite.go:149-180 | for a window that begins where no prune has reached, the summaries in the table are those of what it held at the start and then of the inserted puts |
| HubHistory.HistoriesAgree | internal/store/store.go:156-193 | for such a window: the ring lists the held puts that were inserted, that failed to be, and the one in flight; the table lists what it held at the start, the inserted puts the ring has forgotten, and those inserted ones the ring holds, in this order when times strictly increase; with no failed insert among the held puts the ring's list is the shared part and the one in flight |
| HubTheorems.PanicExactly | internal/store/store.go:85-92 | sending on a closed channel is reached or unavoidable exactly when a client unsubscribed while a put was still to be offered to it |
| HubTheorems.PanicReached | internal/store/store.go:85-92 | there is a run that panics: a client unsubscribes between the lock and the send |
| Stream.HandleStream | internal/api/stream.go:37-67 | the client gets the latest snapshot, then every snapshot received before the stream ends, in order, and nothing after |
| Stream.WrittenAre | internal/api/stream.go:37-67 | behind the latest snapshot the client gets exactly the snapshots received before the first event that ends the stream, all of them and in order |
| HubStream.WrittenIsReceived | internal/api/stream.go:34-67 | fed by a client of the store the loop writes what that client was sent first and then received |
| HubStream.WrittenIsFresh | internal/api/stream.go:34-67 | so what is written is the newest put when read, then later puts, at most the first two of them not newer than that |
| Poller.Poller.PollOnce | internal/poller/poller.go:111-120 | a successful poll puts exactly one snapshot, built from what was polled, into ring, table and channels; a failed one changes none of them |
| Poller.Poller.Run | internal/poller/poller.go:71-109 | one poll per turn until a turn ends the loop: success, start, end and delay of each follow from the turns, the delay being what is left of the interval after a success and the closed-form backoff after a failure; ring, table and status hold one snapshot per successful poll, built from what that poll returned |
| Poller.NextStart | internal/poller/poller.go:74-108 | when the next poll starts, after a success and after a failure, and that nothing had ended the loop |
| Poller.FailureDelay | internal/poller/poller.go:82-95 | the interval after the first failure in a row, then twice the last delay, capped at 30 seconds |
| Poller.StatusMeans | internal/poller/poller.go:122-135 | the status is that of the last poll not cancelled, with the time of the last success |
| Poller.StoredMeans | internal/poller/poller.go:111-120 | what is saved is one snapshot per successful poll, in order, built from what it returned |
| Poller.PollsApart | internal/poller/poller.go:98-107 | in every run, n polls after any poll at least n intervals have gone by |
| Poller.PlayedUnique | internal/poller/poller.go:75-109 | the turns determine the polls |
| Poller.BackoffStep | internal/poller/poller.go:90-95 | doubling with a cap is interval times a power of two, capped, and never below the interval |
| Ingest.SourceSnapshot | internal/redact/source.go:22-32 | every session's query is masked and nothing else changes; errors pass through |
| Ingest.TextsComeFromPuts | cmd/pglockr/main.go:144-173 | in every reachable state, whatever holds of all query texts put holds of every query text in ring, channels, what clients were sent, and in the rows and audit entries this process added; of all of them if it holds of what the database held at the start |
| Ingest.RedactionHolds | internal/redact/source.go:10-13 | with redaction on and no glitch in what is polled, each text this process stores or passes on is one that masking leaves as it is, and so is every text if those found at the start were |
| Ingest.LiteralsKeptOut | internal/redact/source.go:10-13 | with redaction on and no drift in what is polled, each text this process stores or passes on is one of the queries polled with all its literals and comment texts replaced, or empty |
| Ingest.AsciiPut | internal/redact/source.go:22-32 | polls with ASCII queries qualify for both |
| Audit.Memory.Record | internal/audit/audit.go:46-54 | the last entries, as many as fit |
| Audit.Memory.Recent | internal/audit/audit.go:57-69 | up to the limit, newest first, everything for a limit out of range |
| Audit.SqlTrail.Recent | internal/persist/audit.go:43-73 | the rows by time and id descending, at most a thousand |
| Audit.SqlRecentMeans | internal/persist/audit.go:43-73 | the page is as long as the limit allows, latest first, of equal times the one recorded last; every row left out comes after it |
| Audit.SameRecent | internal/audit/audit.go:46-69 | both sinks give the same answer to every limit when the last thousand records came in order of time, none of them before an older one |
| Audit.SameRecentOnlyIfInOrder | internal/persist/audit.go:43-73 | and only then |
| Signal.Service.Do | internal/signal/signal.go:64-119 | exactly one audit entry per attempt, delivered or not, with the victim's query, in whichever sink there is; a database that fails to record changes neither the result nor what is observed |
| Diffs.DiffSnapshots | internal/store/diff.go:15-33 | who came, who went, who looks different, each once |
| Diffs.SessionChanged | internal/store/diff.go:35-54 | a session changed exactly when one of the six compared fields did |
| Diffs.DiffMeans | internal/store/diff.go:15-54 | who is in which list, field by field |
| Diffs.PatchesExactly | internal/store/diff.go:5-10 | patching the previous snapshot with a diff shows what the current one shows exactly when it names everyone the computed diff names and removes nobody who is still there; so the computed one does, and none of its entries is superfluous |
| Diffs.DiffReverses | internal/store/diff.go:15-33 | the lists are disjoint, and reversed the diff leads from the current snapshot back to the previous one |
| Signature.StructureSignature | web/src/Forest.tsx:20-32 | the loop and the expressions compute the process part, in ascending order without repetition, a separator and the edge part |
| Signature.SignatureFaithful | web/src/Forest.tsx:17-19 | two snapshots have the same signature exactly when they involve the same processes and have the same edges as often |
| Signature.ShapeMeans | web/src/Forest.tsx:20-30 | who is involved, and when two edges count as the same |
| Signature.PrintRead | web/src/Forest.tsx:28 | every integer can be read back from its numeral |
| Signature.JoinInjective | web/src/Forest.tsx:26-30 | joining loses nothing when no item is empty or holds the separator |

## Left out

- PostgreSQL access: a poll returns any sessions and labels, or an error.
- SQL, gzip and JSON: a row holds the snapshot itself, so encoding loses nothing by construction.
- HTTP, WebSocket framing, Prometheus and logging: they carry the modelled steps' inputs and results and keep no state of their own.
- Authentication, configuration checks, grant remediation and password generation: each is a single check or choice at startup or per request, with no bearing on the state modelled here.
- React components, layout and hooks, except the signature.
- PostgreSQL lexing beyond the masker's own tokens: nested comments, backslash escapes, hexadecimal numbers.
- Invalid UTF-8: the source decodes it to replacement characters before the masker's loop starts.
- Graph.Build: the sessions map is a value; that the snapshot shares the caller's map is not captured.
- Ingest.SourceSnapshot: the sessions map is a value, as above.
- Store.Store.Put: the method is one uninterrupted put; interleavings are in the step system of `Hub.dfy`.
- Timeline.SamePick: assumes every time within 2^63-1 nanoseconds of the target; beyond that the two subtractions saturate and wrap.
- Persist.AgeBounded: assumes a clock that never goes back, successful deletes, and snapshots no older than the retention when saved.
- HubHistory.RingAndTable: of rows older than a prune has reached it says only where they come from - the service always prunes, as `internal/config/config.go:200-202` makes every retention positive; rows found at the start are taken to be ones that Save wrote.
- HubHistory.HistoriesAgree: windows that begin earlier than a prune has reached, and a window without a start when there is pruning: there the table may have lost rows the ring still lists.
- Ingest.TextsComeFromPuts: texts that an earlier process left in the database, perhaps with redaction off, stay as they are until they expire; audit entries never do.
- Ingest.RedactionHolds: polled queries without a glitch; `MaskTheory.MaskIdempotent` says why that is needed, and `Exact.StringEscapes` what it does not exclude.
- Ingest.LiteralsKeptOut: polled queries without a drift; `Exact.LexExact` says why that is needed.
- Poller.Poller.PollOnce: one clock reading gives the snapshot's time and the last-poll time, which the source reads apart.
- Signal.Service.Do: in the step system looking the victim up and recording the entry are one step; the log line is left out.
- Audit.SqlTrail: retention does not touch the audit table, so its rows only grow.
