# bindizr: a verified model

bindizr is an authoritative DNS server that keeps zones in a relational
database. Every write to a zone takes one new serial, appends rows to a change
log and stores a metadata snapshot. Secondaries receive the difference between
two serials (IXFR) or the whole zone (AXFR), and an operator can look at, compare
and return to any earlier serial. Writes arrive from an HTTP API, from zone-file
imports, from external-dns requests over several zones, and from dynamic updates.

This project models that machinery in Dafny 4.11 and proves what it is for. Run
`dafny verify dfyconfig.toml` to verify all of it.

## Reading guide

A zone is a `State`: metadata, serial, rows, change log, snapshots. `Commit`
relates a state to its successor, and a *run* (`IsRun`) is a sequence of states
from a newly created zone by commits. Every operation of `Store.ZoneStore` either
leaves the zone as it was or extends the run in its ghost field `history`. All
statements about histories, replies and rollbacks are about every run, and so
about every sequence of calls.

| file | subject |
|---|---|
| `Records.dfy` | records, canonical identity, the constraint validator |
| `Mailbox.dfy` | e-mail address to SOA mailbox and back |
| `Zone.dfy` | states, commits, runs, the change log along a run |
| `History.dfy` | rebuilding an earlier serial by undoing the log |
| `Replay.dfy`, `Ixfr.dfy`, `Transfer.dfy` | what a reply contains, when it is incremental, what applying it gives |
| `Transaction.dfy`, `Batch.dfy` | staged inserts, deletes and replacements; validating a batch |
| `ExternalDns.dfy`, `MultiZone.dfy`, `Locks.dfy` | external-dns change sets, several zones at once, lock order |
| `Import.dfy` | zone-file import in three modes |
| `DynamicUpdate.dfy`, `UpdateScan.dfy` | update messages, and their effect identity by identity |
| `Rollback.dfy`, `Diff.dfy`, `Preview.dfy` | returning to a serial, comparing two, what a dry run previews |
| `ZoneService.dfy`, `Store.dfy` | each operation as a step of a run; the zone as a class |
| `Framing.dfy`, `Cache.dfy` | splitting a transfer into TCP messages; the transfer cache |
| `Witnesses.dfy` | the failures below, on reachable zones |

Two conventions. A record is compared in three ways: as stored (`Rr`), by
canonical identity without TTL (`Key`), and as a transfer shows it, identity and
TTL (`WireRr`); `canon` and `grammars` of a value stand for the canonical form and
the accepting grammars of its text, which are inputs of the model. And where a
predicate is defined in two parts, as in `Coherent(rows) { Consistent(rows) == true }`,
the outer name is what contracts use and the inner one holds the definition: the
verifier then carries the outer name through a proof as one fact and unfolds it
only where a proof asserts the inner name. There is one definition, not two.

## Model

| member | source | states |
|---|---|---|
| Records.ValidateAddExact | crates/bindizr-service/src/record/validation/mod.rs:68-161 | the ordered checks accept a record exactly when it is sound alone and compatible with every other row of its owner |
| Records.RestrictedValidationExact | crates/bindizr-service/src/record/validation/mod.rs:247-285 | checking against only the rows of the same owner accepts exactly the records that keep the whole zone coherent |
| Mailbox.RoundTrip | crates/bindizr-core/src/dns/record/soa/mod.rs:81-125 | an address decodes from its SOA mailbox to itself exactly when both sides are non-empty and the domain does not end in a dot |
| Zone.RestoredSnapshot | crates/bindizr-service/src/zone/history.rs:342-366 | the snapshot of valid metadata restores to exactly that metadata |
| Zone.RunSerial | crates/bindizr-service/src/serial.rs:23-32 | over every run the serial rises by one per commit, never repeats and stays in 1..i32::MAX |
| Zone.Headroom | crates/bindizr-service/src/serial.rs:13-51 | a run from a validated initial serial is not stopped by the ceiling in its first ten million commits |
| Zone.RunSnapshots | crates/bindizr-service/src/zone/snapshot.rs:16-68 | snapshots exist for exactly the serials of the run and hold each serial's metadata |
| Zone.RunPlay | crates/bindizr-service/src/record/bulk.rs:76-132 | between any two serials the log rows, applied in order, explain the whole change of the record set |
| Zone.RunBetween | crates/bindizr-dns/src/server/delta.rs:9-17 | the range of log rows between two serials reads the same at every later state |
| History.UndoExact | crates/bindizr-service/src/zone/history.rs:112-161 | undoing legal log rows newest first restores the bucketed records, although a bucket ignores TTL and any of its rows may be popped |
| History.Reconstruct | crates/bindizr-service/src/zone/history.rs:88-166 | the grouping, undo and flatten loops yield every record as often as the undone buckets hold it |
| History.HistoryExact | crates/bindizr-service/src/zone/history.rs:88-166 | for every run, undoing the log after serial i over the rows at j gives the record set committed at i, TTLs included |
| History.HistoryImmutable | crates/bindizr-service/src/zone/history.rs:88-166 | the reconstruction of a serial is the same from every later state, rollbacks included |
| History.RecordsAt | crates/bindizr-service/src/zone/history.rs:170-188 | returns every record committed at the serial once and nothing else |
| Replay.PlayVerdict | crates/bindizr-dns/src/server/ixfr.rs:258-316 | after legal log rows a record is present exactly as the last row about it says |
| Replay.RegroupExact | crates/bindizr-dns/src/server/ixfr.rs:258-316 | one serial's rows regrouped as deletes then adds give the committed set exactly when the last row about every added record is an ADD |
| Replay.StrictExact | crates/bindizr-dns/src/server/ixfr.rs:258-316 | every delete hits and every add is fresh exactly when no row deletes a record an earlier row of the serial adds |
| Ixfr.SerialsSpec | crates/bindizr-dns/src/server/ixfr.rs:78-83 | sort and dedup leave the serials of the changes, each once, increasing |
| Ixfr.StreamBody | crates/bindizr-dns/src/server/ixfr.rs:237-326 | the streaming loops send exactly the current SOA, the steps serial by serial and the closing SOA |
| Ixfr.HandleIxfr | crates/bindizr-dns/src/server/ixfr.rs:30-143 | the checks, in source order, come to the decision function that the run-level lemmas are about |
| Transfer.StreamReadsBack | crates/bindizr-dns/src/server/ixfr.rs:246-323 | a reader following section 4 of RFC 1995 recovers exactly the steps and the end mark |
| Transfer.FullReadBack | crates/bindizr-dns/src/server/axfr.rs:48-65 | a full reply reads back as itself and never as another kind, whatever commits fall between reading the zone row and reading the records |
| Transfer.SentReadBack | crates/bindizr-dns/src/server/ixfr.rs:84-106 | what a client inside the history is sent reads back as its steps, chained from its serial to the current one |
| Transfer.QuietSerial | crates/bindizr-service/src/zone/force.rs:36-75 | a serial without log rows has its predecessor's records and metadata |
| Transfer.ReadsSettled | crates/bindizr-dns/src/server/ixfr.rs:66-117 | whatever commits fall between reading zone row, log and snapshots, the decision is the one at the zone row |
| Transfer.DecisionExact | crates/bindizr-dns/src/server/ixfr.rs:37-133 | steps are sent exactly to a client inside the history when the current serial has log rows, one SOA exactly to a current client, a full transfer otherwise, whenever the later reads happen |
| Transfer.ReplayExact | crates/bindizr-dns/src/server/ixfr.rs:258-316 | applying the reply to the client's records gives the current set exactly when every record whose last step adds it has an ADD as its last log row |
| Transfer.ReplayConverges | crates/bindizr-dns/src/server/ixfr.rs:258-316 | when every serial is settled the reply for serial c also heals a client holding the records of any later serial |
| Transfer.StrictReplayExact | crates/bindizr-dns/src/server/ixfr.rs:258-316 | a strict secondary accepts the whole reply exactly when no serial in it deletes what it added, and then holds the current set |
| Transfer.SingleStepExact | crates/bindizr-dns/src/server/ixfr.rs:258-316 | a client one serial behind converges exactly when that serial is settled |
| Transaction.DeleteOk | crates/bindizr-service/src/record/bulk.rs:117-132 | deleting listed rows with their log rows keeps the transaction sound and removes exactly their records |
| Transaction.InsertOk | crates/bindizr-service/src/record/bulk.rs:100-114 | inserting records coherent with the rest keeps the transaction sound and adds exactly them |
| Transaction.ReplaceOk | crates/bindizr-service/src/record/update.rs:227-255 | replacing a row in place, logged as DEL then ADD, keeps the transaction sound |
| Transaction.FinishCommits | crates/bindizr-service/src/zone/snapshot.rs:16-29 | committing a sound transaction is a legal step of the zone whose new log rows are the staged ones |
| Batch.BatchExact | crates/bindizr-service/src/record/bulk.rs:240-306 | a batch checked one by one is accepted exactly when the zone with all of it is coherent |
| Batch.RestrictedBatch | crates/bindizr-service/src/record/bulk.rs:196-218 | the batch meets the same errors from the rows sharing an owner name as from the whole zone |
| Batch.CheckAdds | crates/bindizr-service/src/record/bulk.rs:235-306 | the by-owner index loop reports exactly the errors of checking against all rows |
| ExternalDns.OfferMarks | crates/bindizr-service/src/external_dns/apply.rs:244-303 | after the adds, the rows still marked are exactly those of a deleted identity whose record no add names |
| ExternalDns.ResultKeys | crates/bindizr-service/src/external_dns/apply.rs:239-330 | the identities of the result are the existing ones less the deleted plus the added |
| ExternalDns.ResultRecords | crates/bindizr-service/src/external_dns/apply.rs:239-330 | undeleted identities keep their rows, created or re-added ones carry the first add's TTL |
| ExternalDns.PlanApplies | crates/bindizr-service/src/external_dns/apply.rs:239-330 | the identities after are those before, less the deleted, plus the added; undeleted rows are untouched; a freed identity carries its first add's TTL |
| ExternalDns.AcceptedCoherent | crates/bindizr-service/src/external_dns/apply.rs:303-327 | the inserts are accepted exactly when the resulting rows are coherent |
| ExternalDns.UnsupportedKept | crates/bindizr-service/src/external_dns/apply.rs:30-32 | a row of a type the API does not manage, such as the apex NS, survives every request |
| ExternalDns.Idempotent | crates/bindizr-service/src/external_dns/apply.rs:239-330 | recomputing an applied request on the resulting rows yields the empty change set |
| ExternalDns.RestrictedCompute | crates/bindizr-service/src/external_dns/apply.rs:391-408 | the rows sharing an owner name with the request give the same change set or error as all rows |
| ExternalDns.ComputeChangeSet | crates/bindizr-service/src/external_dns/apply.rs:239-330 | the marking, offering and checking loops compute the specified change set or error |
| Import.DedupExact | crates/bindizr-service/src/record/import.rs:126-196 | without a conflict the file's records survive exactly, each identity once, and the counts add up |
| Import.DelsSpec | crates/bindizr-service/src/record/import.rs:261-312 | no row is deleted twice, and exactly the obsolete and the retimed rows are |
| Import.ImportMeaning | crates/bindizr-service/src/record/import.rs:261-312 | append adds what is new and keeps the rest; upsert and replace install the file, keeping protected rows and, for upsert, RRsets the file does not mention; nothing else is left |
| Import.ImportValid | crates/bindizr-service/src/record/import.rs:284-312 | an accepted import keeps the zone coherent and its primary NS served, although retimed rows may be protected |
| Import.CountsAddUp | crates/bindizr-service/src/record/import.rs:358-367 | parsed is added plus updated plus unchanged, and the row count changes by added minus deleted |
| Import.ImportIdempotent | crates/bindizr-service/src/record/import.rs:261-312 | importing the same file again changes nothing |
| Import.FileMeans | crates/bindizr-service/src/record/import.rs:126-367 | for the file as parsed, duplicates included: the mode's records are left, and every count of the summary adds up |
| Import.RestrictedAppend | crates/bindizr-service/src/record/import.rs:202-233 | an append computes the same from the rows sharing an owner name as from the whole zone |
| Import.DedupFile | crates/bindizr-service/src/record/import.rs:126-196 | the duplicate loop computes the specified list and counts |
| Import.ResolveImport | crates/bindizr-service/src/record/import.rs:236-357 | the deletion, reconcile and validation loops compute the specified plan, counts and errors |
| DynamicUpdate.ApplyOpsOk | crates/bindizr-service/src/dynamic_update/mod.rs:164-181 | every staged message keeps the transaction sound and the primary NS in place |
| DynamicUpdate.ApplyMessage | crates/bindizr-service/src/dynamic_update/mod.rs:164-181 | the operation loop comes to the specified transaction, or to the first refusal |
| DynamicUpdate.AddThenDeleteDiverges | crates/bindizr-service/src/dynamic_update/mod.rs:164-181 | adding and deleting a record in one message leaves the zone's records alone but regroups to them plus the record |
| UpdateScan.MessageLeaves | crates/bindizr-service/src/dynamic_update/mod.rs:252-412 | for every identity a staged message leaves the record its scan ends with and no other |
| UpdateScan.DeleteExact | crates/bindizr-service/src/dynamic_update/mod.rs:356-412 | a single-record delete anywhere in a message takes away the record of its identity and nothing else, except an MX or SRV record whose priority column is empty, which stays |
| UpdateScan.UpdateStrictExact | crates/bindizr-service/src/dynamic_update/mod.rs:164-181 | a message's serial replays strictly exactly when no operation deletes a record the message inserted |
| UpdateScan.UpdateReplayExact | crates/bindizr-service/src/dynamic_update/mod.rs:164-181 | a message's serial replays to the committed set exactly when no record the message inserted is missing at its end |
| UpdateScan.StrictMessageReplays | crates/bindizr-service/src/dynamic_update/mod.rs:164-181 | a message that loses one of its inserts has deleted one of them |
| UpdateScan.AddsStayReplays | crates/bindizr-service/src/dynamic_update/mod.rs:164-181 | a message none of whose deletes can reach its own adds replays, whatever the rows |
| Rollback.Compare | crates/bindizr-service/src/zone/history.rs:533-590 | the comparison loop deletes exactly the dropped rows and adds each lacking record once |
| Rollback.NothingLeftOver | crates/bindizr-service/src/zone/history.rs:576-587 | no protected row is left over: a row goes exactly when the target lacks its record |
| Rollback.LeavesTarget | crates/bindizr-service/src/zone/history.rs:533-590 | applying the difference leaves exactly the target's records as transfers show them |
| Rollback.LeavesRowsExactly | crates/bindizr-service/src/zone/history.rs:552-575 | the stored rows are restored to the letter exactly when no current row spells a target record differently |
| Rollback.NothingRespelled | crates/bindizr-service/src/zone/history.rs:552-575 | after a rollback no row spells a record of the rows before it differently |
| Rollback.NeverRefused | crates/bindizr-service/src/zone/history.rs:624-660 | every validated add of a rollback passes, and the result is coherent and serves the restored primary |
| Rollback.KeepPrimary | crates/bindizr-service/src/zone/history.rs:592-622 | nothing is synthesized when a primary NS is kept or added; otherwise one with the RRset's TTL |
| Rollback.ApexNsTtlJoins | crates/bindizr-service/src/zone/mod.rs:30-38 | the chosen TTL agrees with every apex NS row of a coherent zone |
| ZoneService.BulkStep | crates/bindizr-service/src/record/bulk.rs:143-383 | a coherent bulk insert extends the run by a commit a strict secondary can replay |
| ZoneService.DeleteStep | crates/bindizr-service/src/record/delete.rs:27-139 | deleting an unprotected row extends the run the same way and removes exactly its record |
| ZoneService.UpdateStep | crates/bindizr-service/src/record/update.rs:119-290 | an accepted record update extends the run the same way |
| ZoneService.NewPrimaryFits | crates/bindizr-service/src/zone/update.rs:189-225 | the unvalidated NS row of a zone update is one the validator would accept |
| ZoneService.RetitleStep | crates/bindizr-service/src/zone/update.rs:111-278 | a metadata update extends the run the same way and leaves the new primary served |
| ZoneService.ForceStep | crates/bindizr-service/src/zone/force.rs:36-75 | a forced serial with no log rows extends the run |
| ZoneService.SwapStep | crates/bindizr-service/src/zone/history.rs:674-692 | SOA rows, deletes and adds whose result is coherent and served extend the run the same way |
| ZoneService.MessageStep | crates/bindizr-service/src/dynamic_update/mod.rs:145-201 | a committed message extends the run, and its serial replays, strictly or at all, exactly when the scan says so |
| Store.ZoneStore.constructor | crates/bindizr-service/src/zone/create.rs:62-110 | a new zone is a run of one state: the apex NS row, no log rows, one snapshot |
| Store.ZoneStore.Create | crates/bindizr-service/src/zone/create.rs:21-126 | created exactly for valid metadata and an initial serial in 1..MAX_INITIAL_SERIAL |
| Store.ZoneStore.CommitTx | crates/bindizr-service/src/zone/snapshot.rs:16-68 | one serial bump, one snapshot, the staged rows and log rows, and one more state in the run |
| Store.ZoneStore.CreateBulk | crates/bindizr-service/src/record/bulk.rs:143-383 | accepted exactly when non-empty, the serial can advance and the result is coherent, all of it or nothing; otherwise the error of the first check or record that fails |
| Store.ZoneStore.PreviewBulk | crates/bindizr-service/src/record/bulk.rs:227-312 | a dry run answers what the insert would and, if accepted, gives the difference it would make to the whole zone |
| Store.ZoneStore.DeleteById | crates/bindizr-service/src/record/delete.rs:27-139 | the exact error of every case; otherwise exactly the row with the id is gone |
| Store.ZoneStore.UpdateRecord | crates/bindizr-service/src/record/update.rs:119-290 | accepted exactly when the new record fits the other rows, the primary NS stays and the serial can advance; otherwise the error of the first check that fails |
| Store.ZoneStore.UpdateZone | crates/bindizr-service/src/zone/update.rs:111-278 | the exact error of every case; an apex NS row is added exactly when the new primary has none, and it carries the TTL of the zone's NS rows |
| Store.ZoneStore.ForceIncrement | crates/bindizr-service/src/zone/force.rs:36-75 | one serial further, rows, metadata and log unchanged |
| Store.ZoneStore.ApplyExternalDns | crates/bindizr-service/src/external_dns/apply.rs:391-431 | refused, quiet or one commit, with the request's set meaning, after which the request resolves to nothing |
| Store.ZoneStore.ImportFile | crates/bindizr-service/src/record/import.rs:98-485 | reports the exact counts and errors; applied, the zone holds exactly what the mode specifies for the file and a second import is quiet |
| Store.ZoneStore.PreviewImport | crates/bindizr-service/src/record/import.rs:358-424 | a dry run reports the counts and errors of the import and, without errors, the difference it would make to the whole zone; with errors, no difference |
| Preview.ImportDiff | crates/bindizr-service/src/record/import.rs:490-519 | the difference of the loaded rows and what the deletions and adds leave of them |
| Preview.AppendPreview | crates/bindizr-service/src/record/import.rs:202-233 | an append previews from the rows sharing an owner name with the file the difference it makes to the whole zone |
| Store.ZoneStore.ApplyUpdate | crates/bindizr-service/src/dynamic_update/mod.rs:145-201 | refused as a whole or committed once if anything changed; leaves the scanned records, and its serial replays exactly when the scan says so |
| Store.ZoneStore.RollBack | crates/bindizr-service/src/zone/history.rs:485-711 | refused only for a serial not in the past, never committed or when no serial is left; otherwise the target's metadata and records under a new serial, rows to the letter exactly when none is respelled; nothing is respelled against the rows before |
| Store.ZoneStore.RollBackAndForth | crates/bindizr-service/src/zone/history.rs:485-711 | both rollbacks succeed exactly when the target is in the past and two serials are left, and then metadata and stored records are to the letter what they were |
| Store.ZoneStore.RecordsAt | crates/bindizr-service/src/zone/history.rs:170-203 | present exactly for committed serials, and then their records, each once |
| Store.ZoneStore.AnswerIxfr | crates/bindizr-dns/src/server/ixfr.rs:11-175 | the reply is the one specified for the client's place in the zone's history |
| Store.ZoneStore.DiffSerials | crates/bindizr-service/src/zone/history.rs:445-479 | present exactly for committed serials, the current one by default; lists exactly the RRsets that transfers of the two show differently, both sides in full, with exact counts |
| Witnesses.MessageReachesSecondary | crates/bindizr-dns/src/server/ixfr.rs:258-316 | a secondary one serial behind a message converges exactly when no record it inserted is missing at its end |
| Witnesses.AddThenDeleteRun | crates/bindizr-service/src/dynamic_update/mod.rs:164-181 | in every run, a message that adds and deletes a record leaves replaying secondaries with the record |
| Witnesses.NewZoneDiverges | crates/bindizr-service/src/dynamic_update/mod.rs:164-181 | every new zone accepts such a message, and its serial does not replay |
| Witnesses.RespelledUpdate | crates/bindizr-service/src/record/update.rs:119-290 | writing the default priority into an empty column is accepted and respells the record |
| Witnesses.RespelledRun | crates/bindizr-service/src/zone/history.rs:552-575 | a new zone reaches, by an insert and an update, rows that spell a record of the serial before differently, so rolling back keeps the new spelling |
| Witnesses.EmptyColumnStays | crates/bindizr-service/src/dynamic_update/mod.rs:389-393 | in every valid zone, deleting an MX or SRV record with an empty priority column as it is served is accepted and changes nothing |
| Witnesses.UndeletableMx | crates/bindizr-service/src/dynamic_update/mod.rs:389-393 | a new zone reaches such a record by one insert |
| Witnesses.StaleNewZone | crates/bindizr-dns/src/server/zone_cache.rs:63-67 | between a new zone's creation and its first insert the cache can come to hold the second serial's rows under the first |
| Framing.DnsMessageBuilder.BuildInto | crates/bindizr-dns/src/wire/mod.rs:339-355 | appends exactly the header, the question and the answers in order |
| Framing.DnsMessageBuilder.BuildTcpFrame | crates/bindizr-dns/src/wire/mod.rs:359-372 | succeeds exactly within 65535 bytes, and then gives the length-prefixed message |
| Framing.LengthExact | crates/bindizr-dns/src/wire/mod.rs:317-319 | the tracked length is the length of what is built |
| Framing.CountExact | crates/bindizr-dns/src/wire/mod.rs:339-355 | the 16-bit answer count of a message that fits is never truncated |
| Framing.FramesReadBack | crates/bindizr-dns/src/wire/mod.rs:528-588 | a reader of the byte stream recovers exactly the messages, in order |
| Framing.FlushIfNotEmpty | crates/bindizr-dns/src/wire/mod.rs:425-443 | writes the pending answers as one frame, refuses an oversized message or fails on the connection, and counts what was written |
| Framing.AddAnswerAndFlush | crates/bindizr-dns/src/wire/mod.rs:382-423 | frames written followed by pending answers are exactly the answers added, greedily filled; the exact error otherwise |
| Framing.SendAll | crates/bindizr-dns/src/server/axfr.rs:43-65 | completes exactly when every answer composes and some split into messages within the limit fits the room left; then the answers are written in order in greedy messages, otherwise a prefix of them with the reason; the counter is exact |
| Framing.Respond | crates/bindizr-dns/src/server/ixfr.rs:143-232 | everything written belongs to one reply; it is the full one only if the incremental one was undeliverable and nothing of it was written, and it completes exactly when that reply is deliverable |
| Framing.GreedyOptimal | crates/bindizr-dns/src/wire/mod.rs:382-443 | no order-preserving split within the limit uses fewer messages than a greedy one |
| Framing.StalledNeedsMore | crates/bindizr-dns/src/wire/mod.rs:408-443 | when a transfer stalls on a full connection, every split of its answers needs more messages than were written |
| Framing.TransferOptimal | crates/bindizr-dns/src/wire/mod.rs:382-443 | a completed transfer is minimal, reads back, and every message states its true answer count |
| Cache.ZoneCache.Lookup | crates/bindizr-dns/src/server/zone_cache.rs:78-85 | hits exactly at the stored serial; a hit moves the zone to the front of the recency list, a mismatch changes nothing |
| Cache.ZoneCache.Evict | crates/bindizr-dns/src/server/zone_cache.rs:91-99 | removing the smallest stamp drops the last of the recency list |
| Cache.ZoneCache.Store | crates/bindizr-dns/src/server/zone_cache.rs:87-108 | puts the zone at the front of a list of at most 1024, dropping the last for a new zone when full |
| Cache.CacheSound | crates/bindizr-dns/src/server/zone_cache.rs:50-68 | in every interleaving of transfers and commits, what is held under serial s are the zone's rows at some serial from s to the present one |
| Cache.FreshHitExact | crates/bindizr-dns/src/server/zone_cache.rs:58-61 | a hit taken while the zone is still at the serial returns exactly its rows |
| Cache.ExactTrace | crates/bindizr-dns/src/server/zone_cache.rs:63-67 | in an interleaving nothing is ever held under a serial whose rows it is not exactly when every load happens while the zone's rows are those of the transfer's serial |
| Cache.SameSerialTimely | crates/bindizr-dns/src/server/zone_cache.rs:63-67 | a load with no commit since the transfer began is such a load |
| Cache.AnswerHeals | crates/bindizr-dns/src/server/axfr.rs:29-36 | a transfer that raced a commit is healed by the incremental replies from its serial |
| Cache.StaleTag | crates/bindizr-dns/src/server/zone_cache.rs:63-67 | a commit between the two reads of any run of two serials stores the later one's rows under the earlier serial |
| Diff.BuildRecordDiff | crates/bindizr-service/src/zone/history.rs:256-326 | the grouping and comparison loops list exactly the RRsets that differ, each once, with exact counts |
| Diff.EmptyExact | crates/bindizr-service/src/zone/history.rs:256-326 | the difference is empty exactly when both sides hold the same records, TTLs included, equally often |
| Diff.DiffPatches | crates/bindizr-service/src/zone/history.rs:256-326 | replacing each listed RRset's old side by its new one turns the records before into those after |
| Diff.DiffSwaps | crates/bindizr-service/src/zone/history.rs:256-326 | comparing the other way round gives the same entries with sides swapped |
| Diff.SwapCounts | crates/bindizr-service/src/zone/history.rs:256-326 | comparing the other way round exchanges the added and removed counts and keeps the changed one |
| Diff.SetsDiffer | crates/bindizr-service/src/zone/history.rs:445-479 | for committed record sets the difference is empty exactly when transfers agree |
| Diff.SetsCompare | crates/bindizr-service/src/zone/history.rs:445-479 | the comparison of two committed sets, whatever order they are listed in, has an entry for exactly the RRsets that transfers show differently |
| Diff.ComparesPatches | crates/bindizr-service/src/zone/history.rs:445-479 | replacing the listed RRsets turns the one committed set into the other |
| Diff.PreviewNear | crates/bindizr-service/src/record/bulk.rs:290-304 | inserts preview the same difference from the rows at any owner names that include their own as from the whole zone |
| Locks.LocksSafe | crates/bindizr-service/src/external_dns/apply.rs:366-376 | no zone is ever locked by two requests |
| Locks.NeverStuck | crates/bindizr-service/src/external_dns/apply.rs:366-376 | while any request is under way, one of them can take its next lock or end |
| Locks.CrossedOrderStuck | crates/bindizr-service/src/external_dns/apply.rs:366-368 | without the name order two requests can hold what the other waits for |
| MultiZone.StageStep | crates/bindizr-service/src/external_dns/apply.rs:408-431 | a zone's staged part extends its run by one clean commit and has nothing left to do after it |
| MultiZone.Database.ApplyChanges | crates/bindizr-service/src/external_dns/apply.rs:336-464 | every zone's part commits or none does, the failure is the first in order, and other zones are untouched |
| MultiZone.RequestSettles | crates/bindizr-service/src/external_dns/apply.rs:336-464 | once a request is applied, no part of it has anything left to do |

## Findings

Promises that turn out not to hold of the code as written, with the exact
condition under which they do. The model keeps the code's behaviour.

- A dynamic update's serial does not always replay. The reply sends the deletes
  of a serial before its adds, so a message that adds a record and then deletes it
  leaves the record with every secondary that applies the step, while the zone does
  not have it: `DynamicUpdate.AddThenDeleteDiverges`, for any run
  `Witnesses.AddThenDeleteRun`, from every new zone `Witnesses.NewZoneDiverges`.
  The serial replays exactly when no record the message inserts is missing at its
  end, and replays without redundant deletes or adds exactly when no operation
  deletes a record the message inserted. Both conditions (`LosesOwn`, `DeletesOwn`)
  are read off the zone's rows and the message before anything is applied:
  `UpdateScan.UpdateReplayExact`, `UpdateScan.UpdateStrictExact`, and in the
  contract of `Store.ZoneStore.ApplyUpdate`. Every other operation's serials always
  replay.
- A rollback restores records as transfers show them, not always as stored. A row
  whose canonical form and TTL equal the target's is kept, so a row respelled since
  (an MX priority written out where the column was empty) stays as it is now.
  The stored rows come back to the letter exactly when no current row spells a
  target record differently: `Rollback.LeavesRowsExactly`, in the contract of
  `Store.ZoneStore.RollBack`; a reachable zone where one does is
  `Witnesses.RespelledRun`. A rollback itself respells nothing, so rolling back to
  the serial before it always undoes it to the letter:
  `Store.ZoneStore.RollBackAndForth`.
- A dynamic update cannot delete a single MX or SRV record whose priority column
  is empty, although the server serves it with priority 10: the delete compares the
  column, the rest of the code the defaulted priority. Such a message is accepted and
  changes nothing (`Witnesses.EmptyColumnStays`; on a run from zone creation
  `Witnesses.UndeletableMx`). In every other case the delete takes away exactly the
  record of its identity: `UpdateScan.DeleteExact`.
- The cache's remark that concurrent misses store the same serial's data does not
  hold: a commit between reading the serial and reading the records stores later
  rows under the earlier serial (`Cache.StaleTag`, from zone creation
  `Witnesses.StaleNewZone`). An interleaving is free of this exactly when every load
  happens while the zone's rows are still those of the serial the transfer began with
  (`Cache.ExactTrace`), as they are when nothing was committed since
  (`Cache.SameSerialTimely`). What does hold, in every
  interleaving, is that an entry's rows are those of its serial or a later committed
  one (`Cache.CacheSound`), that a lookup at the zone's present serial returns
  exactly its rows (`Cache.FreshHitExact`), and that incremental replies heal a
  secondary that received a mistagged set (`Cache.AnswerHeals`).
- An SOA mailbox does not round-trip for an empty side or a domain with a trailing
  dot, and does for every other address: `Mailbox.RoundTrip`.

## Left out

- The relational schema and SQL; a transaction's reads and writes are those of the
  modelled state, and a failing query is not modelled.
- Parsing and composing of names, rdata, TXT strings and zone-file text; the model
  starts from parsed records and ends at composed answers.
- Record conversion of an API request (`convert_request`, PUT and PATCH merging,
  grouping of external-dns endpoints by zone); operations start from their result.
- TSIG, tokens, access rules, update policies and the prerequisite section of
  RFC 2136; a message reaches the model once admitted.
- Sockets, timeouts, retries, NOTIFY, the HTTP and command-line surface, metrics,
  catalog zones, zone deletion and renaming.
- Partial writes inside one TCP frame; `Writer` takes a frame or refuses it.
- Serial arithmetic of RFC 1982; the code compares and increments 31-bit serials
  and stops at the maximum, and so does the model.
- The order of difference entries and of listed records, which is for display; the
  comparison of two RRsets by sorted lists is modelled as equality of multisets.
- The record counts a rollback reports, and its dry run, which returns only those.
- Store.ZoneStore.UpdateZone: the zone's name is not part of the modelled metadata, so
  the rename branch and its conflict check are not stated.
- The identity of database rows after an import or rollback beyond distinct ids;
  row ids are numbered from a counter.
- Cache entries of deleted zones, since zones are not deleted in the model.
