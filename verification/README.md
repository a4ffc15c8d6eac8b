# Verification of the elchi GSLB plugin

A Dafny model of the plugin's DNS record cache and of the protocol that keeps the cache in step
with its controller, with proofs about every reachable state and every run.

- `names.dfy`: domain names. Trimming, ASCII case folding, the trailing dot, labels, and the two
  notions of "inside the zone": the label test in front of queries and the byte suffix in front of
  the cache.
- `records.dfy`: controller records and the resource records built from them.
- `tables.dfy`: the cache seen flat, `map<(name, type), list>`. Snapshot loads append, webhook updates
  overwrite, deletions remove. Each is proved equal to a linear scan over the list that produced it.
- `batches.dfy`: raw records and webhook requests, decoded into what `tables.dfy` works on.
- `dump.dfy`: the listing of the cache, and what loading a listing restores.
- `replica.dfy`: the cache as a value, with the snapshot and the webhook batches it comes from.
- `cache.dfy`: the cache class. A two-level map updated in place, a flat ghost view, and a ghost log.
- `client.dfy`: how a controller reply is classified and validated.
- `protocol.dfy`, `convergence.dfy`: controller edits, the one sync in flight and webhook mutations as
  a transition system; what holds over all its runs.
- `query.dfy`: the query decision over the two tables its two locked reads see.
- `plugin.dfy`, `webhook.dfy`: the plugin object, its sync and query methods, and the webhook handlers.
- `setup.dfy`: the configuration loop. `timing.dfy`: ticker, cycles and the health test on a clock.

Conventions. `Env` holds what never changes while the plugin runs: the zone, the default TTL (every
caller passes the configured one) and an address parser and printer. Time is an integer number of
nanoseconds passed in by the caller. Interleaving is explicit: a method that releases the lock takes
the writes other threads make in the gap (`hooks`, `between`, `gap`), so its contract holds for all
of them; the transition system has one action per critical section. A reply of the network is any
value at all unless a lemma asks for an honest one, meaning the controller's own reply or one that the client
rejects.

Where the code and its documentation differ, the model follows the code:

- A deletion cannot name a CNAME (`cache.go:217-225`); `Query.FailoverPersists` and
  `Batches.PartialEqualsFull` say what follows.
- The status stamp moves on failures too (`webhook.go:43`), while `README.md:541` measures the time
  since the last success. `Timing.DocumentedIsWider` says exactly when the two disagree;
  `Timing.FailingForeverStaysHealthy` shows that they do. What is reported instead is a loop that has
  stopped or stalled, with one exception: a failed start-up whose stamp is so old when the ticker
  starts (`elchi.go:165-185`) that this delay plus the timeout exceed the interval
  (`Timing.LiveLoopDegradesIff`).
- The cache admits by byte suffix (`cache.go:51`), not by label; `Names.AdmittedButOutside` says which
  names that lets in, and `Query.AnswersStayInZone` that none of them is ever answered.
- A refusal can be false of both the table before and the table after a concurrent change;
  `Query.TornRefusal` gives the exact condition and `Query.FailoverNotifyTears` the request that does it.

## Model

| member | source | states |
|---|---|---|
| `Names.LetterCases` | cache.go:418 | case folding pairs the letters of the two alphabets and leaves every other character |
| `Names.NormalizeSpelling` | cache.go:416-426 | any spelling loses its surrounding white space, its letters become small, and its final dot is there |
| `Names.NormalizeIsNormal` | cache.go:416-426 | every normalised name is lower case, does not start with white space and ends in a dot |
| `Names.NormalizeFixpoint` | cache.go:416-426 | a name is left alone exactly when it is already canonical |
| `Names.NormalizeIdempotent` | cache.go:416-426 | normalising twice is normalising once |
| `Names.NameRecovery` | cache.go:285 | dropping the final dot and normalising again recovers a canonical name exactly when the character before that dot is neither a dot nor white space |
| `Names.InZoneIffBoundary` | elchi.go:50-54 | the label test holds exactly for the zone itself and for names with the zone after a dot |
| `Names.InZoneIsAdmitted` | cache.go:51 | every label-wise descendant of the zone passes the byte-suffix admission |
| `Names.AdmittedButOutside` | cache.go:51 | an admitted name fails the label test exactly when the zone starts inside one of its labels |
| `Names.GateSurvivesNormalize` | elchi.go:50-57 | normalising a query name that passed the zone gate keeps it inside the zone |
| `Records.BuildDNSRecords` | cache.go:303-400 | the loops and branches return, for every record, the result that the lemmas below describe |
| `Records.CollectA` | cache.go:338-363 | the A loop keeps exactly the strings that parse to a four-byte address, in order |
| `Records.CollectAAAA` | cache.go:365-389 | the AAAA loop keeps exactly the strings that parse to an address without a four-byte form, in order |
| `Records.BuiltFits` | cache.go:303-400 | what is built has one owner, one type among A, AAAA and CNAME, and a zero TTL only if the default is zero |
| `Records.BuiltMembers` | cache.go:334-389 | an address is built exactly when a listed string parses to it and it is of the family asked for |
| `Records.AddressesBuiltIff` | cache.go:334-400 | a record with addresses is built exactly when its type, in any case, is A and some string parses to a four-byte address, or AAAA and some parses to another; a configured failover makes no difference |
| `Records.BuiltTTL` | cache.go:309-313 | everything built carries the record's TTL, or the default when that is zero, under its normalised name |
| `Records.HarvestOne` | cache.go:338-389 | one listed string yields its address under the type asked for, or nothing |
| `Records.HarvestAppend` | cache.go:338-389 | a longer list yields what its parts yield, in order |
| `Records.FailoverTarget` | cache.go:315-332 | without addresses a record is skipped or is one CNAME with its own or the default TTL; the target is normalised: verbatim when canonical, given its dot when only that is missing |
| `Tables.LoadIsScan` | cache.go:46-87 | a snapshot load holds, under each key, all contributions to it in record order |
| `Tables.PatchIsLastShare` | cache.go:163-194 | an update leaves, under each key, the last contribution of the batch, else what was there |
| `Tables.RemoveIsMembership` | cache.go:211-240 | a deletion empties exactly the keys it names |
| `Tables.EditsAreLastTouch` | cache.go:155-246 | after any log of updates and deletions each key holds what the log last said about it |
| `Tables.NoDriftIffAffirmed` | cache.go:155-246 | a log leaves a loaded table as it was exactly when its last word on each key repeats the load |
| `Tables.RepeatsAffirm` | cache.go:155-246 | batches that only repeat records with distinct keys, or delete what they lack, are such a log |
| `Tables.SizeAnyOrder` | cache.go:404-413 | the total number of records does not depend on the order entries are visited |
| `Tables.LoadConserves` | cache.go:44-95 | a loaded table holds exactly as many records as were built for the loaded ones |
| `Tables.LoadedAreCells` | cache.go:44-87 | the records counted as loaded are exactly those that yield an entry |
| `Batches.IndexIsScan` | cache.go:37-246 | the table after a snapshot and any batches answers each key as a linear scan of raw records and batches does |
| `Batches.ReachableOk` | cache.go:46-240 | after any snapshot and batches no entry is empty, every record matches its key's owner and type, types are A, AAAA or CNAME, names are canonical and end in the zone |
| `Batches.RecordStores` | cache.go:163-194 | an update with one record stores what is built from it under its normalised name and type exactly when that name ends in the bytes of the zone and something is built, and touches nothing else |
| `Batches.DeletesEmpty` | cache.go:211-240 | a list of deletions, in any spelling of names and types, empties exactly the address entries it names |
| `Batches.DeleteUndoesRecord` | cache.go:211-240 | deleting a record by its own name and type removes its address entry and nothing else |
| `Batches.SnapshotIsUpdateIffDistinct` | cache.go:46-194 | a snapshot load equals an update of an empty cache exactly when the records' keys are distinct |
| `Batches.ReorderingsLoadAlike` | cache.go:46-87 | reordering records without reordering those of one key loads the same table |
| `Batches.NotifyIdempotent` | webhook.go:154-176 | handling a request twice in a row leaves what handling it once leaves |
| `Batches.HandledIsPatchRemove` | webhook.go:154-176 | a request is its whole update followed by its whole deletion, empty halves included |
| `Batches.OverlappedNotifies` | webhook.go:154-176 | when the updates of two requests both precede their deletions, the outcome is the first order exactly when the first deletion clobbers nothing, the other order exactly when the second request overtakes nothing; which deletion is last makes no difference |
| `Batches.OverlapCanBeNeitherOrder` | webhook.go:154-176 | from every table, two requests that clash both ways leave what neither order leaves |
| `Batches.SomeOverlapIsNeitherOrder` | webhook.go:154-176 | two concrete such requests on the empty cache |
| `Batches.UpdatesCompose` | cache.go:163-194 | updating with two lists in turn is updating with their concatenation |
| `Batches.DeletesCompose` | cache.go:211-240 | deleting two lists in turn is deleting their concatenation |
| `Batches.CnamePersists` | cache.go:217-239 | webhook batches never shrink the set of names that hold a CNAME |
| `Batches.PartialEqualsFull` | webhook.go:154-176 | notifying the difference of two record sets gives the cache of the second exactly when every CNAME key of the first is kept |
| `Dump.RoundTrip` | cache.go:249-294 | listing in any order and loading the list restores the A and AAAA part exactly when no such entry mixes TTLs; CNAMEs are dropped |
| `Dump.ReadBack` | cache.go:261-289 | one listed entry reads back as the same key with the last TTL, or as a skip for a CNAME |
| `Dump.ListedAs` | cache.go:261-289 | an entry is listed by its name without the final dot, its type and each of its addresses in order; a CNAME without type, addresses or target |
| `Replica.WriteAllCoherent` | cache.go:89-246 | any sequence of installs and batches keeps the table equal to the batches since the last install, in lock order, over that install's records |
| `Replica.TornIffNewInstall` | cache.go:128-152 | a table read under one lock and a hash read under a later one fit no single state exactly when no state before the last install in between had both, and no table since fits; unless that hash is installed twice, the first half says it is new |
| `Replica.WebhooksDoNotTear` | cache.go:128-152 | with only webhook batches in between they always fit a state |
| `Cache.RecordCache.constructor` | cache.go:29-34 | a new cache is empty, with no hash, and in order |
| `Cache.RecordCache.Get` | cache.go:103-125 | returns the whole entry of the normalised name and type, or nothing |
| `Cache.RecordCache.GetVersionHash` | cache.go:128-132 | returns the hash of the last install |
| `Cache.RecordCache.RRCount` | cache.go:142-152 | the nested sum in any map order is the number of records held |
| `Cache.RecordCache.UpdateCacheSizeMetric` | cache.go:404-413 | publishes that number |
| `Cache.RecordCache.ReplaceFromSnapshot` | cache.go:37-100 | installs table and hash together, loaded plus skipped is the number of records, the published size is the summed built lengths; a nil snapshot changes nothing |
| `Cache.RecordCache.InstallBuilt` | cache.go:89-95 | the locked part of a load changes table, hash and time at once |
| `Cache.LoadNested` | cache.go:43-87 | the nested maps built by the load loop agree with the flat load, and the two counters with the records |
| `Cache.RecordCache.Update` | cache.go:155-200 | the in-place merge is the flat update and keeps the invariant and the published size; an empty list does nothing |
| `Cache.RecordCache.Delete` | cache.go:203-246 | the in-place deletion with pruning is the flat deletion and keeps the invariant and the published size |
| `Cache.RecordCache.DeleteOne` | cache.go:211-239 | one deletion removes one address key, prunes an emptied domain, and ignores other types |
| `Cache.RecordCache.GetAllRecords` | cache.go:249-294 | lists every entry, each exactly once, for every map iteration order |
| `Cache.ListEntry` | cache.go:261-289 | one entry is listed with its printed addresses, the last TTL met, and no type for a CNAME |
| `Client.JudgeIff` | client.go:112-204 | every reply is unchanged, delivered or failed by its own status and body alone: 304 or a readable 200 marked unchanged; a readable 200 with zone and hash; everything else |
| `Client.FailureCause` | client.go:101-204 | a failure is blamed on the first of connection, body, status, format and zone that is at fault |
| `Client.AcceptedIsIdentified` | client.go:126-202 | no accepted reply has an empty zone or hash to install, and nothing counts as unchanged before a first snapshot |
| `Protocol.RunCoherent` | elchi.go:202-275 | in every reachable state of the interleaved system the cache is the log of batches over the installed snapshot |
| `Protocol.CacheFromActions` | elchi.go:202-275 | any run's cache can be read off its actions: build of the last installed snapshot, then exactly the batches that landed after it, in lock order, and that snapshot's hash |
| `Protocol.BatchLives` | elchi.go:236-275 | a batch that lands is still at work at the end of a run, with every later batch, if no install follows it; otherwise the cache is a later install under the batches landed after that |
| `Convergence.MidSyncRun` | elchi.go:202-275 | while a sync is in flight the hash it read stays the cache's, and the reply it holds is about a version no older than its start |
| `Convergence.JudgeContract` | client.go:170-204 | how the client takes the controller's own reply: equal hash is unchanged, an incomplete version fails, otherwise the whole version is installed |
| `Convergence.SyncReachesVersion` | elchi.go:236-275 | a sync that ends well leaves the cache at a version current no earlier than its start |
| `Convergence.Converges` | elchi.go:236-275 | with a quiet controller a good sync leaves exactly the controller's records if the hashes differed, else the webhook log over them, equal to them exactly when the log confirms them |
| `Convergence.AgreeingLogConfirms` | webhook.go:154-176 | with distinct keys, batches that agree with the controller's records confirm them |
| `Convergence.SyncCatchesUp` | elchi.go:202-275 | a good sync brings the cache to a version at least as new as any the controller had at its start, and rebuilds it from that version if it was behind |
| `Convergence.NextSyncRepairs` | elchi.go:202-275 | over any run, after a batch landed that describes a version the controller had: it is still in the log or an install after it removed it, and the next good sync ends at a version at least as new, rebuilt from it if the install had left the cache behind |
| `Convergence.NeverBackwards` | elchi.go:202-275 | with hashes never reused, installed versions never go backwards over any run |
| `Convergence.ReachableIsSourced` | elchi.go:157-275 | every reachable cache was installed from some version of the controller |
| `Convergence.UpdateCanBeLost` | elchi.go:236-275 | an older reply in flight does overwrite a newer batch |
| `Convergence.SyncNodeIsRun` | elchi.go:202-275 | a whole sync of the plugin is a run of the transition system |
| `Convergence.DegradesGracefully` | elchi.go:217-255 | across failed and unchanged syncs and controller edits the cache does not change |
| `Convergence.ReadyForever` | elchi.go:133-138 | once the cache has a hash it keeps one over any run, whatever replies arrive |
| `Query.AnsweredIff` | elchi.go:46-124 | an answer is given exactly when the name is in the zone and the list is the CNAME entry at the first read, or for an address query that found none, the entry of the type asked for at the second, and not empty |
| `Query.HandedOnIff` | elchi.go:46-106 | a query is handed on exactly when it is outside the zone or of another type, or found nothing and falls through |
| `Query.ServeRefinesScan` | elchi.go:46-124 | with no writer in between, a query of any spelling and type gets what a linear scan of the raw records and batches gives, CNAME first |
| `Query.AnswersStayInZone` | elchi.go:50-123 | every answer is about the normalised query name, label-wise inside the zone, with positive TTLs under a positive default |
| `Query.ServableIsAdmitted` | cache.go:51-74 | no record about a servable name is dropped for its zone |
| `Query.EntryIsWhole` | cache.go:85-193 | every entry of a reachable cache is what the last write to say anything about its key said, whole |
| `Query.UntornPositives` | elchi.go:69-108 | under any writes between the two reads a positive answer is one whole entry of the table at the first read or of the table at the second, as the last write about that key left it |
| `Query.RefusalCertifies` | elchi.go:69-108 | a refusal means no CNAME at the first read and no address at the second, and nothing more |
| `Query.TornRefusal` | elchi.go:69-108 | a refusal is false of both tables exactly when the name switches from addresses to a CNAME between the reads |
| `Query.FailoverNotifyTears` | elchi.go:69-108 | one failover notify landing between the reads causes such a refusal |
| `Query.FailoverPersists` | elchi.go:70-84 | a name in failover answers A, AAAA and CNAME with CNAMEs through any webhook batches |
| `Plugin.SyncStatus.Update` | webhook.go:40-50 | every outcome, failures included, moves the stamp |
| `Plugin.Elchi.Ready` | elchi.go:133-138 | ready exactly when there is a cache with a hash |
| `Plugin.Elchi.InitClient` | elchi.go:141-181 | start-up is a sync of an empty cache in which webhooks may already land; a failure leaves them in place |
| `Plugin.Elchi.PerformSync` | elchi.go:202-275 | for every reply and every batches landing in flight, the cache is what the protocol says, and the status is "failed" exactly for replies that neither say unchanged nor deliver a snapshot |
| `Plugin.Elchi.BackgroundSync` | elchi.go:184-199 | any number of ticks is that many protocol syncs, stamped at their ends |
| `Plugin.CyclesAreRun` | elchi.go:184-275 | the background loop over any cycles is a run of the transition system |
| `Plugin.Elchi.ServeDNS` | elchi.go:46-124 | for every writes between its reads, the answer is the decision over the two tables read, which `Query.AnsweredIff`, `Query.HandedOnIff` and `Query.RefusalCertifies` describe |
| `Plugin.IdleCyclesChangeNothing` | elchi.go:217-255 | failed and unchanged cycles leave the cache as it was over any run of the loop |
| `Webhook.HandleNotify` | webhook.go:138-188 | a notify is an update and then a deletion, each atomic, with any writes in the gap; bad requests change nothing |
| `Webhook.HandleHealth` | webhook.go:202-231 | status, count and hash are those of the states its three locked reads see, for any writes between; degraded exactly when the last sync failed and its stamp is over two intervals old |
| `Webhook.HealthTearsIff` | webhook.go:208-213 | exactly when count and hash of a response belong to no common state |
| `Webhook.HandleRecords` | webhook.go:242-281 | returns the filtered listing of the whole cache, its length, and the hash a later lock sees, for any writes between |
| `Webhook.ListingTearsIff` | webhook.go:253-278 | exactly when records and hash of a response belong to no common state |
| `Webhook.FilterRecords` | webhook.go:256-269 | the filter loop keeps exactly the records that pass both filters, in order |
| `Webhook.ContainsIff` | webhook.go:259 | the substring search finds a part exactly when it occurs somewhere |
| `Webhook.KeptIff` | webhook.go:257-266 | a record passes exactly when its name in small letters has the name filter as a substring and its type is the filter in capitals, an empty filter asking for nothing |
| `Webhook.FilteredMembers` | webhook.go:256-269 | the filtered listing holds exactly the records that pass |
| `Webhook.FilteredAppend` | webhook.go:256-269 | filtering keeps order and multiplicity |
| `Webhook.CnameFilterFindsNothing` | webhook.go:263-266 | filtering the listing by type CNAME always gives nothing |
| `Timing.StampsStayYoung` | elchi.go:184-203 | while the loop is live no tick is dropped, and the last stamp is less than two intervals old, except that the start-up stamp may get older by the launch delay until the first cycle ends |
| `Timing.LiveLoopDegradesIff` | webhook.go:219 | a live loop can be reported degraded exactly when start-up failed and launch delay plus timeout exceed the interval, whatever the other syncs' outcomes |
| `Timing.StampsAreClose` | elchi.go:184-203 | consecutive stamps are less than two intervals apart, the start-up stamp included when the launch is quick enough |
| `Timing.AcceptedConfigurationIsHealthy` | setup.go:189-192 | the same exact condition for every launch, of any delay, under every accepted configuration |
| `Timing.DocumentedIsWider` | README.md:541 | in every run a reported degradation is a documented one, and the two disagree exactly when the last sync failed, the last success is over two intervals old and the last stamp is not |
| `Timing.DocumentedIsNeverReported` | README.md:541 | a live loop launched quickly enough is never reported degraded, so the code disagrees with the documented rule whenever that rule holds |
| `Timing.FailingForeverStaysHealthy` | webhook.go:40-50 | such runs exist: when every sync fails, health says healthy at every moment between ticks, and the documented rule says degraded once the last success is two intervals old |
| `Setup.ParseElchi` | setup.go:53-200 | the token loop and the final checks compute the configuration of the block's directives, which `Setup.AcceptedIff` and `Setup.AcceptedSays` describe, or refuse it |
| `Setup.ReadDirective` | setup.go:72-166 | one turn of the loop takes a directive's words from its line and overwrites its fields |
| `Setup.ReadValue` | setup.go:74-152 | the branches of the directives with one value |
| `Setup.AcceptedIsBounded` | setup.go:86-192 | an accepted configuration has 5s <= sync_interval <= 5m, 1s <= timeout < sync_interval, 0 < ttl < 2^32, a secret of 8 or more characters |
| `Setup.AcceptedSays` | setup.go:53-168 | each field of an accepted configuration is what the last directive of its kind says, or the default when there is none |
| `Setup.AcceptedIff` | setup.go:70-192 | a block is accepted exactly when each directive is well formed, the required fields are given, the secret has 8 characters and the timeout is below the interval |
| `Setup.DefectIff` | setup.go:72-167 | which directives are refused on their own, and for what |
| `Setup.FirstDefect` | setup.go:70-168 | a block is refused for the first directive that is not well formed |
| `Setup.CutLaidOut` | setup.go:70-168 | reading a block written one directive a line gives the directives back exactly when each takes all the words of its line |
| `Setup.ParseSpelled` | setup.go:90-98 | a number is read back from its decimal spelling exactly when it has 32 bits |
| `Setup.OrderAcrossKindsIsIrrelevant` | setup.go:70-168 | blocks with the same directives of each kind, in order within each kind, are both refused or give the same configuration |

## Left out

- HTTP transport, URL building, JSON decoding, TLS, headers and the webhook listener: a decoded reply or request is the input.
- Prometheus counters and logging: only the published cache size is kept, as a field.
- Address parsing and printing: abstract functions; `Dump.RoundTrip` asks only that parsing a printed address returns it.
- Duration parsing: an abstract function; unsigned decimal parsing is modelled.
- Unicode case folding and white space: ASCII only; string lengths count characters.
- Names with escaped characters: labels are split at every dot.
- Data of other record types (NODATA answers): the code refuses a name that exists only with another type, and the model does the same.
- The `updated` and `deleted` counts of a notify response, the authentication middleware, regions and node address in requests, shutdown: plumbing.
- Braces of the configuration block and the server block key: the block's words and the normalised zone are the input.
- Plugin.Elchi.BackgroundSync: models the endless select loop up to any finite number of ticks; when ticks happen is the subject of `timing.dfy`.
- Timing.LiveLoopDegradesIff: takes as live a loop that starts its cycle when the ticker fires and ends it within the timeout; scheduling and installing take no time beyond that.
- Convergence.NextSyncRepairs: assumes hashes are never reused, which content hashes do not promise when records return to an earlier state.
- Cache.RecordCache.GetAllRecords: lists values, so the aliasing that copying slices in `Get` prevents is not modelled.
