# Verified model of opsiclientd

opsiclientd is the client agent of a software deployment system. This project models the algorithms and protocols
under its input and output in Dafny and proves what they promise:

- **Product action sequencing** (`ActionGroup`, `ActionGroupOrder`, `Graph`, `ProductIdGroups`, `DependencyTables`,
  `DependencyWalk`, `Gathering`, `DemandMeaning`, `DependencyRecords`, `ActionPlan`, `ActionSorter`,
  `ProductActionGroups`, `OutputMeaning`, `PassedOver`). Requested actions are expanded along a possibly cyclic
  dependency table, products are grouped by hard dependencies, duplicates are merged, each group is sorted by repeated
  moves, and the groups are ordered and numbered. The classes `ActionGroup` and `ActionSorter` have the fields and
  loops of the source and compute what the walk over the tables says as a function; the lemmas say what that walk
  collects and records and what the resulting plan guarantees.
- **Config sync** (`CacheBackend`, `UploadMeaning`, `CacheRuns`, `ClientCacheBackend`, `RequiredActions`,
  `ConfigCache`, `ConfigCacheService`). Local modifications are replayed onto the server's objects under the guard of
  a snapshot. Backends are maps from identifiers to attributes, the tracker is a map from identifiers to the last
  command. An upload may stop after any subset of its operations; which operations the server reaches is a parameter.
- **MessagePack** (`Utf8`, `MsgPack`, `MsgPackFormat`, `MsgPackReading`, `MsgPackRoundTrip`, `MsgPackCodec`). Writer
  and reader of the web pages with their growing buffer and their cursor, against the formats of the MessagePack
  specification (sections "Formats" and "Timestamp extension type") and of UTF-8 (section 3 of RFC 3629) and UTF-16
  (section 2 of RFC 2781).
- **Event protocol** (`EventProtocol`, `EventSafety`, `EventCancel`, `EventMarks`, `EventThreads`). Firing, checking,
  handing the lock over, cancelling, waiting, registering and running events as a transition system with interleaved
  steps. The lock does not know its owner, as in the source. A running event has its looks at the cancel mark, its
  writes of the cancelable flag and the work between them as steps of their own.
- **Product cache** (`ProductCache`). Eviction with deletions that may fail, the size limit and the flag that all
  products are cached.
- **Event configurations** (`EventConfigs`). The inheritance loop.
- **Timeline index and message framing** (`EventIndex`, `Framing`).

Where the code differs from what one would expect, the model follows the code and states the exact condition:

- Dates before 1970 come back one second late unless they fall on a full second or within the last second before 1970
  (`MsgPackRoundTrip.DateRoundTripIff`).
- `b"\1e"` in the notification server is the byte 1 followed by the letter e, and a CRLF takes precedence over it. How
  a stream is split into calls is irrelevant exactly if no such separator stands before a CRLF
  (`Framing.ChunkingIrrelevantIff`).
- Sorting stops on an unsatisfied order when "before" and "after" requirements are mixed
  (`ActionGroupOrder.MixedDirectionsFail`), and it moves an unrelated action for an "after" requirement whose product
  has no action in the group (`ActionGroupOrder.AbsentAfterMoves`).
- A hard dependency is passed over if its product was visited earlier on the same walk; it is then not recorded for
  the order. `PassedOver.HardDependencyPassedOver` has tables on which this happens, and `PassedOver.PassedOverOrder`
  the wrong order that follows. The walk of an action follows a dependency exactly if the product was not visited when
  its turn came (`DependencyRecords.OwnWalkFollowsIff`). Where every product is demanded with one action only, that is
  exactly if no earlier dependency of the action leads to the product (`DependencyRecords.OwnWalkFollowsIffNotLed`);
  that this suffices holds on any tables (`DependencyRecords.RecordedUnlessLed`).
- A local change between a failed and a repeated upload can be refused as a change of the server
  (`CacheBackends.SecondChangeUploadedIff`, with an input in `CacheBackends.SecondChangeRefused`).
- A sync from the server alone drops pending modifications (`ConfigCaches.DownloadAloneDrops`). They are never at risk
  exactly in the runs of `ConfigCaches.NothingAtRiskIff`.
- `syncConfig` without force forgets that the cache is faulty (`ConfigCaches.SyncConfigForgetsFaulty`); a run without
  a replication keeps the mark exactly if it has no such call (`ConfigCaches.FaultyThroughoutIff`).
- A user's cancel can succeed and the event's actions are processed nevertheless (`EventCancels.ActionsAfterCancel`).
  What a successful cancel still stops depends exactly on where it meets the thread (`EventCancels.CancelStopsIff`,
  `EventCancels.WorkAfterCancelIff`); the event turns uncancelable after it exactly if it came behind the look before
  the flag is dropped (`EventCancels.FlagFallsIff`).
- The server is not asked for the action request "always", while the cached configuration is. A client that is in step
  with the server therefore replicates again exactly if some product has "always" and another product another action,
  or the depot was switched (`ConfigCacheServices.AlwaysAsksForSync`).
- The repair of missing required actions requests the action of the requiring product, not the required one. A repair
  meets its requirement exactly if both actions are the same (`RequiredActions.RepairMeetsIff`), and after the loop,
  for one level of requirements that agree, a requirement is met exactly if it was met before or some requiring
  product itself has the required action (`RequiredActions.MetAfterIff`); `RequiredActions.SetupBecomesUninstall` has
  a required setup that becomes an uninstallation.
- The latest date of the timeline index is the latest end of all events exactly under the condition of
  `EventIndexes.LatestOfAllIff`; `EventIndexes.LatestMissesEarlier` has two events for which it is not.

`dafny verify dfyconfig.toml` checks the whole project.

## Model

| member | source | states |
|---|---|---|
| ActionGroups.ActionGroup.AddAction | opsiclientd/nonfree/RPCProductDependencyMixin.py:114-123 | The group priority stays the combination of the priorities of all actions added so far |
| ActionGroups.ActionGroup.EnforceDependency | opsiclientd/nonfree/RPCProductDependencyMixin.py:77-109 | The search for both positions and the pop and insert do to the list what one dependency asks for |
| ActionGroups.ActionGroup.SortRun | opsiclientd/nonfree/RPCProductDependencyMixin.py:75-109 | One run over a copy of the list, each product still present once |
| ActionGroups.ActionGroup.Sort | opsiclientd/nonfree/RPCProductDependencyMixin.py:63-112 | The in-place sort gives the sorted list that the lemmas below are about |
| ActionGroups.SortedPermutes | opsiclientd/nonfree/RPCProductDependencyMixin.py:63-112 | Sorting loses and duplicates nothing |
| ActionGroupOrder.SortSatisfies | opsiclientd/nonfree/RPCProductDependencyMixin.py:71-112 | With acyclic requirements, no product required in both directions and products required "after" present, every hard dependency is satisfied; as many runs as actions suffice |
| ActionGroupOrder.SortSatisfiesIffAcyclic | opsiclientd/nonfree/RPCProductDependencyMixin.py:71-112 | With dependencies of one direction, sorting satisfies all of them if and only if they have no cycle |
| ActionGroupOrder.SatisfiedIff | opsiclientd/nonfree/RPCProductDependencyMixin.py:91-109 | In positions: a product required "before" stands in front of the requiring one, a product required "after" behind it |
| ActionGroupOrder.EarlyStopIsSound | opsiclientd/nonfree/RPCProductDependencyMixin.py:110-112 | Stopping on an unchanged list gives what all runs would give |
| ActionGroupOrder.UnrequiredKeepKeyOrder | opsiclientd/nonfree/RPCProductDependencyMixin.py:65-109 | Products that nobody requires keep their order by priority and id, whatever the other dependencies are |
| ActionGroupOrder.UnrequiredByPriority | opsiclientd/nonfree/RPCProductDependencyMixin.py:65-109 | Of two products that nobody requires the one with the higher priority stands first; with equal priorities the one whose id is smaller at the first different character |
| ActionGroupOrder.IndependentByPriority | opsiclientd/nonfree/RPCProductDependencyMixin.py:65-65 | That is the order of all products where the group has no hard dependency |
| ActionGroupOrder.SortedIndependentOfOrder | opsiclientd/nonfree/RPCProductDependencyMixin.py:63-112 | The sorted group is the same for every iteration order of the set of products |
| ActionGroupOrder.GroupPriorityMeaning | opsiclientd/nonfree/RPCProductDependencyMixin.py:114-123 | The group priority is the maximum if any is positive, else the minimum if any is negative, else 0 |
| ActionGroupOrder.MixedDirectionsFail | opsiclientd/nonfree/RPCProductDependencyMixin.py:91-112 | An acyclic, satisfiable group with mixed directions for which the sort stops on an unsatisfied order |
| ActionGroupOrder.AbsentAfterMoves | opsiclientd/nonfree/RPCProductDependencyMixin.py:81-109 | An absent product required "after" changes the order of two products that nobody requires |
| ProductIdGroups.SameGroupIffConnected | opsiclientd/nonfree/RPCProductDependencyMixin.py:296-314 | Two products are in one group exactly if a chain of recorded hard dependencies joins them |
| ProductIdGroups.MergedComponents | opsiclientd/nonfree/RPCProductDependencyMixin.py:300-314 | Recording one more dependency keeps the groups disjoint and equal to the connected components |
| ActionSorters.ActionSorter.MergeGroups | opsiclientd/nonfree/RPCProductDependencyMixin.py:300-314 | The in-place search, union and deletion of groups is the merge that keeps the components |
| ActionSorters.ActionSorter.ProcessDependencies | opsiclientd/nonfree/RPCProductDependencyMixin.py:247-359 | Terminates on any table; the shared path, the lists, the recorded dependencies and the error are those of the walk: which dependencies it follows in which order, which products it visits |
| ActionSorters.ActionSorter.ProcessList | opsiclientd/nonfree/RPCProductDependencyMixin.py:367-369 | No action list grows while its own elements are iterated |
| ActionSorters.ActionSorter.Collect | opsiclientd/nonfree/RPCProductDependencyMixin.py:361-369 | Collects, records and fails as the functions Gathered, RecordedFor and GatherOutcome say that the lemmas below are about |
| Gathering.GatheredFollows | opsiclientd/nonfree/RPCProductDependencyMixin.py:247-369 | Exactly the requested available actions and what a finite chain of demands from a request leads to is collected, and only dependencies of collected actions are followed |
| Gathering.GatheredClosed | opsiclientd/nonfree/RPCProductDependencyMixin.py:247-369 | Every product that a collected action demands is collected |
| Gathering.GatherOutcomeIff | opsiclientd/nonfree/RPCProductDependencyMixin.py:254-338 | The run fails exactly if a requested product or one of a followed dependency is unavailable and that is not ignored, or a followed dependency has a bad installation status; the error has one of these causes |
| DemandMeanings.DemandIff | opsiclientd/nonfree/RPCProductDependencyMixin.py:275-346 | A dependency asks exactly for the action that it names, or for the one that leads to the required status where client status and versions are not in place; and only if the product is on the depot in the required versions and has the script |
| DemandMeanings.NothingDemandedIff | opsiclientd/nonfree/RPCProductDependencyMixin.py:275-346 | The four reasons for which a dependency asks for nothing, each as an equivalence over the tables |
| DemandMeanings.GatheredIff | opsiclientd/nonfree/RPCProductDependencyMixin.py:247-369 | Collected is exactly what is requested of products on the depot and what the followed dependencies ask for, with the product's priority |
| DemandMeanings.GatheredAsked | opsiclientd/nonfree/RPCProductDependencyMixin.py:247-369 | Every other collected action is asked for by a dependency that a collected action triggers |
| DemandMeanings.GatheredLeadsToStatus | opsiclientd/nonfree/RPCProductDependencyMixin.py:316-354 | A collected action is the one that the dependency names, or it leads to the required status on a client that does not have it |
| DemandMeanings.GatheredServes | opsiclientd/nonfree/RPCProductDependencyMixin.py:247-369 | For every dependency that a collected action triggers its product is collected, or it asks for nothing |
| DemandMeanings.GatherFailsIff | opsiclientd/nonfree/RPCProductDependencyMixin.py:254-338 | Gathering succeeds exactly if no followed dependency requires an unknown status that is not in place, and all requested and followed products are offered or that is ignored |
| DependencyRecords.RecordedIff | opsiclientd/nonfree/RPCProductDependencyMixin.py:296-299 | A dependency is recorded exactly if it is hard, can be met and was followed |
| DemandMeanings.RecordedIffOffered | opsiclientd/nonfree/RPCProductDependencyMixin.py:288-299 | In terms of the tables: followed, with a direction, and offered in the required versions |
| DependencyRecords.StepsOfWalks | opsiclientd/nonfree/RPCProductDependencyMixin.py:366-369 | Every dependency that is followed is followed in the walk of a collected action |
| DependencyRecords.RequestedWalkIncluded | opsiclientd/nonfree/RPCProductDependencyMixin.py:366-369 | Whatever the walk of a requested action follows is followed |
| DependencyRecords.OwnWalkFollowsIff | opsiclientd/nonfree/RPCProductDependencyMixin.py:267-273 | The walk of an action follows a dependency that the action triggers exactly if its product was not visited when its turn came |
| DependencyRecords.OwnWalkFollowsIffNotLed | opsiclientd/nonfree/RPCProductDependencyMixin.py:267-273 | Where every product is demanded with one action only: exactly if the product is another one and no earlier dependency of the action leads to it |
| DependencyRecords.PathBeforeIff | opsiclientd/nonfree/RPCProductDependencyMixin.py:252-273 | Under the same condition the products visited before a dependency are the own one and those to which the earlier dependencies lead |
| DependencyRecords.VisitedBeforeIsLed | opsiclientd/nonfree/RPCProductDependencyMixin.py:252-273 | On any tables a product that was visited before is the own one, or an earlier dependency leads to it |
| DependencyRecords.RecordedUnlessLed | opsiclientd/nonfree/RPCProductDependencyMixin.py:267-314 | On any tables a hard dependency of a requested action is recorded if no earlier dependency of the action leads to its product, requested or not |
| PassedOver.HardDependencyPassedOver | opsiclientd/nonfree/RPCProductDependencyMixin.py:272-273 | Tables with a triggered hard dependency between two collected products that is not recorded |
| PassedOver.PassedOverOrder | opsiclientd/nonfree/RPCProductDependencyMixin.py:272-409 | In every plan for them the product comes before the one that it requires before itself |
| ActionPlans.MergedActionMeaning | opsiclientd/nonfree/RPCProductDependencyMixin.py:374-387 | Merging duplicates keeps a real action if there is one, and the requested product on client |
| ActionPlans.BuiltUnique | opsiclientd/nonfree/RPCProductDependencyMixin.py:389-400 | The group built for a component does not depend on the iteration order of its set |
| ActionPlans.NumberingMeaning | opsiclientd/nonfree/RPCProductDependencyMixin.py:441-454 | Real actions are numbered 0 to k-1 in output order, all others carry -1 |
| ActionPlans.NumberGroups | opsiclientd/nonfree/RPCProductDependencyMixin.py:441-454 | The running counter numbers every group from the number of real actions in the groups before it |
| ActionPlans.PlanConserves | opsiclientd/nonfree/RPCProductDependencyMixin.py:389-409 | Every collected product is in exactly one ordered group once, groups by descending priority |
| ActionSorters.ActionSorter.ProcessProductOnClients | opsiclientd/nonfree/RPCProductDependencyMixin.py:361-409 | The whole run produces a plan in the sense of PlanOf: of exactly what is gathered, in groups joined by exactly the recorded dependencies |
| ProductActionGroups.GetProductActionGroups | opsiclientd/nonfree/RPCProductDependencyMixin.py:434-457 | For one client: a numbered plan, or an error exactly where gathering raises it |
| ProductActionGroups.PlanCollects | opsiclientd/nonfree/RPCProductDependencyMixin.py:361-369 | What a plan lists is closed and justified: all requested actions, everything that they demand in turn, and nothing else |
| ProductActionGroups.EachProductOnce | opsiclientd/nonfree/RPCProductDependencyMixin.py:374-409 | The output of a plan lists every collected product exactly once with its merged action, groups by descending priority |
| OutputMeanings.EntryMeaning | opsiclientd/nonfree/RPCProductDependencyMixin.py:134-141 | Each entry carries the first request for its product with just the action changed, to the last action collected that asks for something; it has a number exactly if there is one |
| OutputMeanings.GroupsByPriority | opsiclientd/nonfree/RPCProductDependencyMixin.py:114-123 | Output groups come by descending priority, and each has the combined priority of its actions |
| OutputMeanings.IndependentInOutput | opsiclientd/nonfree/RPCProductDependencyMixin.py:63-112 | In an orderly output group, products that nobody requires come by priority and id |
| ProductActionGroups.HardDependencyScheduled | opsiclientd/nonfree/RPCProductDependencyMixin.py:296-409 | Both products of a recorded hard dependency are in one group, and in an orderly group on the right sides of each other, also by sequence number |
| ProductActionGroups.SharedGroupIffLinked | opsiclientd/nonfree/RPCProductDependencyMixin.py:296-407 | Two collected products share an output group exactly if a chain of recorded hard dependencies joins them |
| CacheBackends.RetrySafe | opsiclientd/nonfree/CacheBackend.py:159-229 | A sync that failed after any subset of its operations, repeated in full, leaves the master of one uninterrupted sync |
| CacheBackends.RetriesSafe | opsiclientd/nonfree/CacheBackend.py:159-229 | The same after any number of failed attempts |
| CacheBackends.SyncIdempotent | opsiclientd/nonfree/CacheBackend.py:159-229 | Repeating a sync changes nothing |
| CacheBackends.UnchangedIsUploaded | opsiclientd/nonfree/CacheBackend.py:173-213 | Where the server did not change an object, the master agrees with the work backend after the sync |
| UploadMeanings.UploadedAttribute | opsiclientd/nonfree/CacheBackend.py:196-229 | For every object and attribute: the local value arrives, but for what the merge holds back, which stays as on the server |
| UploadMeanings.ProductArrives | opsiclientd/nonfree/CacheBackend.py:317-354 | A product's whole local entry arrives if the server lists the versions of the last replication, else all but its action request and target configuration |
| UploadMeanings.AgreesIff | opsiclientd/nonfree/CacheBackend.py:173-229 | The whole local object arrives exactly if what is held back is the same on the server |
| CacheBackends.ChangedStateUntouched | opsiclientd/nonfree/CacheBackend.py:401-425 | A config or property state whose values changed on the server stays as the server has it |
| CacheBackends.DeleteIffUnchanged | opsiclientd/nonfree/CacheBackend.py:178-195 | A delete removes an object exactly if the client owns it and it did not change on the server |
| UploadMeanings.DeletedIff | opsiclientd/nonfree/CacheBackend.py:178-195 | The same with the comparison written out: all attributes, but the four of a product's progress, lists up to order |
| CacheBackends.ChangedProductKeepsRequest | opsiclientd/nonfree/CacheBackend.py:317-354 | Where the product version changed on the server, its action request and target configuration stay |
| CacheBackends.UnmodifiedUntouched | opsiclientd/nonfree/CacheBackend.py:173-229 | Objects without a modification are not touched |
| CacheBackends.SecondChangeUploadedIff | opsiclientd/nonfree/CacheBackend.py:401-425 | A state changed again after a partly successful upload is uploaded exactly if the first upload had not changed the members of its values |
| CacheBackends.SecondChangeRefused | opsiclientd/nonfree/CacheBackend.py:401-425 | A config state for which the second change is refused |
| CacheRuns.UploadReflectsChanges | opsiclientd/nonfree/CacheBackend.py:173-229 | After any local changes since a replication, the upload brings every object that the server did not change to the local state, attribute by attribute; deleted objects and unused licenses go |
| CacheRuns.LicenseFreedIffNotRead | opsiclientd/nonfree/CacheBackend.py:131-138 | A license stored at the replication is freed by the next upload exactly if it was not read meanwhile |
| CacheRuns.RunIsExplained | opsiclientd/nonfree/CacheBackend.py:131-138 | The tracker explains every difference between the work backend and the snapshot |
| ClientCacheBackends.ClientCacheBackend.SameValueLists | opsiclientd/nonfree/CacheBackend.py:409-423 | The three comparisons decide equal length and equal members |
| ClientCacheBackends.ClientCacheBackend.PlanModification | opsiclientd/nonfree/CacheBackend.py:173-213 | The decisions for one modification are those of the plan |
| ClientCacheBackends.ClientCacheBackend.SyncModifiedObjectsWithMaster | opsiclientd/nonfree/CacheBackend.py:159-229 | Delete and update lists and the two calls apply the plan to the objects reached, to all if nothing failed |
| ClientCacheBackends.ClientCacheBackend.UpdateMasterFromWorkBackend | opsiclientd/nonfree/CacheBackend.py:231-435 | The classes in turn amount to one upload of all modifications, up to the first class that fails |
| ClientCacheBackends.ClientCacheBackend.GetLicenseOnClients | opsiclientd/nonfree/CacheBackend.py:131-138 | Licenses that are read are inserted again, so that the tracker keeps them |
| ClientCacheBackends.ClientCacheBackend.ReplicateMasterToWorkBackend | opsiclientd/nonfree/CacheBackend.py:496-576 | Snapshot and work backend are copies of the server's objects; exactly for the products with an action and a pool a license is stored, the first of the client in the pool or else a granted one, and its deletion recorded; no other license is acquired |
| RequiredActions.SetRequiredActions | opsiclientd/nonfree/CacheBackend.py:461-484 | The loop repairs requirement by requirement on the requests as they are by then |
| RequiredActions.RepairMeetsIff | opsiclientd/nonfree/CacheBackend.py:464-478 | One repair meets its requirement exactly if that was met before or the required action has the name of the requiring one |
| RequiredActions.MetAfterIff | opsiclientd/nonfree/CacheBackend.py:463-481 | For one level of requirements that agree, a requirement is met after the loop exactly if it was before or a requiring product itself has the required action |
| RequiredActions.RepairedFrom | opsiclientd/nonfree/CacheBackend.py:463-484 | The loop adds and drops no product, gives each only the action of one that requires it, and writes back every product that it changes |
| RequiredActions.SetupBecomesUninstall | opsiclientd/nonfree/CacheBackend.py:478-478 | A required setup for which an uninstallation is requested |
| ConfigCaches.FailureKeepsModifications | opsiclientd/nonfree/CacheService.py:678-735 | A failed upload always has modifications that wait for the next one |
| ConfigCaches.FailedUploadBlocks | opsiclientd/nonfree/CacheService.py:678-742 | Until an upload succeeds no modification leaves the tracker and the config does not become cached |
| ConfigCaches.UploadServed | opsiclientd/nonfree/CacheService.py:653-673 | A requested sync to the server is the next thing done; it empties the tracker or sets the error |
| ConfigCaches.DownloadServed | opsiclientd/nonfree/CacheService.py:653-869 | Requested syncs in both directions are done upload first; then the config is cached exactly if the upload worked, the server answers and no replication is needed or it completes |
| ConfigCaches.FaultyThroughoutIff | opsiclientd/nonfree/CacheService.py:635-676 | After `setFaulty`, in a run without a completed replication, the config stays marked and not cached throughout exactly if nobody calls `syncConfig` without force |
| ConfigCaches.SyncConfigForgetsFaulty | opsiclientd/nonfree/CacheService.py:667-670 | `syncConfig` without force loses the faulty mark, with force it keeps it |
| ConfigCaches.NothingAtRiskIff | opsiclientd/nonfree/CacheService.py:648-676 | Over a whole run no pending modification is ever at risk exactly if a sync from the server alone is requested only where one to the server waits, the last one failed or nothing is pending, and nothing changes while only such a sync waits |
| ConfigCaches.AtRiskIff | opsiclientd/nonfree/CacheService.py:653-661 | The next round can drop pending modifications exactly if a sync from the server waits alone, no upload failed and something is pending |
| ConfigCaches.OrderlyRunsDropNothing | opsiclientd/nonfree/CacheService.py:648-676 | Such a run drops no pending modification, at whatever point the next round of the loop comes |
| ConfigCaches.DownloadAloneDrops | opsiclientd/nonfree/CacheService.py:675-676 | A sync from the server that is requested alone drops a pending modification |
| ConfigCacheServices.ConfigCacheService.SyncToServer | opsiclientd/nonfree/CacheService.py:678-735 | The tracker is cleared only after the server took everything; else the error is set |
| ConfigCacheServices.ConfigCacheService.ActionsChanged | opsiclientd/nonfree/CacheService.py:777-823 | Striking out entry by entry decides whether both sides list the same products with the same actions |
| ConfigCacheServices.AsksForSyncIff | opsiclientd/nonfree/CacheService.py:756-823 | A replication is asked for exactly if the depot was switched, or the server has an action pending and the two sides do not have the same actions pending |
| ConfigCacheServices.AlwaysAsksForSync | opsiclientd/nonfree/CacheService.py:776-798 | On a client in step with the server it is asked for exactly if one product has "always" and another product another action pending |
| ConfigCacheServices.ConfigCacheService.SyncFromServer | opsiclientd/nonfree/CacheService.py:737-869 | Nothing happens after a failed upload; otherwise the step of the state machine, and a completed replication leaves copies |
| ConfigCacheServices.ConfigCacheService.RunOnce | opsiclientd/nonfree/CacheService.py:653-661 | One round of the loop is one step of the state machine, uploads first |
| Utf8.EncodeOkIffWellPaired | opsiclientd_data/common/static_html/javascript/msgpack.js:447-452 | Encoding fails exactly on unpaired surrogates |
| Utf8.EncodeSize | opsiclientd_data/common/static_html/javascript/msgpack.js:436-436 | Four bytes a unit always suffice, one byte a unit where all are 7 bit |
| Utf8.DecodeEncode | opsiclientd_data/common/static_html/javascript/msgpack.js:425-499 | Decoding an encoded string gives the string back, wherever its bytes stand |
| MsgPackFormats.TextInFormat | opsiclientd_data/common/static_html/javascript/msgpack.js:425-463 | The bytes are those of RFC 3629 for the code points of the string, pairs joined as in RFC 2781 |
| Utf8.EncodeUtf8 | opsiclientd_data/common/static_html/javascript/msgpack.js:425-463 | The preallocated array is never overrun and holds the encoding |
| Utf8.DecodeUtf8 | opsiclientd_data/common/static_html/javascript/msgpack.js:466-499 | The loop decodes or fails as the decoding function does |
| MsgPackCodec.Serializer.Reserve | opsiclientd_data/common/static_html/javascript/msgpack.js:203-211 | Doubling makes room and keeps the contents |
| MsgPackCodec.Serializer.AppendInt64 | opsiclientd_data/common/static_html/javascript/msgpack.js:216-234 | The split into two words appends the eight bytes of the number |
| MsgPackCodec.Serializer.Append | opsiclientd_data/common/static_html/javascript/msgpack.js:15-188 | Appends the bytes of the value to what was there |
| MsgPackCodec.Serialize | opsiclientd_data/common/static_html/javascript/msgpack.js:7-13 | Fails exactly where a string has an unpaired surrogate, else gives the bytes of the value |
| MsgPackCodec.Deserializer.Get | opsiclientd_data/common/static_html/javascript/msgpack.js:266-421 | The recursive reader with its cursor does what the parsing function says |
| MsgPackCodec.Deserialize | opsiclientd_data/common/static_html/javascript/msgpack.js:240-264 | One value, or all values as a list |
| MsgPackRoundTrip.Int64Back | opsiclientd_data/common/static_html/javascript/msgpack.js:216-234 | The eight bytes read as a two's complement number give the written number |
| MsgPackRoundTrip.IntRoundTrip | opsiclientd_data/common/static_html/javascript/msgpack.js:56-100 | Every integer below 2^53 in size comes back through its format |
| MsgPackRoundTrip.DateRoundTripIff | opsiclientd_data/common/static_html/javascript/msgpack.js:174-188 | A date comes back exactly if it is not earlier than one second before 1970 or is a full second; all others come back one second late |
| MsgPackFormats.DateFormatIff | opsiclientd_data/common/static_html/javascript/msgpack.js:174-188 | A written date stands for its time in the sense of the timestamp extension exactly if it would also come back |
| MsgPackFormats.WrittenInFormat | opsiclientd_data/common/static_html/javascript/msgpack.js:15-234 | Every writable value whose dates survive is written in a format of the specification |
| MsgPackReading.ReadsFormat | opsiclientd_data/common/static_html/javascript/msgpack.js:266-499 | From bytes in any format of the specification that stands for a value, whoever wrote them, that value is read and nothing more |
| MsgPackRoundTrip.ReadSer | opsiclientd_data/common/static_html/javascript/msgpack.js:266-421 | Reading at the bytes of a value, whatever surrounds them, gives the value up to its dates and stops right behind |
| MsgPackRoundTrip.RoundTripIff | opsiclientd_data/common/static_html/javascript/msgpack.js:7-421 | The value comes back exactly if all its dates do |
| MsgPackRoundTrip.ListRoundTripIff | opsiclientd_data/common/static_html/javascript/msgpack.js:255-264 | A concatenation read as a list gives the values exactly if all their dates come back |
| MsgPackRoundTrip.UnchangedIffDatesSurvive | opsiclientd_data/common/static_html/javascript/msgpack.js:391-421 | Reading changes a value exactly in the dates that do not survive |
| EventSafety.AtMostOneRunning | opsiclientd/Opsiclientd.py:742-819 | In every reachable state at most one non-login event is running |
| EventSafety.AdmittedNeverRefused | opsiclientd/Opsiclientd.py:722-751 | An admitted event that is no panic event finds every other event cancelable when it is processed, and marks them all |
| EventSafety.PanicRefusedIff | opsiclientd/Opsiclientd.py:722-751 | A panic event is given up exactly if some non-login event is not cancelable |
| EventSafety.OnlyHolderReleases | opsiclientd/Events/Basic.py:169-187 | Whoever has the lock keeps it through all steps of others, from the check to the registration |
| EventSafety.LockCanBeReleased | opsiclientd/Opsiclientd.py:784-811 | The lock never leaks: its holder can always go on alone until it releases it |
| EventCancels.CancelStopsIff | opsiclientd/EventProcessing.py:1807-2004 | After a successful cancel a thread can still come to a point of its run exactly if that lies ahead of where the cancel met it, along the looks that the mark turns |
| EventCancels.WorkAfterCancelIff | opsiclientd/EventProcessing.py:1891-1956 | Actions, syncs, shutdown requests and the ordinary end each still come exactly if the cancel met the thread behind the look before them |
| EventCancels.FlagFallsIff | opsiclientd/EventProcessing.py:176-205 | An event that was cancelled while cancelable can become uncancelable exactly if the cancel came behind the look before a write of the flag |
| EventCancels.MarkedRun | opsiclientd/EventProcessing.py:1807-2004 | The mark survives all steps of all parties, and the thread never comes to a point that is not ahead |
| EventCancels.ActionsAfterCancel | opsiclientd/EventProcessing.py:1892-1899 | A reachable run in which a user's cancel succeeds and the event goes on to process its actions |
| EventMarks.UserCancelIff | opsiclientd/EventProcessing.py:195-205 | A user's cancel marks the thread exactly if it is cancelable, and changes nothing else but lock and request |
| EventMarks.MarkTurns | opsiclientd/EventProcessing.py:195-205 | Over every run a mark turns true only where the thread is cancelable |
| EventMarks.MarkingStep | opsiclientd/Opsiclientd.py:742-751 | Only a user's cancel or the processing of an event that cancels others marks a thread |
| EventMarks.UnmarkedUntilRaised | opsiclientd/EventProcessing.py:176-205 | A thread that dropped its flag without a mark stays without one until it raises the flag |
| EventMarks.ActionsAreNotCancelled | opsiclientd/EventProcessing.py:1891-1956 | Once an event with actions has dropped its flag without a mark, nobody can cancel it any more |
| EventMarks.UnmarkedStep | opsiclientd/EventProcessing.py:1807-2004 | Without a mark and an error a thread goes through its points in this order, with its flag raised and dropped where the source does |
| EventMarks.AdmittedIff | opsiclientd/Opsiclientd.py:722-740 | The check admits panic events, else exactly what finds all listed events cancelable and is fired manually if there are any; otherwise the lock is given back |
| EventMarks.LoginCancelsNobody | opsiclientd/Opsiclientd.py:793-795 | A user login event changes no other thread and waits for none |
| EventSafety.InvStep | opsiclientd/Events/Basic.py:129-187 | Every step keeps the invariant: one lock holder, flags change only under the lock, listed threads, at most one live non-login event |
| EventSafety.CancelledMarks | opsiclientd/Opsiclientd.py:744-750 | Cancelling along the list marks exactly the non-login threads before the first refusal |
| EventThreads.Opsiclientd.CanProcessEvent | opsiclientd/Opsiclientd.py:722-740 | The check passes for panic events, else if every listed event is cancelable and cancelling is allowed |
| EventThreads.Opsiclientd.CancelOthers | opsiclientd/Opsiclientd.py:744-750 | The loop marks the non-login threads up to the first that refuses |
| EventThreads.GetEventConfig | opsiclientd/Events/Basic.py:71-86 | The configuration with all preconditions fulfilled and the most of them, the first of those |
| EventConfigs.Inherit | opsiclientd/Events/Utilities/Configs.py:79-110 | Terminates for any configuration and keeps exactly those whose super chain reaches a root, with the recursively inherited arguments |
| EventConfigs.InheritedFromSuper | opsiclientd/Events/Utilities/Configs.py:79-108 | One step of inheritance: without a super name a config stays as it is; with one it is kept exactly if that is, with its own values but blank group ids before those of the super config |
| EventConfigs.NearestWins | opsiclientd/Events/Utilities/Configs.py:86-95 | An argument has the value of the nearest configuration in the chain that gives it; blank group ids do not count |
| EventConfigs.OnlyGiven | opsiclientd/Events/Utilities/Configs.py:86-95 | Every argument is given by some configuration in the chain |
| EventConfigs.ClosedNeverRooted | opsiclientd/Events/Utilities/Configs.py:106-108 | Configurations whose supers are all among themselves reach no root |
| EventIndexes.SortedArray.Find | opsiclientd_data/common/static_html/timeline/timeline_ajax/simile-ajax-bundle.js:1191-1199 | The binary search finds the first event that does not start earlier |
| EventIndexes.SortedArray.Add | opsiclientd_data/common/static_html/timeline/timeline_ajax/simile-ajax-bundle.js:1171-1176 | The splice keeps the array sorted and puts the event before all that do not start earlier |
| EventIndexes.EventIndex.Index | opsiclientd_data/common/static_html/timeline/timeline_ajax/simile-ajax-bundle.js:1246-1263 | The sweep gives every event the first index whose event lasts beyond its start |
| EventIndexes.EventIndex.GetIterator | opsiclientd_data/common/static_html/timeline/timeline_ajax/simile-ajax-bundle.js:1225-1290 | The iterator yields exactly the events of the plain filter in sorted order |
| EventIndexes.EventIndex.GetReverseIterator | opsiclientd_data/common/static_html/timeline/timeline_ajax/simile-ajax-bundle.js:1228-1317 | The reverse iterator yields the same list reversed |
| EventIndexes.WindowSuffices | opsiclientd_data/common/static_html/timeline/timeline_ajax/simile-ajax-bundle.js:1268-1288 | Filtering between the two bounds is filtering everything |
| EventIndexes.EventIndex.GetLatestDate | opsiclientd_data/common/static_html/timeline/timeline_ajax/simile-ajax-bundle.js:1236-1245 | The latest end from the earliest overlap of the last event on |
| EventIndexes.LatestOfAllIff | opsiclientd_data/common/static_html/timeline/timeline_ajax/simile-ajax-bundle.js:1236-1245 | That is the latest of all ends exactly if the last event does not end before it starts, or another lasts beyond its start, or none ends later |
| EventIndexes.LatestMissesEarlier | opsiclientd_data/common/static_html/timeline/timeline_ajax/simile-ajax-bundle.js:1236-1245 | Two events for which the date found is 1 although one ends at 5 |
| EventIndexes.MatchingMembers | opsiclientd_data/common/static_html/timeline/timeline_ajax/simile-ajax-bundle.js:1285-1285 | The plain filter holds exactly the events with start before the end date and end after the start date |
| EventIndexes.MatchingSorted | opsiclientd_data/common/static_html/timeline/timeline_ajax/simile-ajax-bundle.js:1264-1290 | The plain filter keeps the events sorted by start |
| Framing.ChunkingIrrelevantIff | opsiclientd/notification_server.py:66-74 | The split of a stream into calls does not matter exactly if no other separator stands before a CRLF |
| Framing.OneSeparator | opsiclientd/notification_server.py:66-74 | A stream with one of the separators only gives the same messages and leftover for every split |
| Framing.LeftoverHasNoSeparator | opsiclientd/notification_server.py:70-74 | What is left in the buffer contains no separator |
| Framing.NothingLost | opsiclientd/notification_server.py:66-74 | Messages, their separators and the leftover make up the stream; no message holds a separator that would have cut it |
| Framing.FramedDrained | opsiclientd/notification_server.py:120-121 | Messages without CRLF that are sent with CRLF come back as they were |
| Framing.Connection.DataReceived | opsiclientd/notification_server.py:66-74 | The loop takes all complete messages out of buffer and data |
| ProductCaches.ProductCacheService.FindDeleteProduct | opsiclientd/nonfree/CacheService.py:1069-1086 | The scan finds the directory that goes before all others |
| ProductCaches.DeletionOrderSorted | opsiclientd/nonfree/CacheService.py:1069-1086 | Directories without a content file go first, then the older before the newer |
| ProductCaches.DeletionOrderMembers | opsiclientd/nonfree/CacheService.py:1068-1102 | Every directory that may be deleted is in the order once |
| ProductCaches.ProductCacheService.FreeProductCacheSpace | opsiclientd/nonfree/CacheService.py:1047-1106 | Succeeds exactly if what is not needed is large enough in total and no deletion of the shortest sufficient prefix of the deletion order fails; then just that prefix is gone. Too small in total deletes nothing; a failed deletion leaves a shorter prefix gone |
| ProductCaches.ShortestMeaning | opsiclientd/nonfree/CacheService.py:1063-1102 | The prefix suffices if anything does, and no shorter one does |
| ProductCaches.ProductCacheService.CacheProduct | opsiclientd/nonfree/CacheService.py:1363-1490 | Works out exactly if depot, download, disk (the listed size and half a gigabyte) and synchronisation do and it does not lack room; then the cache is within its limit. What is deleted is a prefix of the deletion order that would be too small without its last directory |
| ProductCaches.LacksRoomIff | opsiclientd/nonfree/CacheService.py:1413-1434 | Room lacks exactly if there is a limit, the others and the listed size exceed it, and what is not needed is smaller than the excess with 1000 bytes more, or a deletion fails before that is free |
| ProductCaches.ProductCacheService.CacheProducts | opsiclientd/nonfree/CacheService.py:1108-1270 | The errors are exactly the products whose caching does not work out on the directories it meets; the flag is set exactly if there was something to cache and no error; then all products are cached at the same time, within the limit |

## Left out

- ActionGroupOrder.SortSatisfies: goes one way only for groups with both directions; where directions are mixed, satisfied and unsatisfied results both occur, and no condition simpler than running the sort is known.
- ProductActionGroups.HardDependencyScheduled: speaks of recorded dependencies; a dependency that is passed over need not be in order, as `PassedOver.PassedOverOrder` shows.
- DependencyRecords.OwnWalkFollowsIffNotLed: for tables that demand every product with one action only; on others a product may have been visited with another action, and `OwnWalkFollowsIff` is the exact condition.
- ProductActionGroups.GetProductActionGroups: one client, whose stored and requested product entries are one table; the loop over clients, the prefilled caches and the sort log are not modelled, and dependencies count as equal when their fields are.
- Utf8.DecodeUtf8: bytes beyond the end of the array and other malformed MessagePack input give no value in the model.
- MsgPackCodec.Serialize: no floats, no integers of 2^53 and beyond, no typed arrays but byte arrays, no extension types but dates, no lengths of 2^32 and beyond.
- MsgPackCodec.Deserialize: map keys are strings in writing order; the reordering of integer-like keys and the special key `__proto__` are not modelled.
- ClientCacheBackends.ClientCacheBackend.UpdateMasterFromWorkBackend: four object classes; their order is that of the source, but nothing is stated about it; audit data, the client's own host object and unreadable identifiers are not modelled. `objects_differ` is not part of the repository and is taken as a comparison of attributes, lists by length and members.
- ClientCacheBackends.ClientCacheBackend.ReplicateMasterToWorkBackend: which objects the replicator copies is a parameter; credentials and license contracts are not modelled.
- RequiredActions.MetAfterIff: for requirements of one level that agree; elsewhere a repair changes which requirements apply, and RepairMeetsIff speaks of each repair by itself.
- ConfigCaches.FaultyThroughoutIff: each sync is one step, so a `setFaulty` call during a sync is not modelled.
- ConfigCacheServices.ConfigCacheService.SyncToServer: the upload of the log file and connection handling are not modelled.
- EventCancels.CancelStopsIff: the looks at the mark in waiting loops and in the shutdown dialogs are choices, since whether they are reached depends on the user and the server.
- EventSafety.LockCanBeReleased: errors other than ValueError and RuntimeError in `processEvent` and killed threads are not modelled; time and timeouts are nondeterministic choices.
- EventSafety.AdmittedNeverRefused: a generator has one listener, and the check of the whole list is one step, as the list lock makes it.
- EventThreads.Opsiclientd.CancelOthers: the waiting loop behind it is modelled by the steps of EventProtocols only.
- EventConfigs.Inherit: reading the sections, preconditions, language variants and the later interpretation of arguments are not modelled; the passes visit the configurations in any order, not in sorted order.
- EventIndexes.EventIndex.Add: an event object is added at most once; lookup by id, removal of single events and the plain iterator over all events are not modelled.
- Framing.Connection.DataReceived: decoding a message as JSON and processing it are not modelled.
- ProductCaches.ProductCacheService.CacheProduct: directory sizes, content files, disk space, downloads and which deletions fail with what left are parameters; a synchronised directory has the size that its content file lists, and content files have positive times.
- ProductCaches.ProductCacheService.CacheProducts: all products are on the depot; the removal of others from the list, hotfix products and the test for the action processor alone, which cannot hold then, are not modelled.
- Network, database, registry, sessions, notifier windows, web pages, control pipe, setup and platform modules.
