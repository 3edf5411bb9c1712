# Verification of the CloudLens master-data engine

This project models the engine in `masterdata/` of CloudLens and proves properties of the model:

- the effective-dated record store with its approval workflow and audit log,
- point-in-time reads, one by one and as lists,
- bulk import with its dry run, and re-import of an export,
- the seed loader,
- the fiscal calendar,
- currency conversion and rounding,
- the bridge between code enumerations and master data.

`dafny verify dfyconfig.toml` checks everything.

## How it is built

| file | content |
|---|---|
| `Text`, `Records` | strings as the engine compares them; records, audit entries and searches as values |
| `Store`, `Service` | live record objects and the service's methods, which mutate them in place |
| `Resolution`, `Lifecycle` | reads and state transitions as functions on the abstract state (records, audit log) |
| `Effects` | what each call does, told by the fields alone |
| `Timeline`, `Succession`, `Genesis` | the timeline invariant over all runs, how versions end, and what seeding does to it |
| `PastReads`, `PastLists`, `ReadAfterWrite`, `Listing` | what readers see: before the clock, after a write, and in lists |
| `Replay`, `Approval`, `Versions` | the audit log rebuilds the store; the approval workflow is never bypassed; when version numbers increase |
| `Import`, `DryRuns`, `ImportRuns`, `RoundTrip` | dry run against import; what a dry run says; what an import stores, as a run of calls; export then import |
| `Seeder`, `References` | the seed loader; the reference-integrity guard |
| `Calendar`, `FiscalCalendar` | Gregorian day numbers; fiscal periods and the search for the period of a date |
| `Rounding`, `Currency`, `CurrencyRoundTrip` | rounding modes, conversion, and conversion there and back |
| `EnumBridge` | the checker and the generator |
| `Failures` | inputs, mostly short runs of service calls, at which a promise is broken |
| `Calls`, `Scenarios` | calls to build such runs from; concrete inputs and their results |

Each service method is proved to perform a transition function of `Lifecycle`, including its failures. What those functions do is stated a second time on the fields of the records, without the functions' own vocabulary: `Effects` for the calls, `Resolution.LookupFinds` and `Listing.ListShows` for the reads, `DryRuns` and `ImportRuns.ImportStores` for imports, `Seeder.SeedingMeetsFiles` for the loader. Whole-run results are lemmas about `Lifecycle.Run`, which applies any sequence of calls with non-decreasing clock readings. They assume no particular starting store beyond what their `requires` states.

A *line* is the set of records of one master type, one code up to case, and one tenant scope. `Timeline.Guard` says exactly when a call keeps the timelines of a sound store, and a caller can evaluate it before the call: new ids are fresh; the next version of an update finds room in its line, and a direct update takes effect between the start of the current version and the clock; a publication closes the open version of its line, and no draft. Two results need one clause more, `Timeline.StaysInScope`: the version that a direct update or a publication closes is of the same scope as the one it opens. They are the succession of versions and the replay of the log.

## Where the code does less than it promises

These are results of the model. The first lemma named with each states the exact condition, and those in `Failures`, and the other concrete ones, give an input:

- `FinancialCalendarEngine.get_period_for_date` returns a period that does not hold the date when the fiscal year starts later than day 1 and the date lies before that day of its month, and it raises near both ends of the calendar (`FiscalCalendar.LookupInvertsExactlyWhen`, `FiscalCalendar.LookupResult`, `Failures.DayBeforeStartGetsAnotherPeriod`).
- A dry run can announce an action that the import does not perform, or that makes it fail half-way with the earlier rows kept: a code stored in another spelling, a stored code without a published version in force, an active draft of the same code, a new row whose `sort_order` is null, or a code that the batch names twice (`Import.DryRunPredictsExactlyWhen`, `Failures.OtherCaseIsPredictedWrongly`, `Failures.RepeatedCodeIsPredictedWrongly`, `Failures.RepeatedCodeFailsHalfWay`).
- Seeding is idempotent only if the items of one code do not contradict each other (`Seeder.SeedingIsIdempotentExactlyWhen`, `Failures.ContradictingItemsAreReseeded`), and a row that already existed does not become a system record although the loader's documentation says that every seeded row is one (`Seeder.SeededRowIsSystemExactlyWhen`, `Failures.SeededUserRecordIsNoSystemRecord`).
- A code seeded as inactive stays open, so a creation puts a second open version beside it (`Succession.CreateLeavesAnotherOpenExactlyWhen`, `Genesis.SeededStoreIsSoundExactlyWhen`, `Failures.CreationBesideInactiveSeed`). `masterdata/seeds/policy.json` holds such items.
- The loader compares seed data with the first stored global record of a code, which after an update is the closed first version. Seeding again, as every start of the service does, marks that version as active, and changed seed data rewrite what was read in the past (`Genesis.SeedKeepsTimelinesExactlyWhen`, `Genesis.SeedKeepsPastExactlyWhen`, `Failures.ReseedAfterUpdateBreaks`).
- An update scheduled for a later date breaks the timeline, and any update before that date leaves two open versions (`Timeline.UpdateKeepsExactlyWhen`, `Succession.UpdateLeavesAnotherOpenExactlyWhen`, `Failures.ScheduledUpdateLeavesTwoOpen`).
- With two drafts in flight a publication can close the older draft in place of the current version (`Succession.PublishLeavesOneOpenExactlyWhen`, `Failures.TwoDraftsLeaveTwoOpen`).
- A tenant's update that finds no version of its own closes the global one for everybody or, if there is none, another tenant's, and copies it (`ReadAfterWrite.UpdateStaysInScopeExactlyWhen`, `ReadAfterWrite.FallbackUpdateRetiresScope`, `Failures.FallbackUpdateTakesOver`). The timelines survive, but the audit log then no longer rebuilds the store (`Replay.ReplayStepExactlyWhen`, `Failures.FallbackUpdateIsNotReplayed`).
- A lookup matches codes up to case, a list tells spellings apart. With a global `A` and a tenant's `a` the list shows both, although a lookup of either finds the tenant's (`Listing.ListRefinesGetExactlyWhen`, `Failures.ListTellsSpellingsApart`).
- Version numbers need not increase: a code created again after its deactivation starts at 1, and a direct update while a draft is in flight makes a second version of the draft's number, so the greatest number that the lineage reports need not be that of the version in force (`Versions.VersionsRiseExactlyWhen`, `Failures.RecreationRestartsNumbers`, `Failures.OvertakenDraftSharesNumber`).
- An export cannot be imported again if an open version has a blank code or display name, which creation, update and seeding accept and the dry run refuses (`RoundTrip.ExportThenImport`, `Failures.BlankNameBlocksReimport`). A code that the loader stored with white space around it is exported, but its row then creates or updates the trimmed code instead (`RoundTrip.ExportThenImport`, `Failures.UntrimmedSeedIsNotReimported`).
- A generated enumeration fails its own check when two codes share a member key (`EnumBridge.GeneratedEnumValidatesExactlyWhen`, `Failures.OneKeyForTwoCodes`).
- Currency conversion there and back is exact for every amount only if a reporting minor unit is worth no more than a source minor unit (`CurrencyRoundTrip.RoundTripIsExactExactlyWhen`, `CurrencyRoundTrip.OneUnitIsLost`).
- A reporting currency not spelled in upper case finds no rate (`Currency.ConvertsExactlyWhen`, `Currency.LowerCaseReportingFails`).

## Model

| member | source | states |
|---|---|---|
| Resolution.Resolve | masterdata/service.py:172-188 | the record returned matches type, code, instant and status, and nothing is returned exactly when no stored record matches |
| Resolution.LookupFinds | masterdata/service.py:172-188 | a lookup finds a record if and only if some stored one has the type, the code up to case, starts at or before the instant and does not end at or before it, and is published or the lookup is inclusive; the one found is the first such record of the tenant, else the first global one, else the last one |
| Resolution.ResolvePrecedence | masterdata/service.py:180-188 | the choice is the earliest match of the tenant's own, else the earliest global one, else the latest match |
| Resolution.SortIsPermutation | masterdata/service.py:218 | sorting a list orders it by sort order and then by code, where the code that comes first has the smaller character at the first difference or is the shorter one, and keeps every record once |
| Timeline.StepKeepsExactlyWhen | masterdata/service.py:224-622 | from a sound store a call of any kind, successful or not, keeps in every line disjoint published intervals, at most one of them open, and active exactly while open, if and only if it meets the guard |
| Timeline.RunKeepsTimelines | masterdata/service.py:224-622 | every run whose calls meet the guard keeps the timelines |
| Timeline.OneVersionInForce | masterdata/service.py:49-56 | in a sound store a line never has two versions in force at an instant, nor two open ones, and a version is active exactly while it is open |
| Timeline.UpdateKeepsExactlyWhen | masterdata/service.py:320-387 | from a sound store an update of any kind keeps the timelines if and only if a direct one takes effect between the start of the current version and the clock, and the line that the next version enters has room for it |
| Timeline.FallbackUpdateFits | masterdata/service.py:180-188 | a direct update that falls back to another scope's version keeps the timelines if it is in time, dated no earlier than the store's clock, and any draft in the caller's own line is spelled like the version found |
| Timeline.OneScopePublishFits | masterdata/service.py:480-492 | where the code is open in one scope only, a publication meets the guard and stays in its scope |
| Timeline.PredecessorIsOpenVersion | masterdata/service.py:480-492 | the record that a guarded publication within its scope closes is the open published version of the approved record's line, and it closes none only if there is none |
| Succession.VersionsMeet | masterdata/service.py:362-385 | after a guarded run without hard deletes whose calls stay in their scopes, every version closed by the run ends at the instant a published version of its line starts, or at a deactivation that the run logged |
| Succession.PublishLeavesOneOpenExactlyWhen | masterdata/service.py:480-497 | from any store, the published record is the only open one of its line if and only if the record the search closed was the line's open version, if it had one |
| Succession.CreateLeavesAnotherOpenExactlyWhen | masterdata/service.py:242-255 | from any store, a creation leaves another open version in its line if and only if the line held an open version marked inactive |
| Failures.CreationBesideInactiveSeed | masterdata/service.py:242-255 | a creation beside a code seeded as inactive leaves two open versions |
| Succession.UpdateLeavesAnotherOpenExactlyWhen | masterdata/service.py:320-387 | from any store and for any effective date, a direct update leaves another open version in the new one's line if and only if the line held an open version other than the one found |
| Failures.TwoDraftsLeaveTwoOpen | masterdata/service.py:482-492 | a run from the empty store with two drafts in flight, after whose publication a line has two open published versions |
| Failures.ScheduledUpdateLeavesTwoOpen | masterdata/service.py:324-364 | a creation, an update scheduled for later and an update before that date leave two open versions |
| Genesis.SeededStoreIsSoundExactlyWhen | masterdata/seeder.py:84-116 | seeding an empty store gives sound timelines if and only if the last item of each code is active and no two codes of a master differ only in case |
| Genesis.SeedKeepsTimelinesExactlyWhen | masterdata/seeder.py:82-144 | seeding a sound store with any items keeps the timelines if and only if the last item of each code asks for the active flag that its first stored global record has, or for an active record if there is none, and each new code has room in its line |
| Genesis.SeedKeepsPastExactlyWhen | masterdata/seeder.py:82-144 | from any store, seeding leaves what is visible at an instant alone if and only if each first stored global record that is visible then has the content that the last item of its code asks for, and new codes appear only at or after the epoch |
| Failures.ReseedAfterUpdateBreaks | masterdata/seeder.py:85-143 | after seeding and one update the same seed data break the timelines, and changed seed data change a past read |
| PastReads.PastIsImmutable | masterdata/service.py:147-188 | for every instant before the clock, every type, code and tenant, a lookup gives the same record with the same business fields before and after any run of creates, updates, submissions, approvals, publications and deactivations, from any store, when no direct update in the run is dated before the starting clock |
| PastReads.RunKeepsPast | masterdata/service.py:224-590 | under the same condition on direct updates, and for every stored record at once: what was visible at the instant stays visible and equal, and nothing becomes visible |
| PastReads.UpdateKeepsPastExactly | masterdata/service.py:324-364 | a direct update of a version in force before the clock leaves all earlier instants alone if and only if it is not dated before the clock |
| PastLists.PastListIsImmutable | masterdata/service.py:190-218 | a list as of an instant before the clock keeps its entries, order and business fields over any such run, again without direct updates dated before the starting clock |
| Listing.ListRefinesGetExactlyWhen | masterdata/service.py:206-218 | in a sound store, for a code whose records in force are only global or the tenant's, the list is sorted, has one entry per spelling, and has an entry of the code exactly when a lookup finds one; all its entries are the record found, the tenant's before the global one, if and only if the records in force are spelled alike |
| Listing.SpelledAlikeIsListedOnce | masterdata/service.py:206-218 | spelled alike, a code that a lookup finds has exactly one entry, the record found |
| Failures.ListTellsSpellingsApart | masterdata/service.py:213-216 | after creating a global A and a tenant's a, the list holds both and the lookup finds the tenant's |
| Listing.ByCodeCollects | masterdata/service.py:206-216 | the loop's dictionary has one entry per visited code, each a visited record, and the tenant's own record where it has one |
| Listing.ListShows | masterdata/service.py:205-218 | what a list holds, told by the fields: each code of a record of the type in force at the instant, published or the list inclusive, and global or of the tenant, has exactly one entry, which is the last such record of the tenant or, without any, the first one; nothing else is listed |
| Effects.CreateEffect | masterdata/service.py:224-299 | a creation succeeds if and only if the type is registered and no active record has its code up to case in its scope; it appends the version 1 whose every field is given, a draft of the epoch where approval is awaited, and logs it once |
| Effects.UpdateEffect | masterdata/service.py:301-400 | an update succeeds if and only if the type is registered and a lookup finds a version; it appends the next version, given fields as given and absent ones as they were, closes the one found unless approval is awaited, and logs it once |
| Effects.SubmitEffect | masterdata/service.py:406-433 | a submission succeeds if and only if the code has a draft; it puts the latest one in review and nothing else |
| Effects.ApproveEffect | masterdata/service.py:435-463 | an approval succeeds if and only if a record of the code is in review; it approves the latest one under the caller's name and nothing else |
| Effects.PublishEffect | masterdata/service.py:465-510 | a publication succeeds if and only if a record of the code is approved; it opens the latest one from now on, closes the first other open active record of the code and nothing else |
| Effects.DeactivateEffect | masterdata/service.py:562-590 | a deactivation succeeds if and only if a global lookup finds a version without references, closes exactly that one now, and otherwise says which of these failed |
| Effects.DeleteEffect | masterdata/service.py:592-622 | a deletion succeeds if and only if an inclusive global lookup finds a record that is no system record and has no references, removes exactly that one, and otherwise says which of these failed |
| Scenarios.DraftIsFoundAndDeleted | masterdata/service.py:592-622 | a draft created on a master with approval is found and listed inclusively and not otherwise, and a deletion removes it |
| ReadAfterWrite.CreateIsRead | masterdata/service.py:257-299 | a created record carries the given fields and defaults; unless it awaits approval its scope reads it at once, under an empty tenant id if and only if no global version is in force beside it; a draft changes no published read of any instant and scope |
| ReadAfterWrite.UpdateIsRead | masterdata/service.py:320-400 | the next version takes the given fields and keeps the absent ones; the scope it belongs to reads it from now on, under an empty tenant id if and only if no global version is in force beside it; while it awaits approval no published read changes |
| ReadAfterWrite.PublishIsRead | masterdata/service.py:465-510 | after a publication its scope reads the approved record with the content, version and approver it was approved with, under an empty tenant id if and only if no global version and no later one of another tenant is in force beside it |
| ReadAfterWrite.DeactivateIsRead | masterdata/service.py:562-590 | a deactivation of a code in force succeeds exactly without references; then no version of the line is in force and no other record has changed |
| ReadAfterWrite.DeleteIsRead | masterdata/service.py:592-622 | a deletion removes exactly the record that the inclusive lookup finds, if and only if that is no system record and has no references |
| ReadAfterWrite.UpdateStaysInScopeExactlyWhen | masterdata/service.py:320-364 | from any store, a direct update leaves the records of all scopes but the new version's alone if and only if the version found is of the caller's scope, or was already inactive with that very end date |
| ReadAfterWrite.FallbackUpdateRetiresScope | masterdata/service.py:180-188 | when a tenant's direct update finds only another scope's version, global or a tenant's, that scope has no version of the code in force from the effective date on |
| Failures.FallbackUpdateTakesOver | masterdata/service.py:180-188 | whatever scope created a code, another tenant's update takes it over, and the creator's own lookup then reads that tenant's version |
| Replay.LogRebuildsStore | masterdata/service.py:851-878 | after every guarded run whose calls stay in their scopes, folding the audit entries written since the start over the starting records gives exactly the stored records in order |
| Replay.ReplayStepExactlyWhen | masterdata/service.py:224-622 | in a sound store a successful guarded call appends exactly one entry whose replay performs the call if and only if it closes no version of another scope |
| Failures.FallbackUpdateIsNotReplayed | masterdata/service.py:362-387 | for every owner scope, the log of a creation and another tenant's update does not rebuild the store |
| Replay.EntryTellsCall | masterdata/service.py:289-298 | the one entry of a call names its caller, the kind of call, the normalised master type, the code as the caller spelled it, and the record that the call added or changed, with its new value, or that a deletion removed |
| Approval.ApprovalIsNeverBypassed | masterdata/service.py:257-510 | on a master that requires approval, without forced publication, each published record made in the run has exactly the trail made, submitted, approved, published, then only deactivations, and its approver is the actor of the approval |
| Approval.RunAccounts | masterdata/service.py:257-510 | in such a run every record's trail is exactly the one its status calls for |
| Approval.TrailIsComplete | masterdata/service.py:851-878 | the trail of a record is exactly the log's entries of its id, in order |
| Versions.VersionsRiseExactlyWhen | masterdata/service.py:274-341 | after a run without hard deletes version numbers increase strictly along every line, in stored order, if and only if every creation and update of the run numbered its record above all of the line it entered |
| Versions.StepRisesExactlyWhen | masterdata/service.py:224-622 | the same for one call of any kind, deletions included |
| Failures.RecreationRestartsNumbers | masterdata/service.py:257-274 | creation, deactivation and creation again make two versions numbered 1 |
| Failures.OvertakenDraftSharesNumber | masterdata/service.py:341-380 | a direct update past a draft makes two versions numbered 2 |
| Service.MasterDataService.GetRecord | masterdata/service.py:147-188 | filtering the live records and searching the candidates for the tenant's and for the global one returns the live record that the resolution over the whole store selects, none if none matches, and fails on an unregistered type |
| Service.MasterDataService.ListRecords | masterdata/service.py:190-218 | the loop with its dictionary computes the specified list |
| Service.MasterDataService.CreateRecord | masterdata/service.py:224-299 | performs the creation transition on the live store and log, or fails as specified and changes nothing |
| Service.MasterDataService.UpdateRecord | masterdata/service.py:301-400 | performs the update transition: closes the live current version unless a draft is made, stores the next one, logs it |
| Service.MasterDataService.SubmitForReview | masterdata/service.py:406-433 | performs the submission transition on the latest live draft and returns it |
| Service.MasterDataService.ApproveRecord | masterdata/service.py:435-463 | performs the approval transition on the latest live record in review and returns it |
| Service.MasterDataService.PublishRecord | masterdata/service.py:465-510 | performs the publication transition: closes the live predecessor, opens the latest approved record, logs it and returns it |
| Service.MasterDataService.DeactivateRecord | masterdata/service.py:562-590 | performs the deactivation transition on the live record in force and returns it, refused exactly when the reported references add up to more than zero |
| Service.MasterDataService.DeleteRecord | masterdata/service.py:592-622 | performs the deletion transition and returns the removed object, refused for system records and for values in use |
| Service.MasterDataService.ImportAll | masterdata/service.py:672-735 | the row loop over the live store gives the state and result of the specified import, failures half-way included |
| Store.MasterDataStore.Append | masterdata/service.py:105-109 | a saved new record comes last and nothing else changes |
| Import.ValidateImport | masterdata/io.py:157-207 | the report counts each row once as valid or invalid, has one error per invalid row naming what is missing, counts valid rows by predicted action and previews the first five |
| DryRuns.DryRunTells | masterdata/io.py:157-207 | for any batch, rows with a code and a display name that are not blank are the valid ones; they are counted by whether the trimmed code is stored exactly so, and the first five are previewed with trimmed code, name and action |
| DryRuns.ErrorsTell | masterdata/io.py:165-178 | every other row has exactly one error, in order, under its number from 1, saying whether the code, the name or both are missing |
| DryRuns.ImportIsRefused | masterdata/service.py:681-685 | an import into no registered master, or with rows lacking a code or a display name, changes nothing and says so, with the number of such rows |
| Import.DryRunPredictsExactlyWhen | masterdata/service.py:697-735 | for any batch and any master the import does to each row what the dry run announced, without failing, if and only if every row was foreseen: it agrees with the store before the import or, where an earlier row named its code, was stored under this spelling (without approval), or besides agreeing meets no draft that an earlier row left (with approval) |
| Import.DistinctRowsAgree | masterdata/io.py:161-186 | for a code that no earlier row names, being foreseen is agreeing with the store |
| Failures.RepeatedCodeIsPredictedWrongly | masterdata/service.py:703-733 | a batch naming a new code twice is announced as two additions and returns one addition and one update |
| Failures.RepeatedCodeFailsHalfWay | masterdata/service.py:703-733 | with approval the second row of that batch fails and the first stays imported |
| Failures.OtherCaseIsPredictedWrongly | masterdata/io.py:183-186 | after a creation of A, the dry run of a row for a announces an addition and the import returns an update |
| Import.ImportReturnsPredictedCounts | masterdata/service.py:672-735 | under that condition and with no invalid row the import returns the dry run's two counts |
| Import.InvalidRowChangesNothing | masterdata/service.py:681-685 | with any invalid row the import fails and the state is unchanged |
| Import.SpelledAsStoredAgrees | masterdata/io.py:161-186 | a row agrees if a stored code is spelled as stored and has a published version in force, and a new code has no null sort order |
| Import.RowTouchesOneKey | masterdata/service.py:705-733 | importing a row leaves the records of every other code as they were |
| ImportRuns.ImportIsRun | masterdata/service.py:703-735 | the loop of an import, failing half-way or not, leaves exactly the state of a run of creations and updates at the rows' clock readings |
| ImportRuns.ImportStores | masterdata/service.py:703-733 | an import, failing half-way or not, appends one record for each row it performed, in order: for an addition a global version 1 with the row's cells, sort order 0 and no attributes if absent, no system record; for an update the next version of a record of the code, with absent cells kept; both made by the importing actor at the row's clock reading; of the other records only end and active flag can change |
| ImportRuns.RowFailsExactlyWhen | masterdata/service.py:705-733 | a complete row fails exactly where no version in force has its code, and an active record has it or the row's sort order is null |
| Scenarios.NewRowIsStored | masterdata/service.py:720-731 | a row for a new code, with a description and a parent, and the record that the import stores for it |
| ImportRuns.ImportKeepsPast | masterdata/service.py:672-735 | an import changes no lookup of an instant before it, on any master and from any store |
| ImportRuns.ImportKeepsTimelinesAndLog | masterdata/service.py:672-735 | on a master without approval, importing any rows into a sound store, failing half-way or not, leaves sound timelines and a log that rebuilds the store |
| RoundTrip.ExportThenImport | masterdata/service.py:655-735 | on a sound global master without approval or unpublished versions, importing the export succeeds if and only if no open version has a blank code or display name, and otherwise changes nothing; if it succeeds, it returns no additions and one update for each row and every code resolves exactly if it did before, to the same content one version on, if and only if the open versions are stored under trimmed codes |
| Failures.UntrimmedSeedIsNotReimported | masterdata/seeder.py:95-99 | the export of a code seeded with a blank before it is imported without an error but not as its next version |
| Failures.BlankNameBlocksReimport | masterdata/service.py:681-685 | a record created with a blank display name is exported, and importing the export fails and changes nothing |
| RoundTrip.ExportIsComplete | masterdata/io.py:34-50 | the export has exactly one row for each open version of the master, which tells its code, display name, description, sort order, parent and attributes, with codes distinct up to case |
| Seeder.MasterDataSeeder.Seed | masterdata/seeder.py:48-146 | the nested loops over masters and items perform the fold of the seed steps on the live store, with matching counters and errors; as many items are processed as the files hold |
| Seeder.SeedingMeetsFiles | masterdata/seeder.py:78-144 | after seeding, for every file and every item in it, the first stored global record of the file's master and the item's code agrees with the last item of that code, and every record added comes from an item of its master |
| Seeder.MissingAreCounted | masterdata/seeder.py:66-76 | the errors are as many as the files that are missing or unreadable |
| Scenarios.TwoItemsAreSeeded | masterdata/seeder.py:78-144 | a file of two items and a missing one, seeded into an empty store |
| Seeder.SeedingConserves | masterdata/seeder.py:78-144 | at every step the three counters add up to the items processed, each creation adds one record, none is removed, tenant records are untouched, new records are global published system records in force since the epoch, and codes keep at most one global record |
| Seeder.LastItemWins | masterdata/seeder.py:82-144 | after a run, the first stored global record of each item's code agrees on all compared fields with the last item of that code |
| Seeder.SeedingSettles | masterdata/seeder.py:82-144 | after a run over consistent items, the first stored global record of each item's code agrees with it on all compared fields |
| Seeder.SeedingIsIdempotentExactlyWhen | masterdata/seeder.py:78-146 | a second run on the produced store creates and updates nothing and leaves it equal if and only if items of one code never contradict each other |
| Failures.ContradictingItemsAreReseeded | masterdata/seeder.py:112-144 | two items of one code with different names make a second run write again |
| Seeder.SeededRowIsSystemExactlyWhen | masterdata/seeder.py:92-144 | for any items, the first stored global record of an item's code is a system record after the run if and only if its code was not stored globally before or that record already was one |
| Failures.SeededUserRecordIsNoSystemRecord | masterdata/seeder.py:136-143 | a code that a user created is no system record after seeding |
| References.CheckReferenceIntegrity | masterdata/service.py:526-560 | the tally has exactly the reported entities with the sums of their counts, the total is the sum of all reported items, raising providers count for nothing, and in use means a total above zero |
| References.ItemsAreReported | masterdata/service.py:526-560 | what is summed is exactly what the providers that answered reported, and the simulated references |
| Scenarios.ReferencesAreCollected | masterdata/service.py:526-560 | two providers that answer, one that raises and a simulated reference, and what is collected |
| Scenarios.ReferencesAreSummed | masterdata/service.py:526-560 | the sum of three counts, and of those of one entity |
| Text.StripTrims | masterdata/service.py:165-176 | trimming takes white space away at both ends, all of it and nothing else |
| Text.UpperIsCaseBlind | masterdata/service.py:165-176 | upper cases are equal exactly when the strings are equal but for the case of letters, and hold no small letter |
| Text.LexIsFirstDifference | masterdata/service.py:218 | one string comes before another exactly when it is a prefix of it or has the smaller character at the first difference |
| Calendar.MonthLengths | masterdata/business_engines.py:172-174 | months have 31 and 30 days alternately, beginning again in August, except February, which takes the rest of the year |
| Calendar.FourCenturies | masterdata/business_engines.py:172-174 | any four hundred years have 146097 days |
| Scenarios.YearStarts | masterdata/business_engines.py:172-174 | known day numbers, and one leap year or common year of each kind |
| Calendar.OrderIsOrdinalOrder | masterdata/business_engines.py:207 | comparing dates by year, month and day is comparing Gregorian day numbers |
| Calendar.MonthsMeet | masterdata/business_engines.py:172-174 | the first of the next month is the day after the last of this one, leap years and year ends included |
| FiscalCalendar.GetFiscalPeriods | masterdata/business_engines.py:144-195 | the loop returns the twelve periods, or fails when one of their dates cannot be represented |
| FiscalCalendar.PeriodsAreLabelled | masterdata/business_engines.py:159-190 | for every setting, the entries of the list for a fiscal year bear that year and the numbers 1 to 12, and each lies in the month that follows the start month by its number less one, from the start day, or the last day if the month is shorter, to the last day |
| FiscalCalendar.PeriodsTile | masterdata/business_engines.py:164-174 | with start day 1 each period ends the day before the next one starts, from one fiscal year to the next too |
| FiscalCalendar.FiscalYearLength | masterdata/business_engines.py:164-174 | with start day 1 the twelve lengths add up to 366 exactly when a 29 February lies within the fiscal year, else to 365 |
| FiscalCalendar.CloseIsFiveDaysAfterEnd | masterdata/business_engines.py:176-180 | every period's close date is a date, five days after its end, December included |
| FiscalCalendar.GapBeforePeriod | masterdata/business_engines.py:172-174 | a period's month starts min(start day, days in month) - 1 days before it, and exactly those days are in no period of any fiscal year |
| FiscalCalendar.ContainsExactlyWhen | masterdata/business_engines.py:164-174 | a period holds a date if and only if it is the one period of the date's month and the date is not before its start |
| FiscalCalendar.GetPeriodForDate | masterdata/business_engines.py:197-213 | the nested loops with early exit compute the specified search |
| FiscalCalendar.LookupResult | masterdata/business_engines.py:197-213 | the result for every representable date: which period, the fallback, or a failure at an end of the calendar |
| FiscalCalendar.LookupInvertsExactlyWhen | masterdata/business_engines.py:197-213 | the search returns a period holding the date if and only if the date is on or after its month's start day and away from the ends of the calendar, and that period is the only one |
| FiscalCalendar.LookupIsLabelled | masterdata/business_engines.py:197-213 | a lookup that holds its date answers number (month - start month) mod 12 + 1, in the fiscal year of the calendar year if the month is not before the start month, else of the year before |
| Scenarios.JanuaryIsTheTenthPeriod | masterdata/business_engines.py:197-213 | with the fiscal year starting in April, 15 January 2027 is in period 10 of 2026 |
| Scenarios.DatesEndWithYear9999 | masterdata/business_engines.py:172-180 | dates are of the years 1 to 9999, so the periods of fiscal year 9998 can be built and those of 9999 cannot |
| Failures.DayBeforeStartGetsAnotherPeriod | masterdata/business_engines.py:197-213 | with the fiscal year starting on day 15, 1 March 2024 gets a period that does not hold it |
| FiscalCalendar.WholeMonthsAlwaysFound | masterdata/business_engines.py:197-213 | with start day 1 every date of years 2 to 9998 gets the period that holds it, so the fallback is unreachable |
| Rounding.RoundIsTheRounding | masterdata/business_engines.py:531 | the two modes pick the one nearest integer, ties to even or away from zero, and no other |
| Rounding.RoundIsMonotone | masterdata/business_engines.py:531-534 | rounding keeps order in both modes |
| Rounding.RoundIsOdd | masterdata/business_engines.py:531-534 | rounding commutes with negation in both modes |
| Currency.FindRate | masterdata/business_engines.py:494-501 | the loop with early exit finds the first matching rate |
| Currency.ConvertCost | masterdata/business_engines.py:455-534 | identity, direct, inverse and missing rates lead to the specified conversion or failure |
| Currency.ConversionIsCorrectlyRounded | masterdata/business_engines.py:525-534 | a non-identity conversion is a whole number of units of 10 to the power -n, n being the minor units of the reporting currency's master or 2 without one, and is amount times rate rounded to the nearest such number, ties to even or away from zero as the master says |
| Currency.ConversionError | masterdata/business_engines.py:525-534 | a conversion is within half a minor unit of amount times rate |
| Currency.ConversionUsesFirstQuote | masterdata/business_engines.py:489-519 | the rate used is that of the first row from the source to the reporting currency of the prescribed type and, only if there is none, the reciprocal of the first row the other way; without either there is no rate |
| Currency.SameCurrencyIsIdentity | masterdata/business_engines.py:478-490 | a conversion between equal currencies returns the amount at rate one |
| Scenarios.YenHaveNoMinorUnits | masterdata/business_engines.py:518-531 | 10.01 dollars at 152.5 are 1527 yen |
| Scenarios.DirectRateComesFirst | masterdata/business_engines.py:494-515 | a direct rate is used although an inverse one comes first |
| Scenarios.SomeRoundings | masterdata/business_engines.py:531-534 | ties and other numbers in both modes |
| Currency.ConversionIsMonotone | masterdata/business_engines.py:518-534 | at a positive rate a larger amount never converts to less |
| Currency.ConversionIsOdd | masterdata/business_engines.py:518-534 | the conversion of a negated amount is the negated conversion |
| Currency.ConversionDriftIsBounded | masterdata/business_engines.py:518-534 | n amounts converted one by one differ in sum from their converted sum by at most n + 1 half minor units |
| Currency.ConvertsExactlyWhen | masterdata/business_engines.py:480-520 | a conversion succeeds if and only if the currencies are equal, or the reporting currency is spelled in upper case and there is a direct rate or a first inverse one other than zero; it fails on a zero rate exactly when there is no direct rate and the first inverse one is zero |
| Currency.LowerCaseReportingFails | masterdata/business_engines.py:494-515 | with the reporting currency spelled usd, a table that holds the rate from EUR to USD has none |
| CurrencyRoundTrip.ConvertThereAndBack | masterdata/business_engines.py:503-534 | converting any amount there and back by the same rate row returns to within half a source unit plus half a reporting unit's worth |
| CurrencyRoundTrip.RoundTripIsExactExactlyWhen | masterdata/business_engines.py:503-534 | every whole number of source units survives two conversions, there and back by the same rate row, if and only if a reporting unit is worth no more than a source unit |
| CurrencyRoundTrip.OneUnitIsLost | masterdata/business_engines.py:503-534 | at a rate of one half, one cent converts there and back to something else |
| EnumBridge.Validate | masterdata/enum_bridge.py:79-153 | valid if and only if every bound enumeration is in sync; the violations are exactly the missing keys and failed retrievals, and their total is the sum of the symmetric differences plus one for each failed retrieval |
| EnumBridge.CheckBinding | masterdata/enum_bridge.py:88-136 | one binding's violations are exactly the normalised keys missing on either side, each once, those missing in the code first, each kind in order |
| EnumBridge.MissingKeys | masterdata/enum_bridge.py:96-136 | a key is missing in the code exactly when an active code of the master has it up to case and white space and no member value does, and conversely; violations and summary say the same |
| EnumBridge.MasterCodesAreCounted | masterdata/enum_bridge.py:129-133 | the summary counts the different active codes of the master and the member values |
| EnumBridge.GenerateEnum | masterdata/enum_bridge.py:161-167 | the loop builds the specified member map |
| EnumBridge.LastCodeWins | masterdata/enum_bridge.py:161-167 | a member's value is the last active code of its key |
| EnumBridge.EveryKeyHasLast | masterdata/enum_bridge.py:161-167 | every member has such a code, so there is no other member |
| EnumBridge.KeyCharacters | masterdata/enum_bridge.py:165 | a member key has an underscore for each hyphen, full stop and blank of the code, the upper case of each letter, and the other characters as they are |
| Scenarios.LaterCodeNamesTheMember | masterdata/enum_bridge.py:161-167 | three codes, two of them with one key, and the one member they make |
| EnumBridge.GeneratedEnumValidatesExactlyWhen | masterdata/enum_bridge.py:155-168 | an enumeration generated from trimmed codes passes the check against the same master if and only if codes that share a member key are equal up to case |
| Failures.OneKeyForTwoCodes | masterdata/enum_bridge.py:161-167 | the enumeration generated from the codes A-B and A_B fails its own check |
| EnumBridge.GeneratedEnumValidates | masterdata/enum_bridge.py:155-168 | if so, it passes even when codes are not trimmed |

## Left out

- The SQL repository: the model keeps live objects in insertion order. With `SqlMasterDataRepository` each read returns copies ordered by sort order and code, and `submit_for_review`, `approve`, `publish` and `deactivate_record` never save the copies they change (only `update_record` does, masterdata/service.py:364), so none of the results about those four operations carries over to it.
- Clock readings: all readings within one service call, or within one row of an import, are taken to be equal. Audit timestamps and audit ids are not modelled.
- Ids: new record ids are inputs; results that need them fresh say so.
- Time zones: instants are integers, and the normalisation of zoned datetimes is not modelled.
- Text: upper-casing covers the letters a to z, and white space is blank, tab, line feed and carriage return; other Unicode case and space rules are not modelled.
- Parsing: rows, seed items and attributes arrive parsed and typed. JSON and CSV syntax, non-text cells, JSON nulls for code or display name, and CSV export are not modelled.
- Timeline.RunKeepsTimelines: excludes calls that do not meet the guard, such as updates dated after the clock and second drafts in a line, because they break the invariant (`Timeline.StepKeepsExactlyWhen`).
- Succession.VersionsMeet: excludes hard deletes, which can remove the successor itself, and calls that close another scope's version, which leave it without a successor in its line.
- Replay.LogRebuildsStore: excludes calls that close another scope's version, because the log does not tell that they do (`Replay.ReplayStepExactlyWhen`).
- ImportRuns.ImportKeepsTimelinesAndLog: is about masters without approval; with approval a batch can put a second draft in a line.
- PastReads.PastIsImmutable: excludes hard deletes, direct updates dated before the clock, which change the past exactly as `PastReads.UpdateKeepsPastExactly` says, and reads with `include_inactive`, which show drafts dated at the epoch.
- Seeder.MasterDataSeeder.Seed: the store is the plain mapping of lists that `seed` documents; through the service's record proxy a created record is saved but not added to the list being searched, which matters only if one file holds a code twice.
- EnumBridge.Validate: the exception raised on request, message texts and the original spellings quoted in them are not modelled; neither are the member names that Python's `Enum` itself refuses.
- Currency.ConvertCost: amounts and rates are exact rationals, so the 28-digit decimal context and its overflow are not modelled; display strings, rate dates and sources are not either.
- FiscalCalendar.GetFiscalPeriods: the lookup of the calendar record is an input, and period names are not modelled.
- References.CheckReferenceIntegrity: provider results are inputs, and the texts of blocking reasons are not modelled.
- Lineage and health reports, tag policies, geography, rate cards, budget allocations, schedule adherence: filters and counts that are settled by reading one branch.
