# Bitemporal history engine of lex-app, modelled in Dafny

This project models the history engine of lex-app. Each tracked model has
three tables:

- the **main table** holds the current row of each entity;
- the **history table** (Level 1, valid time) holds one row per version of
  an entity, with the window `[valid_from, valid_to)`;
- the **meta-history table** (Level 2, system time) holds one row per
  version of a history row, with the window `[sys_from, sys_to)`, and the
  bookkeeping of scheduled activations.

The model covers:

- the two history writers;
- the signal handlers that keep both levels strictly chained (every
  version ends where the next one starts, and the last one is open);
- the scheduling and cancellation bookkeeping of future-dated versions;
- the repair of the chain after a history row is deleted;
- the synchroniser that keeps the main row equal to the version valid now;
- the time-travel query helper and `resurrect_object`;
- the pure core of the V1 → V2 audit-log data migration.

The tables live in one `Store` class (`Model.dfy`). Its invariant `Valid()`
says three things:

- history ids are fresh and distinct;
- meta ids are fresh and distinct;
- task names are unique, as `unique=True` on `meta_task_name` requires.

Each handler is a method over the store that modifies only the tables it
writes. Its contract ties the new state to a specification function of
the old state:

- `Rechain` and `RechainMeta` for strict chaining;
- `Overlay` for the main-row upsert;
- `AsOfValid` and `AsOfSystem` for the queries;
- `CalcIdMap` for the migration's lookup map.

Lemmas prove what those functions promise:

- chaining produces a strictly chained entity and is idempotent;
- at most one version is valid at any instant;
- the synchronised main row agrees with the valid-time query;
- the record parser round-trips the record texts it is meant to read.

Django signal dispatch is replaced by one explicit sequence
(`HistoryPipeline.AfterHistorySaved`), in the order the handlers are
connected (lex/process_admin/utils/model_registration.py:155-167 and
lex/core/services/signal_registry.py:111-122). After a history row is saved:

1. its meta version is written (`+` for a new row, `~` for a rewrite) and
   the `sys_to` of that row's versions chained;
2. the row's latest meta version is fetched, and the activation scheduled
   on it when the row starts more than five seconds after `now`;
3. the entity's `valid_to` is chained; each row this rewrites is saved in
   turn, which runs steps 1 and 2 for it (in place for a refinement);
4. the main row is synchronised.

So the activation of a new row sits on its `+` version. With the local
scheduler the task name is fixed by the row and the clock
(lex/core/services/bitemporal_signals.py:266): when the chaining then
rewrites that row, the `~` version finds the name taken and schedules
nothing. The model's task names follow that backend.

Times are integers counting microseconds. Task names, the clock and the
scheduler backends are parameters.

Consequences of the code that the model keeps:

- A row that starts after `now` but within the five-second grace is
  neither applied nor scheduled: the synchronisation only picks rows that
  cover `now` (lex/process_admin/utils/bitemporal_sync.py:46-54) and scheduling
  is skipped inside the grace (lex/core/services/bitemporal_signals.py:105-110).
  It reaches the main table at the next write of the entity
  (`HistoryPipeline.InsideGraceIgnored`).
- A pending activation is cancelled only when its history row is deleted,
  not when a newer write supersedes the version.
- A new meta version's `sys_from` is the instance's history date when it
  has one, and `now` only otherwise.
- Deleting a history row leaves its earlier meta versions with no history
  row (the reference is set to null) and adds one `-` version that holds
  the deleted row and is the only version referring to it.

## Model

| member | source | states |
|---|---|---|
| BitemporalModel.ParseHistoryType | lex/core/services/StandardHistory.py:45-48 | a stored type code is read back exactly when it is one of `+`, `~`, `-`, and then it is the code of the type read |
| BitemporalModel.HistoryTypeRoundTrip | lex/core/services/StandardHistory.py:45-48 | every history type is read back from its stored code |
| BitemporalModel.ParseTaskStatus | lex/core/services/MetaHistory.py:80-89 | a stored task status is read back exactly when it is one of the four choices, and then it is the status's code |
| BitemporalModel.TaskStatusRoundTrip | lex/core/services/MetaHistory.py:80-89 | every task status is read back from its stored string |
| BitemporalModel.Store.constructor | lex/core/services/MetaHistory.py:73-79 | a fresh store has empty tables and satisfies the invariant: fresh, distinct ids and unique task names |
| Chain.SortBy | lex/core/services/bitemporal_signals.py:55-58 | siblings listed in `(start, id)` order: a permutation of the input, sorted, and strictly sorted when no two records share a stamp |
| Chain.InsertSorted | lex/core/services/bitemporal_signals.py:55-58 | inserting into a sorted list keeps it sorted, strictly so when the new stamp is new |
| Chain.NextStart | lex/core/services/bitemporal_signals.py:60-62 | the chaining target: none exactly when no sibling comes after; otherwise the smallest start of a later sibling |
| Chain.SortedNext | lex/core/services/bitemporal_signals.py:60-62 | in the sorted sibling list the target of element `i` is the start of element `i + 1`, and none for the last |
| Chain.NextStartSameMembers | lex/core/services/bitemporal_signals.py:55-62 | the target depends only on which siblings exist, not on their order |
| Chain.WindowsDisjoint | lex/core/services/bitemporal_signals.py:36-40 | once chained, two different siblings never cover the same instant |
| StrictChaining.Siblings | lex/core/services/bitemporal_signals.py:55-57 | the rows of one entity are exactly the history rows with that key |
| StrictChaining.SiblingsDistinct | lex/core/services/bitemporal_signals.py:55-58 | distinct history ids give an entity's rows distinct `(valid_from, history_id)` stamps |
| StrictChaining.KeyStampsMembers | lex/core/services/bitemporal_signals.py:55-58 | a stamp is among the entity's stamps exactly when some row of the entity carries it |
| StrictChaining.RechainChains | lex/core/services/bitemporal_signals.py:60-68 | after `valid_to` chaining the entity is strictly chained, other entities' rows are unchanged, and keys and stamps stay put |
| StrictChaining.ChainedIsFixpoint | lex/core/services/bitemporal_signals.py:64 | chaining leaves an entity unchanged exactly when it is already chained, and chaining twice equals chaining once |
| StrictChaining.AtMostOneValid | lex/core/services/bitemporal_signals.py:36-40 | in a chained entity no two rows are valid at the same instant |
| StrictChaining.MetaSiblings | lex/core/services/bitemporal_signals.py:226-229 | the versions of a history row are exactly the meta rows referring to it |
| StrictChaining.MetaSiblingsDistinct | lex/core/services/bitemporal_signals.py:226-229 | distinct meta ids give a history row's versions distinct `(sys_from, id)` stamps |
| StrictChaining.RechainMetaChains | lex/core/services/bitemporal_signals.py:231-237 | after `sys_to` chaining the versions of the row are strictly chained and other rows are unchanged |
| StrictChaining.AtMostOneKnown | lex/core/services/bitemporal_signals.py:216-219 | among chained versions no two are known at the same system instant |
| StrictChaining.KeepsChained | lex/core/services/bitemporal_signals.py:231-237 | a change that keeps a row's versions' windows keeps them chained |
| BitemporalSignals.ChainValidTo | lex/core/services/bitemporal_signals.py:55-68 | the history becomes `Rechain` of the old one; the writes are exactly the rows whose `valid_to` changes, and there are none exactly when the entity was already chained |
| BitemporalSignals.ChainEntity | lex/core/services/bitemporal_signals.py:55-68 | the chaining on the table as a value: the result is `Rechain` of the input, ids stay fresh, and the writes are exactly the changing rows |
| BitemporalSignals.ChainSorted | lex/core/services/bitemporal_signals.py:60-68 | the loop over the sorted rows visits every row and records exactly the changing writes |
| BitemporalSignals.ChainLoopStep | lex/core/services/bitemporal_signals.py:60-68 | one iteration, which saves only a changing row, extends the chained prefix by one row |
| BitemporalSignals.SortedTarget | lex/core/services/bitemporal_signals.py:61-62 | the loop's `next_record.valid_from` is the chaining target of the current row |
| BitemporalSignals.ChainFinish | lex/core/services/bitemporal_signals.py:60-68 | after the last row the loop's state is the chained history, and its writes are the changing rows |
| BitemporalSignals.ChainSysTo | lex/core/services/bitemporal_signals.py:226-237 | the meta table becomes `RechainMeta` of the old one; the saved ids are exactly the versions whose `sys_to` changes |
| BitemporalSignals.ChainVersions | lex/core/services/bitemporal_signals.py:226-237 | the `sys_to` chaining on the table as a value, with ids and task names kept |
| BitemporalSignals.ChainMetaSorted | lex/core/services/bitemporal_signals.py:231-237 | the `sys_to` loop visits every version and records exactly the changing saves |
| BitemporalSignals.MetaChainLoopStep | lex/core/services/bitemporal_signals.py:231-237 | one iteration of the `sys_to` loop extends the chained prefix by one version |
| BitemporalSignals.MetaChainFinish | lex/core/services/bitemporal_signals.py:231-237 | after the last version the loop's state is the chained meta table |
| BitemporalSignals.CancelSchedules | lex/core/services/bitemporal_signals.py:147-164 | every scheduled version of the row becomes cancelled and nothing else changes; the revoked names are exactly the non-empty task names of those versions |
| BitemporalSignals.ScheduleFutureActivation | lex/core/services/bitemporal_signals.py:265-267 | the version becomes scheduled under the name unless another row holds the name, in which case nothing changes; task names stay unique |
| BitemporalSignals.OnHistorySavedCreateMeta | lex/core/services/bitemporal_signals.py:89-110 | a `+` version is created exactly when the row has none; the latest version is scheduled exactly when the row starts more than five seconds after `now` and the name is free |
| BitemporalSignals.FindPrevious | lex/core/services/bitemporal_signals.py:186-192 | finds a row of the entity with the largest start below the deleted one's, or none exactly when no row starts earlier |
| BitemporalSignals.NextAbove | lex/core/services/bitemporal_signals.py:195-202 | the smallest start above the deleted one's, or none exactly when no row starts later |
| BitemporalSignals.FindNextStart | lex/core/services/bitemporal_signals.py:195-202 | the one-pass search returns `NextAbove` |
| BitemporalSignals.RepairChain | lex/core/services/bitemporal_signals.py:186-204 | with a previous row, that row's `valid_to` becomes the next start (null when none) and nothing else changes; otherwise nothing changes |
| StandardHistory.CopyTrackedFields | lex/core/services/StandardHistory.py:83-91 | the copied attributes are exactly the included non-control fields, with the instance's values |
| StandardHistory.CreateHistoricalRecord | lex/core/services/StandardHistory.py:93-102 | one history row is appended with the next id, the entity's key, `valid_from` the history date or `now`, a null `valid_to`, and the copied attributes |
| MetaHistory.LatestMeta | lex/core/services/MetaHistory.py:142-144 | finds the first version in `(-sys_from, -meta_history_id)` order, or none exactly when the row has no version |
| MetaHistory.CreateMetaHistoricalRecord | lex/core/services/MetaHistory.py:126-164 | the write is in place exactly for a refinement whose latest version is open: that version takes the new snapshot and keeps its id and `sys_from`; otherwise a new open version is appended with the next id, `sys_from` the history date or `now`, the given type, reason and snapshot, and no task |
| BitemporalSync.FindEffective | lex/process_admin/utils/bitemporal_sync.py:46-54 | finds the version covering `now` with the greatest `(valid_from, history_id)`, or none exactly when no version covers `now` |
| BitemporalSync.EffectiveUnique | lex/process_admin/utils/bitemporal_sync.py:46-54 | the effective version is unique |
| BitemporalModel.RecordAttrs | lex/core/services/StandardHistory.py:24-48 | the attributes a history row has: its snapshot's fields plus exactly the control columns `history_id`, `valid_from`, `valid_to`, `history_type` and `history_change_reason`, each holding the row's own value (null for an open `valid_to`, the one-letter code for the type) |
| BitemporalSync.OverlayMeaning | lex/process_admin/utils/bitemporal_sync.py:66-73 | the upserted row holds exactly the row's attributes plus the copied ones (model fields other than the key that the version has as attributes, control columns included); a copied field takes the version's value, every other keeps the row's |
| BitemporalSync.DiffersIffChanged | lex/process_admin/utils/bitemporal_sync.py:65-75 | the `changed` flag is set exactly when some copied field is missing from the row or holds another value, which is exactly when the upsert changes the row |
| BitemporalSync.CopyFields | lex/process_admin/utils/bitemporal_sync.py:65-73 | the field loop over all model fields, skipping the key, returns the overlay of the version's attributes (snapshot and control columns) and reports a change exactly when a copied field differed |
| BitemporalSync.SyncedRow | lex/process_admin/utils/bitemporal_sync.py:56-85 | a synchronised live main row holds, for every non-key model field the effective version has as an attribute (its control columns included), the version's value; every other attribute keeps the value of the existing or new default row; other main rows are unchanged |
| BitemporalSync.SyncRecordForModel | lex/process_admin/utils/bitemporal_sync.py:33-85 | without a history model nothing changes; otherwise the main table is synchronised (`Synced`): the found version is the effective one, a live one has its attributes, snapshot and control columns alike (`RecordAttrs`), overlaid on the existing row or a new default row, otherwise the row is removed, and every other row is kept; the outcome is saved or unchanged exactly as the row is new or the overlay differs, and removed or already absent as the row existed |
| HistoryPipeline.RowById | lex/core/services/bitemporal_signals.py:186-192 | finds the row with the given id, or none exactly when no row has it |
| HistoryPipeline.WriteMetaVersion | lex/core/services/MetaHistory.py:126-164 | the write is in place (same id, no new id) exactly for a refinement of a row whose latest version is open, and otherwise appends a version with the next id; the table is the written one with the row's versions rechained on `sys_to`; the written version holds the row; every other row's versions are untouched |
| HistoryPipeline.ChainWithRewrites | lex/core/services/bitemporal_signals.py:55-68 | the history becomes `Rechain` of the old one and the rewrites are exactly the changing rows, none twice; the meta table grows as `RewritesLoop` states for those rewrites (`RewritesDone`), and each rewritten row whose start is beyond the grace and whose task name was free, and differs from the other rewritten rows' names, ends with its latest version scheduled under that name (`RewritesTasked`) |
| HistoryPipeline.SaveOwnVersion | lex/core/services/signal_registry.py:111-114 | the saved row gets exactly one new version with the next id, type, `now`, an empty reason and the row itself; other rows' versions are untouched; the latest version is scheduled only beyond the grace, always when no version held the name, and then carries the name |
| HistoryPipeline.LoneVersionOpen | lex/core/services/bitemporal_signals.py:226-237 | a version that is the only one of its history row and open is left as it is by the `sys_to` chaining |
| HistoryPipeline.GrowsTransitive | lex/core/services/MetaHistory.py:126-164 | two extensions of the meta table in a row are one extension, with the refined rows of both |
| HistoryPipeline.AfterRewrite | lex/core/services/bitemporal_signals.py:64-68 | a chaining rewrite's `~` version is written in place exactly for a refinement of an open latest version, otherwise appended at `now` with the next id, and holds the row's new state; the latest version is then scheduled exactly when the row starts beyond the grace and its task name is free; the row's versions end chained, earlier versions stay the same versions, schedules are kept and other rows' versions are untouched |
| HistoryPipeline.RewritesLoop | lex/core/services/bitemporal_signals.py:60-68 | the handlers of all rewrites add at most one version per rewrite and at least one for every rewrite that is not a refinement, each a `~` version at `now` holding a rewritten row's new state and either no task or, only for a row beyond the grace, a scheduled task under that row's name (`RewriteVersion`); every rewritten row has a version holding its new state and chained versions; earlier versions keep their identity and schedules, with a new snapshot only for a refined row; other rows' versions are untouched; a rewritten row beyond the grace whose name was free (and no other rewritten row's) ends with its latest version scheduled under it (`RewritesTasked`) |
| HistoryPipeline.AfterHistorySaved | lex/core/services/signal_registry.py:111-122 | after a history row is saved: the entity is `Rechain` of the old history and the rewrites are exactly its changing rows (`ChainWrites`); the saved row gets a new version of the given type at `now` with the next id, followed by one `~` version per rewrite that is not a refinement, each with no task or a scheduled one under its row's name for a row beyond the grace, and every rewritten row beyond the grace whose name was free and differs from the saved row's has its latest version scheduled (`SaveVersions`); the activation is scheduled only beyond the grace, always when the name was free, and then on the saved row's own version (`SaveScheduled`); the main row is `Synced` at `now` |
| HistoryPipeline.SaveAndChain | lex/core/services/signal_registry.py:111-122 | the meta handlers and the `valid_to` chaining of a save, before the sync: the same `Rechain`, `ChainWrites`, `SaveVersions` and `SaveScheduled` as `AfterHistorySaved` |
| HistoryPipeline.InsideGraceIgnored | lex/core/services/bitemporal_signals.py:105-110 | a saved row that starts after `now` but within the grace is neither scheduled nor the effective version the sync applies |
| HistoryPipeline.RecordVersion | lex/core/services/StandardHistory.py:76-115 | the new history row has the next id, the entity key, `valid_from` the history date or `now`, a null `valid_to`, and exactly the included fields' values; the entity is the old history plus that row, rechained; its `+` version holds the row as written, the rewrites' `~` versions carry the task state `SaveVersions` states, and the rows beyond the grace are scheduled as `SaveVersions` and `SaveScheduled` state; the main row is present exactly when the effective version is live, and other entities' main rows are unchanged |
| HistoryPipeline.SyncedKeepsOthers | lex/process_admin/utils/bitemporal_sync.py:56-85 | a synchronised main table holds the entity exactly when its effective version is live, and every other row is unchanged |
| HistoryPipeline.DetachedVersion | lex/core/services/MetaHistory.py:65-70 | a deleted row's version loses its reference (`SET_NULL`), a scheduled activation becomes cancelled and no other status changes, and its id, system window, type, reason, snapshot and task name are kept |
| HistoryPipeline.RemoveHistoryRow | lex/core/services/bitemporal_signals.py:139-166 | the row is removed, each of its versions becomes exactly its detached version at the same position (`Detached`: reference null, scheduled turned cancelled, all other data kept), other meta rows are unchanged, and the revoked names are exactly the non-empty task names of its scheduled versions |
| HistoryPipeline.DeleteHistoryRecord | lex/core/services/bitemporal_signals.py:139-204 | deleting a missing row changes nothing; otherwise (`DeletedAt`) the row is gone, each earlier version of it is exactly its detached version (reference null, scheduled turned cancelled, all other data kept), a `-` version with the next id holding the deleted row is appended and is the only version referring to it; the repair ran exactly when an earlier row of the entity remains; without it nothing else changes; with it the history is the remaining rows rechained and the main row `Synced`; the revoked names are exactly the non-empty task names of the row's scheduled versions |
| HistoryPipeline.MarkDeleted | lex/core/services/MetaHistory.py:126-164 | the post-delete meta write appends a `-` version with the next id that refers to the deleted row, holds it, is open and has no task |
| HistoryPipeline.DeleteOutcome | lex/core/services/bitemporal_signals.py:139-204 | removing the row, marking it deleted and the post-delete repair together leave the tables `DeletedAt` describes, the detached versions kept exactly as the removal left them |
| HistoryPipeline.PostDelete | lex/core/services/bitemporal_signals.py:186-204 | the repair ran exactly when an earlier row exists, and without it nothing changes; with it the history is the remaining rows rechained, the re-saved row is the previous row with `valid_to` set to the next start, its save adds the versions `SaveVersions` states, with their task state and the scheduling of each rewritten row beyond the grace, and schedules the re-saved row as `SaveScheduled` states, the main row is `Synced`, and the deleted row's and detached versions are untouched |
| HistoryPipeline.RechainIgnoresValidTo | lex/core/services/bitemporal_signals.py:196-204 | rechaining ignores the `valid_to` values the entity's rows had, so repairing one row before the re-save's chaining changes nothing in the end |
| HistoryPipeline.ResaveRepaired | lex/core/services/bitemporal_signals.py:203-204 | the repaired row's save runs its after-save handlers: the history is rechained, the main row `Synced`, the versions `SaveVersions` states are added, with their task state and the scheduling of every rewritten row beyond the grace whose name was free, and versions of the deleted row or of no row are untouched |
| HistoryPipeline.DeletedAtUnique | lex/core/services/bitemporal_signals.py:169-204 | with distinct history ids, the deletion promise holds for every position that carries the deleted id |
| Bitemporal.AsOfValid | lex/core/services/Bitemporal.py:40-49 | the valid-time query holds exactly the rows whose window contains `t`, deletion markers excluded |
| Bitemporal.AsOfSystem | lex/core/services/Bitemporal.py:51-60 | the system-time query holds exactly the versions whose system window contains `t` |
| Bitemporal.GetQuerysetAsOf | lex/core/services/Bitemporal.py:35-65 | a main model is queried in valid time; a history model in system time or with the no-meta error; anything else with the not-tracked error |
| Bitemporal.ValidUnique | lex/core/services/Bitemporal.py:40-49 | in a chained entity the valid-time query returns at most one row per instant |
| Bitemporal.SyncAgreesWithAsOf | lex/process_admin/utils/bitemporal_sync.py:46-85 | the synchronised main row exists exactly when the valid-time query returns a row of the entity, and that row is the effective version |
| Bitemporal.InsertHistoryRow | lex/core/services/Bitemporal.py:90-98 | `objects.create` on the history model appends one row with the next id |
| Bitemporal.SyncedAfterSave | lex/process_admin/utils/bitemporal_sync.py:56-85 | the sync after an instance save leaves the saved instance overlaid with the effective version's attributes when that version is live, and the entity's main row removed otherwise |
| Bitemporal.InsertMarker | lex/core/services/Bitemporal.py:90-98 | the deletion marker is one new `-` row with the next id, the entity key, `valid_from` the given end, a null `valid_to`, an empty reason and the given snapshot; the entity is rechained, the marker's save runs the after-save handlers with a `+` meta version (`SaveVersions`, `SaveScheduled`), the main row is `Synced` and other main rows are unchanged |
| Bitemporal.ResurrectObject | lex/core/services/Bitemporal.py:68-100 | the instance is built from the field defaults overlaid with the given attributes and saved: its version starts at `valid_from` and snapshots exactly the model's non-control fields; the main row then holds that instance overlaid with the effective version (`Synced` from the saved instance); a given end adds a deletion marker there and a second sync from that result; the version's save adds the meta versions and schedules `SaveVersions` and `SaveScheduled` state, and the marker's save adds its own from that table; the entity ends chained and its main row agrees with the valid-time query |
| Bitemporal.SaveResurrected | lex/core/services/Bitemporal.py:86-98 | the tracked part of `resurrect_object`: the version's save and the marker's, with the same history, meta-table (`SaveVersions`, `SaveScheduled`) and main-row (`Synced`) promises as `ResurrectObject` |
| AuditLogMigration.Lower | lex/audit_logging/migrations/0002_migration_v1_to_v2.py:10 | ASCII lower-casing: the length is kept, no upper-case letter is left, each upper-case letter becomes its lower-case partner and every other character is kept |
| AuditLogMigration.NatText | lex/audit_logging/migrations/0002_migration_v1_to_v2.py:15-16 | an id's decimal text is all digits and converts back to the id |
| AuditLogMigration.LastIndexOf | lex/audit_logging/migrations/0002_migration_v1_to_v2.py:14 | the split point of `rsplit('_', 1)`: none exactly when there is no underscore, otherwise the last one |
| AuditLogMigration.SuperscriptCrashes | lex/audit_logging/migrations/0002_migration_v1_to_v2.py:15-16 | the record `investor_²` passes the digit test and then crashes the conversion |
| AuditLogMigration.ParseAsWritten | lex/audit_logging/migrations/0002_migration_v1_to_v2.py:9-18 | the parser as written: missing, empty and reserved records name nothing; a parsed record splits at an underscore with none after it into the lower-cased model and a run of decimal digits; it crashes only on a suffix that passes `isdigit` but is not decimal |
| AuditLogMigration.ParseCalculationRecord | lex/audit_logging/migrations/0002_migration_v1_to_v2.py:9-18 | never crashes; missing, empty and reserved records name nothing; a parsed record splits at its last underscore into the lower-cased model and a run of digits |
| AuditLogMigration.CorrectedAgrees | lex/audit_logging/migrations/0002_migration_v1_to_v2.py:9-18 | the corrected parser agrees with the written one wherever that one does not crash, and names nothing where it does |
| AuditLogMigration.ParseRecordText | lex/audit_logging/migrations/0002_migration_v1_to_v2.py:5-8 | `model_id` for any model name, underscores included, parses back to the lower-cased name and the id |
| AuditLogMigration.RecordTextSplit | lex/audit_logging/migrations/0002_migration_v1_to_v2.py:14 | the last underscore of a record text is the one after the model name |
| AuditLogMigration.EndsInDigitNotReserved | lex/audit_logging/migrations/0002_migration_v1_to_v2.py:10 | no record ending in a digit is reserved |
| AuditLogMigration.ParseIgnoresCase | lex/audit_logging/migrations/0002_migration_v1_to_v2.py:9-18 | two records that lower-case alike parse alike, reserved words included |
| AuditLogMigration.CalcIdMapKeys | lex/audit_logging/migrations/0002_migration_v1_to_v2.py:75-80 | an id is in the map exactly when one of its rows names a known model |
| AuditLogMigration.CalcIdMapValues | lex/audit_logging/migrations/0002_migration_v1_to_v2.py:75-80 | an id's entry is the link of its last contributing row |
| AuditLogMigration.BuildCalcIdMap | lex/audit_logging/migrations/0002_migration_v1_to_v2.py:63-80 | the loop's map holds exactly the ids with a contributing row, each mapped to the last such row's content type and object id |
| AuditLogMigration.ChooseColumns | lex/audit_logging/migrations/0002_migration_v1_to_v2.py:94-95 | `log_message` exactly when present, otherwise `message`; `calculationId` exactly when present, otherwise `calculation_id` |

## Left out

- Django's signal machinery is not modelled: the handlers run as explicit calls in the order they are connected. A save made inside a handler runs its own handlers at once. Two orders are approximations:
  - Each rewrite's meta handlers run after the whole `valid_to` pass, not between its saves.
  - The `chain_valid_to` and `sync_main` that each rewrite's save fires again are not run. The nested chaining reaches the same chained history (`StrictChaining.ChainedIsFixpoint`), and the last sync decides the main row.
  - The source loop works on rows it read before the nested chaining ran, so it saves the later rows that needed a change again, with values they already hold (lex/core/services/bitemporal_signals.py:55-68). The extra `~` versions those saves write are not modelled: the model writes one version per row whose `valid_to` changes.
- The second `chain_valid_to` run, from `post_create_historical_record` (lex/core/services/signal_registry.py:125-128), is not modelled. It comes after the first run, and chaining an already chained entity changes nothing (`StrictChaining.ChainedIsFixpoint`).
- The `-` version of a deleted row comes from the history library's own `post_delete` handler, which is not part of this model. `HistoryPipeline.MarkDeleted` stands for it and writes the version through `create_historical_record`.
- BitemporalSignals.ChainSysTo and StrictChaining.RechainMeta break ties among one history row's versions by meta id. The source orders by `("sys_from", "id")`, where `id` is the copied entity key, so it leaves such ties open.
- HistoryPipeline.PostDelete and HistoryPipeline.DeleteHistoryRecord: the versions that the repaired row's re-save adds are stated by `PostDelete` only. `DeletedAt` states the deleted row's versions, the history and the main row.
- AuditLogMigration.CalcIdMapKeys, AuditLogMigration.CalcIdMapValues and AuditLogMigration.BuildCalcIdMap model the lookup map with the corrected parser. The source calls the parser at line 75 outside any `try`, so on the record `investor_²` the migration aborts instead (see Findings).
- The scheduler backends are not modelled: Celery Beat, `ClockedSchedule`, the local thread scheduler and the deletion of `PeriodicTask` rows. Only the meta-level bookkeeping (status and task name) is, and the task name is a caller-supplied function in place of the uuid and clock naming.
- Nothing happens when a scheduled activation fires; `activate_history_version` is not part of this model.
- `history_user` and `meta_history_user` are not modelled, and neither is `get_default_history_user`; users are not part of the rows.
- BitemporalModel.RecordAttrs: a history row's attributes are its snapshot and the five control columns. `history_user_id`, `history_user`, `instance` and `instance_type` (lex/core/services/StandardHistory.py:48-59) are left out because users and model classes are not modelled. So the sync never copies them, even onto a main model field of the same name.
- HistoryPipeline.AfterRewrite: the task name is a function of the history row, as the local scheduler's `local_thread_{pk}_{now}` is. Under the Celery backend each name ends in a fresh uuid (lex/core/services/bitemporal_signals.py:279-283), so the `~` version of a rewritten row is scheduled too and a second `PeriodicTask` is created. The model does not capture that.
- HistoryPipeline.RewritesLoop and HistoryPipeline.SaveVersions: a rewritten row is promised its schedule only when its task name differs from every other rewritten row's and from the saved row's; a name shared within one save is not modelled.
- `fields_included` is a parameter (the included field list), not derived from the model.
- The exceptions the handlers swallow are not modelled. A task-name collision is modelled as a failed save that changes nothing, which is what `on_history_saved__create_meta` ends up doing. Other failures are not part of the model.
- Database failures and transactions are not modelled, nor is concurrency between workers.
- `hasattr` checks on model classes are flags: `ModelKind` in the query helper, `historyResolvable` in the synchroniser, `tracked` in `resurrect_object`.
- Bitemporal.ResurrectObject: does not model the marker's extra `id=pk` keyword. The marker is created with the entity's key and the saved version's snapshot (attributes over field defaults), and its change reason is empty.
- Bitemporal.ResurrectObject: requires that the field defaults cover every model field, so that the instance has a value for each field it snapshots.
- MetaHistory.CreateMetaHistoricalRecord: the in-place update replaces the whole snapshot of the version; `save()` re-running the meta handlers is part of `HistoryPipeline.WriteMetaVersion`.
- BitemporalSignals.RepairChain: the source's `.order_by("-valid_from").first()` does not say which of two rows with the same start is taken; the contract states only that the repaired row has the largest start below the deleted one's.
- HistoryPipeline.DeleteHistoryRecord: when the deleted row was the first of its entity, no repair runs and the main row is not resynchronised, as in the source. The contract then says only that the main table is unchanged.
- Meta rows whose history row is gone (`history_object` null) are kept as they are. Their references are not re-pointed, and no constraint on dangling references is modelled.
- AuditLogMigration.Lower: ASCII lower-casing only. Python's Unicode `lower` also maps other scripts.
- AuditLogMigration.ParseAsWritten: models `isdigit` as decimal digits plus `¹²³` only. Other Unicode digits that `isdigit` or `int` accept are not modelled.
- The migration's I/O is not modelled: SQL reads, `bulk_create`, the user-change-log and calculation-log copies, the table-existence checks and `print` output. Only the parser, the lookup-map loop and the column choice are.
- Floating-point and timezone handling of `datetime` are not modelled; times are integers.

## Findings

| source | as written | input that shows it | evidently intended | confidence | as-written member | corrected member |
|---|---|---|---|---|---|---|
| lex/audit_logging/migrations/0002_migration_v1_to_v2.py:15-16 | `parts[1].isdigit()` guards `int(parts[1])`, but `isdigit` accepts superscript digits that `int` rejects with `ValueError`, aborting the migration | the calculation record `investor_²` | a suffix that is not a run of decimal digits names no object, as any other unparsable record does | not executed | AuditLogMigration.SuperscriptCrashes | AuditLogMigration.ParseCalculationRecord |
