# Verification of Proof Agent's configuration, knowledge and publication logic

A Dafny model of the parts of Proof Agent that decide what is stored, what is published and what
may be published, with proofs of the guarantees the code is written for. `dafny verify
dfyconfig.toml` checks everything.

## What is modelled

**The configuration store** (`StorePaths`, `StoreRecords`, `StoreOperations`, `ConfigurationStore`;
proofs in `StoreInvariants`, `StoreRuns`, `StoreVersions`, `StoreGuarantees`, `StorePointers`,
`StoreReservation`, `StoreLifecycles`, `StoreAcceptance`, `StoreDiscoveries`). `LocalAgentConfigurationStore`
keeps its records in files: drafts with optimistic revisions, immutable published versions, one
active pointer per agent, the canonical seed reservation, shared model connections, tool sources
and their remote validations. `ConfigurationStore` is a class over a disk of files
(`map<Path, Content>`); each public method is one locked body and is proved equal to a step of a
state machine over records. Every write may raise: before touching its target, after it, or half
way through, which leaves a beginning of a text, or a JSON file that no longer parses, unless the
write goes through a temporary file and a rename.
A step is given the outcomes of its writes, so a theorem about all steps is a theorem about all
fault points. A remote validation of a tool source is two locked bodies with anything in between.
Runs are sequences of such events, and the main results hold of every reachable state. When each
locked body is accepted, and what it then leaves, is stated on the files themselves, field by field.

**URI canonicalisation** (`PercentEncoding`, `ArtifactUri`, `UriAcceptance`, `UriEquivalence`), measured against
RFC 3986: the percent-encoding check is exactly normality under sections 6.2.2.1 and 6.2.2.2 without
encoded separators; the canonical artifact URI identifies a resource (scheme, host, effective port,
path) one to one, where the host is the hostname urllib.parse reads off the authority: an address of a
future version loses its brackets (`[v1.abc]` is the name `v1.abc`), and before Python 3.12.9 text
around brackets is dropped (`foo[::1]bar` has the host `::1`; later versions refuse it). Which
spellings of one URI have one result is stated exactly, and so is which texts are accepted at all: the
language of the validator is spelled out by how its texts are put together.

**Interval merging and table lineage** (`RuleLineage`): the merged form of a set of row intervals
is a unique normal form, so comparing merged forms decides equality of row sets.

**Agent packages** (`AgentPackage`, `PackageAcceptance`): importing a package and compiling the bundle, as operations on
a tree of files.

**Document edits** (`DocumentEdits`, `EditAcceptance`): spans found from a YAML parser's marks, spliced from the back.

**Publication authority** (`AuthorityChain`), **capture sanitising** (`CaptureSanitizer`),
**secret-bearing parameters** (`SecretFields`, over the trees of `ManifestTree`) and **formal
publication gates** (`FormalPublication`).

Parsers and remote code are parameters: a YAML loader is a function from text to a tree (for the
connection search, one whose results need less text than they came from), a YAML composer is one
whose marks mean what `DocumentEdits.WellMarked` says, IPv6 compression is a function that is
stable on its results, case folding of keys is an arbitrary function, and the rules of other
modules for tools, sources, workflow stages and single knowledge bindings are predicates or
functions. So is the parser of a text found at `publication.json`.

## What the proofs found

Each of these is stated as a lemma with the exact condition, or with a concrete case and the
condition under which the property holds.

- An extra file of a package may be called `publication.json`; importing a copied version directory
  yields one. `publish_version` and the seed write it before their own `publication.json` and do not
  roll back, so a fault in between leaves a version that reads as the text says, without its files, and
  can be activated (`StoreVersions.ExposedVersionCanBeActivated`, and a store and a draft for which it
  happens in `CopiedPublicationIsRead`). This is the only way a readable version lacks files
  (`StepKeepsVersionsExactly`, `RunKeepsVersionsExactly`). A publication is safe under all faults
  exactly when no such text, nor a beginning of one, parses (`PublicationIsSafeExactly`,
  `SeedIsSafeExactly`); a prepared publication always is.
- An activation, a publication by `publish_version` and the canonical seed write the active pointer
  in place and do not roll back: a write of the pointer cut off half way leaves one that cannot be
  read (`StoreGuarantees.ActivationTearsPointer`, `StorePointers.PublicationTearsPointer`,
  `SeedTearsPointer`). No other operation and no other fault does (`StepKeepsPointersExactly`), and the
  pointers of a whole run name complete versions exactly when none of these happens and no incomplete
  version is activated (`RunKeepsPointers`).
- A draft and its revision are two files. A write interrupted between them leaves the new draft under
  the old revision, always when the revision is kept in a file, and otherwise when the audit entries
  of the new draft happen to count the same (`StoreGuarantees.SplitKeepsRevisionExactly`); a later
  save then overwrites a draft its author never read (`SplitWriteLosesUpdate`). With a revision file
  this is the only way an update is lost (`FiledUpdatesAreKeptExactly`); `UpdatesAreKeptExactly` gives
  the condition for every draft. Both are about saves based on an atomic read; `get_draft_record`
  reads the two files without the lock (`UnlockedReadMayMix`), and its pair belongs to the state of the
  first read exactly when no write reaches the revision in between (`UnlockedReadIsAtomicExactly`).
- A prepared publication ignores the canonical reservation: it keeps it exactly when it publishes
  the reserved agent (`StoreReservation.PublishRecordKeepsReservesExactly`), and nothing else breaks it
  (`RunKeepsReservationExactly`).
- The digest that publication compares may be the empty text of a tool without a snapshot digest
  (`ManifestTree.EmptyDigestExactly`).
- The case of the host decides in two places. `https://[v1.abc]/x` is accepted and
  `https://[V1.abc]/x` refused, because the bracket check looks for a lower-case letter
  (`UriEquivalence.FutureAddressNeedsLowerCase`), and escapes must be upper-case
  (`EscapesNeedUpperCase`). Apart from these two, case makes no difference (`CaseDoesNotMatter`).
- The canonical text of an artifact URI with an IPv6 zone is refused by the same validator when
  lower-casing the host has spoilt the zone's escape (`ArtifactUri.CanonicalizeTwice`,
  `SpoiltZone`).
- A line break that is not a line feed, such as a lone carriage return, can put another entry on the
  line that `_single_line_entry_span` takes: a document passes every guard and its two edits overlap
  (`DocumentEdits.CarriageReturnHidesEntry`). They are apart exactly when a line feed lies between the
  two entries (`MemoryEditsAreSeparate`), which ordinary line ends guarantee
  (`LineFeedsKeepEditsSeparate`).
- A text file with carriage returns does not survive import and compilation unchanged
  (`AgentPackage.KeptExactlyIff`), and a package with text files below a directory called
  `tools.yaml` cannot be compiled (`ImportThenCompile`).
- Empty intervals behind all others defeat the comparison of merged forms
  (`RuleLineage.EmptyIntervalsDefeatComparison`); the validators never pass any.
- A chain of authority records linked by digests alone can lose coverage unless digests identify
  attestations (`AuthorityChain.DigestLinksAloneLoseCoverage`).
- The receipt of a completed formal publication is copied without validation; it is valid exactly
  when the publication time is not empty (`FormalPublication.QualificationGivesReceipt`).

## Model

| member | source | states |
|---|---|---|
| StorePaths.GuardedChildIsPlainChild | proof_agent/configuration/local_store.py:1418-1438 | the id check accepts exactly single ordinary names, and the path is then the child of that name below the same root: the containment test after it never fires |
| StorePaths.UncheckedChildMayLeave | proof_agent/configuration/local_store.py:1348-1358 | agent, draft and version ids that are plain names stay one level deep; an id of two dots leaves the directory |
| StorePaths.PathOfDetermines | proof_agent/configuration/local_store.py:1348-1523 | path functions are injective and disjoint across record kinds: a path gives back its kind and ids |
| StorePaths.KeyOfDetermines | proof_agent/configuration/local_store.py:1348-1523 | the other direction: the record kind and ids read off a path lead to that path |
| StorePaths.PosixRoundTrip | proof_agent/configuration/importer.py:127-127 | writing a relative path with slashes and joining it again gives the same components |
| ConfigurationStore.RecordsOfAt | proof_agent/configuration/local_store.py:140-144 | a getter sees a record exactly when its one file exists, with that file's content |
| ConfigurationStore.RecordsOfWrite | proof_agent/configuration/local_store.py:2175-2191 | writing the file of one record changes what one getter returns and nothing else |
| ConfigurationStore.DirExistsIsVersionDirExists | proof_agent/configuration/local_store.py:303-309 | the directory test of a version is the existence of one of its files, empty directories apart |
| ConfigurationStore.RecordsOfWithoutConnection | proof_agent/configuration/local_store.py:973-973 | removing a connection directory, completely or leaving some files, removes exactly those records |
| ConfigurationStore.Disk.Put | proof_agent/configuration/local_store.py:2175-2214 | a write ends as its outcome says: done, untouched, torn unless atomic, or done and raised; no other file changes |
| ConfigurationStore.Disk.RemoveVersion | proof_agent/configuration/local_store.py:317-317 | removes every file below the version directory and no other, when the removal succeeds |
| ConfigurationStore.Disk.Restore | proof_agent/configuration/local_store.py:318-321 | puts prior bytes back or removes the file, and changes no other, when this succeeds |
| ConfigurationStore.LocalAgentConfigurationStore.GetModelConnection | proof_agent/configuration/local_store.py:771-775 | missing, malformed (also for ids that are not plain names) or the stored connection |
| ConfigurationStore.LocalAgentConfigurationStore.DraftRevision | proof_agent/configuration/local_store.py:1669-1682 | the stored revision, the number of audit entries but at least one when there is none, or a conflict |
| ConfigurationStore.LocalAgentConfigurationStore.SaveDraftRecord | proof_agent/configuration/local_store.py:157-177 | the method does to the disk, for every outcome of its writes, exactly what the step of the run theorems does |
| ConfigurationStore.LocalAgentConfigurationStore.CreateDraft | proof_agent/configuration/local_store.py:108-138 | likewise for a new draft |
| ConfigurationStore.LocalAgentConfigurationStore.UpdateDraft | proof_agent/configuration/local_store.py:197-227 | likewise for an update: absent fields are kept, the audit grows, the revision is one more |
| ConfigurationStore.LocalAgentConfigurationStore.WriteVersion | proof_agent/configuration/local_store.py:1700-1711 | contracts, extra files in order, publication.json last; nothing outside the version directory changes |
| ConfigurationStore.LocalAgentConfigurationStore.PublishVersion | proof_agent/configuration/local_store.py:229-246 | equals the publication step: reservation, connection, stage, knowledge and tool source guards in this order, then version and pointer |
| ConfigurationStore.LocalAgentConfigurationStore.RequirePublishable | proof_agent/configuration/local_store.py:442-478 | the guards accept exactly when the publication plan exists, and name its first error |
| ConfigurationStore.LocalAgentConfigurationStore.RequireAll | proof_agent/configuration/local_store.py:1608-1618 | the loop that stops at the first failure accepts exactly when every item passes |
| ConfigurationStore.LocalAgentConfigurationStore.PublishVersionRecord | proof_agent/configuration/local_store.py:262-323 | equals the prepared publication step, and unless it is accepted every file of the disk is as it was |
| ConfigurationStore.LocalAgentConfigurationStore.WriteOrRollBack | proof_agent/configuration/local_store.py:313-322 | all writes done, or every file restored, whichever write raised and however |
| ConfigurationStore.LocalAgentConfigurationStore.SeedVersion | proof_agent/configuration/local_store.py:325-361 | reserves first, publishes without rollback, then records the initial version |
| ConfigurationStore.LocalAgentConfigurationStore.EnsureAuthority | proof_agent/configuration/local_store.py:363-388 | reserves only a store whose one active agent has the expected version |
| ConfigurationStore.LocalAgentConfigurationStore.ActivateVersionRecord | proof_agent/configuration/local_store.py:687-714 | equals the activation step: reservation, existing version, exact pointer, one write |
| ConfigurationStore.LocalAgentConfigurationStore.CreateModelConnection | proof_agent/configuration/local_store.py:716-769 | equals the creation step |
| ConfigurationStore.LocalAgentConfigurationStore.UpdateModelConnection | proof_agent/configuration/local_store.py:790-861 | equals the update step, which keeps absent fields and the lifecycle |
| ConfigurationStore.LocalAgentConfigurationStore.ArchiveModelConnection | proof_agent/configuration/local_store.py:863-894 | equals the archive step |
| ConfigurationStore.LocalAgentConfigurationStore.RestoreModelConnection | proof_agent/configuration/local_store.py:896-927 | equals the restore step |
| ConfigurationStore.LocalAgentConfigurationStore.PhysicallyDeleteModelConnection | proof_agent/configuration/local_store.py:942-974 | equals the guarded deletion: audit entry first, then the directory |
| ConfigurationStore.LocalAgentConfigurationStore.CreateToolSource | proof_agent/configuration/local_store.py:1020-1074 | equals the creation step at revision one |
| ConfigurationStore.LocalAgentConfigurationStore.UpdateToolSource | proof_agent/configuration/local_store.py:1186-1253 | equals the update step at the next revision |
| ConfigurationStore.LocalAgentConfigurationStore.ArchiveToolSource | proof_agent/configuration/local_store.py:1255-1286 | equals the archive step at the same revision |
| ConfigurationStore.LocalAgentConfigurationStore.RestoreToolSource | proof_agent/configuration/local_store.py:1288-1317 | equals the restore step at the same revision |
| ConfigurationStore.LocalAgentConfigurationStore.FinishToolSourceValidation | proof_agent/configuration/local_store.py:1157-1184 | the second locked body: recheck of the revision, then one stored validation |
| ManifestTree.SharedConnectionIdsAreTheDeclaredIds | proof_agent/configuration/local_store.py:1920-1941 | the search finds exactly the ids to which a chain of steps leads, each into an entry of a mapping, an item of a list or the document a text contains |
| ManifestTree.ManifestIdsExactly | proof_agent/configuration/local_store.py:1920-1941 | an id is among those of a manifest exactly when the manifest parses to something and a chain of mapping entries, list items and embedded documents leads from it to a mapping with model_source shared and that connection_id |
| ManifestTree.McpOnly | proof_agent/configuration/local_store.py:1944-1953 | keeps exactly the contracts whose source is mcp |
| ManifestTree.EmptyDigestExactly | proof_agent/configuration/local_store.py:1956-1961 | the digest of a contract is empty exactly when it has no snapshot or a missing or blank digest in it |
| StoreRecords.PublicationIsLast | proof_agent/configuration/local_store.py:1700-1711 | publication.json holds the version itself, whatever the extra files are called |
| StoreLifecycles.ExtraFileWins | proof_agent/configuration/local_store.py:1703-1710 | every other file of a version holds the last extra file of its name, even over a contract |
| StoreLifecycles.ContractFileStays | proof_agent/configuration/local_store.py:1703-1706 | without one it holds the contract of its name, or does not exist |
| StoreInvariants.PublishRecordIsAtomic | proof_agent/configuration/local_store.py:303-323 | at every fault point: version and pointer both in place, or every record as it was |
| StoreInvariants.RollbackRestores | proof_agent/configuration/local_store.py:316-322 | removing the directory and restoring the pointer undoes any prefix of the writes, torn files included |
| StoreInvariants.StepKeepsSound | proof_agent/configuration/local_store.py:108-1321 | every locked body, with any outcomes of its writes, keeps files well-kinded and readable pointers resolved, changes no file of an existing version, and only moves revisions and tool source configurations forward |
| StoreInvariants.FinishValidationKeepsSound | proof_agent/configuration/local_store.py:1157-1184 | the same for the second half of a remote validation |
| StoreRuns.RunKeepsSound | proof_agent/configuration/local_store.py:262-440 | in every reachable state a readable active pointer names a readable version, and no file of a version has changed since it was published |
| StoreVersions.TextAfterVersion | proof_agent/configuration/local_store.py:1700-1711 | the text that the writes of a version leave at publication.json, under any outcomes |
| StoreVersions.StepKeepsVersionsExactly | proof_agent/configuration/local_store.py:108-1321 | from complete versions every locked body, under any outcomes, leads to complete versions if and only if it is a publication without rollback that stops with an extra text at publication.json that parses |
| StoreVersions.RunKeepsVersionsExactly | proof_agent/configuration/local_store.py:262-440 | in every state of a run every readable version has all its files, if and only if no event of the run is one |
| StoreVersions.RunWithoutTextsIsComplete | proof_agent/configuration/local_store.py:390-440 | so it has them as long as no draft with such an extra file is published by publish_version or the seed |
| StoreVersions.PublicationIsSafeExactly | proof_agent/configuration/local_store.py:390-440 | publish_version keeps versions complete under all faults exactly when no extra file called publication.json, nor a beginning of one, parses |
| StoreVersions.SeedIsSafeExactly | proof_agent/configuration/local_store.py:325-361 | the same for the seed |
| StoreVersions.ExposedVersionCanBeActivated | proof_agent/configuration/local_store.py:687-714 | for every other draft some fault leaves a readable version without its files, and activating it is accepted |
| StoreVersions.CopiedPublicationIsRead | proof_agent/configuration/local_store.py:1707-1711 | there is such a store and draft |
| StoreRuns.RunKeepsValidated | proof_agent/configuration/local_store.py:1129-1253 | under any interleaving, every stored validation of revision r was discovered against exactly the configuration that carried revision r |
| StoreRuns.StartIsValidated | proof_agent/configuration/local_store.py:92-106 | a sound store without validations satisfies the run invariant |
| StoreRuns.EveryStoreIsSoundAndValidated | proof_agent/configuration/local_store.py:92-106 | so does every store that a run has filled, starting from an empty directory, and its readable pointers resolve |
| StoreRuns.UnchangedRevision | proof_agent/configuration/local_store.py:1158-1163 | when the recheck passes, the source still has the configuration that was captured before the remote call |
| StoreRuns.AcceptedToolsWereDiscovered | proof_agent/configuration/local_store.py:1546-1606 | when publication accepts an MCP tool, its source is active and its digest passed a discovery against the configuration the source has now |
| StoreLifecycles.UpdateNeedsNewValidation | proof_agent/configuration/local_store.py:1186-1253 | an update keeps absent fields, takes the next revision and leaves no validation that covers the source, so its tools cannot be published until validated again |
| StoreLifecycles.ToolSourceArchiveRestores | proof_agent/configuration/local_store.py:1255-1317 | archiving and restoring a tool source gives it back with its revision, covered by exactly the same validations |
| StoreLifecycles.ConnectionArchiveRestores | proof_agent/configuration/local_store.py:863-927 | archiving and restoring a connection gives it back but for its time stamp; in between it is unusable; no other record but the audit entries changes |
| StoreLifecycles.DraftUpdateKeepsRest | proof_agent/configuration/local_store.py:197-227 | an update takes each field it is given, keeps each it is not, and appends its own audit entry |
| StoreLifecycles.ConnectionUpdateKeepsRest | proof_agent/configuration/local_store.py:790-861 | an update of a connection takes each field it is given, keeps each it is not, the id and the lifecycle, and cannot clear an optional field |
| StoreLifecycles.CreationNeverOverwrites | proof_agent/configuration/local_store.py:716-769 | an accepted creation of a connection or tool source found nothing under its id and leaves it active, a source at revision one |
| StoreLifecycles.ReasonRequiredExactly | proof_agent/configuration/local_store.py:863-873 | archive and deletion refuse exactly the blank reasons, before anything else |
| StoreGuarantees.AcceptedPublication | proof_agent/configuration/local_store.py:390-440 | field by field: the version that can be read after an accepted publication is the draft that was read with the facts of the request, the active pointer is to it, with actor and time and without a rollback origin, nothing else changed, and all connections the manifest declares were active |
| StoreGuarantees.AcceptedSeed | proof_agent/configuration/local_store.py:325-361 | the same for an accepted seed, after which the reservation names agent and version |
| StoreGuarantees.AcceptedKnowledgeIsExact | proof_agent/configuration/local_store.py:454-475 | an accepted draft embeds no knowledge, and its bindings are one by one the ones the caller resolved, at most five and under different ids |
| StoreGuarantees.PublishedReferencesResolveForever | proof_agent/configuration/local_store.py:390-478 | references of a version written by publish_version are active at publication and resolve in every later state of every run, where the version is unchanged |
| StoreGuarantees.ResolvedReferencesStayResolved | proof_agent/configuration/local_store.py:1620-1663 | a reference that resolves once keeps resolving as long as its version exists, whoever published it |
| StoreGuarantees.DeletionGuardIsExact | proof_agent/configuration/local_store.py:942-974 | a deletion goes ahead exactly when a reason is given, the connection exists and is archived, every draft and version can be read, and none declares it at any depth |
| StoreGuarantees.ActivationRecordsItsOrigin | proof_agent/contracts/persistence.py:104-114 | the rollback origin of an accepted activation is exactly the pointer it replaced; only the pointer changes |
| StoreGuarantees.ActivationTearsPointer | proof_agent/configuration/local_store.py:1713-1714 | an activation that passes its guards leaves an unreadable pointer exactly when its write is cut off half way |
| StorePointers.PublicationTearsPointer | proof_agent/configuration/local_store.py:432-440 | publish_version leaves an unreadable pointer exactly when its guards pass, all version files are written and the pointer is cut off half way |
| StorePointers.SeedTearsPointer | proof_agent/configuration/local_store.py:325-361 | the seed does so exactly when its reservation is written and then the same happens |
| StorePointers.StepKeepsPointersExactly | proof_agent/configuration/local_store.py:108-1321 | from readable pointers every locked body, under any outcomes, leads to readable pointers if and only if it is one of the three with that fault |
| StorePointers.StepKeepsNamesExactly | proof_agent/configuration/local_store.py:108-1321 | pointers that name complete versions go on doing so if and only if the step tears no pointer and activates no incomplete version |
| StorePointers.RunKeepsPointers | proof_agent/configuration/local_store.py:271-440 | in every state of a run every active pointer names an existing, complete version, if and only if no event of the run does either |
| StorePointers.RunWithoutTextsKeepsPointers | proof_agent/configuration/local_store.py:271-440 | where no text is exposed, torn pointers are the only danger |
| StoreGuarantees.PublishRecordNeverTearsPointer | proof_agent/configuration/local_store.py:313-322 | a prepared publication leaves every readable pointer readable |
| StoreGuarantees.DraftWriteRaisesByOne | proof_agent/configuration/local_store.py:1669-1698 | every accepted draft write raises the effective revision by exactly one, also from the fallback when there is no revision file |
| StoreGuarantees.SaveSucceedsOnce | proof_agent/configuration/local_store.py:157-177 | for each draft and each n at most one save that expects n ever succeeds, over all runs |
| StoreGuarantees.DraftWriteLeaves | proof_agent/configuration/local_store.py:1684-1698 | under any outcomes a draft write that passes its guards changes nothing, or puts the new draft in place under the next revision, the old one, or the count of its audit entries, as its two files say |
| StoreGuarantees.SplitKeepsRevisionExactly | proof_agent/configuration/local_store.py:1669-1698 | a draft write leaves a changed draft under the revision of the old one exactly when it is interrupted between its two files and the revision is in a file or counts the same audit entries |
| StoreGuarantees.SaveOverwritesWhatWasRead | proof_agent/configuration/local_store.py:157-177 | a save based on an atomic read overwrites exactly the draft that was read, if no write that would have changed the draft since was interrupted between its two files |
| StoreGuarantees.FiledUpdatesAreKeptExactly | proof_agent/configuration/local_store.py:157-177 | for a draft with a revision file this is exact: over a run, whatever is saved against the revision that was read overwrites what was read if and only if no such interruption happened |
| StoreGuarantees.UpdatesAreKeptExactly | proof_agent/configuration/local_store.py:157-177 | for every draft, with or without a revision file: if and only if no draft write of the run puts another draft under that revision, between its two files or from the revision before |
| StoreGuarantees.SplitWriteLosesUpdate | proof_agent/configuration/local_store.py:1684-1698 | why that provision is needed: an interrupted save lets an unread draft be overwritten |
| StoreGuarantees.UnlockedReadMayMix | proof_agent/configuration/local_store.py:146-155 | a read without the lock can pair an old draft with a new revision, and a save based on it succeeds |
| StoreGuarantees.UnlockedReadIsAtomic | proof_agent/configuration/local_store.py:146-155 | if no draft write lands between its two reads, the pair belongs to both states |
| StoreGuarantees.UnlockedReadIsAtomicExactly | proof_agent/configuration/local_store.py:146-155 | for a draft with a revision file the pair belongs to the state of the first read if and only if no draft write in between reached the revision |
| StoreReservation.StepKeepsReserves | proof_agent/configuration/local_store.py:325-388 | every locked body but a prepared publication keeps the active agents within the reserved one, even when a write raises |
| StoreReservation.NextKeepsReservesExactly | proof_agent/configuration/local_store.py:262-388 | an event keeps the active agents within the reserved one exactly when it is not a prepared publication of another agent that goes through |
| StoreReservation.RunKeepsReservationExactly | proof_agent/configuration/local_store.py:262-388 | and a run does in every state exactly when none of its events is one |
| StoreReservation.ReservationIsPermanent | proof_agent/configuration/local_store.py:663-685 | once reserved, in every later state of such a run the reservation names the same agent and no other agent is active |
| StoreReservation.FailedSeedStaysReserved | proof_agent/configuration/local_store.py:335-361 | a seeding that fails midway leaves the store as it was or reserved for its agent, and nobody else active |
| StoreReservation.PublishRecordKeepsReservesExactly | proof_agent/configuration/local_store.py:262-323 | a successful prepared publication keeps the reservation exactly when it publishes the reserved agent or there is none |
| StoreAcceptance.CreateDraftExactly | proof_agent/configuration/local_store.py:108-138 | a creation is accepted whenever its writes return; exactly the draft and its next revision are written |
| StoreAcceptance.SaveDraftExactly | proof_agent/configuration/local_store.py:157-177 | a save is accepted exactly at the expected revision: 0 without a draft, the revision file, or the number of audit entries but at least one |
| StoreAcceptance.UpdateDraftExactly | proof_agent/configuration/local_store.py:197-227 | an update is accepted exactly for a draft that exists, and writes it under the next revision |
| StoreAcceptance.ConnectionsUsableExactly | proof_agent/configuration/local_store.py:1608-1618 | the connection guard passes exactly when every connection the manifest declares exists and is active |
| StoreAcceptance.KnowledgeUsableExactly | proof_agent/configuration/local_store.py:454-475 | the knowledge guard passes exactly for a mapping that embeds none and whose bindings are, in order, the resolved ones |
| StoreAcceptance.ToolUsableExactly | proof_agent/configuration/local_store.py:1546-1606 | the tool guard passes exactly for governed tools bound to an active, allowed MCP source that imported the name and has a validation of its present revision with the tool's digest |
| StoreAcceptance.PublishVersionExactly | proof_agent/configuration/local_store.py:229-246 | publish_version is accepted exactly for a publishable draft in a store open to the agent |
| StoreAcceptance.SeedExactly | proof_agent/configuration/local_store.py:325-361 | the seed is accepted exactly in a store without pointers and reservation for a publishable draft; else it declines, or leaves just the reservation |
| StoreAcceptance.PublishRecordExactly | proof_agent/configuration/local_store.py:262-323 | a prepared publication is accepted exactly when the pointer is the expected one, the source draft is at the expected revision, which is the record's, the bundles are equal and nothing is stored under the version |
| StoreAcceptance.ActivateVersionExactly | proof_agent/configuration/local_store.py:687-714 | an activation is accepted exactly in a store open to the agent for a readable version on the pointer it names, and writes just the pointer |
| StoreAcceptance.EnsureAuthorityExactly | proof_agent/configuration/local_store.py:363-388 | the reservation is made exactly when this is the one active agent at the expected version and there is none; an existing one decides by its agent |
| StoreAcceptance.CreateConnectionExactly | proof_agent/configuration/local_store.py:716-769 | a creation is accepted exactly under a free plain name, and leaves the connection and its audit entry |
| StoreAcceptance.UpdateConnectionExactly | proof_agent/configuration/local_store.py:790-861 | an update is accepted exactly for a connection that exists, and changes just its file and the audit |
| StoreAcceptance.ArchiveConnectionExactly | proof_agent/configuration/local_store.py:863-894 | archiving is accepted exactly with a reason for an active connection, and leaves it archived |
| StoreAcceptance.RestoreConnectionExactly | proof_agent/configuration/local_store.py:896-927 | restoring is accepted exactly for an archived connection, and leaves it active |
| StoreAcceptance.NoConnectionNoChange | proof_agent/configuration/local_store.py:863-974 | archiving, restoring and deleting a connection that is not there are refused |
| StoreAcceptance.DeleteConnectionExactly | proof_agent/configuration/local_store.py:942-974 | a deletion that its guard lets through leaves the audit entry and no file below the connection directory, and nothing else changes |
| StoreAcceptance.DeletionIsAudited | proof_agent/configuration/local_store.py:942-974 | at no fault point has a file of the connection gone without the audit entry |
| StoreAcceptance.CreateToolSourceExactly | proof_agent/configuration/local_store.py:1020-1074 | a creation is accepted exactly with a valid configuration under a free plain name, and leaves the source active at revision one |
| StoreAcceptance.UpdateToolSourceExactly | proof_agent/configuration/local_store.py:1186-1253 | an update is accepted exactly for a source that exists and a valid configuration; it takes each field it is given, keeps the rest and takes the next revision |
| StoreAcceptance.ArchiveToolSourceExactly | proof_agent/configuration/local_store.py:1255-1286 | archiving is accepted exactly with a reason for an active source, and keeps its configuration and revision |
| StoreAcceptance.RestoreToolSourceExactly | proof_agent/configuration/local_store.py:1288-1317 | restoring is accepted exactly for an archived source, and keeps its configuration and revision |
| StoreAcceptance.NoSourceNoChange | proof_agent/configuration/local_store.py:1255-1317 | archiving and restoring a tool source that is not there are refused |
| StoreAcceptance.RecordAuditExactly | proof_agent/configuration/local_store.py:1319-1321 | an audit entry is written under its own id |
| StoreAcceptance.FinishValidationExactly | proof_agent/configuration/local_store.py:1151-1184 | a passed validation stores one record exactly when the source is there at the captured revision; the record names that source and revision and, in order, the names and stripped snapshot digests of exactly the contracts bound to the source |
| StoreAcceptance.ValidatedToolIsCovered | proof_agent/configuration/local_store.py:1546-1606 | a tool validated in this way is covered: for the unchanged source it can be published exactly when it is governed and the source is an active, allowed MCP source that imported its name |
| StoreDiscoveries.ValidationsComeFromEvents | proof_agent/configuration/local_store.py:1129-1184 | over whole runs every stored validation is the record of one passed validation and its contracts |
| StoreDiscoveries.AcceptedToolsWereValidated | proof_agent/configuration/local_store.py:1129-1606 | over whole runs: when publication accepts a draft, a contract of the same source with the digest of each MCP tool was passed by a discovery made against exactly the configuration the source has now |
| PercentEncoding.ValidatePercentEncoding | proof_agent/contracts/knowledge_index.py:56-71 | the scan accepts exactly the texts in which every percent sign starts an upper-case escape of neither a separator, a percent sign nor an unreserved character; each refusal names a fault that is there |
| PercentEncoding.DecodeTwiceIsDecodeOnce | proof_agent/contracts/knowledge_index.py:82-83 | a checked text decodes to bytes without percent signs, so decoding again changes nothing |
| PercentEncoding.DecodeThenSplit | proof_agent/contracts/knowledge_index.py:113-119 | the segments of a decoded path are the decoded segments of the path |
| PercentEncoding.CheckedIffNormal | proof_agent/contracts/knowledge_index.py:56-71 | the check is normality under RFC 3986 sections 6.2.2.1 and 6.2.2.2 without encoded separators, both directions |
| PercentEncoding.NormalizePreservesMeaning | proof_agent/contracts/knowledge_index.py:56-71 | that normalisation keeps the decoded bytes and is idempotent |
| PercentEncoding.DecodedDotsAreDots | proof_agent/contracts/knowledge_index.py:116-119 | a checked segment decodes to dots only if it is written as dots |
| PercentEncoding.CanonicalPathIsDotFree | proof_agent/contracts/knowledge_index.py:113-119 | an accepted path has no dot segment, encoded or not |
| PercentEncoding.CanonicalPathIsFixed | proof_agent/contracts/knowledge_index.py:113-119 | the accepted paths are exactly the absolute ones beyond the root that the removal algorithm of RFC 3986 section 5.2.4 leaves alone |
| ArtifactUri.Utf8Append | proof_agent/contracts/knowledge_index.py:82-87 | strict UTF-8 splits at ASCII boundaries |
| ArtifactUri.UriCharactersAppend | proof_agent/contracts/knowledge_index.py:74-92 | the character checks hold of a text exactly when they hold of its parts |
| ArtifactUri.CanonicalHostFits | proof_agent/contracts/knowledge_index.py:95-110 | a canonical host is its own canonical form and passes the character checks exactly when lower-casing has not spoilt a zone |
| ArtifactUri.CanonicalAuthorityIsStable | proof_agent/contracts/knowledge_index.py:146-179 | per scheme: an accepted authority reads back as itself with the same host and effective port |
| ArtifactUri.CanonicalizeTwice | proof_agent/contracts/knowledge_index.py:122-179 | canonicalising a canonical text returns it for all four schemes, and refuses it in exactly one case: a zone whose escape has a letter |
| ArtifactUri.CanonicalizeKeepsResource | proof_agent/contracts/knowledge_index.py:122-179 | scheme, host, effective port and path are kept |
| ArtifactUri.SameTextIffSameResource | proof_agent/contracts/knowledge_index.py:122-179 | two accepted URIs have one canonical text exactly when they name the same resource, with the hostname as urllib.parse reads it |
| UriEquivalence.CaseDoesNotMatter | proof_agent/contracts/knowledge_index.py:122-179 | for every scheme, two URIs that differ in the case of scheme and authority only have one result, accepted or refused, if their escapes and the leading v of a bracketed host are spelt alike; if not, and one is accepted, their results differ |
| UriEquivalence.DefaultPortDoesNotMatter | proof_agent/contracts/knowledge_index.py:146-157 | over https an explicit port 443, also with leading zeros, never changes the result |
| UriEquivalence.CaseAndDefaultPortDoNotMatter | proof_agent/contracts/knowledge_index.py:122-157 | both at once, with the same exact condition |
| UriEquivalence.MarkedFutureAccepted | proof_agent/contracts/knowledge_index.py:95-157 | every address of a future version that is a lower-case registered name is accepted and loses its brackets |
| UriEquivalence.FutureAddressNeedsLowerCase | proof_agent/contracts/knowledge_index.py:135-157 | the leading v decides: one spelling is accepted, the other refused |
| UriEquivalence.EscapesNeedUpperCase | proof_agent/contracts/knowledge_index.py:56-71 | the case of an escape decides: one spelling is accepted, the other refused |
| ArtifactUri.RegisteredNamesAreAccepted | proof_agent/contracts/knowledge_index.py:122-179 | every lower-case registered name with a canonical path is accepted and is its own canonical text |
| ArtifactUri.SpoiltZone | proof_agent/contracts/knowledge_index.py:95-110 | the exceptional case exists: an accepted URI whose canonical text is refused |
| UriAcceptance.AcceptedExactly | proof_agent/contracts/knowledge_index.py:122-179 | a text is accepted, with this result, exactly when it is spelled by a scheme in any case, an authority fit for the scheme and an absolute path without dot segments, in visible ASCII without backslash, question mark and number sign, with only needed escapes of Unicode text |
| UriAcceptance.UriTextExactly | proof_agent/contracts/knowledge_index.py:74-92 | the character checks together: which characters may be written, which bytes may be escaped, and what they decode to |
| UriAcceptance.EscapesExactly | proof_agent/contracts/knowledge_index.py:56-71 | the percent check passes exactly when every escape is upper-case and of a byte that is no letter, digit, unreserved mark, separator or percent sign |
| UriAcceptance.Utf8Exactly | proof_agent/contracts/knowledge_index.py:84-87 | the strict decoder accepts exactly the encodings of sequences of scalar values by section 3 of RFC 3629 |
| UriAcceptance.HostExactly | proof_agent/contracts/knowledge_index.py:95-110 | a host is accepted, with this result, exactly when it is four numbers below 256, a compressible address with or without a zone, or labels of letters, digits and inner hyphens that are not all digits |
| UriAcceptance.NetworkExactly | proof_agent/contracts/knowledge_index.py:146-176 | an https or proofagent authority: a host, alone or in brackets, and perhaps a port from 1 to 65535; over https 443 is dropped |
| UriAcceptance.BucketExactly | proof_agent/contracts/knowledge_index.py:158-163 | an s3 authority is a bare name or four numbers, lowered |
| UriAcceptance.FileExactly | proof_agent/contracts/knowledge_index.py:177-183 | a file authority is empty or localhost in any case |
| RuleLineage.MergeIntegerIntervals | proof_agent/contracts/insurance_rules.py:318-334 | the loop returns a sorted list with gaps between neighbours that covers exactly the input integers |
| RuleLineage.SortIntervalsSorts | proof_agent/contracts/insurance_rules.py:321-321 | sorting orders the intervals and keeps them all |
| RuleLineage.MergedMeaning | proof_agent/contracts/insurance_rules.py:318-334 | the same of the merged form of any list |
| RuleLineage.NormalFormIsUnique | proof_agent/contracts/insurance_rules.py:287-297 | a set of integers has one such form |
| RuleLineage.MergedDecidesSameCover | proof_agent/contracts/insurance_rules.py:287-297 | comparing merged forms decides whether two lists of non-empty intervals hold the same integers |
| RuleLineage.EmptyIntervalsDefeatComparison | proof_agent/contracts/insurance_rules.py:318-334 | an empty interval behind any others covers nothing and stays in the merged form, so there the comparison fails |
| RuleLineage.SortedSetFixpoint | proof_agent/contracts/insurance_rules.py:222-226 | the order test accepts exactly the strictly increasing lists |
| Text.UniqueMeansDistinct | proof_agent/contracts/insurance_rules.py:229-232 | comparing the length with the size of the set accepts exactly the lists without repetition |
| RuleLineage.CanonicalMeansWellPlaced | proof_agent/contracts/insurance_rules.py:220-246 | a lineage is accepted exactly when pages and rows are in order, each page has one box, and each cell lies in the box of its page under its own anchor |
| RuleLineage.ValidateCoherentLineage | proof_agent/contracts/insurance_rules.py:264-308 | a revision is accepted exactly when its cells span exactly the rows it lists and the other conditions of its kind hold |
| AgentPackage.NewlinesKeptIff | proof_agent/configuration/importer.py:117-128 | reading text keeps it exactly when it has no carriage return, and twice is once |
| AgentPackage.CollectExtraFiles | proof_agent/configuration/importer.py:117-128 | the loop collects what the specification does |
| AgentPackage.ExtraWritesAt | proof_agent/configuration/importer.py:117-128 | the extra files are exactly the text files no contract was read from, each written back where it was |
| AgentPackage.BuildAgentPackageContractBundle | proof_agent/configuration/importer.py:63-87 | the reader as a method, equal to its specification including every failure |
| AgentPackage.PackageDisk.CompileDraftAgent | proof_agent/configuration/compiler.py:8-21 | the writer: contracts, then extra files in order, stopping at the first write that cannot be made |
| AgentPackage.WrittenInFreeDirectory | proof_agent/configuration/compiler.py:8-21 | in a free directory it succeeds exactly when no target lies below another, and the directory then holds the last text written to each |
| AgentPackage.BundleOverlay | proof_agent/configuration/compiler.py:14-20 | an extra file wins over the contract of its name |
| AgentPackage.ImportThenCompile | proof_agent/configuration/importer.py:63-87 | importing a standard package and compiling the bundle reproduces every text file, line ends normalised, and adds only an empty tools.yaml when there was none; it fails exactly when text files lie below a directory called tools.yaml |
| AgentPackage.KeptExactlyIff | proof_agent/configuration/compiler.py:14-20 | a text file comes back unchanged exactly when it has no carriage return |
| AgentPackage.SecondRoundTrip | proof_agent/configuration/compiler.py:8-21 | a second round trip always works and changes nothing |
| PackageAcceptance.ImportExactly | proof_agent/configuration/importer.py:63-144 | an import yields this bundle exactly when the manifest is a mapping, the policy is the text of the file it names, the tools are that of the file it names if tools are enabled and no tool has a handler, and the extra files are the other text files in the order of the listing |
| PackageAcceptance.NewlineByNewline | proof_agent/configuration/importer.py:117-128 | each carriage return, with a line feed behind it or not, is read as one line feed |
| DocumentEdits.ApplyEdits | docker/production-local/disable_draft_memory.py:253-260 | the descending splice equals simultaneous substitution when the edits are separate |
| DocumentEdits.SpliceAllIsSubstitution | docker/production-local/disable_draft_memory.py:258-260 | splicing from the back is substituting everywhere at once, for any number of edits |
| DocumentEdits.SubstitutedKeeps | docker/production-local/disable_draft_memory.py:258-260 | every character outside the edited stretches is kept, moved only by the edits before it |
| DocumentEdits.DescendingIsBackwards | docker/production-local/disable_draft_memory.py:258-258 | sorting separate edits in reverse puts each before the one in front of it |
| DocumentEdits.SpanIsOneLine | docker/production-local/disable_draft_memory.py:338-355 | the span is exactly one whole line with the entry in it, blanks before it and blanks or a comment behind it |
| DocumentEdits.MemoryEditsAreSeparate | docker/production-local/disable_draft_memory.py:207-257 | once the guards pass, the enabled value and the provider line do not overlap if and only if a line feed lies between the two entries |
| DocumentEdits.LineFeedsKeepEditsSeparate | docker/production-local/disable_draft_memory.py:207-257 | they never overlap in a document whose lines end with line feeds, with or without carriage returns before them |
| DocumentEdits.CarriageReturnHidesEntry | docker/production-local/disable_draft_memory.py:207-257 | with a lone carriage return they can: there is a document that passes every guard and whose edits overlap |
| DocumentEdits.MappingValue | docker/production-local/disable_draft_memory.py:312-331 | the walk along a path of keys, refusing missing and repeated keys |
| DocumentEdits.NormalizeMemoryMapping | docker/production-local/disable_draft_memory.py:207-276 | a candidate is returned exactly if it parses to the old value with just the memory capability changed; it is the spliced text, and for separate edits the old text with just the two edits made |
| DocumentEdits.OnlyMemoryChanges | docker/production-local/disable_draft_memory.py:261-275 | that value has memory off, no provider, and every other path as before |
| DocumentEdits.AuditEditsAreSeparate | docker/production-local/normalize_draft_contract_paths.py:239-249 | the two audit path values never overlap, whatever ends the lines |
| DocumentEdits.NormalizeAuditPaths | docker/production-local/normalize_draft_contract_paths.py:210-266 | the same method for the two audit paths, with the exact text of the result |
| EditAcceptance.WalkExactly | docker/production-local/disable_draft_memory.py:298-331 | a path of keys is followed exactly through entries that are the only ones of their name |
| EditAcceptance.SpanExactly | docker/production-local/disable_draft_memory.py:338-355 | an entry has a span exactly when it lies on one line with only blanks before it and blanks or a comment behind it, and the span is that line |
| EditAcceptance.MemoryEditsExactly | docker/production-local/disable_draft_memory.py:207-257 | the memory edits are made exactly for a mapping with tools off, memory on without scopes and a provider on its own line; they write false over the enabled value and take that line out |
| EditAcceptance.MemoryRefusalsExactly | docker/production-local/disable_draft_memory.py:222-231 | the refusals for enabled tools and for disabled memory, each exactly when its flags say so |
| EditAcceptance.MemoryIsThere | docker/production-local/disable_draft_memory.py:261-266 | the expected value exists exactly when memory is a mapping with a provider |
| EditAcceptance.AuditEditsExactly | docker/production-local/normalize_draft_contract_paths.py:210-249 | the audit edits are made exactly when both paths are the legacy ones, each to its own new path; a document with the new ones is refused as done |
| EditAcceptance.OnlyAuditPathsChange | docker/production-local/normalize_draft_contract_paths.py:250-266 | the expected value has the two new paths and everything else as before |
| AuthorityChain.ChainCoversEarlier | proof_agent/contracts/knowledge_index.py:657-739 | along any chain the last attestation covers every earlier sequence and all earlier coverage; source, generation and mapping are constant |
| AuthorityChain.ChainCoverageCounts | proof_agent/contracts/knowledge_index.py:635-645 | as many sequences are covered as were published under different numbers |
| AuthorityChain.DigestLinksSuffice | proof_agent/contracts/knowledge_index.py:721-728 | links by digest are enough if digests identify attestations |
| AuthorityChain.DigestLinksAloneLoseCoverage | proof_agent/contracts/knowledge_index.py:721-738 | and not otherwise |
| AuthorityChain.RecordExactly | proof_agent/contracts/knowledge_index.py:657-739 | a record is valid exactly when all its parts speak of one published attempt: source, generation, mapping, manifest root, snapshot, covered sequence, draft version, validation, candidate and counts, and of a parent whose coverage is kept |
| CaptureSanitizer.SanitizePayload | proof_agent/configuration/local_store.py:1800-1815 | the recursive loops compute the specification |
| CaptureSanitizer.SanitizedAt | proof_agent/configuration/local_store.py:1800-1815 | path by path: excluded keys lead nowhere, redacted keys to the marker and no further, every other path to what it led to |
| CaptureSanitizer.CaptureIsSafeAndComplete | proof_agent/configuration/local_store.py:1800-1815 | nothing excluded is left at any depth, redacted keys hold only the marker, all the rest is there |
| CaptureSanitizer.KeyOrderKept | proof_agent/configuration/local_store.py:1800-1815 | the keys that stay keep their order |
| CaptureSanitizer.SanitizedTwice | proof_agent/configuration/local_store.py:1800-1815 | sanitising a capture again changes nothing |
| CaptureSanitizer.CaptureOfKeySets | proof_agent/configuration/local_store.py:1764-1815 | the same for the key sets of the module and any case folding: nothing under an excluded key, only the marker under a redacted one, everything else |
| SecretFields.SecretBearingFieldPaths | proof_agent/bootstrap/validation.py:981-992 | the recursive loops compute the specification |
| SecretFields.SecretPathsAreTheSecrets | proof_agent/bootstrap/validation.py:981-992 | the paths returned are exactly the rendered paths of the forbidden keys at any depth of mappings and lists |
| SecretFields.ValidateSecretSafeParams | proof_agent/bootstrap/validation.py:963-978 | parameters are accepted exactly when no key at any depth is forbidden |
| SecretFields.ForbiddenExactly | proof_agent/bootstrap/validation.py:995-999 | a key is forbidden exactly when, lowered, it has one of the listed words in it and does not end in _env |
| FormalPublication.QualificationGivesEvidence | proof_agent/contracts/agent_configuration.py:447-514 | a valid online smoke qualification always gives valid publication evidence |
| FormalPublication.QualificationGivesPublication | proof_agent/contracts/agent_configuration.py:668-701 | the version and the publication record built from it are valid exactly when the publisher prepared the Phase F record |
| FormalPublication.QualificationExactly | proof_agent/contracts/agent_configuration.py:236-481 | the stages of a valid qualification carry one agent, version, run, candidate, release and reference and the candidate's draft facts, with a passed smoke test, and nothing more is asked |
| FormalPublication.FormalRecordExactly | proof_agent/contracts/persistence.py:125-145 | a record with evidence is valid exactly when version, pointer and evidence agree on agent, version, run, reference, draft revision, publisher and time, the run passed and the pointer to replace is given |
| FormalPublication.PublicationKeepsQualifiedFacts | proof_agent/control/formal_production_agent_publication.py:211-257 | what is built has the identities of the smoke request, the facts of the candidate, its evidence and pointer, field by field |
| FormalPublication.ReceiptExactly | proof_agent/contracts/agent_configuration.py:573-602 | a receipt is valid exactly when its completion time, publication facts and failure code fit its state |
| FormalPublication.CompletedExactly | proof_agent/contracts/persistence.py:180-210 | completion is refused exactly without evidence, when not in progress, or for another agent, draft or revision; else the receipt names version, run, reference and time of the publication and keeps the rest |
| FormalPublication.CompletedIsValidIff | proof_agent/contracts/persistence.py:180-210 | the unvalidated copy of the receipt is valid exactly when publication time, version id and reference id are not empty |
| FormalPublication.QualificationGivesReceipt | proof_agent/contracts/agent_configuration.py:573-602 | from a valid qualification to the receipt: it names the identities the smoke test was asked for, and is valid exactly when the publication time is not empty |

## Left out

- JSON, YAML and model (de)serialisation: records are typed values, a JSON file cut off half way no longer parses (cut behind its last brace it counts as written), and parsers are parameters.
- The store lock, fsync and power loss: each locked body is one step, and a failure is an exception, not the death of the process.
- RemoveVersion: the removal of a rollback is assumed to succeed, where the code ignores its errors.
- Restore: likewise assumed to succeed, where the code raises.
- Generated version ids are assumed new in `publish_version` and in the seed; operation and validation ids need not be.
- Ids of agents, drafts and versions are single ordinary names, which the code does not check.
- DirExistsIsVersionDirExists: an empty version directory, which the code sees, does not exist in the model.
- RequirePublishable: the workflow stage rule of a manifest and the validation of one knowledge binding are parameters.
- BuildAgentPackageContractBundle: leaves out `advanced_fields`, which no operation here reads.
- FinishValidationExactly: a contract name that is not text is stored as the empty text, where the code stores its string form; the MCP tool names of a validation, which nothing here reads, are not stored.
- References to a connection are blocked by existence, not counted; validation and smoke records of connections are members of its directory.
- `record_knowledge_release`, `ensure_configuration_operation`, the storage of captures, and the listing functions.
- `update_draft` also drops the fields it does not pass on, which the draft record here does not have.
- AcceptedPublication: speaks of `publish_version`; a prepared publication does not check connections, and nothing is claimed about its references at birth.
- ArtifactUri.Canonicalize: one failure value for all ValueErrors; IPv6 compression is a parameter and internationalised names do not occur in ASCII text; splitting a URI follows urllib.parse of Python 3.12 before 3.12.9, which checks the host in brackets but not the text around them.
- `_validate_citation_uri`, which canonicalises the host in the same way.
- Anchors, aliases and non-string keys in YAML documents.
- ApplyEdits: edits that start and end at the same offsets are not ordered by their text.
- Package names: file names are ordinary and relative, and symbolic links do not occur; the manifest validation before the import is not part of this model.
- SHA-256 digests are opaque texts.
- Production composition, authentication, object storage, databases, the HTTP interfaces and the user interface.
- Field checks of the other contract files, which are single comparisons.
