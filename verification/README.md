# Verified models of the HRC runtime's release protocol, parity gate and source checks

This project models, in Dafny, the parts of the HRC runtime repository that hold real state or real
algorithms, and proves what they promise. One module per component; `Options`, `Sequences`, `Decimals`,
`Lines`, `JsonValues` and `Reachability` are shared.

**Atomic install, publication, daemons.** `InstallProtocol` is a transition system of any number of
installers, canonical publishers and daemons on one host: the lock directory and its owner file, the current
link, the release directories, the registry, and a program counter per process. Every event is one action, so
runs cover every interleaving, with a failure or a crash between any two actions. `InstallSafety`,
`LockSafety`, `ReleaseWindow` and `StaleRelease` prove what runs keep. `InstallRun` is the installer's control
flow in the source's own form (flags, early exits, `finally`) over mutable state, with every failure point a
branch; each path is shown to be a run of the protocol. `Publication`, `PublicationSafety` and `PublicationOutcomes`
are the canonical branch of the publisher against a registry whose reads may go unanswered; `PublisherRun` shows each
of its runs to be a run of the protocol's publisher.

**Parity gate.** `StableJson` (the printer used to compare provenance), `IdentityNorm`, `AlphaEquivalence`,
`ReadingOrder` and `LabelText` (first-appearance naming), `OrderedJson` (three comparisons that keep key order),
`TurnEvidence` (turns and effects derived from a ledger join).

**Graphs.** `ExportGraph`, `SearchRoutes`, `SurfaceCollection` and `SurfaceContents` (re-export graphs),
`MigrationGraph` (the migration sources read by the native store's build script).

**Scanners, analyses, edits.** `CommentScanner` and `CommentText`, `PlistEdit` and `PlistLines`, `StatusAliases` and
`StatusRecord`.

**Ratchets and gates.** `DoubleRatchet`, `SuppressionLedger`, `HookScope`.

## What was found

Where a promise does not hold on all inputs, the exact condition is proved.

- The daemon's startup prune takes no lock: it looks for the lock once and later deletes ids older than its own.
  An install whose release id sorts before the current one can therefore lose its tree after its cutover, and the
  link dangles. From any quiet host and for any set of installed ids this can happen exactly when one of them sorts
  before the current release, or when one is new to the host and there are two (`StaleRelease.BreaksExactly`). Along
  a given run it is enough that no directory is made that sorts before the release of a daemon then pruning
  (`LockSafety.ProtocolIsSafe`); without startup prunes any ids will do (`LockSafety.NoStartupPruneIsSafe`).
- An install can reject after a completed cutover, with the link changed: exactly when nothing else fails and giving
  the lock back does (`InstallRun.OutcomeExactly`). The lock stays behind after a failure to write the owner file, to
  clean up, or to release.
- The publisher reads an unanswered registry request as "missing". Never overwriting then rests on the registry's
  own refusal, exactly for registries that already hold a tuple entry with another build
  (`PublicationSafety.ReplacementNeedsTheRegistry`, `LockSafety.UnansweredReadReplaces`), and a started tuple can be
  written exactly when it is partial or holds another build (`PublicationSafety.StartedTupleIsWrittenExactly`).
- First-appearance naming sees the order of object keys even where the comparison does not
  (`AlphaEquivalence.DictOrderIsSeen`): outputs agree exactly when the renaming also keeps the order of first
  appearances (`AlphaEquivalence.UnorderedAgreesExactly`). A literal that looks like a label makes two different
  recordings print alike (`LabelText.LabelTextIsAmbiguous`): equal texts mislead exactly when the recordings' strings
  are not cut into characters and identities at the same places (`LabelText.TextsDecideExactly`).
- Effect keys joined with a colon collide, as do an absent identity and one called None, so evidence that is exactly
  once can be refused, never the other way round (`TurnEvidence.ColonsCollide`, `TurnEvidence.NamesCollide`,
  `TurnEvidence.AcceptedExactlyWhenKeysDiffer`).
- A symbol search that meets an unresolved star raises a diagnostic and goes on, so the check can fail although every
  symbol is found (`SurfaceCollection.FoundYetRaised`); `SurfaceCollection.SilentExactly` says when it does not.
- Plist edits undo each other exactly for sockets without a line end, and an array on one line is refused
  (`PlistEdit.RemoveUndoesAdd`, `PlistEdit.OneLineArrayIsRefused`).
- A name declared again in an inner scope keeps its outer alias in the status check, which then records a path under
  a line that shows something else (`StatusAliases.HidingShowsAnotherValue`). A declaration or loop is sure to keep
  aliases and values together exactly when its name is no alias yet or it resolves itself
  (`StatusAliases.DeclareExactly`, `StatusAliases.LoopExactly`).
- Difference paths shown as text read as longer paths exactly when a key holds a dot or ends in an index
  (`OrderedJson.ReadsLongerExactly`).

## Model

| member | source | states |
|---|---|---|
| `LockSafety.LockIsSafe` | scripts/lib/install-lock.ts:12-42 | Over every run from a quiet host, crashes and failures anywhere and any release ids: at most one live installer or publisher is inside the lock, an owner file names the lock holder, a link once present stays present, and, in runs whose registry reads are answered, no registry entry is replaced. |
| `LockSafety.UnansweredReadReplaces` | scripts/publish-local-verdaccio.ts:404-420 | Without the answer one publisher alone replaces an entry: from any quiet host whose selected release holds another build under a version already published. |
| `LockSafety.ProtocolIsSafe` | scripts/atomic-install.ts:334-421 | Over every interleaving in which no release directory is made that sorts before the release of a daemon then pruning: one process in the lock, the link always resolves and names a checkout or a release that passed validation under its own id, and no daemon of any runtime root loses the tree it runs from. |
| `LockSafety.NoStartupPruneIsSafe` | packages/hrc-server/src/release-provenance.ts:266-286 | Where no daemon prunes at startup the same holds for all release ids. |
| `InstallSafety.StepKeeps` | scripts/atomic-install.ts:334-421 | Each event of each process keeps the whole inductive invariant, pruning daemons included. |
| `InstallSafety.InstallKeeps` | scripts/atomic-install.ts:350-421 | Every installer action keeps it: what is doomed after the status answer runs nowhere and is not current. |
| `InstallSafety.DaemonRemovesNothingUsed` | packages/hrc-core/src/release-prune.ts:200-273 | The unlocked startup prune removes only releases that are not current, not run from and not being built. |
| `InstallSafety.SeeCurrentBounds` | packages/hrc-core/src/release-prune.ts:200-273 | When the prune, having seen the lock free, finds its own release still current, nothing selected or in the making is older than it. |
| `InstallSafety.InstallTouches` | scripts/atomic-install.ts:102-119 | Only the rename moves a present link, only the install's own directory is written, and what an install deletes is neither current nor run from. |
| `LockSafety.ProofNamesTheNamedRelease` | scripts/publish-local-verdaccio.ts:734-831 | From the selected-release read to the proof the link names the same release at every state and no cutover falls in between, for all release ids. |
| `ReleaseWindow.ProofNamesTheCurrentRelease` | scripts/publish-local-verdaccio.ts:328-375 | In that window also the release's directory and manifest stay as they were read, and at the proof every package holds the selected build. |
| `ReleaseWindow.UnchangedCheckPasses` | scripts/publish-local-verdaccio.ts:362-375 | Among cooperating processes the final unchanged check never fails: the proof is possible exactly when every package holds the selected build. |
| `StaleRelease.BreaksExactly` | packages/hrc-server/src/release-provenance.ts:266-286 | From any quiet host and for any set of ids to install: some interleaving leaves the link dangling or a daemon without its tree if and only if one of the ids sorts before the current release, or one is new to the host and there are two. |
| `StaleRelease.OlderIdDangles` | packages/hrc-server/src/release-provenance.ts:266-286 | The run that shows it: the daemon lists the new directory as older before the cutover and deletes it after. |
| `InstallRun.InstallHost.InstallAtomicRelease` | scripts/atomic-install.ts:334-381 | Over all failure points: the result is the outcome told from the id, the lock, the link, the directories and the failing actions; an invalid id or a held lock changes nothing; a failure before the cutover leaves a present link and every other directory as they were; success leaves the link at a directory whose manifest carries its own name and, of the old releases, exactly those that the status names, that are held or cannot be removed, or all of them without a status or evidence of holders; and the whole call is a run of the protocol. |
| `InstallRun.OutcomeExactly` | scripts/atomic-install.ts:334-381 | That outcome, read off the inputs: success if and only if the id is valid, the lock is free, no action breaks and the lock is given back; failure after the cutover if and only if only the last of these fails; and which point is reported, for each point. |
| `InstallRun.ValidIdIsAName` | scripts/atomic-install.ts:338-340 | The accepted ids are the prefix and one or more of the allowed characters, so each is one name inside the release root. |
| `InstallRun.InstallHost.TryInstall` | scripts/atomic-install.ts:351-375 | The try block fails at the first action that breaks, and its two flags say exactly what happened to the link and the directory. |
| `InstallRun.InstallHost.BuildRelease` | scripts/atomic-install.ts:351-371 | It fails at the first action up to validation that breaks, an id that is already there and a dangling link included; nothing but the own directory and an absent link changes; on success the directory is validated and carries its own id. |
| `InstallRun.InstallHost.ValidateReleaseShape` | scripts/atomic-install.ts:243-281 | Validation passes exactly a directory whose manifest is there and names it, and marks it; any other is rejected and left as it is. |
| `InstallRun.InstallHost.PruneAfterCutover` | scripts/atomic-install.ts:392-421 | An unanswered status or missing holder evidence prunes nothing; otherwise exactly the releases that are not new, not reported, not held and removable go. |
| `InstallRun.InstallHost.PruneReleaseDirs` | packages/hrc-core/src/release-prune.ts:200-273 | What the prune removes, as a set, from the directories, the kept ids, the holders and the failed removals. |
| `InstallRun.InstallHost.AcquireLock` | scripts/lib/install-lock.ts:16-31 | Entering leaves the lock directory even when the owner file cannot be written. |
| `InstallRun.InstallHost.ReleaseLock` | scripts/lib/install-lock.ts:33-41 | The lock is given back unless it now has a foreign owner or the removal fails; a missing owner file does not stop it. |
| `InstallRun.InstallHost.RemoveOwnRelease` | scripts/atomic-install.ts:376-381 | The clean-up removes the directory this install made and nothing else. |
| `Publication.Registry.CanonicalRun` | scripts/publish-local-verdaccio.ts:790-831 | The imperative canonical branch does to the registry, and reports, what the run function says; how that ends is told from the registry and the world in the rows of `PublicationOutcomes`. |
| `PublicationOutcomes.FineRunExactly` | scripts/publish-local-verdaccio.ts:790-831 | When nothing goes wrong the registry alone decides: proved if and only if the run is not dry and either no version is there or all hold the build; found different if and only if all are there and one holds another build; refused if and only if some but not all are there; a dry run is done if and only if none or all are there. Entries and tags change only when an absent tuple is published, and then become exactly the tuple's. |
| `PublicationOutcomes.StartedRunExactly` | scripts/publish-local-verdaccio.ts:795-809 | Over a tuple of which something is there, a run that lives and whose reads are answered changes nothing, whatever uploads would do: it refuses a partial tuple, and proves a complete one, finds it different, or in a dry run only names it. |
| `PublicationOutcomes.FreshRunExactly` | scripts/publish-local-verdaccio.ts:621-652 | Over an absent tuple, in every world, the run ends at the first action that ends it: stopped where the process dies, a failed upload where npm fails, a wrong tag where the tag is not read back, a wrong set where a verifying read gets no answer, and proved when there is none; stored are, in order, the packages uploaded by then, a lost upload included. |
| `PublicationSafety.UploadsAFirstPart` | scripts/publish-local-verdaccio.ts:608-652 | The uploads, wherever they stop, store a first part of the tuple with the selected build and its tags and nothing else: all of it on success, nothing in a dry run, and, when reads answer, only versions that were not there. |
| `Publication.Registry.VerifyPublishedSet` | scripts/publish-local-verdaccio.ts:663-725 | The verification reads every package and stops at the first that does not hold the selected build. |
| `PublisherRun.RunIsPublisher` | scripts/publish-local-verdaccio.ts:790-831 | Every canonical run, in any world and stopped anywhere, is a sequence of the protocol publisher's own events with the same effect on the registry and none on anything else, standing ready to prove exactly when the run proved the set; where the run's reads are answered, so are those of the events. |
| `PublicationSafety.RunsReplaceNothing` | scripts/publish-local-verdaccio.ts:608-652 | Over any sequence of runs, each stopped anywhere, an entry once in the registry keeps its build, when each run either gets its reads answered or publishes the build that every earlier version of its packages holds. |
| `PublicationSafety.StartedTupleIsNotTouched` | scripts/publish-local-verdaccio.ts:795-809 | A run whose reads are answered and that finds any tuple entry present writes nothing, and refuses or stops when the tuple is partial. |
| `PublicationSafety.WritesOnlyBlind` | scripts/publish-local-verdaccio.ts:795-809 | Whatever the reads do, a run writes only after a whole look at the tuple got no answer for any version that is there. |
| `PublicationSafety.StartedTupleIsWrittenExactly` | scripts/publish-local-verdaccio.ts:404-420 | With unanswered reads a started tuple can be written if and only if it is partial or holds another build. |
| `PublicationSafety.ProofMeansComplete` | scripts/publish-local-verdaccio.ts:663-725 | A proof is printed only over a registry in which every package holds the selected build, whatever the reads did before. |
| `PublicationSafety.FreshTupleIsPublished` | scripts/publish-local-verdaccio.ts:810-831 | When nothing fails, an absent tuple is published and proved. |
| `PublicationSafety.ProvedTupleStaysProved` | scripts/publish-local-verdaccio.ts:801-805 | After a proof the tuple stays, whatever runs follow that get their reads answered, publish the same build or publish other packages; a further run of it, answered or of the same build, writes nothing, and one of the same build in which nothing goes wrong proves it again. |
| `PublicationSafety.ReplacementNeedsTheRegistry` | scripts/publish-local-verdaccio.ts:404-420 | An unanswered read can lead to an overwrite exactly when the registry already holds a tuple entry with another build. |
| `StableJson.StableJsonDecidesSame` | scripts/publish-local-verdaccio.ts:654-661 | For all JSON values and any total order on keys: the printed texts are equal if and only if the values are equal up to key order. |
| `StableJson.StableJsonDecodes` | scripts/publish-local-verdaccio.ts:654-661 | The printed text reads back as the value with its keys sorted, so the text decodes uniquely; strings are quoted within section 7 of RFC 8259. |
| `StableJson.ReadPrint` | scripts/publish-local-verdaccio.ts:654-661 | The reader undoes the printer whatever text follows. |
| `IdentityNorm.Norm.Normalize` | conformance/hrc-parity/n2_turns.py:55-64 | The mutating walk names identities in the order of first appearance and renders the value with the final names. |
| `ReadingOrder.NumberedAsRead` | conformance/hrc-parity/n2_turns.py:50-64 | Told by places in the recording: an identity is named if and only if it stands somewhere, and its number is how many others stand somewhere before all its places, reading entries, items and characters from the start. |
| `AlphaEquivalence.NormDecidesAlphaEquivalence` | conformance/hrc-parity/n2_turns.py:50-64 | Two recordings normalised through one instance each print the same if and only if one prefix-preserving bijection of their identities maps one onto the other. |
| `AlphaEquivalence.UnorderedAgreesExactly` | conformance/hrc-parity/n2_turns.py:178-223 | When objects are compared without key order, outputs agree if and only if one prefix-preserving bijection relates the recordings without key order and keeps the order in which identities first appear. |
| `AlphaEquivalence.EqualOutputsAreRenamings` | conformance/hrc-parity/n2_turns.py:178-223 | Equal outputs give such a bijection even when objects are compared without key order. |
| `AlphaEquivalence.DictOrderIsSeen` | conformance/hrc-parity/n2_turns.py:55-59 | The order of appearance matters: two equal recordings listing their keys in different orders are named apart. |
| `AlphaEquivalence.PartsAgreeExactly` | conformance/hrc-parity/n2_turns.py:165-167 | Where only parts of what was normalised are compared, with or without key order, they agree if and only if one prefix-preserving bijection relates the parts and keeps, for each of their identities, how many others appeared before it in the whole recording. |
| `LabelText.TextsDecideExactly` | conformance/hrc-parity/n2_turns.py:50-64 | For all recordings whose identities have the prefixes of the pattern, whatever their literals hold: they are renamings of each other if and only if the compared texts are equal and their strings are cut into characters and identities at the same places. |
| `LabelText.TextsDecideAlphaEquivalence` | conformance/hrc-parity/n2_turns.py:60-64 | So the printed strings alone decide when no literal holds label text, because such texts show their cuts. |
| `LabelText.LabelTextIsAmbiguous` | conformance/hrc-parity/n2_turns.py:62 | Without the cuts they do not: a literal that looks like a label prints as an identity does. |
| `OrderedJson.CollectDifferences` | conformance/hrc-parity/key_order.py:31-49 | The recursive loops collect the list the comparison function describes. |
| `OrderedJson.ReportsExactly` | conformance/hrc-parity/key_order.py:31-49 | A path, taken as its steps, is reported once if it leads to values on both sides that disagree in kind, key list or length, and not at all otherwise. |
| `OrderedJson.TextsReportedOnce` | conformance/hrc-parity/key_order.py:31-49 | The same for the texts the report shows, on bodies no key of which holds a dot or ends in an index. |
| `OrderedJson.ShowsTheValues` | conformance/hrc-parity/key_order.py:31-49 | A reported difference shows the key lists or lengths of the two values at its path. |
| `OrderedJson.OrderChecksAgree` | conformance/hrc-parity/transcript_index.py:21-26 | Value equality with no difference, and value equality with equal key orders, are both ordered equality. |
| `OrderedJson.CanonicalDecidesSeen` | conformance/hrc-parity/n4_routes.py:11-17 | For any set of masked keys, canonical forms are equal exactly when the bodies are ordered-equal after masking, with an empty object counted as an empty array. |
| `OrderedJson.CanonicalDecidesOrdered` | conformance/hrc-parity/n4_routes.py:11-17 | Without masks and empty objects that is ordered equality. |
| `OrderedJson.EmptyContainersLookAlike` | conformance/hrc-parity/n4_routes.py:11-17 | The canonical form takes an empty object for an empty array, which value equality does not. |
| `OrderedJson.ReadsLongerExactly` | conformance/hrc-parity/key_order.py:41 | A path shown as text reads as that of a longer path if and only if one of its keys holds a dot or ends in an index in brackets. |
| `OrderedJson.PathTextInjective` | conformance/hrc-parity/key_order.py:41-47 | Paths of other keys have different texts. |
| `TurnEvidence.DeriveTurns` | conformance/hrc-parity/run.py:250-292 | The loop with its per-fence map computes the events of the turn function, which `TurnEvidence.TurnsExactly` tells from the rows. |
| `TurnEvidence.TurnsExactly` | conformance/hrc-parity/run.py:250-292 | The events are, in the order of their terminals and for rows in any order, exactly the proven pairs: a terminal that names its invocation and turn; the one final message of its fence that lies before it and after the end of the turn before; the one raw final message and the one raw completion of its runtime, invocation and turn; and equal texts. Each pair carries that text, identity, invocation and fence and the two sequence numbers. |
| `TurnEvidence.WindowExactly` | conformance/hrc-parity/run.py:267-271 | In sequence order the window of a terminal holds exactly the final messages of its fence before it and after every earlier terminal of that fence. |
| `TurnEvidence.WindowsAreDisjoint` | conformance/hrc-parity/run.py:267-271 | In sequence order, no final message lies in the windows of two terminals. |
| `TurnEvidence.UnorderedWindowsOverlap` | conformance/hrc-parity/run.py:1140 | Without that order it can. |
| `TurnEvidence.NoMessageTwice` | conformance/hrc-parity/run.py:286-292 | The derived messages are pairwise different rows: none is paired with two terminals. |
| `TurnEvidence.DeriveEffects` | conformance/hrc-parity/run.py:293-310 | Counter and merge loops compute the effect list. |
| `TurnEvidence.EffectsConserveRows` | conformance/hrc-parity/run.py:293-310 | Per key the counts add up to the completion rows of both sources. |
| `TurnEvidence.EffectsAreNamed` | conformance/hrc-parity/run.py:295-309 | Every effect carries the invocation and turn of a completion row of its source and the key made of them. |
| `TurnEvidence.AcceptedExactlyWhenKeysDiffer` | conformance/hrc-parity/run.py:213-219 | The effect checks pass exactly when some turn completed and no two completion rows share a key. |
| `TurnEvidence.AcceptedMeansExactlyOnce` | conformance/hrc-parity/run.py:213-219 | Accepted effects mean at most one lifecycle and one broker completion per invocation and turn, whatever the identities are. |
| `TurnEvidence.MessageHasOneTerminal` | conformance/hrc-parity/run.py:233-236 | Accepted effects imply the terminal check: a derived message correlates with the terminal derived with it and no other. |
| `TurnEvidence.ColonsCollide` | conformance/hrc-parity/run.py:298 | Two different turns can share a key. |
| `TurnEvidence.NamesCollide` | conformance/hrc-parity/run.py:298-304 | An absent identity has the key of one called None, and a raw completion that of a lifecycle one whose name starts with the raw mark. |
| `ExportGraph.Checker.ResolveSymbolOrigin` | scripts/check-public-surface.ts:134-194 | The search with its shared visited set returns what the search function returns, diagnostics included. |
| `ExportGraph.ResolveFindsExactly` | scripts/check-public-surface.ts:134-194 | On every graph, cycles included, an origin is found if and only if a declaring node is reachable, and it is the origin of one: the visited set hides nothing. |
| `ExportGraph.ResolveExplores` | scripts/check-public-surface.ts:142-190 | What a search without result leaves visited is exhausted: no declaration, and every successor visited. |
| `ExportGraph.NodesAreUniverse` | scripts/lib/import-graph.ts:184-268 | The searched nodes are closed under aliases and stars, which bounds the recursion. |
| `SurfaceContents.FirstDecides` | scripts/check-public-surface.ts:151-172 | What a file knows of a symbol is decided by its first reference that declares it or re-exports it under a local name, and is read off that reference: its place and whether it is a type, or where to go on. |
| `SurfaceContents.SearchRaises` | scripts/check-public-surface.ts:159-183 | Every diagnostic of a search names a reference of a node it reaches that leads nowhere, a star or an alias. |
| `SurfaceCollection.Collector.CollectModuleSurfaces` | scripts/check-public-surface.ts:223-314 | The mutating collection returns the surfaces of the collection function and raises exactly its diagnostics, in order. |
| `SurfaceCollection.CollectionIsExact` | scripts/check-public-surface.ts:223-314 | Surfaces and diagnostics are, as multisets, the own ones of exactly the files star-reachable from the index, each file once; those of the symbol searches are included. |
| `SurfaceContents.ContentsExactly` | scripts/check-public-surface.ts:245-311 | A surface is listed if and only if some reference of a star-reachable file shows it: under its symbol, as a namespace, at its own place, or at the place a search finds, and as a type if and only if the reference or the declaration found is one. A diagnostic is raised if and only if such a reference leads nowhere itself or its search raises it. |
| `SurfaceCollection.SilentExactly` | scripts/check-public-surface.ts:245-300 | No diagnostic is raised if and only if every reference of every star-reachable file resolves: a star to a file, and a re-export to a file from which the first route that ends anywhere ends in a declaration. |
| `SearchRoutes.CleanSearchExactly` | scripts/check-public-surface.ts:151-192 | A symbol search finds an origin without a diagnostic if and only if, among the routes that enter no node twice, in the order of their stars, the first that ends at a declaration or an unresolved reference ends at a declaration. |
| `SurfaceCollection.FoundYetRaised` | scripts/check-public-surface.ts:174-187 | An unresolved star met on the way is raised although a later star gives the origin and the surface is listed. |
| `MigrationGraph.WalkIsExact` | crates/hrc-store/build.rs:5-24 | The walk ends without abort if and only if every source below the root exists and no id is declared twice below it; then it visited exactly those sources and collected exactly their ids. |
| `MigrationGraph.Visitor.VisitSource` | crates/hrc-store/build.rs:5-24 | The recursion over the two mutable sets does what the walk function says. |
| `MigrationGraph.DeriveMigrations` | crates/hrc-store/build.rs:26-49 | The script passes exactly for a good graph with more than a hundred ids that are the ones declared in order. |
| `CommentScanner.CollectCommentLines` | scripts/check-suppressions.ts:234-303 | The line scanner with its jumps reports the comments, in order, of an automaton that reads the whole text one character at a time. |
| `CommentText.CommentsExactly` | scripts/check-suppressions.ts:234-303 | Every text is made of plain characters, string literals, line comments and block comments, the last piece perhaps cut off, and the reported comments are exactly its line comments and the lines of its block comments that are not empty, each with its line number; nothing inside a literal is one. |
| `CommentScanner.BlockJump` | scripts/check-suppressions.ts:246-257 | Jumping to the closing mark is what the automaton does character by character. |
| `CommentScanner.BlockRunsOn` | scripts/check-suppressions.ts:285-291 | A block comment that does not close runs to the line end and goes on in the next line. |
| `PlistEdit.RemoveListenArgs` | scripts/front-door.ts:54-61 | The search and splice compute the removal. |
| `PlistLines.RemovedExactly` | scripts/front-door.ts:54-61 | Without the array there is nothing to edit; without a line that holds the flag and nothing else but white space the text stays as it is; otherwise exactly the first such line and the one after it are gone. |
| `PlistLines.InsertedExactly` | scripts/front-door.ts:63-77 | Adding takes the pair out first, is refused if and only if then no line of the array starts with a string, and otherwise puts the pair before the closing line with the indent of the last such line. |
| `PlistEdit.RemoveUndoesAdd` | scripts/front-door.ts:54-77 | When no further flag is in the array, removing after adding gives the text without the pair if and only if the socket is on one line. |
| `PlistEdit.AddIsUndone` | scripts/front-door.ts:54-77 | A plist without a pair comes back unchanged. |
| `PlistEdit.LastAddWins` | scripts/front-door.ts:63-77 | Adding twice is adding the second value. |
| `PlistEdit.OutsideIsKept` | scripts/front-door.ts:41-77 | No character outside the array changes and the array is found again where it was, whatever the socket and however many flags. |
| `PlistEdit.InsertedAt` | scripts/front-door.ts:63-77 | Adding puts the flag line and the value lines before the line that closes the array, so that the removal finds the flag, and changes no other line. |
| `PlistEdit.EscapedValue` | scripts/front-door.ts:49-51 | An escaped value opens no tag, so it forms no delimiter, and keeps its line ends. |
| `PlistEdit.EscapedReadsBack` | scripts/front-door.ts:49-51 | The three replacements escape every character, and an XML reader gets the value back. |
| `PlistEdit.OneLineArrayIsRefused` | scripts/front-door.ts:67-71 | An array on one line is refused, so the insertion never falls outside the array. |
| `PlistEdit.PutIsFound` | scripts/front-door.ts:41-47 | The array of a text with another body is found at the same start and ends with the new body. |
| `StatusAliases.ExtractSourcePaths` | scripts/check-server-status-source-contract.ts:140-259 | The recursive extractor computes the record of the analysis functions, which `StatusRecord.RecordExactly` tells from the formatter's text. |
| `StatusRecord.RecordExactly` | scripts/check-server-status-source-contract.ts:140-259 | A path is in a label's record if and only if a line that stands under the label reads it, or reads nothing and stands in a branch whose condition reads it. A line stands under its own heading; a pushed line without one under the nearest heading before it, where blocks count and branches and loops that are left do not. Names stand for what their last declaration on the way to the line, or their loop, names of the document. |
| `StatusRecord.LabelsExactly` | scripts/check-server-status-source-contract.ts:168-250 | The labels of the record are those that some line stands under. |
| `StatusRecord.CollectExactly` | scripts/check-server-status-source-contract.ts:87-101 | What is collected from an expression is what its outermost parts that name a part of the document name, and nothing inside them. |
| `StatusAliases.Extractor.ProcessStatement` | scripts/check-server-status-source-contract.ts:163-242 | Each statement changes the aliases, the current label and the record as the analysis functions say. |
| `StatusAliases.RecordIsSound` | scripts/check-server-status-source-contract.ts:145-258 | For a formatter whose redeclarations resolve and whose fallbacks are empty: each path of a line that a run shows, conditions around it included, is in its label's record and is what a part of the line or of a condition resolves to; and every expression that resolves to it there has, when it has a value, the document's value at that place, loop variables standing for the element of their round. |
| `StatusAliases.RecordedExactly` | scripts/check-server-status-source-contract.ts:145-159 | A path is in a label's record exactly when some recorded line of that label reads it. |
| `StatusAliases.ExecIsSound` | scripts/check-server-status-source-contract.ts:163-242 | At every shown line each alias has the document's value at a concrete place with the alias's path as its text, and goes on having it through declarations, blocks, branches and loops. |
| `StatusAliases.ResolvedValue` | scripts/check-server-status-source-contract.ts:52-74 | An expression that resolves to a path evaluates to the document's value at the place it stands for, with the indices of the loops it is inside of, optional chains included. |
| `StatusAliases.ResolvedElements` | scripts/check-server-status-source-contract.ts:76-85 | Element i of a resolved iterable is the document's element i at the iterable's place. |
| `StatusAliases.CollectedPart` | scripts/check-server-status-source-contract.ts:87-101 | A collected path is that of some part of the expression. |
| `StatusAliases.PartIsCollected` | scripts/check-server-status-source-contract.ts:87-101 | Every part that resolves below the document lies in a part that was collected. |
| `StatusAliases.LoopAgreement` | scripts/check-server-status-source-contract.ts:230-238 | In round i the loop variable stands for element i of the iterable's place. |
| `StatusAliases.DeclareExactly` | scripts/check-server-status-source-contract.ts:187-190 | A declaration keeps aliases and values together over all documents, values and call results if and only if its name is no alias yet or its initializer resolves. |
| `StatusAliases.LoopExactly` | scripts/check-server-status-source-contract.ts:230-238 | Every round of a loop keeps them together if and only if its variable is no alias yet or its iterable resolves. |
| `StatusAliases.HidingShowsAnotherValue` | scripts/check-server-status-source-contract.ts:187-190 | The run that shows the failure: an inner declaration hides an alias, and the line is recorded with a path whose value it does not show. |
| `DoubleRatchet.FindDoubleViolations` | scripts/check-test-doubles.ts:358-445 | The check's loops, with the spliced list of each file, compute the report. |
| `DoubleRatchet.ReportsExactly` | scripts/check-test-doubles.ts:372-445 | Each violation is reported exactly as often as the files owe it: a number of doubles that are not typed or have a type error inside them above or below the entry, a fixture that does not validate, a double the list has no place for, an entry no double takes. The missing entries are those whose path no file has. |
| `DoubleRatchet.ObservedExactly` | scripts/check-test-doubles.ts:372-430 | What is observed of a file is the number of such doubles, when there are any, and what its list has of what its doubles need. |
| `DoubleRatchet.UsesUpExactly` | scripts/check-test-doubles.ts:400-430 | As multisets: the list covers what it can of the doubles that need a place, the rest of them is reported new, the rest of the list is stale, and every bad fixture is reported. |
| `DoubleRatchet.Lower` | scripts/check-test-doubles.ts:451-460 | The lowering loop refuses or returns the observed counts. |
| `DoubleRatchet.RecheckIsClean` | scripts/check-test-doubles.ts:372-460 | With the lowered baseline a check reports the capture violations it reported before, in the same order, and no count, stale entry or missing file. |
| `DoubleRatchet.LoweringIsAFixpoint` | scripts/check-test-doubles.ts:451-460 | Lowering again changes nothing. |
| `DoubleRatchet.LoweringOnlyLowers` | scripts/check-test-doubles.ts:447-460 | An accepted baseline has no new entry, no higher count and, as multisets, no larger list. |
| `DoubleRatchet.RefusedExactlyWhenAbove` | scripts/check-test-doubles.ts:453-456 | Lowering is refused exactly when some file is above its count. |
| `SuppressionLedger.CheckSuppressions` | scripts/check-suppressions.ts:491-506 | The loop that counts the baseline down computes the failures of the failure function, which `SuppressionLedger.FailuresExactly` tells from the positions. |
| `SuppressionLedger.FailuresExactly` | scripts/check-suppressions.ts:491-506 | Against the values of the baseline file the failures are, in order, exactly the suppressions that are not excepted and have at least as many earlier ones of their file, rule and hash as the file has slots for them. |
| `SuppressionLedger.PassesExactly` | scripts/check-suppressions.ts:491-506 | The check passes if and only if every suppression without an exception comes before its slots are used up. |
| `SuppressionLedger.FailuresOfKey` | scripts/check-suppressions.ts:491-506 | Of `n` suppressions of a key without exceptions and `b` slots exactly `n - min(n, b)` fail. |
| `SuppressionLedger.AbsorbsTheFirst` | scripts/check-suppressions.ts:493-498 | Of `n` occurrences and `b` slots, `min(n, b)` are let through. |
| `SuppressionLedger.ReadBaseline` | scripts/check-suppressions.ts:434-448 | Entries that parse add up per key, the others count nothing. |
| `SuppressionLedger.EntriesForSuppressions` | scripts/check-suppressions.ts:366-382 | The loop over the suppressions builds the entries, one per key in the order of first appearance, that the conservation is about. |
| `SuppressionLedger.EntriesExactly` | scripts/check-suppressions.ts:366-382 | There is one entry for each key, in the order in which the keys first appear, with the file, rule and hash of the first suppression and the number of suppressions of the key. |
| `SuppressionLedger.EntriesConserve` | scripts/check-suppressions.ts:366-382 | The written entries add up to the suppressions, key by key. |
| `SuppressionLedger.WrittenBaselinePasses` | scripts/check-suppressions.ts:384-404 | A baseline written from a tree, in whatever order it is sorted, makes that tree pass. |
| `SuppressionLedger.DeletingFailsNothingNew` | scripts/check-suppressions.ts:491-506 | After deleting any suppressions, the lines of the others moving as they may, what fails is of a kind that failed before, and no more of each kind. |
| `SuppressionLedger.KeyIsUnique` | scripts/check-suppressions.ts:362-364 | Joined with NUL, a key determines its file, rule and hash. |
| `HookScope.PrePushScope` | scripts/lib/hook-change-scope.ts:89-123 | The loop with its early exits computes the scope. |
| `HookScope.ScopeFromMeans` | scripts/lib/hook-change-scope.ts:89-123 | Said without the order of the updates: when it gives up, when it is deletion only, and which paths it collects. |
| `HookScope.Ignores` | scripts/lib/hook-scope-ignore.ts:98-108 | A path is ignored exactly when the last rule that matches covers it. |
| `HookScope.LastRuleDecides` | scripts/lib/hook-scope-ignore.ts:100-106 | A rule added at the end decides the paths it matches and no other. |
| `HookScope.LastHitDecides` | scripts/lib/hook-scope-ignore.ts:98-108 | The same said by patterns: the last rule one of whose patterns matches decides. |
| `HookScope.RunIfCodeChanged` | scripts/run-if-code-changed.ts:18-30 | The run classifies the change as the classification function does and skips deletions and ignored paths; each kind is told from the staged paths or the updates in the rows below. |
| `HookScope.PushKinds` | scripts/lib/hook-change-scope.ts:89-153 | All five kinds of a push, if and only if: ambiguous when it is empty or an update is malformed or unanswered, deletion only when all updates delete, no change when they touch nothing, ignored when they touch only ignored paths, code when they touch another. |
| `HookScope.PreCommitKinds` | scripts/lib/hook-change-scope.ts:71-79 | All kinds of a pre-commit: ambiguous if and only if git did not answer, no change if and only if nothing is staged, never a deletion, ignored or code by the staged paths. |
| `HookScope.PreCommitSkipsExactly` | scripts/run-if-code-changed.ts:18-30 | A pre-commit skips if and only if git answered, some path is staged and every staged path is ignored. |
| `HookScope.NoRulesSkipDeletionsOnly` | scripts/lib/hook-scope-ignore.ts:112-122 | With an unreadable list only pushes that delete and nothing else skip. |
| `HookScope.UpdateForms` | scripts/lib/hook-change-scope.ts:81-112 | The two well-formed updates, from their raw fields: a deletion and a push. |
| `HookScope.PushSkipsExactly` | scripts/run-if-code-changed.ts:18-30 | A push skips if and only if every update is well formed and answered, and either all delete or they touch something and only ignored paths. |
| `HookScope.MalformedNeverSkips` | scripts/lib/hook-change-scope.ts:100-112 | A malformed update forces validation wherever it stands. |
| `HookScope.CodePathNeverSkips` | scripts/lib/hook-change-scope.ts:140-153 | So does one touched path that is not ignored. |
| `HookScope.OrderDoesNotMatter` | scripts/lib/hook-change-scope.ts:100-116 | The order of the updates does not change the decision. |

## Left out

- `LockSafety.ProtocolIsSafe`: asks that no directory is made that sorts before the release of a daemon then pruning; `StaleRelease.BreaksExactly` says exactly which ids can break a host without it.
- `LockSafety.LockIsSafe`: that no registry entry is replaced is promised for answered reads; `LockSafety.UnansweredReadReplaces` shows what an unanswered one can do.
- `ReleaseWindow.ProofNamesTheCurrentRelease`: the same condition on ids for the directory and manifest; that the link names the release needs none (`LockSafety.ProofNamesTheNamedRelease`).
- `PublicationSafety.RunsReplaceNothing`: runs that publish another build over unanswered reads are not covered; `PublicationSafety.ReplacementNeedsTheRegistry` says exactly what the registry then has to refuse.
- `PublicationSafety.StartedTupleIsNotTouched`: asks that reads answer; `PublicationSafety.StartedTupleIsWrittenExactly` says what can happen when they do not.
- `PublicationSafety.ProvedTupleStaysProved`: runs that publish another build of the same packages over unanswered reads are not covered, for the same reason.
- `InstallRun.InstallHost.InstallAtomicRelease`: the removal of the temporary link after a successful rename (scripts/atomic-install.ts:116-118) does not fail; a failure there would clean up the selected release.
- `DoubleRatchet.RecheckIsClean`: file paths are distinct, as the listing of tracked files gives them.
- `PublicationOutcomes.FineRunExactly`: the packages of a tuple have different names, as the publisher's list has; a repeated one would be refused by its own first upload.
- `PublicationOutcomes.FreshRunExactly`: likewise; a dry run is spoken of by `PublicationOutcomes.FineRunExactly` only.
- `PublicationOutcomes.StartedRunExactly`: asks that reads answer and the process lives; what unanswered reads can do is said by `PublicationSafety.WritesOnlyBlind` and `PublicationSafety.StartedTupleIsWrittenExactly`.
- `SuppressionLedger.FailuresExactly`: paths and hashes hold no NUL, as paths and hexadecimal digests do not, so that keys name them; `SuppressionLedger.PassesExactly` likewise.
- `TurnEvidence.WindowsAreDisjoint`: rows come in sequence order, as the query gives them.
- `LabelText.TextsDecideExactly`: identity prefixes are those of the pattern, as it finds no others; timestamps, leases and the scratch root are already erased.
- `LabelText.TextsDecideAlphaEquivalence`: asks that literals hold no label text; `LabelText.TextsDecideExactly` says what else is needed where they do.
- `StatusAliases.DeclareExactly`: does not speak of initializers that read the declared name itself, for which the equivalence fails (`StatusAliases.SelfReadKeeps`), nor of fields of a list literal.
- `StatusAliases.LoopExactly`: likewise, and iterables have empty fallbacks, as in the source's formatters.
- `OrderedJson.TextsReportedOnce`: asks for keys without a dot and without an index at the end; `OrderedJson.ReadsLongerExactly` says that exactly the other keys make a text ambiguous.
- `StatusAliases.RecordIsSound`: programs have no assignment to a declared name and no nested function; a value that passed through a call is not traced.
- Operators who delete a stale lock by hand, and writers outside the lock: the claims are for cooperating processes.
- Daemon start is one step that resolves the link; the holder probe of the prune is taken to see every process.
- Removing a release directory is one step; a removal that stops half-way is a removal that failed.
- Worktree (non-canonical) publication, which takes no lock, and packing, pinning and file checks of packages.
- Legacy links, the bin surface and the launch of commands around an install: they do not touch the modelled state.
- Subprocesses, HTTP, SQLite, git and file contents are parameters or choices of the environment.
- Parsing of TypeScript, exports, imports, suppressions and rules by regular expressions: the models start from the parsed form. `localeCompare` is any total order; a glob is any match predicate; the fixture check of a captured double is a given answer.
- Lone surrogates, NaN and repeated keys in JSON; identities that are neither absent nor strings.
- The comparison of the status record with the declared contract, the baseline of public surfaces, and the fixed check lists of the parity suites: set comparisons that would only add easy members.
- Install options, policies, language scope, timing reports, figures, help and diagnostic texts.
