# Verified models of the automata CI core

This project models, in Dafny, the parts of the automata CI system whose correctness spans several functions, loops
or interleavings, and proves properties of those models for every input, every run and every reachable state.

| file | what it models |
|---|---|
| `Text.dfy`, `TextLines.dfy`, `Utf8.dfy` | searching, splitting and joining text; lines; UTF-8 as sections 3 and 4 of RFC 3629 define it |
| `ActionReferences.dfy` | immutable action references, their stored documents and record keys, and the bounded evicting local index |
| `ReferenceProtocol.dfy`, `ReferenceProvenance.dfy` | any number of replicas resolving references through local indexes, one shared write-once store and a blob store, with failures, cancellations and restarts at every step; where resolved content comes from, and that undisturbed resolutions finish |
| `WindowsNamespace.dfy`, `WindowsListings.dfy` | the validator that accepts an archive listing only if it is one unambiguous case-insensitive tree, and the names and listings it accepts |
| `PaxRecords.dfy` | the global PAX header, whose records state their own length |
| `EnvFile.dfy`, `EnvFileGrammar.dfy`, `PathFile.dfy` | the command files a step writes: inline and heredoc pairs with their whole grammar, and PATH lines |
| `Escapes.dfy`, `WorkflowCommands.dfy`, `CommandLines.dfy` | workflow commands on standard output: escapes, parsing, printing, and what every line means |
| `AnnotationLocations.dfy`, `AnnotationTable.dfy` | the normalization of annotation locations, and the table of its cases |
| `WorkflowSession.dfy`, `SessionEvents.dfy` | the session with its budgets and its stop and resume state, and the event of each command |
| `NameValues.dfy`, `WriteHistory.dfy` | ordered name/value lists with replacement in place, and what they hold after any writes |
| `CompletedSteps.dfy`, `ArtifactSubjects.dfy`, `JobHistory.dfy` | committing a completed step to the job, and the job state as a function of the whole history |
| `YamlReceiver.dfy`, `YamlRefusals.dfy` | the stack machine that rebuilds a YAML tree from parser events under budgets, and why it refuses |
| `GitHttpServer.dfy`, `GitServerProgress.dfy` | which thread stops a Git backend: handlers, deadline workers, signals and shutdown; that requests and runs come to their end |
| `CratePublication.dfy` | the order in which crates are published, and the retryable upload loop |
| `ComponentProvenance.dfy`, `ComponentGrammar.dfy` | ULEB128, custom sections, and the digest stamp of a component |
| `SafeUrls.dfy` | one pass from UTF-16 code units to a percent-encoded path segment |

Objects that the source updates in place are classes whose methods are proved equal to a function of the old state;
loops are methods with invariants, proved equal to a recursive specification or to a declarative predicate. The
theorems are then about those specifications: each parser, classifier and transition is tied to a statement that does
not mention it, such as a grammar, a table of cases or a relation on the history of writes, steps or events.

Modelling decisions:

- SHA-256 is an ideal hash: a constructor over its preimage, so distinct preimages have distinct digests. What is
  proved about keys is that the framed preimage determines the reference.
- Shared records and blobs are write-once, as the contract at `crates/automata-ci-action/src/cache.rs:123-140`
  demands of every index.
- Text is one character for each byte in the archive, PAX and command-file models, and Unicode text with
  explicit UTF-8 lengths elsewhere.
- Clocks, the network, signals and failures are parameters, or choices made by the environment at each step.
- In ULEB128 and UTF-8 the bitwise operations of the source combine disjoint bits; they are written as sums.

Results that differ from what one might expect, each with its exact condition:

- One PAX keyword and value can have two accepted written forms (`PaxRecords.TwoWrittenForms`), exactly when one more
  byte needs one more digit (`PaxRecords.AtMostTwoWrittenForms`); a header still denotes one record list only.
- A printed workflow command is not always read back: trailing white space of the last property value is trimmed away,
  empty values are dropped. `WorkflowCommands.ParseOfPrintExact` gives the exact condition on the command's own data.
- Annotation normalization is not idempotent when a negative `endLine` has no numeric `line`
  (`AnnotationLocations.NotIdempotent`); `AnnotationLocations.IdempotentExactly` says exactly when it is.
- On Windows a value's final carriage return is lost to a bare line feed (`EnvFile.WindowsLosesCr`);
  `EnvFile.InlineExact` and `EnvFile.HeredocExact` say exactly which entries survive.
- The local reference index alone forgets a mapping and then accepts a contradicting one
  (`ReferenceProtocol.LocalIndexAloneForgets`). One put forgets exactly as `ActionReferences.LocalPutForgets` says, and
  through any number of puts nothing is forgotten exactly when the distinct references fit the bound
  (`ActionReferences.IndexRemembersExactly`). Agreement comes from the composition.
- A request's expiry flag can be set while it still holds a backend (`GitHttpServer.ExpiredMayStillHold`).
  `GitHttpServer.ExpiresHoldingExactly` and `GitHttpServer.ExpiredKeepsExactly` say exactly when that begins and ends;
  ownership of the cleanup is what the invariant is about.

## Model

| member | source | states |
|---|---|---|
| `ActionReferences.DocumentRoundTrip` | crates/automata-ci-action/src/shared_cache.rs:161-210 | A stored document decodes to a valid bundle exactly when it is the document of that bundle: both directions, no second document. |
| `ActionReferences.DocumentExactly` | crates/automata-ci-action/src/shared_cache.rs:161-210 | For every document and bundle: decoding gives the bundle exactly when the bundle is valid and the document is its own; everything else is corrupt. |
| `ActionReferences.FramesInjective` | crates/automata-ci-action/src/shared_cache.rs:212-230 | Length framing is injective: no two component lists feed the hasher the same bytes. |
| `ActionReferences.ComputeSharedReferenceKey` | crates/automata-ci-action/src/shared_cache.rs:212-230 | The hasher loop yields the key of the framed components. |
| `ActionReferences.SharedReferenceKeyInjective` | crates/automata-ci-action/src/shared_cache.rs:212-230 | Two valid references with one record key are the same reference. |
| `ActionReferences.PathsExactly` | crates/automata-ci-scm/src/model.rs:77-102 | Repositories and subpaths are exactly the slash-separated lists of safe components within their length; a subpath may be empty. |
| `ActionReferences.ReferencesExactly` | crates/automata-ci-action/src/cache.rs:14-44 | The references there are: every provider name, every safe repository path, every commit that is not all zeros, every safe subpath, within their lengths. |
| `ActionReferences.ReferenceOrderExactly` | crates/automata-ci-action/src/cache.rs:19-25 | The derived order is dictionary order field by field: provider, repository, hash algorithm, commit, subpath. |
| `ActionReferences.LeastIsUnique` | crates/automata-ci-action/src/cache.rs:248-253 | The first key of the ordered index, the one evicted, is unique. |
| `ActionReferences.FirstKey` | crates/automata-ci-action/src/cache.rs:248-253 | Searching a non-empty key set finds its least key in the derived field order. |
| `ActionReferences.MemoryActionReferenceIndex.constructor` | crates/automata-ci-action/src/cache.rs:207-217 | A new index is empty, with a positive bound. |
| `ActionReferences.MemoryActionReferenceIndex.New` | crates/automata-ci-action/src/cache.rs:207-217 | A zero bound is refused; any other gives an empty index with that bound. |
| `ActionReferences.MemoryActionReferenceIndex.Get` | crates/automata-ci-action/src/cache.rs:222-230 | A lookup answers exactly the present mappings, each under its own reference. |
| `ActionReferences.MemoryActionReferenceIndex.PutIfAbsent` | crates/automata-ci-action/src/cache.rs:232-257 | The new table and the outcome are those of `LocalPut`; the bound and key agreement are kept. |
| `ActionReferences.LocalPutForgets` | crates/automata-ci-action/src/cache.rs:248-253 | For every table and bound, a put forgets a mapping exactly when it brings a new reference to a full index whose least key is that one. |
| `ActionReferences.LocalPutProperties` | crates/automata-ci-action/src/cache.rs:232-257 | A put keeps the bound, changes nothing it keeps, conflicts exactly when a different bundle is present, and drops exactly the least key of a full index that receives a new reference. |
| `ActionReferences.ContradictionAcceptedExactly` | crates/automata-ci-action/src/cache.rs:232-257 | After a put, a bundle that contradicts an earlier mapping is accepted exactly when that put forgot the mapping, and is a conflict otherwise. |
| `ActionReferences.IndexRemembersExactly` | crates/automata-ci-action/src/cache.rs:232-257 | Through any puts at any bound the index remembers every reference it held or was given exactly when they number at most the bound. |
| `ActionReferences.OverfullIndexForgets` | crates/automata-ci-action/src/cache.rs:248-257 | Past that number some reference is forgotten, and every bundle for it is accepted as new. |
| `ReferenceProtocol.SharedPutPublishes` | crates/automata-ci-action/src/shared_cache.rs:44-97 | A shared put publishes its bundle, conflicts exactly when the lookup answers something else, and disturbs no other lookup. |
| `ReferenceProtocol.StepKeepsInv` | crates/automata-ci-action/src/resolver.rs:74-210 | Every atomic step of any client, with any failure, keeps the invariant, and the shared stores only grow. |
| `ReferenceProtocol.RunKeepsInv` | crates/automata-ci-action/src/resolver.rs:74-210 | The same over every interleaving of steps, cancellations and restarts. |
| `ReferenceProtocol.SafetyInEveryRun` | crates/automata-ci-action/src/shared_cache.rs:116-148 | In every run no local conflict occurs, every local index stays within its bound and agrees with the shared index where it answers, and no readable reference lacks its archive. |
| `ReferenceProtocol.ResolvedIsPublished` | crates/automata-ci-action/src/resolver.rs:74-210 | A finished public exact-commit resolution holds the verified archive of the published bundle. |
| `ReferenceProtocol.PublishedForever` | crates/automata-ci-action/src/cache.rs:123-140 | What was published early in a run is still published at every later point. |
| `ReferenceProtocol.ResolutionsAgreeForever` | crates/automata-ci-action/src/resolver.rs:74-210 | Any two successful resolutions of one reference, at any times and replicas, return one descriptor and one content, whatever the SCM answered each of them. |
| `ReferenceProtocol.ResolvedReferenceNeverFetchesAgain` | crates/automata-ci-action/src/resolver.rs:74-185 | After one success, no later shared lookup of the reference goes to the SCM. |
| `ReferenceProtocol.LookupsAgreeForever` | crates/automata-ci-action/src/shared_cache.rs:116-148 | In every run, whatever answers for one reference, a bundle in flight, a local mapping or a shared record, is one bundle at any two times. |
| `ReferenceProtocol.LocalIndexAloneForgets` | crates/automata-ci-action/src/cache.rs:232-257 | The smallest instance of forgetting: a contradiction refused before an eviction and accepted after it. |
| `ReferenceProvenance.EveryRunIsTraced` | crates/automata-ci-action/src/resolver.rs:74-185 | In every run, what a client is about to publish, or has resolved without an index, is what the SCM answered that client. |
| `ReferenceProvenance.PublishedWasAnswered` | crates/automata-ci-action/src/resolver.rs:129-170 | In every run, a readable record was readable at the start, or some client that was asking for exactly that reference was answered its revision and bytes with that digest and size. |
| `ReferenceProvenance.ResolvedWasAnswered` | crates/automata-ci-action/src/resolver.rs:74-210 | A finished public resolution returns content published at the start or supplied by such an answer. |
| `ReferenceProvenance.PrivateIsOwnAnswer` | crates/automata-ci-action/src/resolver.rs:129-184 | A finished resolution of anything else returns the bytes the SCM answered that very client, with their descriptor. |
| `ReferenceProvenance.StepFailsExactly` | crates/automata-ci-action/src/resolver.rs:74-210 | A step of a resolution fails exactly when a store or the SCM fails, a record cannot be read or says something else, or the answer is not an archive of the commit asked for; a failing local index is no reason. |
| `ReferenceProvenance.FailureExactly` | crates/automata-ci-action/src/resolver.rs:74-210 | What a failing step leaves and is reported as: the local index as it was, and the shared stores as they were or with the one write that took effect. |
| `ReferenceProvenance.MismatchesAreRefused` | crates/automata-ci-action/src/resolver.rs:102-106 | What the invariant rules out is refused too: a bundle for another reference, a contradicting local mapping; a failing local put goes on. |
| `ReferenceProvenance.CancelAndRestart` | crates/automata-ci-action/src/resolver.rs:74-210 | A cancellation ends one resolution and a restart empties one local index, and nothing else changes. |
| `ReferenceProvenance.EmptyStart` | crates/automata-ci-action/src/cache.rs:207-217 | Any replicas with positive bounds and any clients on them are a start, so the results over runs speak of something. |
| `ReferenceProvenance.AsksExactlyOnMiss` | crates/automata-ci-action/src/resolver.rs:95-133 | The SCM is asked for a public commit exactly when the shared index has no record for it. |
| `ReferenceProvenance.FreshResolution` | crates/automata-ci-action/src/resolver.rs:74-185 | From any state of the invariant, an undisturbed resolution of a reference without a record stores the answered bytes, publishes their bundle in both indexes and returns them, and touches no other client. |
| `ReferenceProvenance.SharedHit` | crates/automata-ci-action/src/shared_cache.rs:116-148 | An undisturbed resolution of a published reference returns the published archive, repairs the local index and changes nothing shared. |
| `ReferenceProvenance.LocalHit` | crates/automata-ci-action/src/resolver.rs:95-127 | One of a locally indexed reference returns its archive and changes nothing else. |
| `ReferenceProvenance.PrivateResolution` | crates/automata-ci-action/src/resolver.rs:129-184 | One of anything but a public exact commit stores and returns the answer and changes no index. |
| `WindowsNamespace.RecordPathExact` | crates/automata-ci-action/src/archive.rs:224-256 | Recording one prefix succeeds exactly when all recorded prefixes stay clash-free and within the byte bound. |
| `WindowsNamespace.RecordRelative` | crates/automata-ci-action/src/archive.rs:169-222 | Recording an entry with its ancestors succeeds exactly when the enlarged set is acceptable, and then the index represents it. |
| `WindowsNamespace.TreeIsClashFree` | crates/automata-ci-action/src/archive.rs:169-256 | A listing that is one tree, stated on multisets without order, records without clash. |
| `WindowsNamespace.ClashFreeIsTree` | crates/automata-ci-action/src/archive.rs:169-256 | Conversely, a listing that records without clash is one tree. |
| `WindowsNamespace.ArchiveComponentsExact` | crates/automata-ci-action/src/archive.rs:540-563 | A raw path parses to components exactly when it is their canonical join, with at most one trailing slash. |
| `WindowsNamespace.ValidateListing` | crates/automata-ci-action/src/archive.rs:64-150 | The entry loop accepts exactly the materializable listings, with the index of their folded prefixes; a refusal names the first member that cannot be taken and the reason: its name or root, a limit, or a clash with the members before it. |
| `WindowsNamespace.OrderIndependent` | crates/automata-ci-action/src/archive.rs:136-143 | Acceptance does not depend on the order of the members. |
| `WindowsListings.WindowsNameExactly` | crates/automata-ci-action/src/archive.rs:258-309 | A component is let through exactly when it is printable ASCII without the forbidden characters, does not end in a space or a dot, and starts with a dot or has a stem that is neither a device name in any case nor shaped like a short name. |
| `WindowsListings.MaterializableExactly` | crates/automata-ci-action/src/archive.rs:64-309 | A listing is taken exactly when it writes out, under one root and with such names, the entries of one unambiguous case-insensitive tree, within the limits. |
| `PaxRecords.ParseRecordSound` | crates/automata-ci-action/src/archive.rs:601-659 | An accepted head is a valid record and exactly the text it was read from. |
| `PaxRecords.ParseRecordComplete` | crates/automata-ci-action/src/archive.rs:601-659 | Any text that starts with a valid record parses to it. |
| `PaxRecords.AcceptsExactlyPrintedRecords` | crates/automata-ci-action/src/archive.rs:601-659 | A header is accepted as a record list exactly when it is the concatenation of those records: self-counting lengths, distinct known keywords, clean values. |
| `PaxRecords.AcceptsExactly` | crates/automata-ci-action/src/archive.rs:601-659 | The same with everything written out: stated lengths, distinct keywords of the eight, values without NUL, line feed and carriage return. |
| `PaxRecords.RefusesExactly` | crates/automata-ci-action/src/archive.rs:601-659 | A header is refused as malformed, or as unsafe, exactly when after some valid records the rest does not start with a record, or starts with an unknown, unclean or repeated one. |
| `PaxRecords.RecordsAreUnique` | crates/automata-ci-action/src/archive.rs:601-659 | A header denotes one record list only. |
| `PaxRecords.ValidateGlobalPax` | crates/automata-ci-action/src/archive.rs:601-659 | The scanning loop returns the records that print to the whole input, fails only if there are none, and with the error of the recursive parse. |
| `PaxRecords.StatedLengthIsConsistent` | crates/automata-ci-action/src/archive.rs:601-659 | For every keyword and value a length that counts its own digits exists. |
| `PaxRecords.RoundTrip` | crates/automata-ci-action/src/archive.rs:601-659 | Parsing undoes printing for every list of distinct known keywords with clean values. |
| `PaxRecords.AtMostTwoWrittenForms` | crates/automata-ci-action/src/archive.rs:601-659 | A second, longer form of a pair is accepted exactly when one more byte needs one more digit. |
| `PaxRecords.TwoWrittenForms` | crates/automata-ci-action/src/archive.rs:601-659 | A pair with two accepted forms. |
| `EnvFile.ReadLinePartitions` | crates/automata-ci-actions-runtime/src/file_command.rs:254-290 | A line, its terminator and the rest are the whole text; the reader always advances. |
| `EnvFile.ReadLineAt` | crates/automata-ci-actions-runtime/src/file_command.rs:254-290 | The indexed reader returns that line and the index of the rest. |
| `EnvFile.ReadBody` | crates/automata-ci-actions-runtime/src/file_command.rs:217-240 | The heredoc loop finds the body up to the first delimiter line, or the error the specification gives. |
| `EnvFile.ReadRecord` | crates/automata-ci-actions-runtime/src/file_command.rs:184-248 | One record, inline or heredoc, with the branch decided by which of `=` and `<<` comes first. |
| `EnvFile.ParseNameValues` | crates/automata-ci-actions-runtime/src/file_command.rs:165-252 | The whole loop computes the recursive parse, errors included. |
| `EnvFile.RoundTrip` | crates/automata-ci-actions-runtime/src/file_command.rs:165-290 | Parsing undoes printing for every in-limit list of writable entries, on both platforms and with either newline, whichever form each is written in. |
| `EnvFile.InlineExact` | crates/automata-ci-actions-runtime/src/file_command.rs:186-201 | An inline pair survives writing and reading exactly when it is writable. |
| `EnvFile.HeredocExact` | crates/automata-ci-actions-runtime/src/file_command.rs:203-246 | A heredoc survives exactly when it is writable: no value line is the delimiter as seen, the value keeps its last carriage return, limits hold. |
| `EnvFile.WindowsLosesCr` | crates/automata-ci-actions-runtime/src/file_command.rs:276-283 | A Windows reader drops a value's final carriage return before a bare line feed. |
| `EnvFile.ParsedNamesFit` | crates/automata-ci-actions-runtime/src/file_command.rs:363-378 | Every parsed name is non-empty and within its limit. |
| `EnvFileGrammar.LineExactly` | crates/automata-ci-actions-runtime/src/file_command.rs:254-290 | The reader finds exactly the line at the start of a text, ended as the platform ends lines, or unended at the end of the file. |
| `EnvFileGrammar.AcceptsExactly` | crates/automata-ci-actions-runtime/src/file_command.rs:165-290 | For every text: it is accepted with these pairs exactly when it is made of blank lines, assignments and heredocs that denote them, within the limits. |
| `EnvFileGrammar.MalformedExactly` | crates/automata-ci-actions-runtime/src/file_command.rs:184-250 | A record line is malformed exactly when it contains neither `=` nor `<<`. |
| `EnvFileGrammar.AssignmentOutcome` | crates/automata-ci-actions-runtime/src/file_command.rs:186-201 | An assignment line denotes its pair, or is refused for an empty or overlong name or an overlong value. |
| `EnvFileGrammar.HereOutcome` | crates/automata-ci-actions-runtime/src/file_command.rs:203-246 | A heredoc header is refused for its name and its delimiter first, and then only for what follows it. |
| `PathFile.ParsePaths` | crates/automata-ci-actions-runtime/src/file_command.rs:292-347 | The byte loop returns exactly the non-empty pieces between carriage returns and line feeds, or the refusal of the first that does not fit. |
| `PathFile.RefusesNothing` | crates/automata-ci-actions-runtime/src/file_command.rs:327-361 | Nothing is refused exactly when every piece fits and there are not too many. |
| `PathFile.FieldsOfPrint` | crates/automata-ci-actions-runtime/src/file_command.rs:292-325 | Paths written with any mixture of LF, CR and CRLF are read back as the same list. |
| `PathFile.PathsRoundTrip` | crates/automata-ci-actions-runtime/src/file_command.rs:292-347 | A written list is accepted unchanged exactly when the limits hold. |
| `PathFile.ReadPathsAreWritable` | crates/automata-ci-actions-runtime/src/file_command.rs:292-347 | Every accepted path is non-empty, unbroken and within the limits. |
| `PathFile.FieldsExactly` | crates/automata-ci-actions-runtime/src/file_command.rs:292-325 | The fields of a file are exactly its lines, between carriage returns and line feeds, that are not empty, in order. |
| `PathFile.FirstRefusalExactly` | crates/automata-ci-actions-runtime/src/file_command.rs:327-361 | The reported refusal is that of the first field that is too long or one too many. |
| `Escapes.UnescapeDataIsOnePass` | crates/automata-ci-actions-runtime/src/workflow_command.rs:416-421 | On every input the chain of `replace` calls for data equals one left-to-right decode. |
| `Escapes.UnescapePropertyIsOnePass` | crates/automata-ci-actions-runtime/src/workflow_command.rs:423-430 | The same for the five property rules. |
| `Escapes.ReplaceExtendsDecode` | crates/automata-ci-actions-runtime/src/workflow_command.rs:416-430 | One more `replace` of a decoded text is one more rule of the decoder, for any appendable rule. |
| `Escapes.UnescapeOfEscape` | crates/automata-ci-actions-runtime/src/workflow_command.rs:416-430 | Unescaping undoes escaping, for data and for property values. |
| `Escapes.EscapesExactly` | crates/automata-ci-actions-runtime/src/workflow_command.rs:416-430 | The escapes character by character: carriage return, line feed and percent sign, and for properties colon and comma. |
| `Escapes.PlainIsKept` | crates/automata-ci-actions-runtime/src/workflow_command.rs:416-430 | A text without percent signs stands for itself. |
| `WorkflowCommands.ReadProperties` | crates/automata-ci-actions-runtime/src/workflow_command.rs:345-386 | The property loop computes the recursive parse: skipped pieces, case-insensitive replacement, limits. |
| `WorkflowCommands.ParseOfPrint` | crates/automata-ci-actions-runtime/src/workflow_command.rs:310-386 | Every printable command is read back exactly. |
| `WorkflowCommands.ParseOfPrintExact` | crates/automata-ci-actions-runtime/src/workflow_command.rs:310-386 | A command is read back from its printed form exactly when it is printable, a condition on its name, data, properties and the two ends of its property list. |
| `WorkflowCommands.ParsedIsWellFormed` | crates/automata-ci-actions-runtime/src/workflow_command.rs:310-414 | Every command the parser returns is recognized, within limits, with case-insensitively distinct non-empty properties. |
| `WorkflowCommands.TrimMustBeIdle` | crates/automata-ci-actions-runtime/src/workflow_command.rs:326-343 | If trimmed property text still denotes all properties, trimming removed nothing. |
| `WorkflowCommands.TrimIsIdleExactly` | crates/automata-ci-actions-runtime/src/workflow_command.rs:330-332 | Trimming removes nothing exactly when the first name does not begin and the last value does not end with white space that no escape protects. |
| `WorkflowCommands.TrailingSpaceIsLost` | crates/automata-ci-actions-runtime/src/workflow_command.rs:326-343 | No command whose last property value ends in white space other than a carriage return or line feed survives. |
| `CommandLines.UnframedIsOrdinary` | crates/automata-ci-actions-runtime/src/workflow_command.rs:310-325 | A line that is not white space, two colons, an information part and two colons carries no command. |
| `CommandLines.CommandExactly` | crates/automata-ci-actions-runtime/src/workflow_command.rs:310-343 | What every framed line means: unknown names are ordinary text in any case, then the name, the properties and the data are checked in that order, and otherwise the line is that command. |
| `CommandLines.PropertiesExactly` | crates/automata-ci-actions-runtime/src/workflow_command.rs:345-386 | Every property list denotes, under each name up to ASCII case, its first spelling with its last value in order; it is refused exactly for too many pieces or an overlong assignment. |
| `AnnotationLocations.NormalizeLocations` | crates/automata-ci-actions-runtime/src/workflow_command.rs:468-516 | The in-place updates compute the normalized list, and its four values depend on the four values before only. |
| `AnnotationLocations.NormalizedLocations` | crates/automata-ci-actions-runtime/src/workflow_command.rs:468-516 | A numeric end has a numeric start no greater than it, for lines and for columns; numeric columns never survive beside a numeric end line whose text differs from the line's. |
| `AnnotationLocations.IdempotentExactly` | crates/automata-ci-actions-runtime/src/workflow_command.rs:468-516 | Normalizing twice equals normalizing once exactly outside the family that leaves columns behind. |
| `AnnotationLocations.IdempotentWithoutNegatives` | crates/automata-ci-actions-runtime/src/workflow_command.rs:468-516 | Without negative locations normalization is idempotent. |
| `AnnotationLocations.NotIdempotent` | crates/automata-ci-actions-runtime/src/workflow_command.rs:483-488 | An annotation that needs two passes. |
| `AnnotationTable.NumberExactly` | crates/automata-ci-actions-runtime/src/workflow_command.rs:518-520 | A location is a number exactly when it is an optionally signed decimal numeral of a 32-bit integer with white space around it. |
| `AnnotationTable.NormalizationTable` | crates/automata-ci-actions-runtime/src/workflow_command.rs:468-516 | Every case of normalization: what becomes of lines and of columns, by the numbers and texts before it. |
| `AnnotationTable.OthersAreKept` | crates/automata-ci-actions-runtime/src/workflow_command.rs:468-545 | Every property that is not a location keeps its spelling, its value and its place among the others. |
| `WorkflowSession.Session.constructor` | crates/automata-ci-actions-runtime/src/workflow_command.rs:57-72 | A session starts with zero counters, not stopped. |
| `WorkflowSession.Session.ObserveCommand` | crates/automata-ci-actions-runtime/src/workflow_command.rs:177-191 | Counts a command, or refuses and counts none. |
| `WorkflowSession.Session.RegisterMaskCount` | crates/automata-ci-actions-runtime/src/workflow_command.rs:193-207 | Registers masks, or refuses and registers none. |
| `WorkflowSession.Session.RunCommand` | crates/automata-ci-actions-runtime/src/workflow_command.rs:209-278 | The new state and event are those of the pure command step, whose answer to each command `SessionEvents.CommandAnswers` states; the stream counters do not move. |
| `WorkflowSession.Session.StopCommandsOn` | crates/automata-ci-actions-runtime/src/workflow_command.rs:280-295 | Stopping registers the token as a mask and stops, or changes nothing. |
| `WorkflowSession.Session.ProcessLine` | crates/automata-ci-actions-runtime/src/workflow_command.rs:111-175 | One line takes the session to the state and outcome of the pure step; a line over a budget is refused with that budget's error and counts for nothing, any other counts its bytes and itself. |
| `WorkflowSession.StartIsBounded` | crates/automata-ci-actions-runtime/src/workflow_command.rs:57-72 | A new session is within its budgets, so the results over streams hold from the start. |
| `WorkflowSession.ProcessKeeps` | crates/automata-ci-actions-runtime/src/workflow_command.rs:111-295 | Every line keeps the budgets, counts masks exactly, and moves the token only by a stop or a resume. |
| `WorkflowSession.StoppedLines` | crates/automata-ci-actions-runtime/src/workflow_command.rs:111-133 | While stopped, a successful line comes out unchanged or resumes on the token. |
| `WorkflowSession.RegisteredNeverResumes` | crates/automata-ci-actions-runtime/src/workflow_command.rs:547-557 | No line with a registered command resumes a session. |
| `WorkflowSession.TokenResumes` | crates/automata-ci-actions-runtime/src/workflow_command.rs:111-191 | The token's own command resumes the session exactly while the budgets allow the line and one more command. |
| `WorkflowSession.MasksAreEmitted` | crates/automata-ci-actions-runtime/src/workflow_command.rs:193-278 | Over every stream the registered masks are those emitted in events, within budget. |
| `WorkflowSession.StopsAlternate` | crates/automata-ci-actions-runtime/src/workflow_command.rs:111-295 | Over every stream stop and resume events alternate, and their parity gives the state. |
| `SessionEvents.MasksExactly` | crates/automata-ci-actions-runtime/src/workflow_command.rs:259-278 | The masks of a value are the value itself, then exactly its lines that are not blank, trimmed and in order. |
| `SessionEvents.CommandAnswers` | crates/automata-ci-actions-runtime/src/workflow_command.rs:209-295 | For every command a line carries, in any case of its name: the event with its level, message, normalized properties, title, matcher, echo setting, token or masks, and the whole state after it, limits included. |
| `SessionEvents.PrintedCommandAnswers` | crates/automata-ci-actions-runtime/src/workflow_command.rs:111-295 | The same on the printed line of every printable command. |
| `SessionEvents.OrdinaryLine` | crates/automata-ci-actions-runtime/src/workflow_command.rs:111-133 | A line without a command comes out as it is and only the line is counted. |
| `SessionEvents.StoppedCommand` | crates/automata-ci-actions-runtime/src/workflow_command.rs:111-133 | A stopped session counts every command line and heeds its token only, in any case. |
| `NameValues.WriteAllIsCanonical` | crates/automata-ci-actions-runtime/src/phase.rs:178-192 | After any writes the list is the canonical summary of them: one entry for each name in order and spelling of its first write, with the value of its last. |
| `NameValues.LookupAfterWrites` | crates/automata-ci-actions-runtime/src/phase.rs:178-192 | A lookup after any writes finds the first spelling with the last value, and nothing for a name never written. |
| `NameValues.WriteAllTwice` | crates/automata-ci-actions-runtime/src/phase.rs:178-192 | Replaying the same writes changes nothing, order included. |
| `NameValues.PrependAllIs` | crates/automata-ci-actions-runtime/src/phase.rs:85-89 | After any prepends the list is what was not repeated, then the last occurrences in order. |
| `NameValues.PrependAllTwice` | crates/automata-ci-actions-runtime/src/phase.rs:85-89 | Replaying the same prepends changes nothing. |
| `NameValues.KeepLastExactly` | crates/automata-ci-actions-runtime/src/phase.rs:85-89 | The last occurrences of a list: each text once, where it occurs last, in order. |
| `WriteHistory.WriteAllHoldsWrites` | crates/automata-ci-actions-runtime/src/phase.rs:178-192 | After any writes: one entry for each name, spelled as its first write, with the value of its last, in the order of the first writes; equal names are equal text, or equal letters up to ASCII case. |
| `WriteHistory.OneMoreWrite` | crates/automata-ci-actions-runtime/src/phase.rs:178-192 | One more write, allowed or refused by name, keeps exactly that. |
| `CompletedSteps.ApplyEnvironment` | crates/automata-ci-actions-runtime/src/phase.rs:65-83 | If the environment held exactly what earlier writes leave without the reserved names, it then holds what the earlier and the new ones leave; each reserved write leaves one notice, in order, with its own reason. |
| `CompletedSteps.ClassifyExactly` | crates/automata-ci-actions-runtime/src/environment.rs:77-117 | Exactly the reserved names are blocked, each with its reason: NODE_OPTIONS in any case, catalogue names as spelled on Unix and in any case on Windows. |
| `CompletedSteps.BlockNoticesExactly` | crates/automata-ci-actions-runtime/src/phase.rs:65-83 | The notices are those of the reserved writes, one each and in order. |
| `CompletedSteps.ApplyPaths` | crates/automata-ci-actions-runtime/src/phase.rs:85-89 | The PATH loop removes and appends each entry. |
| `CompletedSteps.ApplySubjects` | crates/automata-ci-actions-runtime/src/phase.rs:141-160 | The subject loop adds new subjects and stops at the first conflict or overflow. |
| `CompletedSteps.StateAggregateBytes` | crates/automata-ci-actions-runtime/src/phase.rs:240-275 | Checked addition finds the true byte total, the sum over the parts of the state, or that it exceeds a machine word. |
| `CompletedSteps.ValidateDerivedState` | crates/automata-ci-actions-runtime/src/phase.rs:194-238 | The limits are checked in order, with the saturated total. |
| `CompletedSteps.ValidateExactly` | crates/automata-ci-actions-runtime/src/phase.rs:194-238 | A state is refused exactly when it exceeds a count or the truly counted byte total, and the error names a limit it exceeds. |
| `CompletedSteps.ApplyCompletedStep` | crates/automata-ci-actions-runtime/src/phase.rs:56-169 | The whole step computes `Apply`, or the first error; its notices are those of the reserved writes and the one for ignored state. |
| `JobHistory.OutputsAfter` | crates/automata-ci-actions-runtime/src/phase.rs:91-111 | A step's phase rebuilds or extends its own outputs, touches no other step's, keeps one non-empty record each, and is fixed under replay. |
| `JobHistory.StatesAfter` | crates/automata-ci-actions-runtime/src/phase.rs:113-139 | The same for an invocation's action state across its phases. |
| `ArtifactSubjects.SubjectsAfter` | crates/automata-ci-actions-runtime/src/phase.rs:141-160 | Subjects after a step are strictly name-sorted, at most 500, none dropped, none invented, fixed under replay. |
| `ArtifactSubjects.StrictlySortedIsUnique` | crates/automata-ci-actions-runtime/src/phase.rs:159-160 | A strictly name-sorted list is determined by its members. |
| `ArtifactSubjects.FirstsExactly` | crates/automata-ci-actions-runtime/src/phase.rs:141-158 | The first declarations of a list are exactly those whose name no earlier one has. |
| `ArtifactSubjects.DeclareAllExactly` | crates/automata-ci-actions-runtime/src/phase.rs:141-158 | Declaring a list succeeds exactly when no name has two digests and at most 500 names occur, and leaves its first declarations. |
| `ArtifactSubjects.DeclareMore` | crates/automata-ci-actions-runtime/src/phase.rs:141-160 | One more step's declarations are accepted exactly when the whole history's would be, and the sorted list is that of the whole history. |
| `JobHistory.ApplyKeepsWellFormed` | crates/automata-ci-actions-runtime/src/phase.rs:56-169 | A successful step keeps the state well formed: distinct unreserved names, distinct paths, one non-empty record for each owner, strictly sorted subjects. |
| `JobHistory.ReplayIsIdempotent` | crates/automata-ci-actions-runtime/src/phase.rs:62-192 | Applying the same step again to its result succeeds with the same state and notices, entry order included, for every phase kind. |
| `JobHistory.ReachableIsWellFormed` | crates/automata-ci-actions-runtime/src/phase.rs:56-271 | Every state reachable from the empty job is well formed. |
| `JobHistory.ReservedNeverAppear` | crates/automata-ci-actions-runtime/src/environment.rs:77-117 | No reachable environment has a reserved name: never NODE_OPTIONS in any case, no catalogue name as spelled on Unix, none in any case on Windows. |
| `JobHistory.EnvironmentHoldsHistory` | crates/automata-ci-actions-runtime/src/phase.rs:62-83 | After any history the environment holds exactly what all its writes leave: each name that is not reserved once, first spelling, last value, in order. |
| `JobHistory.ReachableIsWithinLimits` | crates/automata-ci-actions-runtime/src/phase.rs:194-275 | Every reachable state holds no more entries and no more truly counted bytes than its limits allow, and after any step its serialized subject list is within its limit. |
| `JobHistory.RunIsHistory` | crates/automata-ci-actions-runtime/src/phase.rs:56-238 | A history succeeds exactly when no name is declared with two digests, at most 500 names are declared and the state of every prefix is within the limits; its state is then a closed expression of the history. |
| `JobHistory.RunSucceedsExactly` | crates/automata-ci-actions-runtime/src/phase.rs:56-275 | In counts and bytes: a history succeeds exactly when its declarations agree and the state of every prefix fits. |
| `JobHistory.StateReflectsHistory` | crates/automata-ci-actions-runtime/src/phase.rs:56-169 | The whole state after a successful history, record order and subjects included, is read off the history's writes and declarations. |
| `JobHistory.EnvironmentIsHistory` | crates/automata-ci-actions-runtime/src/phase.rs:62-89 | After any history, on Unix a name has a value exactly when it is not reserved and its last write, of exactly that text, wrote it; on Windows exactly when it is moreover the first spelling of its letters, compared up to ASCII case. PATH is the last occurrences of all prepends, in order. |
| `JobHistory.RecordsAreHistory` | crates/automata-ci-actions-runtime/src/phase.rs:91-139 | A step's outputs are the writes since its last run or main phase and of later post phases, an invocation's state all its writes; without writes there is no record. |
| `JobHistory.SubjectsAreKept` | crates/automata-ci-actions-runtime/src/phase.rs:141-160 | Whatever subject a state of a run holds, every later state holds. |
| `JobHistory.SubjectsWereDeclared` | crates/automata-ci-actions-runtime/src/phase.rs:141-160 | Every subject of a reachable state was declared by some step. |
| `JobHistory.DigestsNeverChange` | crates/automata-ci-actions-runtime/src/phase.rs:141-160 | Two states of one run never give one name two subjects. |
| `JobHistory.SubjectsAreFirstDeclarations` | crates/automata-ci-actions-runtime/src/phase.rs:141-160 | The subjects of a reachable state are exactly the first declarations of their names over the whole history. |
| `JobHistory.DeclarationsArePresent` | crates/automata-ci-actions-runtime/src/phase.rs:141-160 | Every name a successful history declares is present at its end with the declared digest. |
| `YamlReceiver.Receiver.constructor` | crates/automata-ci-action-actions/src/parser.rs:101-113 | A new receiver is empty. |
| `YamlReceiver.Receiver.RecordError` | crates/automata-ci-action-actions/src/parser.rs:115-124 | Only the first error is kept. |
| `YamlReceiver.Receiver.ObserveNode` | crates/automata-ci-action-actions/src/parser.rs:126-148 | Counts a node, or records the limit. |
| `YamlReceiver.Receiver.StartCollection` | crates/automata-ci-action-actions/src/parser.rs:150-188 | Pushes an empty frame unless a limit, anchor or tag forbids it. |
| `YamlReceiver.Receiver.EndCollection` | crates/automata-ci-action-actions/src/parser.rs:190-234 | Closes the matching frame and attaches its node, or records the mismatch. |
| `YamlReceiver.Receiver.ReceiveScalar` | crates/automata-ci-action-actions/src/parser.rs:236-289 | Counts and attaches a scalar, or records the first violation. |
| `YamlReceiver.Receiver.Attach` | crates/automata-ci-action-actions/src/parser.rs:291-345 | Attaches a node to the open sequence, as a key, as a value, or as the root. |
| `YamlReceiver.Receiver.OnEvent` | crates/automata-ci-action-actions/src/parser.rs:348-394 | One event takes the receiver to the state of the pure step. |
| `YamlReceiver.Build` | crates/automata-ci-action-actions/src/parser.rs:150-345 | From any error-free state with room, the events of a tree attach exactly that tree. |
| `YamlReceiver.MeasureFlatten` | crates/automata-ci-action-actions/src/parser.rs:126-289 | The node and text budgets counted over events are those of the tree. |
| `YamlReceiver.RunSound` | crates/automata-ci-action-actions/src/parser.rs:348-394 | Every error-free run holds exactly its node events as partial trees, within depth, node, text and key rules, with its document markers in agreement. |
| `YamlReceiver.Simulate` | crates/automata-ci-action-actions/src/parser.rs:348-394 | Document markers in their places do not disturb a run of node events that goes well. |
| `YamlReceiver.ParseSound` | crates/automata-ci-action-actions/src/parser.rs:396-423 | An accepted run has one document, its node events are those of the returned tree, and the tree fits every limit. |
| `YamlReceiver.ParseComplete` | crates/automata-ci-action-actions/src/parser.rs:396-423 | Every tree that fits is rebuilt from its events. |
| `YamlReceiver.ParseExact` | crates/automata-ci-action-actions/src/parser.rs:396-423 | A run is accepted as a tree exactly when the tokenizer succeeded, the node events are the tree's, they end inside the only document, and the tree fits. |
| `YamlReceiver.FlattenInjective` | crates/automata-ci-action-actions/src/parser.rs:101-346 | Fitting trees with equal events are equal. |
| `YamlReceiver.ParseYaml` | crates/automata-ci-action-actions/src/parser.rs:396-423 | Feeding the events one by one decides exactly that. |
| `YamlRefusals.RunCounts` | crates/automata-ci-action-actions/src/parser.rs:126-289 | Until something is refused, the counters are the numbers of nodes, bytes, open collections and documents of the events, within the limits. |
| `YamlRefusals.FailedStays` | crates/automata-ci-action-actions/src/parser.rs:115-394 | After an error nothing more is taken and the first error stays. |
| `YamlRefusals.RefusesExactly` | crates/automata-ci-action-actions/src/parser.rs:126-394 | After a stream without refusals the next event is refused with an error exactly for that error's reason, stated on the events before it. |
| `YamlRefusals.ParseFailsExactly` | crates/automata-ci-action-actions/src/parser.rs:396-423 | A stream fails with an error exactly for its first refusal, or because the tokenizer failed, or because the document is not closed or empty. |
| `GitHttpServer.BoundedGitHttpServer.constructor` | scripts/dev/git-http-server.py:114-122 | A new server accepts requests and has none. |
| `GitHttpServer.BoundedGitHttpServer.AddRequest` | scripts/dev/git-http-server.py:163-180 | Registers a request exactly when the server is open and no signal arrives; the flags and the table after it are stated on those before, and a refusal leaves the table as it was. |
| `GitHttpServer.BoundedGitHttpServer.AddBackend` | scripts/dev/git-http-server.py:216-238 | Registers a backend exactly when the open server awaits one for that unexpired request and neither signal nor deadline comes between; otherwise an awaited request is expired and a signal remembered, and nothing else changes. |
| `GitHttpServer.BoundedGitHttpServer.TakeBackend` | scripts/dev/git-http-server.py:240-253 | The handler owns the cleanup exactly when the table still holds its backend, which it then does not; nothing else changes. |
| `GitHttpServer.BoundedGitHttpServer.CheckExpired` | scripts/dev/git-http-server.py:207-214 | A request counts as expired exactly when it is gone, marked or overdue; looking sets the mark and takes nothing. |
| `GitHttpServer.BoundedGitHttpServer.Expire` | scripts/dev/git-http-server.py:258-269 | The deadline worker gets exactly the backend of an unexpired request, which is then expired and holds none, and nothing otherwise. |
| `GitHttpServer.BoundedGitHttpServer.Complete` | scripts/dev/git-http-server.py:189-198 | Completion removes the request and nothing else. |
| `GitHttpServer.BoundedGitHttpServer.Shutdown` | scripts/dev/git-http-server.py:271-276 | Shutdown stops acceptance and reports whether it is the first. |
| `GitHttpServer.BoundedGitHttpServer.Abort` | scripts/dev/git-http-server.py:285-300 | The locked loop expires every request and returns every held backend, each once when no two requests share one. |
| `GitHttpServer.TableHasOneHolder` | scripts/dev/git-http-server.py:216-238 | In every state of the invariant no two requests hold one backend, so an abort lists each once. |
| `GitHttpServer.StepKeepsInv` | scripts/dev/git-http-server.py:124-319 | Every atomic step of any thread keeps single ownership, slot accounting and the shutdown promise. |
| `GitHttpServer.RunKeepsInv` | scripts/dev/git-http-server.py:124-319 | The same over every interleaving. |
| `GitHttpServer.EveryBackendHasOneOwner` | scripts/dev/git-http-server.py:507-602 | In every interleaving each launched backend has exactly one owner of its cleanup. |
| `GitHttpServer.NeverStoppedTwice` | scripts/dev/git-http-server.py:302-319 | No backend is handed to cleanup twice. |
| `GitHttpServer.AllStoppedAtTheEnd` | scripts/dev/git-http-server.py:507-602 | Once no thread has anything left to do, every launched backend has been handed to cleanup exactly once. |
| `GitHttpServer.WaitingIsStoppedElsewhere` | scripts/dev/git-http-server.py:240-253 | A handler that finds its backend gone waits for a worker or the shutdown that has it, or has stopped it. |
| `GitHttpServer.AtMostEightActive` | scripts/dev/git-http-server.py:124-161 | At most eight requests are active, each holding a slot. |
| `GitHttpServer.NothingAfterAbort` | scripts/dev/git-http-server.py:285-300 | After the shutdown abort, then and forever, no request holds a backend and no request or backend can register. |
| `GitHttpServer.ExpiresHoldingExactly` | scripts/dev/git-http-server.py:207-300 | A request becomes expired with its backend still held exactly when its handler looks at the clock while one is held. |
| `GitHttpServer.ExpiredKeepsExactly` | scripts/dev/git-http-server.py:240-300 | An expired request keeps its backend through every step but its handler's release and the shutdown abort. |
| `GitHttpServer.HeldIsServed` | scripts/dev/git-http-server.py:507-602 | In every run what the table holds for a request, expired or not, is what its handler serves and has yet to release. |
| `GitHttpServer.ExpiredMayStillHold` | scripts/dev/git-http-server.py:207-214 | A run that ends with a request expired and holding its backend, which the deadline worker then leaves. |
| `GitServerProgress.UndisturbedRequest` | scripts/dev/git-http-server.py:124-253 | From any state of the invariant with room, an undisturbed request goes from admission to its end: its one backend is stopped by its handler, its slot is free and the table is as it was. |
| `GitServerProgress.DeadlineTakes` | scripts/dev/git-http-server.py:258-269 | A deadline that passes on an unexpired request expires it, takes its backend for the worker, and changes no other request. |
| `GitServerProgress.ExpiredRequestEnds` | scripts/dev/git-http-server.py:240-269 | The worker then stops the backend and the handler ends without stopping anything. |
| `GitServerProgress.LateBackendIsStopped` | scripts/dev/git-http-server.py:216-238 | A backend that is late to register is stopped by its handler at once. |
| `GitServerProgress.AbortStopsAll` | scripts/dev/git-http-server.py:285-319 | An abort takes exactly what the table held and stops it. |
| `GitServerProgress.ClosingActions` | scripts/dev/git-http-server.py:163-300 | A signal, the start of a shutdown and an abort each close the server; the first two touch no request. |
| `GitServerProgress.ClosedForGood` | scripts/dev/git-http-server.py:163-238 | After a signal, the start of a shutdown or an abort, whatever the threads do, no request becomes active and no backend is registered. |
| `GitServerProgress.EveryRunCanFinish` | scripts/dev/git-http-server.py:124-319 | From every state of every run some further actions, without a signal, an admission or a launch, end in an idle server in which every launched backend has been stopped exactly once. |
| `CratePublication.ResolveIsClosed` | scripts/ci/publish-crates.py:75-127 | Accepted metadata gives a graph in which publishable crates need publishable crates only. |
| `CratePublication.ResolveExactly` | scripts/ci/publish-crates.py:75-127 | Metadata is accepted exactly when every wanted crate and dependency is packaged, declared, resolved and public, and then the graph is the dependency relation of the metadata. |
| `CratePublication.StuckIsCyclic` | scripts/ci/publish-crates.py:138-140 | Crates that all wait for one another contain a cycle of needs. |
| `CratePublication.OrderedIsAcyclic` | scripts/ci/publish-crates.py:129-143 | A complete order with needs first leaves no cycle. |
| `CratePublication.SortByName` | scripts/ci/publish-crates.py:132-139 | Sorting lists the set once, in code-point order of names. |
| `CratePublication.OrderGraph` | scripts/ci/publish-crates.py:129-143 | The loop returns every crate once, after all it needs, sorted by the length of the longest chain of needs below it and then by name, or a cycle error; the error exactly when there is a cycle. |
| `CratePublication.PublicationOrder` | scripts/ci/publish-crates.py:75-143 | Stated on the metadata: each error exactly for its defect, a cycle exactly when publishable crates depend on one another in a ring; otherwise every wanted crate once, after all its live dependencies, ordered by the longest chain of dependencies below it and then by name. |
| `CratePublication.WaitUntilVisible` | scripts/ci/publish-crates.py:806-822 | Waiting succeeds exactly when some round, started before 180 seconds have passed, is the first to see the release and sees the expected checksum. |
| `CratePublication.Survey` | scripts/ci/publish-crates.py:848-863 | After the preflight every entry was seen published as planned or not published, with its owner and whether its name is new. |
| `CratePublication.Pace` | scripts/ci/publish-crates.py:895-915 | When it lets an upload start, the session has at least 90 seconds left, and a thirty-first upload to an existing name is at least 61 seconds after the one before. |
| `CratePublication.PacedSnoc` | scripts/ci/publish-crates.py:873-917 | The counter and time stamp of the loop are those of its upload history, and one more paced upload keeps the history paced. |
| `CratePublication.ExecutePlan` | scripts/ci/publish-crates.py:825-932 | From any registry: whenever an entry is uploaded every earlier entry is visible with its planned checksum, the entry was not published at the start, and the session window was open; uploads follow the plan, each entry at most once, paced after the burst, with every archive as planned; success means all are visible, and a favourable registry makes it succeed with every entry uploaded. |
| `CratePublication.PublishEntry` | scripts/ci/publish-crates.py:873-932 | One entry: it is left alone when visible as planned, and otherwise paced, uploaded once and waited for. |
| `CratePublication.FavourableExists` | scripts/ci/publish-crates.py:825-932 | There is a registry that favours every plan of at most thirty entries, so the success clause is not empty. |
| `CratePublication.UploadHasDependencies` | scripts/ci/publish-crates.py:102-143 | An upload of an execution finds every dependency of its crate, as the metadata names it, visible as planned. |
| `CratePublication.PublishWorkspace` | scripts/ci/publish-crates.py:529-536 | Ordering, planning and executing together: from any metadata and registry, whenever a crate is uploaded all its dependencies in the metadata are visible as planned, and success means every wanted crate is. |
| `CratePublication.RerunPlan` | scripts/ci/publish-crates.py:848-882 | A later run uploads nothing that was visible when the earlier one ended, however it ended, and nothing at all after a success. |
| `ComponentProvenance.EncodeUleb128` | scripts/ui/component-wit-provenance.py:17-28 | The loop computes the recursive encoding; negative values are refused. |
| `ComponentProvenance.DecodeUleb128` | scripts/ui/component-wit-provenance.py:31-42 | The loop computes the recursive decoding, with its value always below the next bit. |
| `ComponentProvenance.UlebRoundTrip` | scripts/ui/component-wit-provenance.py:17-42 | In any surroundings, reading inverts writing exactly for values below 2^70. |
| `ComponentProvenance.CustomSections` | scripts/ui/component-wit-provenance.py:45-69 | The loop lists the custom sections, or fails as the recursive reader does. |
| `ComponentProvenance.ReadSectionsExtends` | scripts/ui/component-wit-provenance.py:45-69 | Bytes appended to a component that parses do not change what was read before them. |
| `ComponentProvenance.AppendSection` | scripts/ui/component-wit-provenance.py:78-86 | Appending a written section to any component that parses appends exactly that section, exactly when its size fits. |
| `ComponentProvenance.SectionsRoundTrip` | scripts/ui/component-wit-provenance.py:45-69 | Any list of sections written after the header is read back. |
| `ComponentProvenance.StampIsUndoneByReading` | scripts/ui/component-wit-provenance.py:72-102 | A stamped component has the original sections and the digest section, verifies against that digest and no other, and cannot be stamped again. |
| `ComponentGrammar.UlebExactly` | scripts/ui/component-wit-provenance.py:31-42 | A value is read at a position exactly when one to ten bytes from there, all but the last at least 128, sum to it. |
| `ComponentGrammar.SectionsExactly` | scripts/ui/component-wit-provenance.py:45-69 | A byte string is read as these custom sections exactly when it is the header and well-sized sections with those custom ones among them, whatever the encodings of the sizes. |
| `ComponentGrammar.StampsExactly` | scripts/ui/component-wit-provenance.py:72-86 | Stamping succeeds exactly on a component without a stamp and a digest of 64 lower-case hexadecimal digits; otherwise the first thing wrong is reported. |
| `ComponentGrammar.VerifiesExactly` | scripts/ui/component-wit-provenance.py:89-102 | A component verifies against a digest exactly when it carries one stamp and that says the digest. |
| `SafeUrls.DecodesExactly` | ui/src/safeUrls.ts:173-188 | Decoding UTF-16 fails exactly on an unpaired surrogate. |
| `SafeUrls.Encode16OfDecode` | ui/src/safeUrls.ts:173-188 | What was decoded encodes back to the same code units. |
| `SafeUrls.EncodeCodePoint` | ui/src/safeUrls.ts:190-205 | The byte cases are the percent-encoded UTF-8 of the scalar value. |
| `SafeUrls.EncodeSpecialUrlPathSegment` | ui/src/safeUrls.ts:171-207 | The single pass equals decoding UTF-16, encoding UTF-8 and percent-encoding, and fails exactly on an unpaired surrogate. |
| `SafeUrls.HasCanonicalPercentEscapes` | ui/src/safeUrls.ts:69-76 | The skipping search accepts exactly the texts in which every percent sign starts a two-digit upper-case escape. |
| `SafeUrls.EncodeSegmentIsUtf8` | ui/src/safeUrls.ts:171-231 | Percent-decoding the output gives the UTF-8 of the text; the output is one segment without `/`, `?` or `#`, with canonical escapes. |
| `SafeUrls.EncodeSegmentInjective` | ui/src/safeUrls.ts:171-231 | Different texts have different encodings. |
| `SafeUrls.ByteExactly` | ui/src/safeUrls.ts:209-231 | A byte is written as itself exactly when it is printable ASCII outside the listed characters, and otherwise as its two upper-case hexadecimal digits. |
| `SafeUrls.PlainTextStays` | ui/src/safeUrls.ts:171-231 | A text of characters that may stand is its own encoding. |
| `SafeUrls.SegmentStaysWhole` | ui/src/safeUrls.ts:171-231 | No encoded segment contains a character that ends or splits it. |
| `Utf8.EncodeScalarExactly` | ui/src/safeUrls.ts:190-205 | The UTF-8 of a scalar value is the one well-formed sequence of section 4 of RFC 3629 that denotes it. |

## Left out

- WindowsNamespace.ValidateListing: models the names and kinds of repository members; entry types other than files and directories, the position of global PAX headers, declared sizes, the expanded-byte budget and the trailing zeros are not part of this model.
- YamlReceiver.ParseYaml: error locations are not modelled, and `fold_key` and `resolve_scalar` are parameters, because Unicode case tables and floating-point parsing are library behaviour.
- CratePublication.ExecutePlan: the token check and the HTTP exchange are not modelled, the clock counts whole seconds, and an upload's own outcome is not used, as in the source, which always waits for visibility.
- CratePublication.PublicationOrder: which of several metadata defects is reported first is not modelled.
- JobHistory.ReachableIsWithinLimits: the size of the serialized artifact list is a parameter, because JSON serialization is library behaviour.
- GitHttpServer.BoundedGitHttpServer.Complete: cancelling and joining the deadline worker is not modelled; a worker may act at any time, even after its request is gone, which allows more interleavings than the source.
- GitHttpServer: HTTP parsing, sockets, process signalling, `/proc` scanning and cleanup failures; a wait that times out and one that succeeds are the same step.
- gzip and tar decoding, YAML tokenizing, JSON, and the inside of SHA-256.
- Step summaries (`apply_completed_step` passes them through), summary files and artifact files among the command files, and the matcher commands' own payload rules: settled by one comparison each.
- The definition search of `inspect_archive`, symbolic-link checks and target paths.
- PostgreSQL adapters, release and image scripts, limit constructors and the permission catalogue: row shapes, flat validation and constant comparisons.
- The React interface; of `ui/src/safeUrls.ts` only the segment encoder and the escape check are modelled.
