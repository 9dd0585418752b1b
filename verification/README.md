# Verification of NormGate's policy runtime

A Dafny model of the parts of NormGate on which its promises rest, with proofs that the
promises hold for every input and every run.

* `Lifecycle`, `LifecycleInvariant`, `LifecycleSafety`: the policy lifecycle as a state
  machine of micro-steps over a durable directory, an atomically switched status, the
  engine's cache, readers without locks and concurrent compilations. A crash may fall between
  any two steps, any step may fail, and the directory sync of an atomic write may fail after
  its rename took effect. `EngineCache` is the cache with its two compile phases.
* `PolicyManager`: the manager as a class whose methods change its fields and its directory.
  Its contracts state the whole new state, and a ghost run shows that each method takes steps
  of the state machine, so everything proved about runs holds of it. `StateFile` is the text
  of `state.json`: how json.Marshal writes a status and what the strict decoder makes of it.
  `Freshness`: where the time of a status comes from and how old a served one can be.
* `Utf8`, `Surrogates`, `JsonText`, `JsonGrammar`, `Pointer`, `Calendar`, `Timestamps` and
  `CanonicalProfile`: canonical JSON profile v1 as a declarative reader, a normaliser (calendar
  included) and a printer. `Normalization` (Go: token loops, a buffer) and `TypeScriptSdk` (a
  cursor parser) are both proved to compute it; `CrossLanguage` runs the two on one text.
* `JsonLiterals`, `JsonSpelling`, `JsonPrinting`, `NormalForm`, `Instants`: what that reader,
  printer, normaliser and calendar mean, without naming them: every way to spell a value, the
  tightest one, which values a profile does not tell apart, and closed formulas for instants.
* `Obligations`, `Composition`, `CompositionLaws`: merging of layer contributions, and
  `CompositionMeaning` what is decided on them as they are given. `Explain`: the event's two
  validations, facts, layer queries, explanation and provenance around it; `ExplainMeaning`
  states the same on the raw event and replies. `Interference`: which events are refused and
  what undeclared facts can change.
* `Dependencies`, `RuleGraph`: the graph checks. `Bundle`, `Sealing`: file checks, two-stage
  digests, archives.
* `Ordering`, `ByteOrder`, `Wrappers`: the declared order and what sorted means; Go's sorts,
  which compare bytes; result types.

`dafny verify dfyconfig.toml` checks the project.

## What is assumed

* Strings are sequences of Unicode scalar values, except the sources and entity tags of the
  lifecycle, which are Go strings of any bytes. NFC and the bound on mark runs are one
  parameter (`JsonText.Unicode`) shared by both languages; its laws are that NFC is idempotent
  and keeps the bound on strings that meet it, that ASCII text meets it and is its own NFC, that
  31 times U+0301 does not meet it, and that NFC makes 400 characters of 200 times U+0958.
* Times are nanoseconds from the zero time to the end of the year 9999. Their text in
  `state.json` is a parameter (`StateFile.TimeText`): at most 35 plain characters that read back.
* SHA-256 is any function to well-formed text digests. It is not assumed injective, which no
  function to 71 characters can be: theorems that need it name the finite set of byte strings
  actually hashed and assume no collision among those.
* The manifest codec writes a parsed manifest with any digests in the same length, and reads
  it back unchanged unless it is too long to be read. That different manifests have different
  texts follows for those; for longer ones it is a premise of the one theorem that needs it. The checks of layers, reasons and data,
  which read no digest, are one arbitrary predicate.
* The compiler and the bundled tests give a fixed verdict per revision; timeouts, cancellation
  and input/output errors are faults that may strike at any step. Renames take effect at once
  and in order. The clock never reads the zero time.
* JSON texts of contributions tell contributions apart, and each layer's query is any function
  of the event it is shown. Of the event schema, the time and the texts of facts are spelled
  out; the other clauses and the size limit are one arbitrary predicate on the event.
* An engine holds compiled revisions only, each under the revision its bundle seals to.

## Where the code differs from what is said of it

* A failed activation does not always retain the active revision: if the last directory sync
  fails, the candidate is durable although the operation reports an error, and a restart makes
  it active (`LifecycleSafety.DurableMayRunAhead`, `LifecycleSafety.FailedCandidateReturns`).
  Exactly when it does retain it: `LifecycleSafety.FailureAgrees` and
  `LifecycleSafety.FailureRestarts` over runs, and the contracts of the manager's operations.
* A directory that the program wrote need not start again. `persist` writes any source and
  tag, but the next start refuses `state.json` if one of them has more than 30 marks in a row
  or the text exceeds 1 MiB, and tries no fallback: `StateFile.AccentedTagStrands` is a run,
  `StateFile.RestartsExactly` the exact condition. Texts that are not UTF-8 come back changed.
* An archive need not hold the sealed bytes of the manifest: any spelling that parses alike is
  accepted under the same revision. `Sealing.VerifiedExactly` is the exact condition.
* Sealing is a fixed point only while the rewritten manifest stays within the file limits, and
  canonical text is a fixed point only while it stays within the size limit; both theorems
  say exactly when.
* Facts from undeclared sources can influence an answer in two ways. A repeated fact id denies
  wherever it occurs. And a decision validates the canonical event once more, so a text that is
  within the limit of the schema but not in NFC makes the event invalid
  (`Interference.LetterQaRefused`). `Interference.InterferenceExactly` says when either changes
  the answer.
* "Compose is commutative" holds of its contributions; the order of the paths within one can
  still change the code of a denial, as parts are taken in the order of their JSON texts and an
  unusable one may come before or after a clash (`CompositionMeaning.ReorderingChangesReason`).
  `CompositionMeaning.ReorderingKeeps` and `CompositionMeaning.ReorderingExactly` say when.
* A bundle can pass every check and not be built: USTAR headers hold neither names that are not
  ASCII nor names that are too long to be cut (`Sealing.AccentedNameUnwritten`).

## Model

| member | source | states |
|---|---|---|
| `LifecycleInvariant.StepKeeps` | internal/policy/manager.go:37-273 | every micro-step of every actor (writer, readers, other compilations, crash, restart) keeps the lifecycle invariant |
| `LifecycleInvariant.RunKeeps` | internal/policy/manager.go:37-273 | hence every world any run reaches satisfies it, in whatever order the actors move and wherever the process crashes |
| `LifecycleSafety.DurableIsRecoverable` | internal/policy/manager.go:147-223 | in every reachable world `state.json` names a revision that compiled and passed its tests and whose artifact seals to exactly that revision; the same for a non-empty previous revision |
| `LifecycleSafety.RestartRecovers` | internal/policy/manager.go:50-78 | crash anywhere, start again without faults: if `state.json` is accepted, the durable status comes back with revision, previous revision and refresh time as they were and what is not UTF-8 in its texts replaced; otherwise no process starts and the disk is as it was |
| `LifecycleSafety.RestartFallsBack` | internal/policy/manager.go:53-68 | if `state.json` is accepted, one failed recovery restores exactly the saved previous revision, without its previous revision and entity tag, and makes that durable in a form that will be accepted again |
| `LifecycleSafety.RestartRefusedExactly` | internal/policy/manager.go:50-56 | a start is refused as invalid state iff the decoder does not accept `state.json`: its patterns and times never are the reason |
| `LifecycleSafety.DurableTexts` | internal/policy/manager.go:161-186 | the source and tag in `state.json` are those of one activation call or one reply of the asked source, whose bytes seal to the durable revision, as given or as a restart has cleaned them; after a rollback or fallback the file is always accepted |
| `StateFile.RestoredExactly` | internal/policy/bundle.go:142-152 | a written status comes back, with what is not UTF-8 replaced, iff its text is within the size limit and none of its texts has too many marks in a row; otherwise the whole file is refused |
| `StateFile.RestartsExactly` | internal/policy/manager.go:50-56 | over every run: a start after a crash is accepted iff there is no `state.json`, or it stems from a rollback or fallback, or it is short enough and the source and tag given to the activation call or reply it stems from have no mark run that the decoder refuses |
| `StateFile.WrittenReloads` | internal/policy/manager.go:188-194 | the same for one status as an operation writes it, on the source and tag it was given |
| `StateFile.AccentedTagStrands` | internal/policy/manager.go:142-187 | for every acceptable bundle there is a run: a first activation with a tag of 31 combining accents (62 bytes) succeeds and reports no error, and no later process starts over that directory |
| `StateFile.RefusedForGood` | internal/policy/manager.go:50-56 | once refused, whatever is tried afterwards: no process starts and the directory stays as it is |
| `StateFile.MarshalText` | internal/policy/manager.go:19-27 | the text of `state.json`, member by member under its names, with an empty previous revision, tag and error left out |
| `Utf8.CleanExactly` | internal/policy/manager.go:188-194 | a Go string comes back from its JSON text unchanged iff it is UTF-8 |
| `LifecycleSafety.DurableCoversActive` | internal/policy/manager.go:156-186 | the true relation of disk and memory: the durable status names the active revision as its own or its previous one, and equals the active status up to the recorded error unless a rename is unpublished |
| `LifecycleSafety.PartAndMeet` | internal/policy/manager.go:182-185 | disk and memory before and after every action: a rename of `state.json` makes them agree iff it writes the active status again, a publication makes them agree, and no other action changes whether they do |
| `LifecycleSafety.FailureAgrees` | internal/policy/manager.go:133-141 | after a failed operation disk and memory agree, up to the recorded error, iff they agreed before, or, past the rename, iff the candidate was the active status itself |
| `LifecycleSafety.FailureRestarts` | internal/policy/manager.go:133-141 | and a restart after the failure makes a given revision active iff that revision is the durable one (past the rename, the candidate's) and the file is accepted |
| `LifecycleSafety.FailureAfterRename` | internal/policy/manager.go:211-221 | a failure of the directory sync leaves the new status durable, the old one active but for the error, and nothing published |
| `LifecycleSafety.DurableMayRunAhead` | internal/policy/manager.go:182-184 | "durable equals active" is false: for any two acceptable bundles a run leaves one active and the other durable |
| `LifecycleSafety.FailedCandidateReturns` | docs/policy.md:157-161 | against the documented "failed candidates retain the active revision": a restart can make the revision active whose activation was reported as failed |
| `LifecycleSafety.ArtifactsNeverChange` | internal/policy/manager.go:162-178 | an artifact, once in place, is never replaced or removed in any later world |
| `LifecycleSafety.ChangesOnlyByPublishing` | internal/policy/manager.go:133-186 | in memory everything but the recorded error changes only at the publishing step of an operation that then returns success, to a status already durable |
| `LifecycleSafety.PreviousWasActive` | internal/policy/manager.go:156-161 | the previous revision is empty, or differs from the active one and was the one published immediately before it |
| `LifecycleSafety.SuppliedMeans` | internal/policy/manager.go:142-147 | the record of supplied bytes is truthful: each entry comes from an activation call or from the reply of the source that was asked |
| `LifecycleSafety.EtagTraced` | internal/policy/manager.go:248-272 | a non-empty entity tag of the active status was supplied, for that source, with the very bytes that seal to the active revision, as it is or was before a restart cleaned it |
| `LifecycleSafety.TagSentHome` | internal/policy/manager.go:248-256 | over every run: a source is sent the active tag iff it is the active source, and a tag that is sent was supplied for that very source with bytes that seal to the active revision |
| `LifecycleSafety.NotModifiedAnswers` | internal/policy/manager.go:257-270 | a not-modified answer is accepted only for that source and tag, changes the refresh time and the recorded error only, and is refused after a rollback or fallback |
| `LifecycleSafety.OriginStep` | internal/policy/manager.go:239-240 | only a publication that stems from supplied bytes ends that refusal |
| `LifecycleSafety.SnapshotWasActive` | internal/policy/manager.go:117-132 | what a reader holds is one whole status that was active when it was loaded, whatever was published since |
| `LifecycleSafety.DecisionCarriesSnapshot` | internal/policy/manager.go:126-132 | a decision carries the revision of its reader's snapshot, which was validated, and is computed from a bundle that seals to it; the lookup fails for a closed engine only, and beside that there is only not being served or an error of the evaluation itself |
| `LifecycleSafety.SnapshotHeld` | internal/policy/opa/engine.go:321-330 | a revision a reader has passed on is in the engine until the engine is closed |
| `LifecycleSafety.CacheBounded` | internal/policy/opa/engine.go:84-96 | under any interleaving of the check and insert phases with closing: at most 128 revisions, none once closed, each entry compiled from a bundle sealing to its key |
| `LifecycleSafety.EngineOverTime` | internal/policy/opa/engine.go:257-266 | over any stretch without a crash a closed engine stays closed and an open one loses no revision |
| `LifecycleSafety.RollbackTarget` | internal/policy/manager.go:224-241 | a rollback is refused unless the artifact exists, and works on bytes that seal to the very revision asked for |
| `Freshness.TimesAreStamped` | internal/policy/manager.go:142-273 | over every run the refresh time that is durable, active or about to be is the clock of an action of the run: the passing of a candidate's tests in an activation or rollback, or an accepted not-modified answer |
| `Freshness.CarriedTime` | internal/policy/manager.go:161 | and the time about to become durable is the clock of the current operation: since that action the writer has carried the status |
| `Freshness.CheckDecides` | internal/policy/manager.go:117-120 | a check at a clock passes the reader iff its snapshot is ready, names a revision, `refreshedAt <= now < refreshedAt + maxStaleness` and the engine is open; otherwise it is refused as not ready |
| `Freshness.ServedFresh` | internal/policy/manager.go:126-132 | over every run: whoever passed or got a decision was checked while all that held, and whoever was refused as not ready was checked when one of it did not |
| `Freshness.ServedWithinLimit` | internal/policy/manager.go:117-132 | so a reader is only served within the limit after the clock of an activation or not-modified answer of the run, which is the time of its snapshot |
| `PolicyManager.Manager.NewManager` | internal/policy/manager.go:37-78 | restart as a program, over any directory a run left and with an engine new, used or closed: refused as invalid state iff the decoder does not accept `state.json`; otherwise succeeds iff the durable revision or, failing that, its previous one can be recovered in that engine and written, and then exactly that status is durable and active |
| `PolicyManager.Manager.Between` | internal/policy/manager.go:28-35 | between operations: the active revision is durable as current or previous, usable from its artifact and held by the engine; so are its previous revision and both durable ones; the cache is bounded |
| `PolicyManager.Manager.Activate` | internal/policy/manager.go:142-187 | iff the bundle validates, its artifact is stored and the rename succeeds, the candidate is durable; iff the last sync succeeds too, the call succeeds and it is active, with the given source and tag, the time of the call and no error; otherwise only the recorded error changes in memory. After a failure a restart comes back to the active revision iff it would have before, or, past the rename, iff the candidate has that revision and can be read back. Artifacts and cache exactly |
| `PolicyManager.Manager.Rollback` | internal/policy/manager.go:224-241 | the same for the status of exactly the requested revision with an empty entity tag, with the condition on stored artifacts; artifacts stay as they are and unknown revisions are refused |
| `PolicyManager.Manager.Refresh` | internal/policy/manager.go:242-273 | the tag is sent only to its own source; per reply, which status becomes durable, active or neither, under exact conditions, what a restart then comes back to, and which artifact is kept |
| `PolicyManager.Manager.CurrentStatus` | internal/policy/manager.go:117-125 | the status as callers see it: ready under the same bounds of the clock, and marked as stale iff it is not ready, has a revision and records no other error; nothing else differs from the active status |
| `PolicyManager.Manager.Evaluate` | internal/policy/manager.go:126-132 | is refused as stale iff not ready, without a revision, the engine closed, or not `refreshedAt <= now < refreshedAt + maxStaleness`; otherwise it is the evaluation's own error or an answer with the active, validated revision and a bundle sealing to it, never an unknown revision |
| `PolicyManager.Manager.StoreArtifact` | internal/policy/manager.go:162-178 | an existing artifact is checked and kept, an absent one written; when it succeeds and what the artifacts then are |
| `PolicyManager.Manager.Persist` | internal/policy/manager.go:188-223 | when the error is reported and what `state.json` then holds, for every point of failure |
| `PolicyManager.HonestIsLawful` | internal/policy/bundle.go:142-152 | with revisions computed by sealing and `state.json` written and read as described, everything the lifecycle assumes of its environment holds |
| `PolicyManager.Reload` | internal/policy/manager.go:50-56 | reading `state.json` through the Go decoder of canonical JSON gives what the state file says |
| `Utf8.DecodeEncoded` | internal/normalization/normalization.go:46-48 | UTF-8 decoding inverts encoding on every scalar sequence |
| `Utf8.ByteOrderIsScalarOrder` | sdk/typescript/src/normalization.ts:75-80 | byte order of the UTF-8 forms is scalar order of the texts, for every pair |
| `Utf8.EncodeCharBits` | internal/normalization/normalization.go:46-48 | the bytes of a scalar are those of the table in section 3 of RFC 3629 |
| `Ordering.LessExactly` | sdk/typescript/src/normalization.ts:75-80 | one string precedes another where they first differ, or as a proper prefix |
| `Surrogates.ValidSurrogates` | internal/normalization/normalization.go:151-186 | stays in bounds and accepts iff the bytes split into plain bytes, two-byte escapes and four-digit escapes with every high surrogate directly followed by a low one and no other low one |
| `Surrogates.ReadableTextPaired` | internal/normalization/normalization.go:46-48 | the scan never refuses a text that the strict reader accepts |
| `JsonGrammar.ReadValueReadable` | internal/normalization/normalization.go:61-131 | only values within depth, number range and mark bound, with keys distinct after NFC, are ever read |
| `JsonGrammar.RoundTrip` | internal/normalization/normalization.go:268-332 | reading the printed form of any readable value, before any text that ends it, returns the value and that text |
| `JsonGrammar.PrintedTextReads` | internal/normalization/normalization.go:42-131 | a printed value reads back as itself |
| `JsonGrammar.PrintInjective` | internal/normalization/normalization.go:268-332 | different values have different canonical texts |
| `JsonLiterals.TextReads` | internal/normalization/normalization.go:46-59 | any spelling of a string is read as it: each character as itself, by one of the eight short escapes, or by four hexadecimal digits in either case for each of its UTF-16 units |
| `JsonLiterals.TextSpelled` | internal/normalization/normalization.go:46-59 | and what is read as a string is such a spelling of it |
| `JsonLiterals.NatTextDigits` | internal/normalization/normalization.go:268-332 | the digits printed for a number are those of its decimal expansion |
| `JsonSpelling.SpellingReads` | internal/normalization/normalization.go:61-131 | any spelling of a readable value, with any white space around its tokens, any order of members and any escapes, is read as that value |
| `JsonSpelling.ReadTextExactly` | internal/normalization/normalization.go:42-59 | a text is read as a value iff the value is within depth, number range and mark bound with keys distinct in NFC, and the text is one of its spellings followed by white space |
| `JsonSpelling.NestingReads` | internal/normalization/normalization.go:61-70 | 65 nested brackets are read and 66 are not |
| `JsonSpelling.IntegersRead` | internal/normalization/normalization.go:23 | an integer is read iff it is within plus or minus 9007199254740991 |
| `JsonPrinting.PrintSpelled` | internal/normalization/normalization.go:268-332 | what is printed is a spelling of the value without white space, with each character in its shortest spelling and lower-case digits, and with members in strictly ascending order of the bytes of their keys |
| `CanonicalProfile.NoOverwrite` | internal/normalization/normalization.go:239-253 | normalising an object loses and overwrites no kept member, since colliding keys were refused |
| `CanonicalProfile.NormalFixed` | internal/normalization/normalization.go:202-266 | normal form is readable, accepted again and a fixed point, for every profile |
| `CanonicalProfile.CanonicalReadsBack` | internal/normalization/normalization.go:188-200 | the canonical text decodes to exactly the normalised tree |
| `CanonicalProfile.CanonicalIdempotent` | internal/normalization/normalization.go:188-200 | canonicalising canonical text returns it, and fails exactly when it exceeds the size limit |
| `CanonicalProfile.CanonicalBytesDetermineTree` | internal/normalization/normalization.go:188-200 | canonical bytes are equal iff the normalised trees are equal |
| `NormalForm.AcceptsExactly` | internal/normalization/normalization.go:202-266 | a profile accepts a value iff it is equivalent to itself: stamps at time stamp paths, strings distinct in NFC at set paths |
| `NormalForm.NormalExactly` | internal/normalization/normalization.go:202-266 | the normal form of a value that was read is the one value in form to which it is equivalent. In form: strings and keys are their own NFC, stamps canonical, sets strictly ascending in bytes, nothing left out by the profile. Equivalent: position by position equal in NFC, equal instants, equal sets, equal members but for those left out |
| `NormalForm.CanonicalExactly` | internal/normalization/normalization.go:188-200 | a text has canonical text c iff it is at most one mebibyte, can be read, and c prints a value in form that is equivalent to what was read |
| `NormalForm.EqualBytesExactly` | internal/normalization/normalization.go:188-200 | two accepted texts have equal canonical bytes iff what they read as is equivalent |
| `CanonicalProfile.PathSelectsOnePosition` | internal/normalization/normalization.go:235-262 | in a value that was read, two positions have one path iff they are one position, through members and items alike |
| `Normalization.ReadMembers` | internal/normalization/normalization.go:73-101 | the member loop with its set of normalised keys agrees with the declarative reader on every text, accept or refuse |
| `Normalization.ReadValue` | internal/normalization/normalization.go:61-131 | so does reading any value, with one of the source's error codes on refusal |
| `Normalization.Decode` | internal/normalization/normalization.go:42-59 | accepts exactly the readable texts within the limit, returning the value they spell (`JsonSpelling.ReadTextExactly`), with exact conditions for the size and Unicode codes |
| `Normalization.NormalizeSet` | internal/normalization/normalization.go:214-234 | accepts iff all items are strings, distinct after NFC; the result is their ascending enumeration |
| `Normalization.Normalize` | internal/normalization/normalization.go:202-266 | succeeds iff the declarative profile accepts, with exactly the normal form (`NormalForm.NormalExactly`) |
| `Normalization.Encode` | internal/normalization/normalization.go:268-332 | appends exactly the printed form to the buffer |
| `Normalization.Canonicalize` | internal/normalization/normalization.go:188-200 | the Go pipeline computes the canonical bytes or refuses, as specified |
| `Normalization.CanonicalBytesIdempotent` | internal/normalization/normalization.go:188-200 | on bytes: canonicalising twice is canonicalising once, within the size limit |
| `TypeScriptSdk.Parser.SkipLiteral` | sdk/typescript/src/normalization.ts:26-34 | the scan for the closing quote stops where the strict reader's literal ends, or reports that there is none |
| `TypeScriptSdk.Parser.Read` | sdk/typescript/src/normalization.ts:35-71 | the cursor parser agrees with the declarative reader and never moves past the input when it accepts |
| `TypeScriptSdk.Decode` | sdk/typescript/src/normalization.ts:22-73 | accepts exactly the readable texts, returning the value they spell (`JsonSpelling.ReadTextExactly`), the same as Go |
| `TypeScriptSdk.Compare` | sdk/typescript/src/normalization.ts:75-80 | the comparator's sign is scalar order and equally Go's byte order |
| `TypeScriptSdk.Normalize` | sdk/typescript/src/normalization.ts:100-118 | succeeds iff the declarative profile accepts, with exactly the normal form (`NormalForm.NormalExactly`), as in Go |
| `TypeScriptSdk.Encode` | sdk/typescript/src/normalization.ts:119-125 | prints exactly the canonical form |
| `TypeScriptSdk.Canonicalize` | sdk/typescript/src/normalization.ts:99-127 | computes the same canonical text as the specification, or refuses |
| `CrossLanguage.CanonicalizeBoth` | sdk/typescript/src/normalization.ts:99-127 | both implementations, each sorting with its own comparator, accept the same texts under the same profile and print the same bytes |
| `ByteOrder.SortFunc` | internal/normalization/normalization.go:227 | Go's sort by comparing bytes yields a permutation in ascending scalar order of the keys |
| `TypeScriptSdk.Sort` | sdk/typescript/src/normalization.ts:122 | sorting with the TypeScript comparator yields the permutation in ascending scalar order |
| `CrossLanguage.SortBoth` | sdk/typescript/src/normalization.ts:75-80 | so both give one list, repetitions included, and no element is before one with smaller bytes |
| `Timestamps.GoTimestamp` | internal/normalization/normalization.go:203-213 | the regular expression, time.Parse into nanoseconds, the bounds on both years and the format with nine optional digits accept exactly the declared stamps and give their canonical form |
| `Timestamps.MatchesExactly` | internal/normalization/normalization.go:25 | the regular expression matches exactly the texts with a head, an optional fraction and a zone of at most 23:59 |
| `Timestamps.Timestamp` | sdk/typescript/src/normalization.ts:81-97 | the routine that sets a mutable Date, reads it back and shifts it accepts the same stamps and gives the same form |
| `Calendar.OverflowShows` | sdk/typescript/src/normalization.ts:87-88 | comparing month and day after setting a Date notices exactly the days past the end of the month |
| `Timestamps.StampIdempotent` | internal/normalization/normalization.go:203-213 | the canonical form of a stamp is its own canonical form |
| `Timestamps.StampKeepsInstant` | internal/normalization/normalization.go:203-213 | and denotes the same instant to the nanosecond |
| `Timestamps.SameInstant` | internal/normalization/normalization.go:203-213 | two accepted stamps have one canonical form iff they denote the same instant to the nanosecond |
| `Instants.StampCounts` | internal/normalization/normalization.go:203-213 | a text that spells year, month, day, hour, minute, second, fraction and zone counts the nanoseconds of a closed formula of these numbers, with leap years by the century rule and a zone of `+hh:mm` subtracted |
| `Instants.ReadSpelled` | internal/normalization/normalization.go:25 | whatever is read as a stamp spells such numbers, in their ranges |
| `Instants.StampExactly` | internal/normalization/normalization.go:203-213 | a text has a canonical form iff it spells such numbers and their instant falls, in universal time, into the years 1 to 9999; the form is the text ending in Z, without zeros at the end of its fraction, that counts as many nanoseconds |
| `Calendar.DateOfDay` | sdk/typescript/src/normalization.ts:87-96 | counting days from the epoch and back is the identity on valid dates, leap years and centuries included |
| `Instants.DaysCounted` | sdk/typescript/src/normalization.ts:87-96 | the day number is the closed formula of years, leap years and the days before the month |
| `Pointer.UnescapeEscape` | internal/normalization/normalization.go:243 | unescaping inverts escaping (section 4 of RFC 6901) |
| `Pointer.EscapeSpelled` | internal/normalization/normalization.go:243 | escaping writes `~0` for a tilde and `~1` for a slash, and keeps every other character |
| `Pointer.PointersExactly` | schemas/v1/obligation.schema.json:36-43 | the pattern of obligation paths matches exactly the pointers that some list of tokens makes |
| `Pointer.FromTokensInjective` | internal/normalization/normalization.go:241-246 | a pointer determines its reference tokens |
| `Pointer.OverlapsIsPrefix` | internal/policy/composition.go:95-97 | on well-formed pointers the textual overlap test holds iff one token list is a prefix of the other, root included |
| `Obligations.ConflictMeaning` | internal/policy/composition.go:98-118 | what a conflict is on the positions named by the paths |
| `Obligations.ConflictSymmetric` | internal/policy/composition.go:75-80 | testing each pair in one order is enough |
| `Composition.Compose` | internal/policy/composition.go:20-89 | the result is the declared decision of the SET of contributions, which `CompositionMeaning.DecidesAsGiven` states on the contributions as given |
| `Composition.DecisionUnique` | internal/policy/composition.go:18-27 | that decision is unique, so order and repetition of the input never matter, not even for which code is reported |
| `CompositionMeaning.DecidesAsGiven` | internal/policy/composition.go:20-89 | every decision is the one stated on the contributions as given, with paths in any order: the code of the first part, in the order of the JSON texts, that is unusable or gives an id of an earlier part or its own another meaning; a conflict if two obligations are opposed; else the strictest outcome, all reasons, and each obligation once with its paths strictly ascending in bytes |
| `CompositionMeaning.DecidedOnce` | internal/policy/composition.go:20-89 | that statement admits one decision |
| `CompositionMeaning.SortedExactly` | internal/policy/composition.go:51-56 | the obligation that is compared and published has the id, kind, path set and other members of the contributed one and strictly ascending paths, and no other has |
| `CompositionMeaning.ObligationForms` | schemas/v1/obligation.schema.json:18-60 | the obligations the schema admits, kind by kind with the one member each carries |
| `CompositionMeaning.UsableForms` | schemas/v1/decision.schema.json:85-196 | the contributions the schema admits, outcome by outcome with the kinds of obligations each may carry |
| `Composition.FindConflict` | internal/policy/composition.go:75-81 | the pairwise loop finds a conflict iff two merged obligations conflict |
| `CompositionLaws.DeniesExactly` | internal/policy/composition.go:20-89 | denies iff there is no contribution, one is undecided, invalid or a deny, an obligation id has two definitions, or two merged obligations conflict |
| `CompositionMeaning.DeniesAsGiven` | internal/policy/composition.go:20-89 | the same on the contributions as given: two definitions of an id are obligations that differ in another member or in the SET of paths, and opposed obligations are described on path sets and token lists |
| `CompositionMeaning.ReorderingKeeps` | internal/policy/composition.go:51-62 | reordering the paths of any contributions changes neither outcome nor obligations, and changes nothing if every contribution is usable |
| `CompositionMeaning.ReorderingExactly` | internal/policy/composition.go:22-26 | with an unusable contribution the decisions before and after reordering are equal iff both end for the same reason |
| `CompositionMeaning.ReorderingChangesReason` | internal/policy/composition.go:22-26 | and they need not: three contributions for which the order of two paths decides between two codes |
| `CompositionLaws.Monotone` | internal/policy/composition.go:18-19 | adding contributions never lowers the outcome in allow < transform < require_approval < deny, and unless the result is deny keeps every reason and obligation |
| `CompositionLaws.MergeConforms` | internal/policy/composition.go:66-88 | a merge has sorted reasons, obligations sorted by id, conflict-free in both argument orders, and meets the schema's conditionals |
| `CompositionLaws.DecisionConforms` | schemas/v1/decision.schema.json:85-196 | every decision meets the schema's conditionals between outcome, reasons and obligations |
| `Explain.CanonicalEvent` | internal/policy/engine.go:73-104 | refuses an event that is not valid, and otherwise returns its canonical form: texts in NFC, times in UTC |
| `Explain.AdmittedAgain` | internal/policy/engine.go:115-120 | the canonical form of a valid event is valid again iff the texts of its facts stay within the length limits in NFC and the clauses that are not spelled out admit it |
| `Explain.FactsPresent` | internal/policy/engine.go:136-160 | true iff the event time parses, fact ids are unique and every declared source has a fact in force at that time, to the nanosecond |
| `ExplainMeaning.FactsExactly` | internal/policy/engine.go:136-160 | on the event as it came: no two fact ids are equal in NFC, and each declared source is the NFC of the source of a fact whose stamps spell instants a and b with a <= t < b, t being the instant of the event |
| `ExplainMeaning.InForceExactly` | internal/policy/engine.go:148-151 | a fact counts from the instant of its resolution on, and no longer at that of its expiry |
| `ExplainMeaning.CanonicalMeans` | internal/policy/engine.go:73-104 | the canonical form of an event, text by text |
| `Explain.Filter` | internal/policy/opa/engine.go:341-351 | queries see exactly the facts of declared sources, in order |
| `Explain.CheckedMeans` | internal/policy/opa/engine.go:378-391 | a layer's contributions are accepted iff none names a layer, rule ids are distinct and reasons are known; they come out marked with the layer |
| `Explain.QueryLayers` | internal/policy/opa/engine.go:353-393 | layers are consulted in order and the first failure is the answer |
| `ExplainMeaning.QueriesMean` | internal/policy/opa/engine.go:353-393 | all layers must reply with at most 1024 contributions that leave the layer open, have distinct rule ids and known reasons; then exactly these, marked with their layer, are taken, with an undecided part for a silent layer; otherwise the first reply that is refused gives the code |
| `Explain.Evaluate` | internal/policy/opa/engine.go:311-405 | the whole evaluation of an event as it comes in answers as declared, with its two validations and the failures of queries in between |
| `Explain.ExplainResult` | internal/policy/composition.go:119-152 | rules are a permutation ordered by layer and id, the decision is the composition, and provenance lists exactly the carrying rules; published iff the event is valid again and the decision meets its schema |
| `ExplainMeaning.RulesOrdered` | internal/policy/composition.go:131-136 | rules go from baseline to local override, and within a layer strictly by the bytes of their ids |
| `ExplainMeaning.MissingFactAnswer` | internal/policy/opa/engine.go:331-337 | an event without the facts it needs is denied with `ng.policy.missing_fact`, no obligations, no rules and no provenance |
| `Interference.RefusedExactly` | internal/policy/engine.go:115-120 | an event is answered as invalid iff it is not valid, or its canonical form is not and no query fails before that shows |
| `Interference.EvaluatedAtEvent` | internal/policy/engine.go:129 | the time of a decision is the canonical time of the event |
| `Interference.NonInterference` | docs/policy.md:127-130 | events that differ only in facts of undeclared sources get equal answers: time, outcome, reasons, obligations, rules, provenance and errors, if they agree on being refused and on repeating a fact id |
| `Interference.InterferenceExactly` | internal/policy/engine.go:115-160 | for such events, at least one layer and a publishable denial, the answers differ iff exactly one of them is refused, or neither is, the declared facts are in force and exactly one repeats a fact id |
| `Interference.LongerInNfcRefused` | internal/policy/engine.go:115-120 | one more undeclared fact, valid as it is but with a text beyond the limit in NFC, turns an answer into a refusal |
| `Interference.LetterQaRefused` | internal/policy/engine.go:115-120 | such a fact: its value reference is 200 times U+0958, which is 400 characters in NFC |
| `Interference.RepeatedIdDenies` | internal/policy/engine.go:143-147 | one more undeclared fact whose id repeats another one in NFC turns the answer into a denial |
| `Interference.SilentLayerDenies` | internal/policy/opa/engine.go:374-377 | a configured layer that contributes nothing denies |
| `Interference.ObligationsTraced` | internal/policy/composition.go:141-151 | every published obligation is traced to at least one rule, and to exactly those that carry it, as `layer:rule` texts in ascending order |
| `Dependencies.ParseVersionExactly` | internal/policy/bundle.go:153-167 | a version is read iff it is the canonical spelling of three machine-size numbers |
| `Dependencies.CompatibleExactly` | internal/policy/bundle.go:168-180 | a minimum core version is met iff it spells 0.0.x, 0.1.x or 0.2.0 |
| `Dependencies.OverlapIsNesting` | internal/policy/bundle.go:193-197 | the namespace test holds iff one dotted name is a prefix of the other, component-wise |
| `Dependencies.TargetExactly` | internal/policy/bundle.go:211-219 | a dependency resolves iff it is exactly `id@version` of a known manifest |
| `Dependencies.Walk.Visit` | internal/policy/bundle.go:203-226 | the three-colour walk terminates, keeps its path and finished part, and reports only faults that exist |
| `Dependencies.ValidateDependencies` | internal/policy/bundle.go:181-233 | accepts iff versions are compatible, ids distinct, namespaces disjoint, dependencies resolved and the graph acyclic, in any order of the roots; each code names a fault that is there |
| `RuleGraph.Passes.Depth` | internal/policy/opa/engine.go:185-199 | the memoised depth is the length of a longest chain |
| `RuleGraph.Passes.Visit` | internal/policy/opa/engine.go:209-221 | marks exactly what is reachable, and terminates on cyclic graphs |
| `RuleGraph.Check` | internal/policy/opa/engine.go:200-235 | each of the two codes is reported iff its fault is present, the depth fault first |
| `Bundle.CheckFiles` | internal/policy/bundle.go:62-83 | accepts iff names, sizes and counts are within the limits, in any order of iteration |
| `Bundle.IdentityExactly` | internal/policy/bundle.go:259-264 | a signing identity is the word unsigned, or `key:` and something that is not blank |
| `Bundle.LinesInjective` | internal/policy/bundle.go:345-356 | the digest preimage decodes uniquely for NUL-free names |
| `Bundle.FileDigestMeans` | internal/policy/bundle.go:345-356 | the digest of files is that of one line per file, name NUL digest LF, over their names in strictly ascending order of bytes |
| `Bundle.FileDigestBinds` | internal/policy/bundle.go:345-356 | equal file digests mean equal files, unless two hashed inputs collide |
| `Sealing.Seal` | internal/policy/bundle.go:322-344 | succeeds iff the files pass inspection; only the manifest changes, in its two digest fields: `build_digest` is the digest of the sealed files with `build_digest` alone zeroed in the manifest, `source_digest` that with both zeroed |
| `Sealing.SealedExactly` | internal/policy/bundle.go:322-344 | these equations hold of the declared sealed files and of no others |
| `Sealing.VerifiedMeansDigests` | internal/policy/bundle.go:431-438 | files verify iff they pass inspection and their manifest carries its two digests by the same equations |
| `Sealing.SealTwice` | internal/policy/bundle.go:322-344 | sealing the sealed files gives them again if the blanked manifest and the other files leave room, and nothing otherwise |
| `Sealing.RoomDecides` | internal/policy/bundle.go:62-83 | the sealed files are within the limits iff there is that room, which shows before anything is sealed |
| `Sealing.ReadArchive` | internal/policy/bundle.go:385-440 | accepts iff the entries are regular, distinct and verify, returning exactly their files, whose manifest then satisfies both digest equations; a checksum mismatch means that it does not |
| `Sealing.SealedEntriesAccepted` | internal/policy/bundle.go:385-440 | the sealed entries are accepted, in any order, iff there is room, and then with the same revision |
| `Sealing.VerifiedExactly` | internal/policy/bundle.go:431-438 | files that verify are the sealed files iff their manifest is spelled as the program writes it |
| `Sealing.RespelledManifestVerifies` | internal/policy/bundle.go:435-438 | another spelling of a verified manifest verifies iff it is within the size limits, and then under the same revision |
| `Sealing.RevisionBindsFiles` | internal/policy/bundle.go:322-356 | equal revisions mean equal sealed files, unless two inputs of their digests collide; for a bundle too large to be accepted, also unless two manifests share one text |
| `Sealing.WriteName` | internal/policy/bundle.go:369-372 | a name goes into a USTAR header iff it is ASCII and at most 100 bytes long or can be cut at a slash into at most 155 and 100, and the header then stands for that name |
| `Sealing.Build` | internal/policy/bundle.go:360-384 | succeeds iff the files seal and every name fits into a header, with exactly the sealed files in ascending order |
| `Sealing.BuildThenRead` | internal/policy/bundle.go:360-440 | building and reading back succeeds iff the files seal, there is room and every name fits into a header, and returns the sealed files |
| `Sealing.AccentedNameUnwritten` | internal/policy/bundle.go:52-54 | a module name can pass every check of a bundle and fit into no header |
| `Sealing.ExpandedFits` | internal/policy/bundle.go:397-400 | the limit on the expanded stream refuses no acceptable bundle in the form in which it is written |

## Left out

- Gzip and tar encoding, directory loading and file handles: an archive is a list of named entries, the state directory a status (with its text) and a map of artifacts; staging files left by a crash are not modelled.
- HTTP, OCI and file sources: a fetch is an arbitrary reply.
- OPA parsing, compilation, linting of modules and Rego evaluation: verdicts and query results are parameters.
- JSON Schema validation beyond the conditionals between outcome, reasons and obligations and the members each obligation kind requires: the remaining clauses are an arbitrary predicate.
- Unicode tables and SHA-256 itself.
- The Python SDK, the command line, configuration, permits and receipts, scenario files, bundle differences, the retry timer and its jitter.
- Construction errors of a manager (no engine, no directory, non-positive staleness) and failures to read or create the directory itself.
- PolicyManager.Manager.Activate: the class is sequential, with no readers or other compilations beside it; their interleavings are in the state machine only.
- PolicyManager.Manager.Compile: an archive that cannot be read, and a module that does not compile, are each reported under one of the codes the source has for them.
- The tokenizer of encoding/json, which tracks by itself whether a comma or colon is due: here its caller names the separator.
- Prepared queries: what the engine's cache holds under a revision is the bundle it was compiled from.
- Hand-edited state files: `StateFile` reads what the program itself wrote, so member names in another letter case are not modelled.
- Go's calendar inside its time library: `Timestamps` uses one proleptic Gregorian calendar for both languages, and the layout strings are modelled by their effect on stamps that match the pattern.
- Normalization.ReadValue: which of the value codes is reported for a text with several faults is not specified.
- TypeScriptSdk.Parser.Read: positions count scalar values rather than UTF-16 units, and a lone surrogate cannot occur in the input; the rounding of `Number` is not modelled, as it affects no safe integer.
- Composition.Compose: assumes that marshalled texts differ for different contributions.
- Explain.Evaluate: evaluation timeouts, cancellation, the digests in a decision and its id are not modelled, so answers are compared without them.
- Dependencies.ValidateDependencies: with several faults present, which code is reported is open, as the order of the map iteration is.
- Bundle.CheckFiles: with several limits exceeded, which code is reported is open for the same reason.
- RuleGraph.Check: requires an acyclic graph, which the compiler's refusal of recursion guarantees; only reachability is proved for cyclic graphs.
- Sealing.ReadArchive: the limit on the compressed stream and gzip framing are not modelled, and of the expanded stream only the form that the program itself writes.
- Sealing.BuildThenRead: does not model that gzip output could exceed the limit on the compressed stream.
