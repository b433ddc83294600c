# BinFlow: verified models of the decision engines and state machines

BinFlow is an artifact repository server. This project models the parts of it where several
functions have to agree with each other, or where a property has to survive whole runs, and
proves those properties in Dafny. `dafny verify dfyconfig.toml` checks everything.

| module | what it models |
|---|---|
| `Text`, `Ordering` | Go's string helpers, string order, sorting and filtering, with the laws used elsewhere |
| `PathMatch` | the Ant-style path patterns of permission targets |
| `Permissions` | the authorization decision, the item-permissions view, the manage decision and its summary, the wildcard buckets |
| `ContentPath` | the client's URL paths and the server's parser for them, with matrix parameters |
| `Breaker`, `StepUp` | the recurrent-failure breaker and the single-use step-up grants, as clocked state machines |
| `AuthConfig` | the authentication ConfigManager: stored sections, live snapshot, secrets, provider drain |
| `Manifest`, `Bundles` | release-bundle manifests, their digest, and the create/resume/conflict service |
| `AuditPages` | keyset pagination of the audit log |
| `BackupFormat`, `Export`, `EngineUpload`, `Import` | online export with writers and the collector interleaved, offline import with a failure possible at every call, and the two together |
| `GroupSync`, `DirectoryNames`, `LdapPool` | IdP group sync, DN escaping, the LDAP connection pool |

Beside the properties over runs, each main operation has a lemma ending in `Exactly` that
says when it accepts and what it answers in terms of its inputs alone, without naming the
functions it is computed by.

Code that updates state in place is a class or a method with loops, proved against a
specification function or predicate; the properties over runs are lemmas about those.
Pure code is functions. Concurrency is a state machine whose steps interleave freely.

## Conventions and assumptions

- Strings are sequences of characters. `ContentPath` reads them as bytes (values below 256), everything else as valid UTF-8 text; a count of bytes is written out where the code counts bytes.
- I/O, clocks, random values, network answers and store faults are parameters of each call. A failing database transaction changes nothing.
- Each ledger operation of the breaker and of the step-up grants happens at the instant it reads from the clock, and those instants never go back in lock order.
- sha256 is a function, injective where a lemma asks for it. Sealing is a function of text and nonce that opening undoes. `strings.EqualFold` is given by a case-folding table.
- The three reads of the permission store are functions of the question; `Permissions.Healthy` says what the tables behind them guarantee (unique target names; `PrincipalsFor(k)` returns rows of the table and misses none whose target lists `k`). It is needed by the manage summary only.
- In `Export` a writer lands a blob before it references it, only the collector deletes blobs, it does so holding the maintenance lock and never deletes a referenced one.
- Go's map iteration order is left open: loops over maps take the keys in any order.

## Where the code does not do what is said of it

The lemmas named give the failing input and the exact condition under which the promise holds.

- A `;k=v` suffix of an artifact path is peeled by the server even when the client escaped the `;` (`ContentPath.RoundTrip`, `ContentPath.MatrixRegionExample`).
- Leaving the LDAP manager password out of a PUT keeps it only if the `search` object is there (`AuthConfig.LdapSecretLost`, `AuthConfig.LdapKeepsSecretExactly`).
- A sha256 pin is checked against the node table as it is when a request is snapshotted. A resume keeps the stored rows and freezes the pending ones from a later look, so an accepted resume can leave a row that differs from its pin (`Bundles.ResumeIgnoresPin`, `Bundles.AcceptedHonoursPinExactly`).
- `sameNameSet` is called on the raw claims, before they are deduplicated, although its comment says otherwise: a claim with repeats can leave a revoked membership in place (`GroupSync.RevokedGroupSurvives`, `GroupSync.SyncMirrorsExactly`).
- The engine rollback of a failed import forgets a blob that was committed before its source could not be closed or its size did not match, and does not run at all when a step after the upload fails (`EngineUpload.StrandedExample`, `EngineUpload.RollbackExact`, `Import.LateFailureKeepsUpload`, `Import.EngineUndoneExactly`).
- A pattern with a backslash in front of `{0}` lets a user name add a separator to the bind DN; a NUL in a name is passed through unescaped (`DirectoryNames.CoveredPlaceholderSplices`, `DirectoryNames.NameNeverSplices`, `DirectoryNames.NulIsNotEscaped`, `DirectoryNames.EscapeRoundTrip`).
- A client that passed the pool's closed check comes away with neither a connection nor an error when it receives from the pool after it was shut and drained (`LdapPool.CloseRace`, `LdapPool.EmptyHandedExactly`).
- The comment on `EffectiveRole` treats a user-role principal that carries the admin flag as an admin; the code answers user (`Permissions.AdminFlagIgnored`, `Permissions.AdminFlagExactly`, `Permissions.UserRoleDecidedByRows`).

## Model

| member | source | states |
|---|---|---|
| `PathMatch.WildcardEqual` | internal/auth/pathmatch.go:103-130 | the greedy matcher accepts a segment exactly when each `*` can stand for some string (`Glob`), although it only ever tries the leftmost place of each literal |
| `PathMatch.InOrderLeftmost` | internal/auth/pathmatch.go:116-128 | taking the leftmost occurrence of the next literal loses no match of the remaining ones |
| `PathMatch.AnchoredParts` | internal/auth/pathmatch.go:103-130 | a pattern cut at its stars means: first part a prefix, last part a suffix, the middle ones in order between them |
| `PathMatch.SegmentMatchIsGlob` | internal/auth/pathmatch.go:95-100 | the star-free shortcut agrees with the wildcard relation |
| `PathMatch.SplitSegments` | internal/auth/pathmatch.go:135-145 | the trimmed, non-empty parts between slashes, in order |
| `PathMatch.SegmentsSlashFree` | internal/auth/pathmatch.go:135-145 | no segment holds a slash, so `*` never reaches across a directory |
| `PathMatch.SegsMatch` | internal/auth/pathmatch.go:57-90 | the backtracking search terminates and answers exactly `Covers`: a full match with `**` as any number of segments, or, for a folder and a pattern whose last segment is plain, a match of a prefix of the path |
| `PathMatch.FileNeedsFullMatch` | internal/auth/pathmatch.go:57-90 | a file path is covered only by a full match |
| `PathMatch.Match` | internal/auth/pathmatch.go:35-49 | a pattern and a path as written match exactly when their segments do |
| `PathMatch.MatchesExactly` | internal/auth/pathmatch.go:35-49 | the three patterns that match everything; else a non-blank path some prefix of whose segments matches in full, all of them or, for a trailing slash and a plain last pattern segment, fewer |
| `PathMatch.TrimSpaceTrims` | internal/auth/pathmatch.go:40 | trimming takes white space off both ends, all of it and nothing else |
| `PathMatch.SegmentsOfPlain` | internal/auth/pathmatch.go:135-145 | a part without a slash is one trimmed segment, or none when blank |
| `PathMatch.MatchesAny` | internal/auth/pathmatch.go:150-157 | some pattern of the list matches |
| `PathMatch.TrailingStarsCoverSubtree` | internal/auth/pathmatch.go:57-90 | `dir/**` covers exactly the paths some prefix of which `dir` matches, files and folders alike |
| `PathMatch.SubtreePattern` | internal/auth/pathmatch.go:35-90 | the same for pattern and path strings |
| `Permissions.Can` | internal/auth/authorizer.go:39-135 | the decision is `Allowed`: an order-free statement over the rows of the repository and of its bucket, denying on failed reads |
| `Permissions.AllowedExactly` | internal/auth/authorizer.go:39-203 | the whole decision read off the tables: anonymous reading, the roles, and for anyone else one row of the repository or its class that names the principal, carries the bit, and whose target is well formed, lists the repository or the bucket, includes the path or has no includes, and excludes it nowhere |
| `Permissions.RowGrantsExactly` | internal/auth/authorizer.go:137-203 | the same for one row |
| `Permissions.IncludesBind` | internal/auth/authorizer.go:154-156 | a path outside every include is granted to no user-role principal |
| `Permissions.BucketNamesClass` | internal/auth/wildcard.go:147-157 | the bucket of a repository is that of its class, local or remote, and none for a bucket or an unknown class |
| `Permissions.IndexTargets` | internal/auth/authorizer.go:92-95 | the name index of the targets, later ones winning |
| `Permissions.MergeRow` | internal/auth/groups.go:177-210 | one row adds its actions to the entry of its own principal and moves nothing else |
| `Permissions.ItemPrincipals` | internal/auth/groups.go:134-213 | per name and action, the view shows exactly what some row of that kind grants; no view when a read fails |
| `Permissions.DecisionMatchesView` | internal/auth/groups.go:125-213 | for every user-role principal, repository, path and action the decision grants exactly when the view shows that action under the principal's name up to case or under one of its groups |
| `Permissions.CanManageRepo` | internal/auth/rbac.go:188-200 | the manage question, with read-only administrators refused writes |
| `Permissions.MayManageExactly` | internal/auth/rbac.go:188-200 | never anonymous, always for an administrator, reads only for a read-only one, else the manage decision |
| `Permissions.ManageCoverage` | internal/auth/rbac.go:257-312 | the summary is exactly the keys listed by targets the principal manages; the universe answer is for administrators only |
| `Permissions.CoverageMatchesDecision` | internal/auth/rbac.go:222-312 | a user-role principal manages a repository exactly when the summary holds its key or the bucket that covers it |
| `Permissions.ExcludesWin` | internal/auth/authorizer.go:137-163 | a path that every target excludes is granted to no user-role principal, whatever the rows and includes say |
| `Permissions.ManageIgnoresPaths` | internal/auth/authorizer.go:165-180 | the manage decision does not depend on the path |
| `Permissions.BucketGrantHolds` | internal/auth/wildcard.go:147-169 | a grant through a wildcard bucket holds on every repository of its class, present and future |
| `Permissions.MoreRowsNeverRevoke` | internal/auth/authorizer.go:97-135 | further rows never take a permission away |
| `Permissions.AdminFlagExactly` | internal/auth/rbac.go:62-81 | a principal with the admin flag is an administrator if and only if its role says so or names no role |
| `Permissions.AdminFlagIgnored` | internal/auth/rbac.go:67-76 | a user role with the admin flag is a user |
| `Permissions.UserRoleDecidedByRows` | internal/auth/authorizer.go:39-135 | a principal whose role is user is decided by its rows alone, and the admin flag changes no answer |
| `ContentPath.UnescapeAfterEscape` | internal/client/client.go:402-408 | decoding undoes percent-encoding, in front of anything that decodes |
| `ContentPath.EscapePathSegments` | internal/client/client.go:402-408 | every segment is escaped, the slashes stay |
| `ContentPath.EscapeLeavesPlain` | internal/client/client.go:402-408 | unreserved characters and the few others allowed in a segment are not escaped |
| `ContentPath.EscapeHidesTheRest` | internal/client/client.go:402-408 | everything else is |
| `ContentPath.DecodesToPrinted` | internal/client/artifact.go:150-152 | the server decodes the client's spelling to `/key/path` |
| `ContentPath.CollectProps` | internal/adapter/layout.go:190-215 | the multimap of the region holds every `k=v` segment once, in order per key, or the region is refused for an illegal segment |
| `ContentPath.ParseMatrixProps` | internal/adapter/layout.go:190-215 | a region parses to its multimap or is refused, by the property rules |
| `ContentPath.ResolveContent` | internal/adapter/layout.go:47-144 | the answer satisfies the relation `Resolves`: decode once, peel the region, split, validate |
| `ContentPath.ResolvesExactly` | internal/adapter/layout.go:47-215 | a path resolves to a key, a path and properties exactly when it decodes to both, legal, followed by a region, and the region spells the properties |
| `ContentPath.UnescapeFailsExactly` | internal/adapter/layout.go:55-58 | decoding fails exactly at a percent sign without two hexadecimal digits |
| `ContentPath.AddressExactly` | internal/adapter/layout.go:84-108 | key and path with one leading slash allowed, the key of 1 to 63 characters and not reserved |
| `ContentPath.RelPathExactly` | internal/adapter/layout.go:112-144 | 1 to 512 characters, no backslash, no control, no empty or dot segment but for one trailing slash |
| `ContentPath.PeelExactly` | internal/adapter/layout.go:168-182 | everything from the first semicolon on is peeled exactly when each of its segments holds an equals sign |
| `ContentPath.ParseExactly` | internal/adapter/layout.go:190-215 | legal pairs, at most 64 keys, each with its values in order, at most 32 and all different |
| `ContentPath.ResolvesUnique` | internal/adapter/layout.go:47-69 | every raw path has exactly one answer |
| `ContentPath.RoundTrip` | internal/adapter/layout.go:47-215 | for every legal key and accepted path the client's spelling resolves to exactly that key and path with no properties if and only if the path has no matrix region |
| `ContentPath.MatrixRegionExample` | internal/adapter/layout.go:168-182 | an accepted path outside that condition |
| `ContentPath.Lossless` | internal/adapter/layout.go:84-215 | key, path and region rebuild the decoded path up to one leading slash, and the properties hold every region segment |
| `ContentPath.ResolvedPathIsSafe` | internal/adapter/layout.go:84-144 | no segment of a resolved path is empty, `.` or `..`, and the key is one non-reserved segment |
| `Breaker.BlockedSeconds` | internal/auth/recurrent.go:108-113 | the least whole number of seconds that is not less than what remains |
| `Breaker.RecurrentLimiter.BlockedRemaining` | internal/auth/recurrent.go:157-173 | the remaining time; a lapsed entry is forgotten |
| `Breaker.RecurrentLimiter.Failure` | internal/auth/recurrent.go:183-203 | counts, arms at the threshold, leaves an active block alone; afterwards fewer than 4096 entries remain or all are active blocks |
| `Breaker.RecurrentLimiter.Success` | internal/auth/recurrent.go:212-223 | forgets a counter or a lapsed block, never an active one |
| `Breaker.RecurrentLimiter.Sweep` | internal/auth/recurrent.go:232-246 | drops every lapsed block, evicts counters only while the ledger is full, keeps every active block, changes no entry |
| `Breaker.EntriesJustified` | internal/auth/recurrent.go:157-246 | in every interleaved run each entry is accounted for by the failures that made it |
| `Breaker.BlockIsEarned` | internal/auth/recurrent.go:157-203 | a positive remaining time implies two failures of that user with no success between them, the second at most 4 s ago |
| `Breaker.ArmedDeadlineStays` | internal/auth/recurrent.go:175-246 | an armed deadline is not moved, extended or evicted before it passes, whatever else happens |
| `Breaker.EmptyUserUntracked` | internal/auth/recurrent.go:153-160 | the empty user name is never tracked |
| `Breaker.AuthenticateBasic` | internal/auth/authenticator.go:423-435 | a blocked attempt is answered without a verdict and leaves the ledger; any other is adjudicated, a success clears and a rejection counts |
| `Breaker.SequenceUnfolds` | internal/auth/authenticator.go:423-435 | every sequence of attempts is a run of checks, failures and successes, one check and at most one verdict each |
| `Breaker.AttemptBlockIsEarned` | internal/auth/authenticator.go:423-435 | a blocked attempt has two adjudicated rejections of its user before it, none accepted between, the second less than 4 s ago |
| `Breaker.SecondRejectionBlocks` | internal/auth/authenticator.go:423-435 | two rejections of an undisturbed user inside a window block it until 4 s after the second |
| `Breaker.AtMostTwoPerWindow` | internal/auth/authenticator.go:423-435 | tried one at a time, with no success and no eviction of the user, the third rejection comes at least a full window after the first |
| `StepUp.StepUpLedger.Issue` | internal/auth/stepup.go:77-106 | a grant is stored under its digest for user and session; only expired grants are swept |
| `StepUp.StepUpLedger.Consume` | internal/auth/stepup.go:114-134 | the grant presented is gone afterwards, whether it was honoured or not |
| `StepUp.HeldIsOutstanding` | internal/auth/stepup.go:77-134 | a grant in the ledger was issued earlier and not presented since |
| `StepUp.OutstandingIsHeld` | internal/auth/stepup.go:77-106 | the sweep on issue never removes a live grant |
| `StepUp.HonouredExactlyOnce` | internal/auth/stepup.go:77-134 | a presentation is honoured exactly when the value was issued earlier to that user and session, has not expired and was not presented in between |
| `StepUp.SingleUse` | internal/auth/stepup.go:114-134 | no value is honoured twice on one issuance |
| `AuthConfig.ConfigManager.PutAuthSection` | internal/auth/configmanager.go:637-729 | verify, persist, swap: the whole new state and the refusal, for every fault |
| `AuthConfig.PutAcceptedExactly` | internal/auth/configmanager.go:637-808 | a PUT is accepted if and only if the reads succeed, the body is an object of known fields, its secret can be stored, the section is valid and opens, its provider builds or its key pair is ready, and the row can be written |
| `AuthConfig.PutLeaves` | internal/auth/configmanager.go:654-716 | the row, the live section, the providers and the key pair an accepted PUT leaves |
| `AuthConfig.NewSecretIsLive` | internal/auth/configmanager.go:777-806 | a new secret is accepted and live where a cipher and a nonce are there and the section is valid and serviceable |
| `AuthConfig.KeyPairStored` | internal/auth/samlspkey.go:114-158 | a complete key pair stays; a minted one is its certificate and a sealed half that opens to its private key |
| `AuthConfig.ConfigManager.Load` | internal/auth/configmanager.go:346-412 | seeding, the key-pair check, the rebuild and the swap; a refused boot leaves snapshot, key pair and close list |
| `AuthConfig.LoadExactly` | internal/auth/configmanager.go:346-412 | a boot succeeds if and only if the reads do, every configured section without a row can be stored, the key pair is in order and every row boots; the rows are then the old ones and the seeded ones |
| `AuthConfig.ConfigManager.RebuildSnapshot` | internal/auth/configmanager.go:419-465 | the snapshot of all stored rows with secrets unsealed, or the refusal |
| `AuthConfig.ConfigManager.SwapSnapshot` | internal/auth/configmanager.go:863-873 | installs the snapshot and schedules the replaced LDAP provider, unless it stays |
| `AuthConfig.LiveIsRebuilt` | internal/auth/configmanager.go:419-465 | a state is live exactly when the rebuild from its rows gives its snapshot, up to which provider object serves it |
| `AuthConfig.LiveExactly` | internal/auth/configmanager.go:419-465 | live means: the same sections stored and live, each with its fields and what its secret opens to, and providers exactly for the enabled ones |
| `AuthConfig.PutKeepsLive` | internal/auth/configmanager.go:637-729 | the incremental update of a PUT keeps the snapshot equal to the rebuild |
| `AuthConfig.RefusedPutChangesNothing` | internal/auth/configmanager.go:632-713 | a refused PUT leaves section rows, snapshot and close list; at most the SAML key pair was minted, when the section row could not be written |
| `AuthConfig.AcceptedPutWasVerified` | internal/auth/configmanager.go:637-729 | what an accepted PUT stored is valid, opens, has a provider that builds, and is live; the other sections keep their rows |
| `AuthConfig.LoadGoesLive` | internal/auth/configmanager.go:346-412 | a boot changes no stored row, seeds only configured sections without one, and on success is live |
| `AuthConfig.RunIsLive` | internal/auth/configmanager.go:346-729 | in every state of every run the snapshot is the rebuild of the rows |
| `AuthConfig.ClosedExactlyOnce` | internal/auth/configmanager.go:863-873 | an LDAP provider once installed is later either still installed and never scheduled for close, or scheduled exactly once |
| `AuthConfig.AcceptedPutFoldsSecret` | internal/auth/configmanager.go:733-808 | after an accepted PUT the live secret is kept, cleared or replaced as submitted, and the mask is never accepted |
| `AuthConfig.LdapKeepsSecretExactly` | internal/auth/configmanager.go:751-756 | leaving the LDAP secret out keeps it if and only if the search object is present or there was none to keep |
| `AuthConfig.LdapSecretLost` | internal/auth/configmanager.go:751-756 | an accepted LDAP PUT of the same fields without the search object clears the secret |
| `AuthConfig.SecretIsFold` | internal/auth/configmanager.go:637-808 | over every run the live secret is the fold of the accepted submissions over the one booted with, and is the mask only if it booted as the mask |
| `Manifest.CheckManifest` | internal/bundle/service.go:211-236 | accepts exactly the manifests of valid rows without a repeated identity |
| `Manifest.ManifestExactly` | internal/bundle/service.go:211-236 | 1 to 10000 rows, none null, each legal with a pin free of controls, no pair twice |
| `Manifest.RowExactly` | internal/bundle/model.go:107-130 | a repository key that is no bucket and has no slash or control, and a relative path without controls and without an empty or dot segment |
| `Manifest.ManifestDigest` | internal/bundle/model.go:168-176 | the digest of the sorted identity lines |
| `Manifest.DigestInputUnambiguous` | internal/bundle/model.go:107-176 | two validated manifests give the same digest input if and only if they list the same set of (repository, path) pairs |
| `Manifest.DigestNamesIdentities` | internal/bundle/model.go:158-188 | with an injective hash the signature itself names the identity set |
| `Bundles.StateOf` | internal/bundle/service.go:387-397 | the pending count and the state it implies |
| `Bundles.Snapshot` | internal/bundle/service.go:317-346 | one row per item in order, or the refusal of the first item that has one |
| `Bundles.SnapshotExactly` | internal/bundle/service.go:317-346 | refused exactly when some lookup faults or some pin disagrees with a present checksum, for the first such item; else each row has the checksum and size of its node, or is pending |
| `Bundles.SnapshotPending` | internal/bundle/service.go:350-369 | fresh rows for exactly the pending identities whose artifact has landed |
| `Bundles.MergeSnapshots` | internal/bundle/service.go:373-383 | every row with a fresh one is replaced by it, every other stays |
| `Bundles.Resume` | internal/bundle/service.go:350-383 | the two loops together refresh row by row, because no identity occurs twice |
| `Bundles.Service.Create` | internal/bundle/service.go:201-307 | the new store and the answer, for every gate, fault and node table; keeps every bundle sound |
| `Bundles.GatesExactly` | internal/bundle/service.go:201-270 | the gates in their order: feature, rules of the request, right to write, trouble in the snapshot, insert; past them a free pair is created |
| `Bundles.CreatedExactly` | internal/bundle/service.go:251-268 | the created bundle: its rows as the node table has them, COMPLETE exactly when every listed pair has a checksum, and its header |
| `Bundles.TakenExactly` | internal/bundle/service.go:271-307 | a taken pair past the gates: lookup fault, conflict, listing or write fault, or a resume |
| `Bundles.AdmissibleExactly` | internal/bundle/model.go:64-130 | the rules of name, version and manifest, field by field |
| `Bundles.CreateKeeps` | internal/bundle/service.go:201-307 | signature = digest of the items and COMPLETE = nothing pending are kept; a refusal changes nothing; the stored manifest never disagrees with its signature |
| `Bundles.RunEvolves` | internal/bundle/service.go:201-397 | over every run a stored bundle stays, with its signature and identities, resolved rows untouched, pending rows never more, and unchanged once COMPLETE |
| `Bundles.ChecksumsAreTrue` | internal/bundle/service.go:310-383 | over every run each resolved row carries the checksum and size the node table held for its identity in the call that froze it |
| `Bundles.CreatedHonoursPins` | internal/bundle/service.go:311-346 | on the created arm every pinned item has a row in its own place, with a checksum equal to the pin up to case, or none |
| `Bundles.AcceptedHonoursPinExactly` | internal/bundle/service.go:195-307 | an accepted request ends with a pinned item pending or at its pin if and only if it was created, or the stored row, if resolved, is at the pin and, if pending, meets it in the node table of the resume |
| `Bundles.ResumeHonoursPinExactly` | internal/bundle/service.go:291-297 | the same for the rows a resume writes |
| `Bundles.ResumeIgnoresPin` | internal/bundle/service.go:291-297 | an accepted resume whose row differs from its pin |
| `Bundles.ArmsExact` | internal/bundle/service.go:180-201 | created when the pair is free; resumed exactly when the identities agree and a row is pending; a conflict otherwise |
| `Bundles.AnswerMatchesStore` | internal/bundle/service.go:266-307 | the answer reports the stored state, digest and pending count |
| `Bundles.ResumeCompletes` | internal/bundle/service.go:291-307 | a resume completes the bundle exactly when every pending row has a node with a checksum |
| `AuditPages.CursorRoundTrip` | internal/metadata/substores_console.go:370-383 | the cursor of an event parses back to its time and id |
| `AuditPages.QueryPage` | internal/audit/audit.go:140-170 | the page of the first rows past the cursor and the cursor of its last event when more follow |
| `AuditPages.PageExactly` | internal/audit/audit.go:140-170 | at most limit, or 100, of the events asked for beyond the cursor, newest first; what is left out is older, and something is exactly when the page is full and names its last event as next |
| `AuditPages.RestExactly` | internal/metadata/substores_console.go:390-442 | the listing holds exactly the events asked for beyond the position, strictly newest first |
| `AuditPages.CursorExactly` | internal/metadata/substores_console.go:370-383 | which texts are cursors, for which time and id |
| `AuditPages.RestAfter` | internal/metadata/substores_console.go:390-442 | what lies past the n-th event of a listing is the listing without its first n events |
| `AuditPages.PageSplitsRest` | internal/audit/audit.go:134-170 | a page followed by what its cursor points at is what its own cursor pointed at; an empty cursor means nothing is left |
| `AuditPages.GrowthAheadIsInvisible` | internal/metadata/substores_console.go:390-442 | events appended ahead of the cursor change no later page |
| `AuditPages.WalkIsComplete` | internal/audit/audit.go:134-170 | following the cursor lists every selected event exactly once, newest first, while newer events are appended |
| `AuditPages.WalkEnds` | internal/audit/audit.go:134-170 | every walk over a log that stands still reaches the empty cursor |
| `BackupFormat.Validate` | internal/storage/backup.go:81-124 | the structural rules of a manifest: version, bare file name, digests, counts and sums |
| `BackupFormat.ManifestExactly` | internal/storage/backup.go:81-124 | the rules of a manifest, field by field |
| `BackupFormat.BuildManifest` | cmd/binflow-server/backup.go:204-240 | lists exactly the live blobs in order with their sizes, and is refused exactly when the copy lacks one |
| `BackupFormat.VerifyBackupBlobs` | cmd/binflow-server/backup.go:719-748 | accepts exactly when every blob has its size and the first 100, or all, have their digest |
| `BackupFormat.VerifiesExactly` | cmd/binflow-server/backup.go:719-748 | every file with its size; the first hundred, or all, readable and with their digest |
| `BackupFormat.DescribedVerifies` | cmd/binflow-server/backup.go:719-748 | what an export seals passes verification in either mode |
| `Export.ExportBlobsFromEngine` | cmd/binflow-server/backup.go:580-617 | exactly the live blobs with their content and the inventory's times; refused exactly when the listing fails, the engine lacks one, or one does not stream |
| `Export.RunInv` | cmd/binflow-server/backup.go:101-279 | in every interleaving each referenced blob is copied, in line, or in a shard not yet opened, and none has left the source |
| `Export.FinishedExportIsWhole` | cmd/binflow-server/backup.go:22-27 | a finished export holds the references of some moment of the run, all their blobs with the right content, and the manifest of exactly those; an engine's export holds no other blob |
| `Export.NeverDangles` | cmd/binflow-server/backup.go:200-221 | from a source without dangling references no interleaving makes the export refuse for one |
| `Export.NeverStuck` | cmd/binflow-server/backup.go:101-279 | with the lock to be had, every state of a run that has not ended has a step of the export that is no failure and brings the end nearer |
| `Export.RunCanFinish` | cmd/binflow-server/backup.go:101-279 | every such run can be brought to its end |
| `Export.FailureLeavesNothing` | cmd/binflow-server/backup.go:110-117 | a failed export whose cleanup works leaves nothing, and a manifest exists only once everything is there |
| `Export.CopyFirstDangles` | cmd/binflow-server/backup.go:22-27 | with snapshot and copy swapped, one upload in between breaks the export of a healthy instance |
| `EngineUpload.Engine.ImportBlobs` | cmd/binflow-server/backup.go:661-713 | the engine after an upload with any faults, rolled back on failure |
| `EngineUpload.Engine.Rollback` | cmd/binflow-server/backup.go:662-673 | removes every created blob whose deletion does not fail |
| `EngineUpload.EngineNeverLoses` | cmd/binflow-server/backup.go:650-713 | no blob the engine held before the run is deleted or changed |
| `EngineUpload.UploadRestoresAll` | cmd/binflow-server/backup.go:661-713 | success leaves the old blobs plus all manifest blobs, the new ones with the backup's content and digest |
| `EngineUpload.UploadFailsExactly` | cmd/binflow-server/backup.go:674-712 | an upload fails if and only if some entry is refused, by conditions on the manifest, the backup, the engine and the faults |
| `EngineUpload.RollbackExact` | cmd/binflow-server/backup.go:661-713 | after an upload that stops at entry k the engine is as before if and only if entry k is refused before its commit (probe, missing, open, begin, append, commit, digest) and every earlier new entry can be deleted again |
| `EngineUpload.StrandedExample` | cmd/binflow-server/backup.go:702-711 | a source that cannot be closed leaves its blob behind |
| `Import.Instance.RunImport` | cmd/binflow-server/backup.go:341-548 | the target and the outcome for every combination of faults |
| `Import.AdmittedExactly` | cmd/binflow-server/backup.go:385-459 | past the checks if and only if lock and directory are free, the manifest obeys every rule, the database has its digest and no newer schema, the blobs their sizes and digests, and no external database is in the way; else refused and untouched |
| `Import.CompleteExactly` | cmd/binflow-server/backup.go:461-547 | an admitted import completes if and only if no call of its write phase fails |
| `Import.Instance.Verify` | cmd/binflow-server/backup.go:400-431 | accepts exactly the backups whose claims hold |
| `Import.Instance.CleanUp` | cmd/binflow-server/backup.go:836-859 | everything goes but what cannot be removed |
| `Import.FailureLeavesTarget` | cmd/binflow-server/backup.go:385-548 | an early refusal changes nothing; a failure while writing leaves only what the cleanup could not remove |
| `Import.AllOrNothing` | cmd/binflow-server/backup.go:330-548 | for every failure point: the instance serves the migrated database of the backup and every blob of the manifest, or directory and external database are as they were |
| `Import.CompleteServes` | cmd/binflow-server/backup.go:464-516 | a completed import serves every manifest blob, from the backup or, if the engine already had it, as the engine had it |
| `Import.DigestsExactly` | cmd/binflow-server/backup.go:715-748 | which served blobs carry their digest: with an engine all but those it held with other content, with a tree those whose file does, which the verification guarantees for the first 100 or for all |
| `Import.SpotCheckMisses` | cmd/binflow-server/backup.go:715-748 | a spot-checked import that completes and serves a 101st blob with another digest |
| `Import.CompletePlaces` | cmd/binflow-server/backup.go:464-516 | where a completed import put database and blobs, and that nothing else is there |
| `Import.EngineUndoneExactly` | cmd/binflow-server/backup.go:493-518 | a rolled-back import leaves the engine as it was if and only if the upload was not reached, or its first refused entry is refused before its commit and the new ones before it can be deleted, or nothing is refused and nothing is new |
| `Import.LateFailureKeepsUpload` | cmd/binflow-server/backup.go:503-518 | a failure after a successful upload reports a rollback and leaves the new blob in the engine |
| `Import.ExportThenImport` | cmd/binflow-server/backup.go:101-548 | restoring a finished export gives an instance that references what the source referenced at the snapshot and serves every such blob with the right content |
| `GroupSync.SameNameSet` | internal/auth/idp_sync.go:187-201 | equal lengths and nothing on the right that the left lacks |
| `GroupSync.LooksSameExactly` | internal/auth/idp_sync.go:184-201 | it is set equality exactly when the other list has no repeats |
| `GroupSync.MaterializedNames` | internal/auth/idp_sync.go:161-182 | the claimed names with and without a local group, each once |
| `GroupSync.GroupTable.SyncProviderGroups` | internal/auth/idp_sync.go:98-135 | the new membership of the user, nobody else's touched, nothing on a fault |
| `GroupSync.SyncMirrorsExactly` | internal/auth/idp_sync.go:98-135 | the membership becomes the claimed groups that exist locally if and only if the claim is not a repeat-padded part of it of the same length |
| `GroupSync.RevokedGroupSurvives` | internal/auth/idp_sync.go:109-111 | a claim that keeps a revoked group |
| `DirectoryNames.EscapeDnValue` | internal/auth/ldap.go:689-712 | the escaped form, character by character |
| `DirectoryNames.EscapeRoundTrip` | internal/auth/ldap.go:686-712 | the escaped form is an admissible value (section 2.4 of RFC 4514) that denotes the name, if and only if the name holds no NUL |
| `DirectoryNames.EscapeLeavesPlain` | internal/auth/ldap.go:689-712 | a name that needs no escape is left as it is |
| `DirectoryNames.EscapedIsWritten` | internal/auth/ldap.go:686-712 | a backslash stands before exactly the seven characters anywhere and a space or hash at either end |
| `DirectoryNames.NameNeverSplices` | internal/auth/ldap.go:674-684 | no name adds a separator to the pattern's DN, if and only if no placeholder is covered by a backslash |
| `DirectoryNames.CoveredPlaceholderSplices` | internal/auth/ldap.go:682-684 | a pattern and a name that together have one separator more than the pattern |
| `DirectoryNames.NulIsNotEscaped` | internal/auth/ldap.go:689-712 | a NUL is passed through and the result is no admissible value |
| `LdapPool.ConnPool.CheckOpen` | internal/auth/ldap.go:291-297 | the closed check of `get` |
| `LdapPool.ConnPool.ReceiveOrDial` | internal/auth/ldap.go:299-307 | an idle connection, nothing from a closed channel, or a dial |
| `LdapPool.ConnPool.PutBack` | internal/auth/ldap.go:316-334 | back into the pool, or closed when it is full or shut |
| `LdapPool.ConnPool.BeginClose` | internal/auth/ldap.go:337-344 | the pool is shut and the drain begins; a second close does nothing |
| `LdapPool.ConnPool.DrainOne` | internal/auth/ldap.go:345-347 | one idle connection is closed |
| `LdapPool.ConnPool.CloseAll` | internal/auth/ldap.go:337-348 | a close no client interferes with: every idle connection is closed, in order, and none stays |
| `LdapPool.RunConserves` | internal/auth/ldap.go:266-348 | over every interleaving, receives during the drain of a close included, each dialed connection is idle, held by one client or closed once; the pool stays within its size and is empty once a close has finished |
| `LdapPool.StepsExactly` | internal/auth/ldap.go:291-334 | who is let in, which connection a receive takes, when it dials, and what becomes of a returned one |
| `LdapPool.CloseRace` | internal/auth/ldap.go:291-307 | a close between check and receive hands out nothing |
| `LdapPool.EmptyHandedExactly` | internal/auth/ldap.go:299-307 | over every run a receive hands out nothing if and only if the pool is shut and drained; outside a drain, if and only if it is shut |
| `LdapPool.ShutStays` | internal/auth/ldap.go:316-348 | a shut pool stays shut and, once drained, empty |
| `LdapPool.ReceiveDuringDrain` | internal/auth/ldap.go:299-347 | a receive that wins an idle connection while a close drains the pool |

## Left out

- Caches of group memberships, anonymous access set-up and token scopes around `Can`; the model starts from a principal with its groups.
- The sections' other fields, their validation rules and JSON decoding in the ConfigManager: validation is a parameter, decoding a function, the remaining fields one opaque value.
- OIDC discovery, LDAP wire traffic, TLS, probes and the masked echo of a section.
- The forced re-issue of the SAML key pair, which touches only its own row.
- A second boot of the same manager after a failed one: the server refuses to start, and the run ends there.
- Bundle reads and their gates, row ids and audit records of the bundle service.
- The storage engines' own code, the collector's marking phase, upload sessions, file permissions, and the times of files in a tree copy.
- SQLite side files, and parent directories created for a database outside the data directory.
- A removal that fails half way through a directory tree: an entry is removed whole or stays whole.
- Sums of sizes beyond 64 bits, and audit limits of 2^63 - 1, for which the code documents that the has-more probe degrades.
- HTTP routing, CLI flags, configuration loading, logging and error texts.
- AuditPages.WalkIsComplete: stated for limits whose successor fits in 64 bits, as the code documents.
