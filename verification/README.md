# Verification of the authorization, start-up, absence and tooling cores

A Dafny 4.11 model of five stateful parts of the conda-sentinel repository, with proofs about whole runs,
not only about single calls. `dafny verify dfyconfig.toml` checks all of it.

* **The claims mapper** (`Claims`, `Personas`, `PersonaSignIns`, `Usernames`, `Mapper`, `FirstSightings`, `NewUsers`,
  `GroupSync`, `EpochRuns`, `SyncRuns`, `SyncHistory`, `CrossingRuns`). Claims resolve to a user row, first sightings
  create rows under two unique columns, a sync brings a user's groups and flags to the asserted ones, and a
  gate lets each Bearer credential sync once. The tables are maps in classes; concurrent requests are
  interleaved one statement at a time, down to the statements of a sync, with uncommitted rows, row locks,
  commits and rollbacks, and the log of the committed syncs tells what they leave.
* **The JWKS key store** (`JwksStore`, `JwksRuns`, `JwksServing`, `JwksLocation`). A cache with a TTL and a rate limit,
  read and refreshed by any number of threads through three separate critical sections; and the rule that
  decides whether a key-set location is anchored in the issuer (paths as in section 3.3 of RFC 3986).
* **The URL-graph walk** (`ViewCandidates`, `UrlWalk`, `UrlRefusals`). A depth-first walk over a possibly
  cyclic resolver graph with one shared `seen` set, the objects a routed view is made of, and the two
  refusals that rest on both.
* **The inventory-absence fold** (`Absence`, `AbsenceOrder`, `AbsenceReads`, `AbsenceStamping`). A one-pass
  accumulator against a whole-history definition of absence; the sorted query and what a reading means for
  the unsorted table; chunked and narrowed reads; the grouped bulk update.
* **The configuration tools** (`Merge`, `MergeLaws`, `MergePlaces`, `Lines`, `Memlog`, `MemlogRuns`,
  `MemlogFormat`, `Publish`, `PublishRuns`, `RenderValues`, `RenderIdentity`, `RenderLayers`, `RenderOutputs`,
  `RenderTexts`). The layered merge and
  its algebra, the append-only memory log and its file format, and the renderer: what the hashed identity
  decides, and how one snapshot directory is published by racing processes that may crash.

`Core`, `Ordering` and `Text` hold the vocabulary: options and results, first-occurrence deduplication,
sorting by a total order, and the string operations.

Each method that changes state is proved against a function of the old state, and the lemmas then speak of
that function; the run modules interleave those same functions. What such a function computes is in turn
pinned by theorems that do not name it and speak of the inputs, the characters or the run alone: `NewUsers`,
`PersonaSignIns`, `JwksServing`, `MergePlaces`, `MemlogFormat` and `RenderTexts` hold nothing else. `hide` is used in proofs to keep
definitions that a step does not need out of the solver's way; it assumes nothing.

## Where the code and what is said of it differ

* `personas.py` says overlapping claim names are refused. The code refuses when the group name runs through
  the identity key's value, and when either name runs through a profile claim; when the group name is a
  prefix of the identity name it overwrites in silence, and a name with a final dot writes nothing.
  `Personas.BuildRefusesExactlyWhen` and `Personas.BuildThenReadRoundTrips` say exactly when each happens.
* The conventional key-set location of an issuer derives from that issuer exactly when the issuer's own path
  has no `..` segment (`JwksLocation.TheConventionDerives`, `JwksLocation.ADotDotIssuerAnchorsNothing`).
* `memlog.render` followed by `split` gives the body back exactly when newlines are its only line breaks:
  every other break comes back as a newline (`Memlog.TheBodyComesBackIffItBreaksByNewlines`). An append adds
  exactly its own line exactly when the tag made of `type` and `by` is one line
  (`MemlogRuns.AnAppendAddsOneLineIffItsTagIsOneLine`).
* A resolved value can still hold `{project-root}`: no value does exactly when the root neither holds one nor
  ends in the start of one (`RenderTexts.NoMarkSurvivesExactlyWhenTheRootIsClean`).
* A merged list is free of duplicate keys exactly when its base is (`Merge.DuplicatesComeFromTheBase`).
* Equal hashed identities do not always mean equal outputs: `customize.toml` is not hashed, and an empty list
  is spelled in two ways. `RenderIdentity.ResolvedValuesDecideReplacements` gives the exact condition for the
  replacements and `RenderOutputs.EqualIdentitiesMakeOneSnapshot` for the outputs and the manifest;
  `RenderLayers.TheIdentityDoesNotHashTheDefaults` has two renders that differ, and
  `RenderLayers.LayeredRendersAgree` a condition on the layers that rules this out.
* A deactivated row is refused on the hit path only. A caller that lost an insert is handed the row it
  re-reads, and that row is deactivated exactly when the key's row is deactivated before the re-read
  (`FirstSightings.OnlyALostInsertReturnsADeactivatedRow`). In every run it was then not there at the caller's
  own look, and was turned off, or entered so, since (`FirstSightings.TheRowWasTurnedOffAfterTheLook`); and
  this happens (`FirstSightings.ADeactivatedRowCanBeReturned`).
* Two includes of one module are two resolvers, and both are walked. What that module includes in turn is one
  resolver that both list, and it is walked below the first of them alone, so its views may have a real route
  no yield carries (`UrlWalk.ASharedResolverLosesARoute`). A resolver is walked at every mount exactly when
  all include paths to it spell one prefix (`UrlWalk.EveryMountIsWalkedIffThereIsOnePrefix`), that is, when
  the resolvers that list it are reached under one prefix (`UrlWalk.RoutesAreLostExactlyBelowTwoPrefixes`);
  when that holds throughout, the yields are exactly the routes (`UrlWalk.WithOnePrefixEveryRouteIsYielded`).
* `sync_authorization` is said to make the stored groups those of the claims, with nobody seeing a union.
  In any run that is so of a sync when no other sync of its user commits between its reads and its commit;
  when one does, the two cross on what the later one had read, which for a user without groups is the union;
  and when more do, not even that holds in general: the exact condition is that its statements still cover
  what is there (`SyncHistory.WhatACommitLeaves`, `SyncHistory.TheMembershipsReplayTheLog`,
  `SyncHistory.TwoSyncsOfOneUserCross`). Crossing happens (`CrossingRuns.TwoSyncsCanCross`), and with a third
  sync the last one to commit can assert a group the user then does not hold
  (`CrossingRuns.TheLastSyncCanBeLost`, `CrossingRuns.ALastSyncIsLost`).

Rows below that begin with "Beside" state a smaller fact that belongs with the theorem they name.

## Model

| member | source | states |
|---|---|---|
| `Mapper.Users.ResolveUser` | src/config/authorization/mapper.py:256-272 | One call, with whatever other transactions commit between its statements: blank or over-long keys are refused before the table is read, a hit writes nothing and is refused when deactivated, a miss creates |
| `Mapper.Users.CreateUser` | src/config/authorization/mapper.py:354-383 | A first sighting ends as the new row, as the row of another insert of the same key, or as the named refusal; the table afterwards is stated whole |
| `Mapper.Users.AvailableUsername` | src/config/authorization/mapper.py:581-609 | The first candidate no row holds; when it is not the desired one, some row holds the desired one, so the collision event can always name a holder |
| `Mapper.Users.ResolveALostInsert` | src/config/authorization/mapper.py:415-429 | The row of the key when there is one by then, otherwise the refusal; nothing else |
| `Mapper.Users.FirstBySubject` | src/config/authorization/mapper.py:267 | The one row of the key, or none |
| `Mapper.Users.Insert` | src/django_service/users/models.py:27-34 | An insert fails exactly on a clash of either unique column and then changes nothing |
| `Mapper.ResolvingKeepsTheTable` | src/config/authorization/mapper.py:256-272 | Whatever the outcome both columns stay unique and no row goes or changes its key or name; every outcome but a first sighting's writes nothing |
| `Mapper.ResolvingReturnsTheRowOfTheKey` | src/config/authorization/mapper.py:267-272 | Whoever is returned is the one row of the claims' identity key, however it came to be returned |
| `Mapper.ANewRowIsWellFormed` | src/config/authorization/mapper.py:357-365 | A created row is active, has no usable password, and its username, email and name fit and are valid for the model |
| `Mapper.ARefusedSightingHasAHeldName` | src/config/authorization/mapper.py:415-423 | A first sighting is refused only with every candidate held at its check, or its chosen name taken by another identity before its insert |
| `NewUsers.WhatAFirstSightingWrites` | src/config/authorization/mapper.py:354-383 | For all claims and all rows: refused when the name asked for, the digest form and the key's own rendering all have a row when it looks, and otherwise it goes on under the first of them that has none; the row is inserted exactly when neither that name nor the key has a row by then, and is the claims' own in every column |
| `NewUsers.TheAskedNameIsWritten` | src/config/authorization/mapper.py:461 | Claims that ask for an acceptable name nobody has get that very name, whatever else they hold |
| `NewUsers.OtherwiseTheKeyIsWritten` | src/config/authorization/mapper.py:461 | With the claim absent, not text or blank, the name is the identity key itself when that is acceptable and free |
| `NewUsers.TheCandidatesAreTried` | src/config/authorization/mapper.py:632-633 | The three names in the order tried, each told of its characters: what renders to nothing gives way to the next, and the digest form is `idp-` and the first 32 digits |
| `NewUsers.ANewRowHoldsTheClaims` | src/config/authorization/mapper.py:357-365 | Email and name of a new row are the first 254 and 255 characters of their own stripped claims, its key the identity key |
| `NewUsers.WhoIsResolved` | src/config/authorization/mapper.py:256-272 | Without a key, or with one over 255 characters, refused; the active row of the key; refused when it is deactivated; a first sighting exactly when the key has no row |
| `NewUsers.TheRunChoosesTheFirstFreeName` | src/config/authorization/mapper.py:584-609 | The same at any point of any run: the statement that reads the holders chooses the first of the three names no committed row has |
| `NewUsers.TheRunChoosesTheAskedName` | src/config/authorization/mapper.py:461 | So there a call goes on under the name asked for, or under its key when none is, if it is acceptable and no committed row has it |
| `NewUsers.TheRunWritesTheRow` | src/config/authorization/mapper.py:366-373 | And its insert is of that row exactly when neither the name nor the key has a committed row |
| `Usernames.EveryCandidateIsAValidUsername` | src/config/authorization/mapper.py:499-524 | Whatever a token claims, every name that may be written is non-empty, bounded, free of unsafe characters and of hyphens at either end |
| `Usernames.SanitizingAValidNameKeepsIt` | src/config/authorization/mapper.py:517-524 | Beside `Usernames.EveryCandidateIsAValidUsername`: sanitizing leaves a valid name as it is |
| `Usernames.WhatANameIsRenderedAs` | src/config/authorization/mapper.py:517-524 | For all text and any result: every unsafe character a hyphen, hyphens cut at both ends, cut to 150 characters and cut of hyphens again, and nothing else is the rendering |
| `Usernames.WhatTextIsRead` | src/config/authorization/mapper.py:461-463 | A claim read as text is what is left of it between whitespace, and blank when it is absent or no text |
| `Usernames.Candidates` | src/config/authorization/mapper.py:632-633 | The desired name first, no name twice, and no name but the three |
| `Usernames.TheFirstFreeNameIsTaken` | src/config/authorization/mapper.py:584-609 | A name is found exactly when one is free, all before it are held, and the desired one is held whenever it is not the one found |
| `FirstSightings.KeysAreUnique` | src/django_service/users/models.py:27-34 | In every interleaving both columns are unique over committed and pending rows together |
| `FirstSightings.OneKeyOneRow` | src/config/authorization/mapper.py:256-272 | All callers that return for one key, and did not roll back, have the same row |
| `FirstSightings.NoRowChangesItsKeys` | src/config/authorization/mapper.py:354-383 | Between any two points of a run no committed row disappears or changes its subject or username |
| `FirstSightings.ALostInsertEndsWell` | src/config/authorization/mapper.py:372-373 | A caller whose insert conflicted next gets the row of its key if there is one, and otherwise the named refusal with another identity's row holding a candidate |
| `FirstSightings.RefusalsHaveReasons` | src/config/authorization/mapper.py:415-423 | In every reachable state a call refused for its name has every candidate held, or its chosen one in another identity's hands; a call refused as deactivated has a row of its key; no other refusal occurs |
| `FirstSightings.OnlyALostInsertReturnsADeactivatedRow` | src/config/authorization/mapper.py:267-270 | Over every run, a step hands a call a deactivated row exactly when it is the re-read after a lost insert and the key's row is deactivated before it |
| `FirstSightings.TheRowWasTurnedOffAfterTheLook` | src/config/authorization/mapper.py:415-429 | In every run such a row was not there at the call's own look at the table, and a deactivation of it, or an entry of it already off, stands among the steps since |
| `FirstSightings.ADeactivatedRowCanBeReturned` | src/config/authorization/mapper.py:256-429 | A run in which that happens, for any claims with a key that can be stored, presented by both callers |
| `FirstSightings.AloneTheStepsAreTheMethod` | src/config/authorization/mapper.py:256-272 | The interleaved steps of one call, run alone, end as the method does: same table, same row or refusal |
| `GroupSync.Authorization.SyncAuthorization` | src/config/authorization/mapper.py:705-792 | The user's groups end as exactly the asserted names that exist, the flags follow their groups, the report is the exact differences, the group table and other users are untouched, and an absent claim changes nothing; a token with the configured name as a key, dots or not, that holds a list of names, ends with exactly the groups of those names |
| `GroupSync.Authorization.Apply` | src/config/authorization/mapper.py:748-761 | The writes of one sync, additions and then removals, both flags set or cleared |
| `GroupSync.Authorization.SyncOncePerEpoch` | src/config/authorization/mapper.py:865-917 | Which of the six endings a call has, for every input, and that only a first sighting that syncs writes anything: epoch row, groups and both flags together |
| `GroupSync.TheDifferencesAddUp` | src/config/authorization/mapper.py:733-752 | Adding the missing and removing the revoked leaves exactly the asserted existing groups |
| `GroupSync.TheOutcomeDescribesTheSync` | src/config/authorization/mapper.py:738-780 | `added`, `removed` and `ignored` are the three differences, duplicate-free, in first-assertion or sorted order |
| `GroupSync.TheOutcomeIsUnique` | src/config/authorization/mapper.py:774-780 | That description fits one report only |
| `GroupSync.ASecondSyncChangesNothing` | src/config/authorization/mapper.py:733-761 | A second sync of the same claims adds and removes nothing and keeps both flags |
| `GroupSync.SortedNames` | src/config/authorization/mapper.py:745 | The removed names, each once, in the order of strings |
| `GroupSync.PrecedesIsByCodePoint` | src/config/authorization/mapper.py:745 | That order is by the first character in which two strings differ, a prefix first |
| `EpochRuns.EpochsAndSyncsAreInBijection` | src/config/authorization/mapper.py:874-917 | In every reachable state a `jti` is recorded exactly when one sync of it committed, exactly one, and for the epoch's owner |
| `EpochRuns.AWantIsWhatTheNamesConfer` | src/config/authorization/mapper.py:733-761 | What a sync in a run wants is what its names confer: the rows of the asserted groups there are, and each flag exactly when its own designated group is asserted and there |
| `EpochRuns.OwnersNeverChange` | src/config/authorization/mapper.py:914-916 | Between any two points of a run no recorded epoch goes or changes its owner |
| `EpochRuns.EveryLaterSightingWritesNothing` | src/config/authorization/mapper.py:941-951 | After a `jti` is recorded every sighting of it writes no epoch, membership or flag, is nothing to do for the owner and is refused to anybody else |
| `EpochRuns.AnUndoneSightingLeavesNoEpoch` | src/config/authorization/mapper.py:917 | A sync refused for its group claim, or rolled back after any of its statements, leaves no epoch, membership or flag, and a waiting authentication with the same `jti` may then record it |
| `EpochRuns.EachJtiSyncsOnce` | src/django_service/users/models.py:76 | Of two authentications that hold or have committed an epoch, in any combination, no two have one `jti` |
| `SyncRuns.OnlyCommittedSyncsMoveAuthority` | src/config/authorization/mapper.py:718-761 | Between any two points of a run a user with no sync committed in between keeps every membership and both flags |
| `SyncRuns.FlagsAreTheLastSyncs` | src/config/authorization/mapper.py:755-761 | In every reachable state a user's flags are those of the last committed sync of that user, or what they were at the start |
| `SyncHistory.WhatACommitLeaves` | src/config/authorization/mapper.py:733-761 | Of every commit in every run: no sync of the user missed, exactly what it asserts; one missed, a crossing with what that one left; in general a crossing exactly when its statements cover what is there; its own flags always |
| `SyncHistory.TheMembershipsReplayTheLog` | src/config/authorization/mapper.py:733-752 | Between any two points of a run, with any other calls, refusals and rollbacks: when each committed sync of a user read in between and missed at most one other, the memberships are a function of the log of those syncs |
| `SyncHistory.TwoSyncsOfOneUserCross` | src/config/authorization/mapper.py:733-761 | With two such syncs and whatever else runs: the later one's memberships when it read after the earlier's commit, the two crossed on what was held at first when it read before; the later one's flags |
| `SyncRuns.ACommitCrossesExactlyWhenItCovers` | src/config/authorization/mapper.py:741-752 | The exact condition for a crossing, on what the sync has inserted and deleted and on what is held by then |
| `SyncRuns.WhenACrossingSettles` | src/config/authorization/mapper.py:733-752 | Beside `SyncHistory.WhatACommitLeaves`: exactly when crossed memberships are what the later sync asserts, and exactly when the earlier; after a fresh read they are the later one's, and over no memberships they are the union |
| `CrossingRuns.TwoSyncsCanCross` | src/config/authorization/mapper.py:733-761 | Whenever two first sightings of a user are recorded and nobody else syncs that user, some schedule commits both with neither having seen the other |
| `CrossingRuns.ThreeSyncsCanLoseTheLast` | src/config/authorization/mapper.py:733-761 | Whenever three are, and the second asserts what the first would add, some schedule commits the first last and leaves none of those groups but what the third asserts |
| `CrossingRuns.TheLastSyncCanBeLost` | src/config/authorization/mapper.py:865-917 | So from every table of memberships, for any three such tokens of any user, arrival and epochs included |
| `CrossingRuns.ALastSyncIsLost` | src/config/authorization/mapper.py:733-761 | An instance: the last committed sync asserts the one group there is and its user holds nothing |
| `SyncRuns.AloneTheStepsAreTheGate` | src/config/authorization/mapper.py:865-917 | The interleaved steps of one authentication, run alone, end as the gate does: epoch, committed sync, memberships and flags as asserted exactly when it synced, and nothing written otherwise |
| `Claims.ResolveClaim` | src/config/authorization/claims.py:150-159 | The loop computes what a claim reads as: the literal key first and then the dotted walk, null for anything missing |
| `Claims.AClaimIsReadAtItsName` | src/config/authorization/claims.py:150-159 | For every payload and every name, dots included: a key of that very spelling gives its value whatever else is there; without one the value is where a chain of mappings leads along the parts of the name, and nowhere else |
| `Claims.WhatAGroupClaimAsserts` | src/config/authorization/claims.py:188-195 | Exactly which names a claim asserts: of a list what each element reads as, of text or a whole number the one name it reads as, of anything else none |
| `Claims.AListedClaimIsRead` | src/config/authorization/claims.py:188-195 | A list of names under the configured name itself is read as it stands |
| `Claims.WhatReadsAsAName` | src/config/authorization/claims.py:198-218 | Text with something left when stripped reads as that, a whole number as its decimal form, and nothing else as a name |
| `Claims.WhatAnIdentityKeyReads` | src/config/authorization/claims.py:198-218 | The same of the identity key, whose claim is no list |
| `Claims.DecimalSpellsTheNumber` | src/config/authorization/claims.py:214-217 | The decimal form is digits without a leading zero that stand for the number, after a sign when it is below zero |
| `Claims.OneUnreadableElementDeniesTheClaim` | src/config/authorization/claims.py:188-218 | A list of groups reads exactly when each element reads as a name, and then element by element |
| `Personas.ClaimsPayload.SetAt` | src/config/local_dev/personas.py:381-390 | The in-place recursion, which writes each level's empty mapping before it checks the level: on success the payload is the one written at the name, on a refusal it is what it was, level defaults included |
| `Personas.ClaimsPayload.Write` | src/config/local_dev/personas.py:337-345 | One claim written in place equals a write at all the segments of its name, or leaves the payload as it was |
| `Personas.ANewMappingNeverRefuses` | src/config/local_dev/personas.py:386-390 | Below a mapping made on the way no write is refused, so no refusal leaves an empty mapping behind |
| `Personas.BuildClaims` | src/config/local_dev/personas.py:337-345 | The payload built step by step is the two writes over the profile, or a refusal |
| `PersonaSignIns.WhichNamesAPersonaAsserts` | src/config/local_dev/personas.py:312 | A placeholder becomes its configured name and any other group itself; each name comes once, where it first arises |
| `PersonaSignIns.WhatAPersonaSignsInWith` | src/config/local_dev/personas.py:337-345 | Whatever two names are configured, a built payload holds the subject and the names at theirs, `preferred_username`, `email` and `name` with the persona's own texts where nothing is written over them, and no other value anywhere |
| `Personas.TheWriterSplitsAsTheReader` | src/config/local_dev/personas.py:381-390 | Writing at the first dot, level by level, is writing at all the segments the reader splits the name into |
| `Personas.ReadAfterWrite` | src/config/local_dev/personas.py:381-390 | What was written at a name is read there |
| `Personas.WriteElsewhere` | src/config/local_dev/personas.py:381-390 | A write is not seen at names that are not nested with it |
| `Personas.RefusedExactlyThroughAValue` | src/config/local_dev/personas.py:384-390 | A write is refused exactly when a proper prefix of its name holds a value other than a mapping |
| `Personas.AWriteAddsOneValue` | src/config/local_dev/personas.py:381-390 | A write adds its one value and no other |
| `Personas.TheLiteralReadShadowsNothing` | src/config/authorization/claims.py:150-159 | With dot-free keys the literal-key read never shadows a dotted name |
| `Personas.BuildRefusesExactlyWhen` | src/config/local_dev/personas.py:337-345 | For any persona and any two names, exactly when building is refused |
| `Personas.BuildThenReadRoundTrips` | src/config/local_dev/personas.py:337-390 | For any persona and any two names, both readers read back what was written exactly when the names are compatible |
| `JwksStore.JWKSKeyStore.GetSigningKey` | src/config/authorization/jwks.py:646-661 | One call, undisturbed: the served key or the refusal, and the whole cache afterwards |
| `JwksStore.JWKSKeyStore.ReadUnexpired` | src/config/authorization/jwks.py:688-691 | A key is read exactly while its document is younger than the TTL |
| `JwksStore.JWKSKeyStore.Refresh` | src/config/authorization/jwks.py:708-759 | The three outcomes and the cache after each; only a usable document replaces the keys |
| `JwksStore.TheIndexHoldsTheLastKeyOfEachKid` | src/config/authorization/jwks.py:787-796 | The index holds exactly the declared `kid`s, each with the last key that declares it |
| `JwksServing.TheIndexIsWhatIsPublished` | src/config/authorization/jwks.py:787-796 | A key is under a `kid` exactly when the document publishes it last under that `kid`, which is not blank |
| `JwksRuns.TheCacheIsTheNewestDocument` | src/config/authorization/jwks.py:646-661 | In every reachable state of any number of threads the cache is the index of the newest successful document, and each call's outcome is its own refresh's |
| `JwksRuns.NewestIsTheLastSuccess` | src/config/authorization/jwks.py:744-759 | The newest document is the last success of the run, or there is none |
| `JwksRuns.OnlyASuccessMovesTheCache` | src/config/authorization/jwks.py:708-759 | Beside `JwksRuns.TheCacheIsTheNewestDocument`: failed, empty and rate-limited refreshes leave the keys and their age unchanged |
| `JwksRuns.AnswersFollowTheNewestDocument` | src/config/authorization/jwks.py:646-661 | A served key is the newest document's own, a look is refused exactly when that document does not publish the `kid`, and the reason is that of the call's own refresh |
| `JwksRuns.RateLimitedBehindAFetchStillServes` | src/config/authorization/jwks.py:646-661 | A caller rate-limited behind another thread's fetch of its `kid` gets the key |
| `JwksRuns.ADroppedKidIsNotServed` | src/config/authorization/jwks.py:744-759 | A `kid` dropped by a success is not served until a later success publishes it |
| `JwksRuns.TheFastPathServesFreshKeysOnly` | src/config/authorization/jwks.py:688-691 | A key served without a refresh comes from a success younger than one TTL |
| `JwksServing.AnAnswerNeedsNoRefreshExactlyWhen` | src/config/authorization/jwks.py:646-691 | In every run a call is answered without a refresh exactly when the newest document is younger than the TTL and publishes its `kid`, and with that key |
| `JwksServing.ARefreshFetchesExactlyWhenNoneIsRecent` | src/config/authorization/jwks.py:708-742 | In every run a refresh makes no fetch exactly when some fetch of the run is less than a window old; otherwise it fetches |
| `JwksServing.AMissAfterAWindowIsServed` | src/config/authorization/jwks.py:646-661 | A caller whose miss comes a window or more after every fetch, while the location publishes its `kid`, gets that key |
| `JwksServing.EachRefusalHasItsReason` | src/config/authorization/jwks.py:650-661 | Why a call is refused, by its own refresh: limited, a fetch that brought no key, or a `kid` the newest document does not publish |
| `JwksRuns.FetchesAreAWindowApart` | src/config/authorization/jwks.py:708-742 | Over every run with a constant window any two outbound fetches are at least one window apart, successful or not |
| `JwksRuns.TheRateIsBounded` | src/config/authorization/jwks.py:708-742 | A closed interval of length L holds at most floor(L/W)+1 of them |
| `JwksLocation.UnderIsSegmentPrefix` | src/config/authorization/jwks.py:392-414 | On rooted paths, being under an anchor is exactly a prefix of segments with no `..` on either side |
| `JwksLocation.UnderIsAPreorder` | src/config/authorization/jwks.py:392-398 | It is reflexive exactly on paths without `..`, and transitive |
| `JwksLocation.TheConventionExtendsThePath` | src/config/authorization/jwks.py:241-272 | With no explicit location the conventional one keeps scheme and authority and extends the path |
| `JwksLocation.AnExplicitLocationWins` | src/config/authorization/jwks.py:241-272 | A configured location that is not blank is used stripped, whatever the issuer |
| `JwksLocation.OtherwiseTheIssuerDecides` | src/config/authorization/jwks.py:241-272 | Otherwise any issuer gives itself, stripped and without its last slashes, and `/.well-known/jwks.json`; a blank one gives none |
| `JwksLocation.DerivingKeepsTheOrigin` | src/config/authorization/jwks.py:348-353 | A location derives exactly when both parse, scheme and host are an http or https issuer's own, the ports named or left to the scheme are one, and its path is at or beneath the issuer's |
| `JwksLocation.WhatEscapes` | src/config/authorization/jwks.py:392-398 | A path escapes exactly when a `..` stands between two slashes, or between a slash and an end |
| `JwksLocation.TheConventionDerives` | src/config/authorization/jwks.py:348-353 | It derives from its issuer exactly when the issuer's path has no `..` segment |
| `JwksLocation.ADotDotIssuerAnchorsNothing` | src/config/authorization/jwks.py:392-414 | An issuer whose conventional location does not derive from it |
| `JwksLocation.BoundaryIsSegmentPrefix` | src/config/authorization/jwks.py:392-398 | Continuing a path at a slash is extending its segments |
| `ViewCandidates.CollectCandidates` | src/config/startup/stage_two.py:257-273 | The two loops over `layers` and `seen` compute the candidates of a view |
| `ViewCandidates.CollectLayers` | src/config/startup/stage_two.py:257-263 | The first loop collects the wrapper chain and terminates on any graph |
| `ViewCandidates.SweepAttached` | src/config/startup/stage_two.py:264-273 | One layer's attachments: those not seen, once each, in order |
| `ViewCandidates.CandidatesAreTheChainAndItsAttachments` | src/config/startup/stage_two.py:257-273 | A view contributes exactly its callable `__wrapped__` chain up to the first repeat and the functions, methods and classes those layers hold, each once |
| `ViewCandidates.TheChainIsUnique` | src/config/startup/stage_two.py:257-263 | There is one such chain |
| `ViewCandidates.CandidatesStandOutermostFirst` | src/config/startup/stage_two.py:257-273 | They stand in order: each layer before what it holds, and that, in the order it is held, before the next layer |
| `UrlWalk.Traversal.Descend` | src/config/startup/stage_two.py:325-335 | The recursion with its shared `seen` set refines the functional walk and terminates on any finite graph |
| `UrlWalk.IterViewCallables` | src/config/startup/stage_two.py:299 | The walk from the root with an empty `seen` |
| `UrlWalk.TheWalkExpandsWhatIsReachable` | src/config/startup/stage_two.py:325-335 | Cycles included, each reachable resolver is expanded exactly once, under a real path's prefix, and no other is |
| `UrlWalk.YieldsAreTheContributions` | src/config/startup/stage_two.py:325-335 | What is yielded is, with multiplicity, the own views of the expanded resolvers |
| `UrlWalk.YieldsStandInDeclarationOrder` | src/config/startup/stage_two.py:325-335 | And they stand in declaration order: each yield has a place in the configuration, and the places are in order |
| `UrlWalk.TheYieldsAreTheRoutedViews` | src/config/startup/stage_two.py:299-335 | Exactly the objects of the views routed beneath a reachable resolver are yielded, each under the concatenation along a real path |
| `UrlWalk.EveryMountIsWalkedIffThereIsOnePrefix` | src/config/startup/stage_two.py:325-335 | A reachable resolver is expanded under every prefix it is really mounted at exactly when those prefixes are one |
| `UrlWalk.YieldedExactlyWhereExpanded` | src/config/startup/stage_two.py:325-335 | A route and an object are yielded together exactly when an expansion routes the object there |
| `UrlWalk.WithOnePrefixEveryRouteIsYielded` | src/config/startup/stage_two.py:299-335 | With one prefix for each reachable resolver, the yields are exactly the real routes of the recognizable objects |
| `UrlWalk.RoutesAreLostExactlyBelowTwoPrefixes` | src/config/startup/stage_two.py:325-335 | Each resolver having its own pattern, one beneath the root is walked at every mount exactly when the resolvers that list it are all reached under one prefix |
| `UrlWalk.ASharedResolverLosesARoute` | src/config/startup/stage_two.py:325-335 | An instance: a module included at two places and what it includes in turn, with a real route that no yield carries |
| `UrlRefusals.RefuseCredentialMintingRoute` | src/config/startup/stage_two.py:378-388 | It refuses, naming a real route, exactly when the token endpoint, or a class built from its class, is among the objects of a routed view |
| `UrlRefusals.RefuseLocalSignInRoute` | src/config/startup/stage_two.py:425-437 | It refuses, naming a real route, exactly when an object defined in the local sign-in package, or beneath it, is among them |
| `UrlRefusals.DefinedInIsBeneath` | src/config/startup/stage_two.py:425-437 | Beside `UrlRefusals.RefuseLocalSignInRoute`: being defined in a package or beneath it is having a module whose dotted names start with the package's |
| `Absence.FoldObservations` | src/django_apps/conda_sentinel/collectors/absence.py:334-359 | The pass leaves one accumulator for each package asked for that has a row, holding the fold of that package's rows |
| `Absence.Take` | src/django_apps/conda_sentinel/collectors/absence.py:334-359 | One wanted row advances its own package's accumulator and no other |
| `Absence.PackageHistory.RecordPresence` | src/django_apps/conda_sentinel/collectors/absence.py:362-382 | The three columns after one row |
| `Absence.FoldTellsTheWholeHistory` | src/django_apps/conda_sentinel/collectors/absence.py:336-382 | For every stream and package the fold's reading is the whole-history one: absent, since, last listed, listed since |
| `Absence.TheReadingIsUnique` | src/django_apps/conda_sentinel/collectors/absence.py:108-132 | The whole-history definition fits one reading only |
| `Absence.NeverBothSet` | src/django_apps/conda_sentinel/collectors/absence.py:158-170 | `since` and `listed_since` are never both set |
| `AbsenceOrder.TheStreamTellsTheTable` | src/django_apps/conda_sentinel/collectors/absence.py:301-309 | On a sorted stream the four answers are statements about instants of the rows: still absent after every listing, the least such instant, the greatest listing, the least listing after every absence |
| `AbsenceOrder.FilterOrdered` | src/django_apps/conda_sentinel/collectors/absence.py:301-309 | Narrowing and then sorting is sorting and then narrowing |
| `AbsenceOrder.OneReadingTellsTheTable` | src/django_apps/conda_sentinel/collectors/absence.py:108-132 | Beside `AbsenceReads.AReadingIsOfTheSetOfRows`: the statements about instants fit one reading only |
| `AbsenceReads.TheReadingTellsTheTable` | src/django_apps/conda_sentinel/collectors/absence.py:301-359 | In whatever order the table holds its rows, sorting and folding them gives the reading that the rows up to the cut-off tell |
| `AbsenceReads.AReadingIsOfTheSetOfRows` | src/django_apps/conda_sentinel/collectors/absence.py:301-359 | Two tables with the same rows up to the cut-off, in any two orders, read alike |
| `AbsenceReads.HistoriesAt` | src/django_apps/conda_sentinel/collectors/absence.py:270-282 | Reading a named set in chunks gives one history for each package of it with a row of the table at or before the cut-off, and for no other, and it is that of the unrestricted sorted fold |
| `AbsenceReads.WhatTheQueryReads` | src/django_apps/conda_sentinel/collectors/absence.py:301-309 | Beside `AbsenceReads.AbsenceAt`: the query reads exactly the rows of the table at or before the cut-off, of the packages named if any are, by time and then by key |
| `AbsenceReads.AbsenceAt` | src/django_apps/conda_sentinel/collectors/absence.py:385-407 | Exactly the packages asked for with a row of the table at or before the cut-off are answered, and the four answers are statements about those rows alone |
| `AbsenceReads.NarrowingKeepsHistories` | src/django_apps/conda_sentinel/collectors/absence.py:270-309 | Narrowing the query to a set changes no history in it |
| `AbsenceReads.OnlyItsOwnRows` | src/django_apps/conda_sentinel/collectors/absence.py:334-359 | A package's history is a function of its own rows |
| `AbsenceReads.FoldKeepsTheNewestRow` | src/django_apps/conda_sentinel/collectors/absence.py:343-357 | The accumulator's newest row is the newest of the stream, and the breadth is that row's |
| `AbsenceReads.BreadthIgnoresOrder` | src/django_apps/conda_sentinel/collectors/absence.py:343-357 | It does not depend on the order of the stream |
| `AbsenceReads.SilentRowsSayNothing` | src/django_apps/conda_sentinel/collectors/absence.py:374-382 | Rows in other states, inserted anywhere in a stream, change no absence reading |
| `AbsenceReads.ASilentRowInTheTableSaysNothing` | src/django_apps/conda_sentinel/collectors/absence.py:301-382 | Nor does such a row in the table, wherever the sort puts it |
| `AbsenceReads.LaterRowsAreInvisible` | src/django_apps/conda_sentinel/collectors/absence.py:301-309 | Rows after the cut-off change nothing, wherever they stand in the table |
| `AbsenceStamping.MarkInventoryAbsence` | src/django_apps/conda_sentinel/collectors/absence.py:443-463 | The grouped bulk updates equal a pointwise one: each row of the run gets the pair that the table's rows at or before the cut-off tell of its own package, other runs are untouched, and the count is that of the run's rows whose package is absent |
| `AbsenceStamping.ClearedRowsCarryOnlyTheirAbsence` | src/django_apps/conda_sentinel/collectors/absence.py:443-463 | Beside `AbsenceStamping.MarkInventoryAbsence`: from cleared columns a row ends with the pair the table tells of its package exactly when that package is absent, and null otherwise |
| `Merge.MergeArraysInPlace` | _bmad/scripts/config_utils.py:57-76 | The two loops with their index compute the keyed merge |
| `Merge.MergeStructurally` | _bmad/scripts/config_utils.py:79-88 | The recursive merge into a copied table, in whatever key order, is the structural merge |
| `Merge.MergeAllLayers` | _bmad/scripts/config_utils.py:91-95 | The layers merged left to right, a refusal being final |
| `MergePlaces.WhereMergedValuesComeFrom` | _bmad/scripts/config_utils.py:79-88 | At every place: where the override says nothing the base's value stays, where the two are not both tables or both lists the override's is there, unkeyed lists are the base's items and then the override's, and nothing else is anywhere |
| `MergePlaces.TheOverridesLeavesWin` | _bmad/scripts/config_utils.py:88 | Beside `MergePlaces.WhereMergedValuesComeFrom`: a leaf of the override is in the merge, at its place |
| `MergePlaces.TheLastLayerThatSpeaksDecides` | _bmad/scripts/config_utils.py:91-95 | Over any layers, the last one that holds a leaf at a place, with nothing later at or above it, decides what is there |
| `MergePlaces.EveryLeafIsOfALayer` | _bmad/scripts/config_utils.py:91-95 | And every leaf of the merge is some layer's, at that place |
| `MergePlaces.WhichFieldKeys` | _bmad/scripts/config_utils.py:37-54 | Beside `MergePlaces.WhereMergedValuesComeFrom`: a list is keyed by `code`, or else by `id`, when it is not empty and each item is a table with that entry; it is refused exactly when such an entry is no text or empty |
| `MergePlaces.WhyAListIsRefused` | _bmad/scripts/config_utils.py:42-52 | The refusal names the field, and says what is wrong with its first bad entry |
| `Merge.AKeyedMergeListsBaseThenNew` | _bmad/scripts/config_utils.py:62-76 | Base keys in order, then new keys in first-occurrence order, each entry the last override's item where there is one |
| `MergePlaces.KeyedItemsComeFromTheLastOverride` | _bmad/scripts/config_utils.py:62-76 | Position by position: the last override item with the identifier of the item there if there is one, the base's own item otherwise |
| `Merge.NewKeysAreNew` | _bmad/scripts/config_utils.py:68-75 | The new keys are those of the override the base lacks, without duplicates |
| `Merge.DuplicatesComeFromTheBase` | _bmad/scripts/config_utils.py:64-67 | The merged keys are distinct exactly when the base's are |
| `MergeLaws.MergeKeyedIsAssociative` | _bmad/scripts/config_utils.py:62-76 | Keyed merging is associative for any keys at all |
| `MergeLaws.MergingKeepsTheShape` | _bmad/scripts/config_utils.py:79-88 | Layers of one shape merge without a refusal, to that shape |
| `MergeLaws.MergeIsAssociative` | _bmad/scripts/config_utils.py:79-88 | On layers whose shapes agree the merge is associative |
| `MergeLaws.TheEmptyTableIsTheIdentity` | _bmad/scripts/config_utils.py:91-95 | The empty table is the identity on both sides of any table |
| `MergeLaws.LayersGroupFreely` | _bmad/scripts/config_utils.py:91-95 | Layers of one shape may be merged in any grouping |
| `MergeLaws.AgreementOnTablesIsNeeded` | _bmad/scripts/config_utils.py:79-88 | Without agreement on what is a table the groupings differ |
| `MergeLaws.UniqueKeysAreNeeded` | _bmad/scripts/config_utils.py:37-54 | Nor with a repeated key: two lists of one field, one repeating a key, and an empty third, where one grouping is refused and the other not |
| `Memlog.SplitMemlog` | _bmad/scripts/memlog.py:90-107 | The loop over the frontmatter computes the parse, with its two format errors |
| `MemlogFormat.WhatAFileSays` | _bmad/scripts/memlog.py:90-107 | Told of the lines: which two texts say nothing, and otherwise the fields between the first line and the next fence and the body after it |
| `MemlogFormat.WhatTheFrontmatterSays` | _bmad/scripts/memlog.py:102-106 | Each key once, where a line first names it, with what the last line to name it has after its first colon; both stripped, lines without a colon skipped |
| `Lines.SplitLinesAreTheBrokenParts` | _bmad/scripts/memlog.py:96 | The lines of a text are its break-free parts, each ended by one break or a CRLF, the last perhaps by the end of the text; no others fit |
| `Memlog.SplitUndoesRender` | _bmad/scripts/memlog.py:90-113 | Whatever values and body hold, the same fields come back in the same order, each collapsed to one stripped line, and no value ends the fence early |
| `MemlogFormat.HowAFileIsLaidOut` | _bmad/scripts/memlog.py:110-113 | Line by line: a fence, each key with its value's lines joined by spaces, a fence, a blank line, and the body without its last newlines |
| `Memlog.TheBodyComesBackIffItBreaksByNewlines` | _bmad/scripts/memlog.py:107-113 | The body comes back without outer newlines exactly when newlines are its only breaks |
| `Memlog.RenderSplitRenderIsAFixedPoint` | _bmad/scripts/memlog.py:90-113 | Rendering what was split from a rendering is a fixed point |
| `MemlogRuns.MemlogFile.Init` | _bmad/scripts/memlog.py:145-161 | Creates the file, or writes nothing: when it exists, or a field has no `=` |
| `MemlogFormat.WhatInitIsGiven` | _bmad/scripts/memlog.py:151-157 | Arguments are refused exactly when one has no `=`; otherwise each key once, where it is first named, with the last value given it, both stripped |
| `MemlogRuns.MemlogFile.Apply` | _bmad/scripts/memlog.py:164-187 | `append` and `set` rewrite the file to the rendering of what they parsed and changed and acknowledge the number of entries it now has, or write nothing |
| `MemlogFormat.AnEntryCarriesItsText` | _bmad/scripts/memlog.py:167-172 | The appended line is a dash, the tag in parentheses if there is one, and the words of the text in order with one space between, and no other line is |
| `MemlogFormat.AnEntryHasTheWordsOfItsText` | _bmad/scripts/memlog.py:167-172 | After its tag the line has exactly the words of the argument, in order |
| `MemlogFormat.WhereAnEntryGoes` | _bmad/scripts/memlog.py:173 | After all of a body but its last newlines, or alone when the body is blank |
| `MemlogFormat.WhatARemovalChanges` | _bmad/scripts/memlog.py:116-119 | A stamp takes out the one field `updated` was in; every other stays, in its order |
| `MemlogFormat.TheCountIsOfEntryLines` | _bmad/scripts/memlog.py:132-133 | The number acknowledged is that of the lines that begin as entries do |
| `Lines.WordsAreTheSpacedParts` | _bmad/scripts/memlog.py:167 | The words of a text are its parts between whitespace, and no others fit |
| `MemlogRuns.ACommandRefinesItsLog` | _bmad/scripts/memlog.py:164-187 | Each well-formed command takes a file that represents a log to one that represents the log with one more entry, or one field set |
| `MemlogRuns.InitRepresents` | _bmad/scripts/memlog.py:145-161 | For all arguments whose keys are free of colons and line breaks, what `init` writes represents its fields, each key once and stripped, and no entry |
| `MemlogRuns.InitFieldsAreKeyed` | _bmad/scripts/memlog.py:151-157 | Whatever arguments `init` accepts, its fields have stripped keys, each once |
| `MemlogRuns.TheFileIsTheLog` | _bmad/scripts/memlog.py:164-187 | So does the file after any sequence of commands |
| `MemlogRuns.AppendOnlyOverWholeRuns` | _bmad/scripts/memlog.py:116-187 | After any run the lines are the earlier entries and then the appended ones in order, counted one each, every field holds its last set value, and `updated` is last |
| `MemlogFormat.TheFileHoldsTheRun` | _bmad/scripts/memlog.py:116-187 | After any run the lines are those before it and then one for each append, in order, each carrying its own text; a field set holds its last value flattened, any other what it held, and `updated` the time of the last command |
| `MemlogRuns.TheLogHoldsTheLastValues` | _bmad/scripts/memlog.py:180-187 | Each field of the abstract log is the last one set |
| `MemlogRuns.AnAppendAddsOneLineIffItsTagIsOneLine` | _bmad/scripts/memlog.py:167-175 | An append adds exactly its one line exactly when its tag is free of line breaks |
| `Publish.VerifyExisting` | _bmad/scripts/render_skill.py:270-292 | The verdict on an existing directory: the first of the four checks it fails, or acceptance |
| `Publish.AcceptedExactlyWhenItHoldsTheOutputs` | _bmad/scripts/render_skill.py:270-292 | Beside `RenderOutputs.AnIntactGenerationIsAccepted`: with an injective digest a directory is accepted exactly when it is the snapshot |
| `Publish.Generations.Stage` | _bmad/scripts/render_skill.py:301-308 | All outputs and then the manifest, or a disk error part way |
| `Publish.Generations.Publish` | _bmad/scripts/render_skill.py:295-319 | For every mix of disk errors, a failing rename and a rival's rename: the destination is written whole or not at all, no staging directory stays, and a normal return means the destination holds the caller's outputs |
| `PublishRuns.TheDestinationIsAbsentOrComplete` | _bmad/scripts/render_skill.py:295-319 | With any publishers, errors and crashes the destination is absent or one whole snapshot |
| `PublishRuns.OncePresentItNeverChanges` | _bmad/scripts/render_skill.py:309-316 | Between any two points of a run it never changes once present |
| `PublishRuns.AReturnMeansItIsThere` | _bmad/scripts/render_skill.py:297-314 | Every normal return means it holds the caller's outputs and manifest |
| `PublishRuns.ReturnsAgree` | _bmad/scripts/render_skill.py:297-314 | Publishers that return wanted the same thing published |
| `PublishRuns.OneSnapshotNeverCollides` | _bmad/scripts/render_skill.py:270-319 | Publishers of one snapshot never report each other: one that raises met a disk error of its own |
| `PublishRuns.APublisherAloneSucceeds` | _bmad/scripts/render_skill.py:295-319 | From any reachable state with nothing at the destination a publisher's own steps can end in a return with its whole snapshot there and no staging left |
| `PublishRuns.StepKeepsTheInvariant` | _bmad/scripts/render_skill.py:295-319 | Every step keeps: staging holds exactly what was written, the destination is sound, returns are promises |
| `RenderValues.FindConfigValues` | _bmad/scripts/render_skill.py:128-137 | Every leaf under the key, once each, with the dotted path as the search spells it |
| `RenderValues.Lookup` | _bmad/scripts/render_skill.py:46-52 | The loop finds what the dotted names lead to, or nothing |
| `RenderValues.TheValueDecidesTheText` | _bmad/scripts/render_skill.py:178-189 | A customization's text is a function of its resolved value exactly but for an empty list, where the default's kind decides |
| `RenderTexts.ReplaceAllReplaces` | _bmad/scripts/render_skill.py:122 | A replacement puts the text at every place of the mark and changes nothing else; no other result fits |
| `RenderTexts.WhatAConfigValueInserts` | _bmad/scripts/render_skill.py:118-125 | A value inserts its own text with the root at every place of `{project-root}`, and is refused exactly when it is no text, is blank, or held the mark and comes to no absolute path |
| `RenderTexts.NoMarkSurvivesExactlyWhenTheRootIsClean` | _bmad/scripts/render_skill.py:120-125 | No `{project-root}` is left in any resolved value exactly when the root neither holds one nor ends in the start of one |
| `RenderTexts.WhatACustomizationInserts` | _bmad/scripts/render_skill.py:178-189 | Exactly when a customization is accepted, by the kind of its default, and what it then inserts |
| `RenderTexts.WhyACustomizationIsRefused` | _bmad/scripts/render_skill.py:178-189 | Why one is refused: a default without a rule, a value of another kind than its default, or blank text where the default is not |
| `RenderTexts.WhatAListInserts` | _bmad/scripts/render_skill.py:153-161 | A list inserts its items in order, the first line after a dash and the others indented below it; an empty one says `_None._` |
| `RenderTexts.WhatLayersRead` | _bmad/scripts/render_skill.py:72-95 | Review layers are read exactly when each is a table of the right texts and no identifier comes twice; what is kept of each |
| `RenderTexts.WhyALayerIsRefused` | _bmad/scripts/render_skill.py:79-84 | Why a layer is refused: it is no table, its identifier is no text or blank, or a layer before it had the same |
| `RenderTexts.WhatLayersInsert` | _bmad/scripts/render_skill.py:164-175 | A section for each layer with an instruction, in order, with its name, identifier, condition and stripped instruction, or the halting line |
| `RenderIdentity.ResolveReplacements` | _bmad/scripts/render_skill.py:192-229 | Success exactly when each token stands for something, and then both dicts say exactly what; a failure is some token's own |
| `RenderIdentity.ResolveShort` | _bmad/scripts/render_skill.py:140-150 | A short key stands for the one place it is found at; none and several are refused |
| `RenderTexts.WhatATokenStandsFor` | _bmad/scripts/render_skill.py:192-229 | Where each kind of token is read, name by name through the tables, and what that inserts |
| `RenderTexts.WhyATokenIsRefused` | _bmad/scripts/render_skill.py:140-222 | Why a token is refused before its value is looked at: no leaf of that key or more than one, nothing at the path, or no defaults to go by |
| `RenderIdentity.OneSourceOneValue` | _bmad/scripts/render_skill.py:200-228 | Tokens that name one source agree on its value, so overwriting it is no matter |
| `RenderIdentity.LookupAgreesWithTheSearch` | _bmad/scripts/render_skill.py:128-150 | If a lookup of a short key's path finds a leaf, it is the one the search found |
| `RenderIdentity.PlainPathsSplitBack` | _bmad/scripts/render_skill.py:46-52 | And it does find it when no name on the way has a dot and the first is not empty |
| `RenderIdentity.ResolvedValuesDecideReplacements` | _bmad/scripts/render_skill.py:192-229 | Equal sources and resolved values give equal replacements exactly when customizations that resolved to an empty list have defaults of one kind |
| `RenderLayers.LayersDoNotShrink` | _bmad/scripts/config_utils.py:57-95 | A list merged from layers that have lists there is no shorter than the first layer's |
| `RenderLayers.LayeredRendersAgree` | _bmad/scripts/render_skill.py:192-229 | So when no layer overrides a list of tables with a non-list, resolved values decide every replacement |
| `RenderLayers.TheIdentityDoesNotHashTheDefaults` | _bmad/scripts/render_skill.py:357-362 | Two renders of equal resolved values and different text |
| `RenderOutputs.EqualIdentitiesMakeOneSnapshot` | _bmad/scripts/render_skill.py:351-381 | Renders of one identity make the same outputs, and the same manifest, exactly when customizations that resolved to an empty list have defaults of one kind |
| `RenderTexts.WhatARenderWrites` | _bmad/scripts/render_skill.py:232-267 | What one render writes for a source: its prose verbatim and in order, at each token's place what the token stands for, at a snapshot reference the path under the destination |
| `RenderTexts.WhatASourceRendersTo` | _bmad/scripts/render_skill.py:232-267 | Exactly when a source renders, and to what: what its pieces insert, in order and nothing between them |
| `RenderTexts.WhatTheIdentityRecords` | _bmad/scripts/render_skill.py:205-228 | The hashed identity records the value of each token under the name of where it is read, and nothing else |
| `RenderOutputs.AnIntactGenerationIsAccepted` | _bmad/scripts/render_skill.py:270-292 | A later render of an identity accepts its intact generation exactly on that condition, and otherwise reports a collision |

## Left out

- Network and file reads, PyJWT, requests, RSA keys and token minting: a fetch is a document or a failure, a digest an injective function, JSON a codec that reads back what it wrote.
- Django, DRF and allauth, views, templates, settings, logging and telemetry: the tables are maps, unique constraints and transactions.
- Isolation: a statement takes effect at one instant and sees what is committed by then and its own transaction's rows; an insert waits for another's uncommitted insert or delete of the same row, a delete for another's delete, a flag update for another's update of the user. Serialization failures and the database's breaking of a deadlock are not part of this model, so a run may also stop where two syncs wait for each other.
- Other writers of memberships and flags: the run model has those of the gated syncs; an interactive login's sync, or an operator's edit, is one more committed change that it does not interleave.
- Epoch pruning, the `expires_at` column and deletion of users: so the branch of `sync_once_per_epoch` for a constraint violation whose re-read finds nothing is not reached and not modelled.
- Renames of users by an operator: the run model has rows entered and activated or deactivated from outside, and no outside change of a subject or username.
- Which `ConfigError` a table merge reports first, and which of several failing tokens a render reports: the refusal is kept, the choice depends on dictionary order.
- Order of the keys of a TOML table, and TOML parsing.
- Aliasing of nested dictionaries in `_set_dotted`: the payload is one field, and a write to a nested mapping is a write to that field along the path that leads to the mapping; a mapping reachable by two paths does not occur, because the profile is built of text alone.
- The key of the snapshot table: no two rows have one `pk`, which the readings of a table require and the database ensures.
- The parsing of URLs: locations start from scheme, host, port and path; issuers with a query or fragment are not part of the conventional-location theorem.
- Reflection in `_defining_object` and `_attached_objects`: each object of a finite graph carries its kind, its `__wrapped__` and what it holds; Django's own resolver objects become resolver and pattern entries.
- Matching of the token expressions: how a source falls into literal text, tokens and snapshot paths is a parameter; a token never overlaps another.
- Windows paths: an absolute path starts with a slash.
- Unicode: spaces and line breaks are the explicit sets of `Text`, and a universal-newline read of the memlog is taken as done.
- Path separators inside output names: a staging directory is a map from relative names to contents, in which `a` and `a/b` do not exclude each other; `rmtree` is taken to succeed unless the process crashed.
- `write_atomic`: a write of the memlog replaces the file in one step.
- The `reset` method of the key store, and reading the TTL and window from settings: both are parameters of a call.
- `require_usable_cutoff` and the clock of the absence step: the cut-off is a parameter.
- The settings checks of `src/config/startup/stage_one.py`, one refusal per forbidden condition of a deployed settings module; the loader, health probes, group provisioning, the advisory and GitHub collectors, and demo data.
- `Memlog.SplitUndoesRender`: keys must be distinct, stripped and free of colons and line breaks; the commands leave them distinct and stripped, and a key with a colon or a break is not claimed to come back.
- `RenderIdentity.PlainPathsSplitBack`: one direction only, because a path through dotted names may still happen to split into places that exist.
