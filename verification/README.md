# Verified models of modern-admin

Dafny models of the parts of modern-admin that are algorithms and protocols, and
proofs of what they guarantee. `dafny verify dfyconfig.toml` checks everything.
Code that updates things in place is modelled by methods with loops and by
classes, each specified by a function of the state; the properties are proved
about those functions, over all inputs and all interleavings.

| files | subject |
|---|---|
| `RedisStore`, `RedisScripts`, `CacheIndex`, `CacheLifetimes`, `CacheCoherence`, `CacheRevalidate`, `CacheLock`, `BigIntCodec` | the tag-indexed Redis cache: Lua scripts as atomic steps, expiry, epoch fencing, forced refreshes, locks, BigInt values |
| `CacheInvalidation` | which cached HTTP responses a mutation drops |
| `Scanner`, `PropertySearch`, `UiPatcher`, `UiOptions`, `StringLiterals`, `PrintedText`, `PrintedModules`, `PrintedPatches` | the patcher of TypeScript modules: lexer, brace matcher, idempotent edit, string literals; and what they answer for text spelled out of comments, strings and matching brackets |
| `Budget`, `PromiseChain`, `ChainedSections`, `MediaChains`, `SharedStore` | budget reservations across processes, promise chains inside one |
| `Junction`, `M2mDiff`, `M2mDiffResults`, `Hydration` | many-to-many relations: diff, per-record and batched reading |
| `TopN`, `TimeSeries`, `TimeSeriesResults`, `GroupedSeries`, `GroupedLimits`, `GroupedAnswers` | time series of the Prisma and the Drizzle adapter |
| `FilterCompiler`, `FilterOperators`, `FilterMeanings`, `IndexNames` | Prisma `where` objects, relations between filter operators and what each finds, names of constraints |
| `SubscriptionIterator` | the push-to-pull iterator of GraphQL subscriptions |
| `Prelude` | shared data types |

## Findings

Properties that the code or its comments promise and that hold only under a
condition. Each condition is proved exact or comes with a concrete failing case.

- The comment at `packages/cache-redis/src/index.ts:268-270` says a persistent
  value keeps a persistent index. `PEXPIRE … NX` also acts on sets that hold
  persistent values: `CacheIndex.PersistentKeptExactly` gives the exact check,
  `PersistentValueStranded` the loss, and `CacheCoherence.CarefulCacheAgrees` what
  the check buys. `tagTtl: 0` is documented (line 70) to keep tag sets persistent;
  it does so exactly for a persistent value on a set that is new or persistent
  already (`CacheIndex.ZeroTagTtlExactly`).
- `revalidate` in `packages/core/src/actions/cache-runtime.ts:436-450` takes the
  snapshot for its write after the load when the value changed. Each epoch noted
  then keeps the cache coherent exactly when the loaded value is still good or
  another tag has moved (`CacheRevalidate.NoteAgainExactly`, `CoherentExactly`);
  `LateNotingStoresOutdated` is a run from the start that ends with an outdated
  value in the cache and nothing pending.
- A status write without `expectedStatus` can take a task out of `failed`:
  `Budget.AlwaysWithinBudget` bounds the rest. Writes of one shape keep every run
  within the budget exactly when they fail the task or are guarded against failed
  ones (`WritesAreSafeExactly`); `running` after the submission and `cancelled`
  (`packages/nest/src/media-generation.service.ts:255`, `:302`) are neither.
  `UnguardedWriteOverspends` gives the overspending run for every such write and
  every pair of requests that fit only one at a time.
- `applyDiff` leaves one row per submitted identifier exactly when the parent had
  no duplicate foreign keys, and a second call is a no-op exactly when no
  duplicates were left out of the submission.
- The batched hydration reads a missing or null parent key as the empty string,
  the per-record one as the text `undefined` or `null`:
  `Hydration.BatchAgreesExactly` says when that matters, and `ReadingsDiffer` is a
  junction where it does.
- A kept group whose key is `__other__` is overwritten by the collapsed series;
  `SeriesConserve` gives the exact loss. The Drizzle adapter adds collapsed
  averages, minima and maxima up; `GroupedLimits.CollapsedPoint` gives the exact
  excess, and for positive values there is none exactly when at most one dropped
  group has a point in the bucket (`CollapsedPointExactly`). Its groups whose values
  have the same key overwrite each other (`GroupedAnswers.KeysDifferExactly`), and
  its query without groups makes a point of no rows exactly when it counts
  (`UngroupedExactly`).
- `empty` on a required property that is no string is lost exactly when a
  restricting condition on the primary key stands behind every such element
  (`FilterCompiler.CompiledExactly`, `KeyStandsBehind`); `LetThrough` is a row that
  passes wrongly. Where `eq` compares text without regard to case, `in` still
  regards it: it is `eq` of any of its values exactly when they include their own
  case variants (`FilterOperators.InIsAnyEqExactly`); `in` with `abc` misses the row
  with `ABC` that `eq` finds (`InMissesVariant`).
- A failed `bus.subscribe` releases one waiting call of `next`; the others wait
  for ever (`SubscriptionIterator.WaitsForEver` from the start of a run).
- Longest-match splitting of constraint names misses a segmentation exactly when a
  column overtakes a list of others (`IndexNames.FoundExactly`).
- A resource that refers to itself is not its own cache dependent.
- `typescriptString` and `stringLiteralAt` undo each other exactly on strings
  without line terminators; the BigInt codec exactly on trees without an object
  that looks like an encoded BigInt.

## Model

| member | source | states |
|---|---|---|
| `RedisScripts.RedisServer.SetWithTags` | packages/cache-redis/src/index.ts:114-154 | the commands of the set script amount to set algebra: the key leaves its old tag sets, joins the new ones, tag expiries only grow once set; a failed condition changes nothing |
| `RedisScripts.RedisServer.DeleteWithTags` | packages/cache-redis/src/index.ts:156-167 | deleting keys removes their values, reverse sets and memberships, and nothing else |
| `RedisScripts.RedisServer.InvalidateTags` | packages/cache-redis/src/index.ts:91-112 | the nested loops remove the union of the named tags' members, raise each epoch once per naming, and return the number of values that were removed |
| `RedisScripts.CountIsLoss` | packages/cache-redis/src/index.ts:98-112 | the number that is returned is by how much the values have become fewer |
| `RedisScripts.UnlinkOneMore` | packages/cache-redis/src/index.ts:103-105 | one more SREM, which drops a set with its last member, is one more link gone from the index |
| `RedisScripts.LinkOneMore` | packages/cache-redis/src/index.ts:141-149 | SADD with PEXPIRE NX and GT is one more tag linked, whose expiry is the later one |
| `CacheIndex.SetKeepsMirror` | packages/cache-redis/src/index.ts:129-149 | without the clock, tag sets and reverse sets stay exact mirrors after a set, conditional or not |
| `CacheIndex.DeleteKeepsMirror` | packages/cache-redis/src/index.ts:156-167 | the mirror survives deletes |
| `CacheIndex.InvalidateIsExact` | packages/cache-redis/src/index.ts:91-112 | invalidation removes exactly the keys that carry a named tag; all others keep value and memberships; the mirror survives |
| `CacheIndex.IndexOutlivesMembers` | packages/cache-redis/src/index.ts:129-152 | over every run with a clock, each live expiring value is listed under each of its tags, whose sets expire no earlier, and its reverse set expires with it |
| `CacheIndex.InvalidationFinds` | packages/cache-redis/src/index.ts:98-110 | therefore naming any tag of such a value removes it |
| `CacheIndex.PersistentKeptExactly` | packages/cache-redis/src/index.ts:267-270 | persistent values stay findable across a step if and only if no expiring value joins their tags and they join no expiring tag set |
| `CacheIndex.PersistentValueStranded` | packages/cache-redis/src/index.ts:145-148 | after an expiring value joins a persistent value's tag and time passes, invalidating the tag leaves the persistent value in place |
| `CacheIndex.PersistentValueExample` | packages/cache-redis/src/index.ts:141-149 | such a state is one set away from an empty database |
| `CacheIndex.ZeroTagTtlExactly` | packages/cache-redis/src/index.ts:64-71 | with `tagTtl: 0` a tag set ends persistent if and only if the value is persistent and the set was new or persistent already |
| `CacheIndex.ZeroTagTtlExample` | packages/cache-redis/src/index.ts:267-270 | one expiring set with `tagTtl: 0` into the empty database makes its tag set expire |
| `CacheIndex.FoundBefore` | packages/cache-redis/src/index.ts:141-149 | a value that its tag finds after a step was found before it or has just been set: a lost index never comes back by itself |
| `CacheLifetimes.ValueLives` | packages/cache-redis/src/index.ts:266-267 | a value that was set for `ttl` seconds is there `ms` milliseconds later, with its payload, if and only if `ms` is less than 1000 times that, and for ever when no time is given |
| `CacheLifetimes.OthersLive` | packages/cache-redis/src/index.ts:129-139 | other keys live as without the set, no epoch moves, and a set whose condition fails changes nothing |
| `CacheLifetimes.DeletedGo` | packages/cache-redis/src/index.ts:156-167 | deleting keys removes their values and no others, and moves no epoch |
| `CacheLifetimes.NamedEpochsRise` | packages/cache-redis/src/index.ts:93-97 | naming tags raises their epochs, once for each time that a tag is named, and no others |
| `CacheLifetimes.TagSetLives` | packages/cache-redis/src/index.ts:267-271 | the set of a tag is there until the longer of the two times to live is over, or as long as it was to be before |
| `CacheCoherence.ActionKeepsCoherent` | packages/cache-redis/src/index.ts:307-323 | every step of readers, writers, foreign traffic and time keeps the coherence invariant |
| `CacheCoherence.CacheAgreesWithSource` | packages/cache-redis/src/index.ts:122-127 | in every interleaving, a cached value of a maintained key that expires, or that its tags can find, is the source's current one unless a tag of it awaits invalidation; epochs that were not captured count as 0 |
| `CacheCoherence.CarefulCacheAgrees` | packages/cache-redis/src/index.ts:267-270 | when every set passes the check for persistent values, the same holds of all cached values, persistent ones included |
| `CacheRevalidate.NoteAgainExactly` | packages/core/src/actions/cache-runtime.ts:436-450 | an epoch captured again after the load keeps the cache coherent if and only if the loaded value is still current, or excused by a pending tag, or another tag has moved since it was captured |
| `CacheRevalidate.StoredAgain` | packages/core/src/actions/cache-runtime.ts:444-451 | stored after such a capture, the value is refused when another tag has moved, and otherwise current or awaiting invalidation exactly when it was so at the capture |
| `CacheRevalidate.CoherentExactly` | packages/core/src/actions/cache-runtime.ts:403-453 | a whole interleaving with forced refreshes stays coherent exactly as long as every second capture meets that condition |
| `CacheRevalidate.LateNotingStoresOutdated` | packages/core/src/actions/cache-runtime.ts:434-451 | an interleaving from the start after which the cache holds an outdated value and no tag is pending |
| `CacheLock.LockServer.SetNxPx` | packages/cache-redis/src/index.ts:376-379 | it succeeds if and only if nobody holds the lock; then whatever others do the lock is the caller's until its time is over or it releases, nobody else acquires it meanwhile, and releasing restores the former locks; otherwise the former holder keeps it |
| `CacheLock.LockServer.ReleaseScript` | packages/cache-redis/src/index.ts:169-175 | it deletes if and only if the caller's token holds the lock; a lock that stays is another token's and is as it was, and so are the locks of all other keys |
| `CacheLock.HolderKeepsLock` | packages/cache-redis/src/index.ts:376-388 | over every sequence of other calls shorter than the time to live, the lock stays with its holder and no acquisition succeeds |
| `CacheLock.AbandonedLockIsFreed` | packages/cache-redis/src/index.ts:376-379 | an abandoned lock is free once its time is over |
| `BigIntCodec.RoundTripExactly` | packages/cache-redis/src/index.ts:182-194 | encoding and bottom-up revival return the tree if and only if no object in it is a single `__bigint` key with a string |
| `BigIntCodec.EncodedHasNoBig` | packages/cache-redis/src/index.ts:182-184 | encoding leaves no BigInt anywhere in the tree |
| `BigIntCodec.ReservedShape` | packages/cache-redis/src/index.ts:186-194 | an object with the single key `__bigint` and a text is read as the number, and fails where the text is none |
| `CacheInvalidation.ModernAdmin.GetCacheDependents` | packages/core/src/modern-admin.ts:303-327 | the loops, and the cached map, give exactly the other resources with a property that refers to this one or hydrates through it |
| `CacheInvalidation.ModernAdmin.InvalidateResourceCaches` | packages/core/src/modern-admin.ts:342-354 | a response survives if and only if it is not stale after the mutation of these records |
| `CacheInvalidation.ModernAdmin.InvalidateMutationCaches` | packages/core/src/modern-admin.ts:621-659 | which responses survive a mutation, through all early returns, targets, known identifiers and the roles resource |
| `CacheInvalidation.ModernAdmin.Store` | packages/nest/src/cache.interceptor.ts:179-186 | the stored entry is hit by exactly those invalidations, of any resource and records, after which the response is stale |
| `CacheInvalidation.TagsHit` | packages/nest/src/cache.interceptor.ts:179-186 | the tags of a response meet the tags of an invalidation if and only if the response is stale |
| `CacheInvalidation.DropsPrecisely` | packages/core/src/modern-admin.ts:639-655 | a built-in mutation drops exactly the lists, the records whose identifier the request, the list of identifiers or the response names, or all when none is named, and everything of resources with a property that refers to it or goes through it |
| `CacheInvalidation.DropsAsBuiltIn` | packages/core/src/modern-admin.ts:621-655 | every other mutation by the built-in ones: a custom action drops nothing unless it declares something, `true` what a built-in mutation drops, a list what built-in mutations of these resources would, with known records only for its own; a built-in action adds what it declares, and reading a form drops nothing |
| `CacheInvalidation.SelfReferenceSurvives` | packages/core/src/modern-admin.ts:306-307 | responses for other records of a self-referring resource survive a mutation with known identifiers |
| `CacheInvalidation.RolesDropAll` | packages/core/src/modern-admin.ts:656-658 | mutating the roles resource drops every response |
| `CacheInvalidation.ModernAdmin.InvalidateRolePermissions` | packages/core/src/modern-admin.ts:298-301 | the responses of one role, or of all, are dropped and no others |
| `Scanner.CodeOccurrence` | packages/create/src/setup-ui.ts:221-263 | the loop with its lookahead computes the recursive lexer's first occurrence |
| `Scanner.OccurrenceMeans` | packages/create/src/setup-ui.ts:221-263 | that is the first position the lexer reaches in code where the needle stands, and there is none if and only if nothing is found |
| `PrintedText.PieceReached` | packages/create/src/setup-ui.ts:221-263 | by the text alone: the lexer comes from code through a line comment, a block comment or a quoted text with escapes to code behind it, is in code nowhere between, and is in code at every other character |
| `PrintedText.SearchesBehind` | packages/create/src/setup-ui.ts:221-351 | behind any comments and strings the call and the closing brace are found where they are without them, shifted, or not at all |
| `PrintedModules.CallFound` | packages/create/src/setup-ui.ts:221-263 | the first occurrence in code is found behind any text of matching brackets in which it stands only in comments and strings |
| `Scanner.FindClosingBrace` | packages/create/src/setup-ui.ts:304-351 | the matching loop computes the recursive matcher |
| `Scanner.ClosingMeans` | packages/create/src/setup-ui.ts:304-351 | that is the first closing brace in code after which as many braces have closed as opened |
| `PrintedModules.ObjectCloses` | packages/create/src/setup-ui.ts:304-351 | of a text in braces whose brackets match outside comments and strings, the closing brace is the last character |
| `Scanner.TopLevelPropertyColon` | packages/create/src/setup-ui.ts:353-428 | the loop over identifiers and brackets computes the recursive search for a top-level property |
| `PropertySearch.ColonMeans` | packages/create/src/setup-ui.ts:353-428 | that finds the first whole identifier, in code and outside all brackets, that is the property and has a colon behind it, and nothing if and only if there is none |
| `PrintedPatches.PropertyFound` | packages/create/src/setup-ui.ts:353-428 | a property is found where it first stands outside nested brackets, comments and strings with blanks and a colon behind it |
| `PrintedModules.PropertyMissing` | packages/create/src/setup-ui.ts:353-428 | one that stands only inside of those is not found |
| `Scanner.StringLiteralAt` | packages/create/src/setup-ui.ts:444-462 | the loop computes the recursive reading of a literal |
| `PrintedPatches.MarksRead` | packages/create/src/setup-ui.ts:444-462 | a literal of plain and escaped characters reads as these characters, to its closing quote |
| `UiPatcher.FindStaticUiObject` | packages/create/src/setup-ui.ts:464-485 | the call, its brace and the matching brace, with each failure, as specified |
| `UiPatcher.PatchStaticUiModule` | packages/create/src/setup-ui.ts:511-545 | the patcher equals its specification on every input, errors included |
| `PrintedPatches.ObjectFound` | packages/create/src/setup-ui.ts:464-485 | in a module spelled out of comments, strings and matching brackets around one call, the call, its brace and the closing brace are found where they were written |
| `PrintedPatches.NoCallRefused` | packages/create/src/setup-ui.ts:466-468 | such a module without a call is refused |
| `PrintedPatches.NoParenthesisRefused` | packages/create/src/setup-ui.ts:469-472 | so is a call that no parenthesis follows |
| `PrintedPatches.NoObjectRefused` | packages/create/src/setup-ui.ts:473-477 | a call whose argument is no object |
| `PrintedPatches.OpenObjectRefused` | packages/create/src/setup-ui.ts:304-351 | and an object that is never closed, each with its own error |
| `PrintedPatches.BlankObjectPatched` | packages/create/src/setup-ui.ts:535-538 | an object of blanks becomes the property alone, character by character |
| `PrintedPatches.InsertedText` | packages/create/src/setup-ui.ts:531-544 | into any other object without the property goes exactly one line in the module's line ending, two blanks further in than the call's line, or the same behind a blank |
| `PrintedPatches.GivenPatched` | packages/create/src/setup-ui.ts:511-529 | a given value stays when it is the one asked for, is replaced between its own quotes when it is the default, and is refused otherwise |
| `UiPatcher.PatchConnects` | packages/create/src/setup-ui.ts:511-545 | a successful patch leaves the text through the opening brace and from the closing brace on untouched, the matcher finds that closing brace shifted, and the option reads back as the given package |
| `UiPatcher.PatchIsIdempotent` | packages/create/src/setup-ui.ts:513-516 | patching the output again returns it with `changed: false` |
| `UiPatcher.SafeUiDirPatches` | packages/create/src/setup-ui.ts:511-545 | both hold for every directory over the accepted alphabet |
| `UiOptions.OtherOptionsKept` | packages/create/src/setup-ui.ts:511-545 | every other option of the object reads the same before and after a successful patch |
| `UiOptions.ChangedExactly` | packages/create/src/setup-ui.ts:516-544 | `changed` says exactly whether the output differs |
| `UiOptions.ColonShifts` | packages/create/src/setup-ui.ts:353-428 | the property search depends only on the text from its position on: scanner composition over concatenation |
| `UiOptions.ColonPasses` | packages/create/src/setup-ui.ts:353-428 | where the search for one property finds its colon, the search for another has stopped before or comes by in code |
| `StringLiterals.EscapeIsOnePass` | packages/create/src/setup-ui.ts:570-577 | the six replacement passes in sequence are one pass over the characters |
| `StringLiterals.PrintThenParse` | packages/create/src/setup-ui.ts:444-462 | the parser reads every printed literal to its last character; a line terminator comes back as the letters of its escape |
| `StringLiterals.RoundTripExactly` | packages/create/src/setup-ui.ts:570-577 | the value comes back if and only if it holds no CR, LF, U+2028 or U+2029 |
| `Budget.AssertMonthlyBudget` | packages/nest/src/media-generation.service.ts:501-539 | the sum and the search over the listed tasks give the specified verdict, with every refusal in its order |
| `Budget.AdmittedWithinBudget` | packages/nest/src/media-generation.service.ts:518-535 | admission after the own reservation is in the store keeps the admitted sum within the budget |
| `Budget.AdmittedWasPriced` | packages/nest/src/media-generation.service.ts:501-516 | in every run with a configured budget, a call that ends admitted was made with a price, for a named user who owns the task, under a finite positive budget |
| `Budget.CheckedBeforeOrBehind` | packages/nest/src/media-generation.service.ts:526-531 | checking an amount before its task is recorded decides what checking it behind that does |
| `Budget.AlwaysWithinBudget` | packages/nest/src/media-generation.service.ts:541-590 | in every interleaving of any number of calls and status writes, each user's admitted unfailed tasks stay within the budget and every rejected one is failed, except tasks that a write has revived |
| `Budget.CarefulRunsStayWithinBudget` | packages/nest/src/media-generation.service.ts:786-795 | with guarded writes there is no exception |
| `Budget.WritesAreSafeExactly` | packages/nest/src/media-generation.service.ts:302-306 | writes of one shape keep every run within the budget if and only if they fail the task or are guarded against failed ones, or the budget admits nothing at all |
| `Budget.UnguardedWriteOverspends` | packages/nest/src/media-generation.service.ts:255-259 | for any two requests that fit only one at a time, any write that is not guarded against failed tasks, such as `running` after a duplicate submission, lets both count |
| `PromiseChain.Chains.Arrive` | packages/nest/src/media-generation.service.ts:348-352 | links, order and tails stay sound, and the new call waits for a call of its key that has no unfinished one of the key behind it |
| `PromiseChain.Chains.Leave` | packages/nest/src/media-generation.service.ts:355-357 | links, order and tails stay sound, and every unfinished call still has an entry of its key at or behind it, so that later calls wait for it |
| `PromiseChain.ActionKeepsSound` | packages/nest/src/media-generation.service.ts:343-358 | every step keeps the links between calls, their order and the map of tails |
| `PromiseChain.SomeoneCanMove` | packages/nest/src/media-generation.service.ts:348-351 | an unfinished call can move, or one before it can: no deadlock, also after rejected calls |
| `PromiseChain.QuietMapIsEmpty` | packages/nest/src/media-generation.service.ts:355-357 | when all calls have left, the map is empty |
| `PromiseChain.SoundIsExclusive` | packages/nest/src/media-generation.service.ts:343-358 | sections of one key never overlap and start in arrival order |
| `ChainedSections.RunsAreSerial` | packages/nest/src/media-generation.service.ts:576-589 | in every interleaving and at every moment, the state of a key is what a number of its calls lead to one by one, and the steps so far of the one that is inside; when all have finished, what all of them lead to |
| `SharedStore.SharedReservationsRunOneByOne` | packages/nest/src/media-generation.service.ts:576-589 | in one process, in every interleaving of all users' reservations in the one task store, a user's tasks and verdicts are those of one reservation after the other |
| `SharedStore.ReserveSeen` | packages/nest/src/media-generation.service.ts:541-590 | what a step of one user's reservation does in the shared store is, seen by that user, what it does on the user's own tasks, and for everybody else nothing |
| `MediaChains.AloneAdmitsWhatFits` | packages/nest/src/media-generation.service.ts:561-574 | a reservation that runs alone is admitted if and only if no budget is configured, or the budget is finite and positive, there are a user and a price, and it fits; and it costs nothing when rejected |
| `MediaChains.EditsAreMarked` | packages/nest/src/media-generation.service.ts:343-458 | at every moment, each edit of a record is the one its marker stands for, or the one whose marker a call is about to write, never both, or one whose marker could not be written: at most one edit beyond those |
| `MediaChains.AloneApplies` | packages/nest/src/media-generation.service.ts:404-458 | a call that runs alone edits a task that is not applied once and marks it, or leaves exactly what failed; an applied task it leaves alone |
| `Junction.Resource.RowsForParent` | packages/feature-m2m/src/m2m-feature.ts:68-91 | the pages give the rows of the parent among those the filter finds, in order, however loosely the adapter matches; all of them where the filter finds them |
| `Junction.Resource.OrdinaryParentsAreFound` | packages/feature-m2m/src/m2m-feature.ts:68-91 | a filter that finds text keys finds all rows of every parent but `null` and `undefined` |
| `M2mDiff.ApplyDiff` | packages/feature-m2m/src/m2m-feature.ts:160-215 | the four loops and their database calls give the specified rows |
| `M2mDiff.DeleteOne` | packages/feature-m2m/src/m2m-feature.ts:176-180 | deleting the indexed row of a key changes that row's fate and no other's |
| `M2mDiff.DiffIds` | packages/feature-m2m/src/m2m-feature.ts:191-214 | row identifiers stay distinct |
| `M2mDiffResults.MergedIsLastValue` | packages/feature-m2m/src/m2m-feature.ts:185-189 | a merged extra field has the value of the last submitted duplicate that gives it |
| `M2mDiffResults.ExactWithoutDuplicates` | packages/feature-m2m/src/m2m-feature.ts:160-215 | one row per submitted identifier and no others, if and only if there were no duplicate foreign keys |
| `M2mDiffResults.DiffCounts` | packages/feature-m2m/src/m2m-feature.ts:160-215 | the number of rows of every key afterwards, duplicates included |
| `M2mDiffResults.SubmittedRow` | packages/feature-m2m/src/m2m-feature.ts:191-214 | a surviving row keeps its identifier, keys and unlisted columns and takes the merged extras; a new one has just those |
| `M2mDiffResults.SubmittedFields` | packages/feature-m2m/src/m2m-feature.ts:185-214 | column by column: the row of a submitted key has in a listed column the last submitted value, where there is one, and everywhere else its old value, or none when it is new |
| `M2mDiffResults.OthersUntouched` | packages/feature-m2m/src/m2m-feature.ts:175-214 | rows of other parents stay as they were, in order |
| `M2mDiffResults.SecondRunChangesNothing` | packages/feature-m2m/src/m2m-feature.ts:160-215 | a second call changes nothing if and only if no unsubmitted key had duplicates |
| `Hydration.HydrateRecordParams` | packages/feature-m2m/src/m2m-feature.ts:217-240 | a record gets the items of the rows found for it and the JSON of exactly the references they name |
| `Hydration.HydrateListRecords` | packages/feature-m2m/src/m2m-feature.ts:254-319 | every record of a page gets the items of its bucket and the JSON of its references, by two queries |
| `Hydration.ItemsShow` | packages/feature-m2m/src/m2m-feature.ts:93-99 | one item for each row, in order: its identifier is the row's foreign key, its extra fields the listed ones that the row has |
| `Hydration.LinksShow` | packages/feature-m2m/src/m2m-feature.ts:230-238 | under `property.id` stands the JSON of the last reference with the identifier, if an item has it and there is a reference |
| `Hydration.OnlyItsLinks` | packages/feature-m2m/src/m2m-feature.ts:230-238 | and nothing else is added |
| `Hydration.BatchAgreesExactly` | packages/feature-m2m/src/m2m-feature.ts:275-290 | within the limit, a record's bucket is the rows that reading it alone gives if and only if no row without a parent key counts for it in one of the two and not in the other: alone as the text `undefined` or `null`, in the batch as the empty string, each where the filter finds it |
| `Hydration.BatchAgrees` | packages/feature-m2m/src/m2m-feature.ts:242-252 | so the batch gives what reading record by record gives, which is all rows of the record, for every identifier but the empty string, `null` and `undefined` |
| `Hydration.ReadingsDiffer` | packages/feature-m2m/src/m2m-feature.ts:275-290 | a junction with a null or missing parent key where the record named `null` or `undefined` has the row alone and not in the batch, and the record without a name the other way round |
| `TimeSeries.RunTimeSeries` | packages/adapter-prisma/src/resource.ts:470-560 | each kept group has the metric of its own rows, `__other__` the metric of all rows of dropped groups, and no dropped total exceeds a kept one |
| `TimeSeries.Collapse` | packages/adapter-prisma/src/resource.ts:536-551 | merging the entries of dropped series equals recomputation from their rows |
| `TimeSeries.DirectOfPermuted` | packages/adapter-prisma/src/resource.ts:476-509 | an entry does not depend on the order of the rows |
| `TopN.KeptIsTop` | packages/adapter-prisma/src/resource.ts:527-535 | sorting and slicing keeps the top N series |
| `TimeSeriesResults.OrderOfRowsDoesNotMatter` | packages/adapter-prisma/src/resource.ts:470-560 | when no kept total ties with a dropped one, the whole result is the same for every order of the rows |
| `TimeSeriesResults.OrderDoesNotMatterUntruncated` | packages/adapter-prisma/src/resource.ts:470-560 | with no more groups than are kept it always is, ties or not |
| `TimeSeriesResults.PointMeans` | packages/adapter-prisma/src/resource.ts:476-526 | a point is there when rows of the groups in the bucket have values, and is their number, sum, average, or the one that none is below or above |
| `TopN.TopIsUniqueExactly` | packages/adapter-prisma/src/resource.ts:527-535 | the top N are determined by the totals if and only if no kept total ties with a dropped one |
| `TimeSeriesResults.SeriesConserve` | packages/adapter-prisma/src/resource.ts:534-552 | counts and sums are conserved bucket by bucket, but for a kept group called `__other__`, whose loss is given exactly |
| `GroupedSeries.RunTimeSeriesQuery` | packages/adapter-drizzle/src/resource.ts:396-446 | the loops over grouped rows keep the top N and add up the others |
| `GroupedSeries.AdaptersKeepTheSame` | packages/adapter-drizzle/src/resource.ts:423-427 | when no kept total ties with a dropped one, both adapters keep the same groups with the same points, for every metric |
| `GroupedSeries.AdaptersAgree` | packages/adapter-drizzle/src/resource.ts:396-446 | for count and sum without ties at the cut both adapters give the same series and points |
| `GroupedLimits.CollapsedPoint` | packages/adapter-drizzle/src/resource.ts:429-438 | for every metric the collapsed point is the metric of the dropped rows and an excess given exactly |
| `GroupedLimits.CollapsedPointExactly` | packages/adapter-drizzle/src/resource.ts:429-438 | at most one dropped group with a point in the bucket makes it exact; for averages, minima and maxima of positive values nothing else does |
| `GroupedAnswers.DifferentKeysAggregate` | packages/adapter-drizzle/src/resource.ts:404-421 | when groups with rows in one bucket have different keys, the adapter reads the metric of the rows behind every key |
| `GroupedAnswers.KeysDifferExactly` | packages/adapter-drizzle/src/resource.ts:404-421 | for counts, and sums of positive values, it does so if and only if they have |
| `GroupedAnswers.UngroupedExactly` | packages/adapter-drizzle/src/resource.ts:384-394 | the query without groups gives the metric of the rows if and only if it does not count no rows |
| `GroupedAnswers.GroupedOverNothing` | packages/adapter-drizzle/src/resource.ts:384-394 | a grouped query over no rows has no point |
| `FilterCompiler.FilterToWhere` | packages/adapter-prisma/src/converters.ts:227-333 | the map holds the clause written last for each field, the list every top-level condition |
| `FilterCompiler.CompiledExactly` | packages/adapter-prisma/src/converters.ts:227-333 | a row satisfies the compiled filter if and only if it meets every element on its own, impossible elements left aside exactly when the element on the primary key stands behind all of them |
| `FilterCompiler.ConjunctionExactly` | packages/adapter-prisma/src/converters.ts:227-333 | without that the filter is the conjunction of its elements; with it every row that passes fails an element |
| `FilterCompiler.OverwrittenExactly` | packages/adapter-prisma/src/converters.ts:256-260 | an impossible clause is overwritten if and only if, by the elements alone, one that restricts the primary key stands behind every impossible one |
| `FilterCompiler.LetThrough` | packages/adapter-prisma/src/converters.ts:256-260 | a row that passes although `empty` on a required field excludes it |
| `FilterOperators.NeqIsNotEq` | packages/adapter-prisma/src/converters.ts:136-151 | `neq` matches exactly the rows with a value that `eq` does not |
| `FilterOperators.NcoIsNotCo` | packages/adapter-prisma/src/converters.ts:283-290 | `nco` matches exactly the rows with a value that `co` does not |
| `FilterOperators.ImplicitIs` | packages/adapter-prisma/src/converters.ts:68-91 | without an operator a filter matches as `co` on strings and as `eq` otherwise |
| `FilterOperators.BetweenIsBothSides` | packages/adapter-prisma/src/converters.ts:184-213 | `between` matches what both of its half-open ranges match |
| `FilterOperators.BetweenIsNeither` | packages/adapter-prisma/src/converters.ts:184-213 | in a database that orders its cells, `between` matches exactly the rows with a value that `lt` the lower bound does not and that is not above the upper bound, end of day included; without an end of day that is `gt` |
| `FilterOperators.InIsAnyEqExactly` | packages/adapter-prisma/src/converters.ts:119-183 | in every database that compares text as it is, and folded where case is disregarded, `in` is `eq` of any of its values on all rows if and only if every text that folds like a value for which that matters is a value itself |
| `FilterOperators.InMissesVariant` | packages/adapter-prisma/src/converters.ts:136-183 | the row with `ABC` is found by `eq` of `abc` and missed by `in` with `abc` |
| `FilterCompiler.EmptyOrNot` | packages/adapter-prisma/src/converters.ts:244-282 | for every kind of property and every row, exactly one of `empty` and `nempty` matches |
| `FilterMeanings.EmptyMeans` | packages/adapter-prisma/src/converters.ts:244-282 | `empty` finds exactly empty lists, blank texts and nulls, for every kind of property |
| `FilterMeanings.TextOperators` | packages/adapter-prisma/src/converters.ts:96-167 | on text properties each operator finds equal, containing, beginning, ending text and their negations, folded where the dialect disregards case, and never a null |
| `FilterMeanings.ColumnSubstrings` | packages/adapter-prisma/src/converters.ts:42-50 | string columns of other types are searched for substrings too |
| `FilterMeanings.SubstringsDropped` | packages/adapter-prisma/src/converters.ts:152-169 | substring operators on anything else find every row |
| `FilterMeanings.ListOperators` | packages/adapter-prisma/src/converters.ts:110-133 | on lists `eq` finds members, and operators that lists do not have find every row |
| `FilterMeanings.ListIn` | packages/adapter-prisma/src/converters.ts:119-128 | `in` on a list finds those with any of the members |
| `FilterMeanings.NothingSelected` | packages/adapter-prisma/src/converters.ts:170-179 | an empty selection finds every row |
| `FilterMeanings.OrderOperators` | packages/adapter-prisma/src/converters.ts:184-191 | `gt` and `lt` find what is above and below, and no null |
| `FilterMeanings.RangeOperators` | packages/adapter-prisma/src/converters.ts:76-84 | a range includes its bounds, `between` up to the end of the day; a missing bound is none |
| `FilterMeanings.CommaIsBetween` | packages/adapter-prisma/src/converters.ts:192-194 | bounds with a comma between them are the same range |
| `FilterMeanings.RelationMeans` | packages/adapter-prisma/src/converters.ts:292-322 | a relation is compared as a whole, and a missing or blank value finds every row |
| `IndexNames.FieldNamesFromIndex` | packages/adapter-prisma/src/resource.ts:592-617 | a result names fields whose columns joined make up the body; where no column overtakes others, every segmentation is the one returned |
| `IndexNames.BodyIsBetween` | packages/adapter-prisma/src/resource.ts:592-595 | a constraint is read as what stands between its table and one of the four suffixes, or the end |
| `IndexNames.NameIsFirst` | packages/adapter-prisma/src/resource.ts:582-584 | a column has the name of the first field with it, unless that is empty |
| `IndexNames.WalkSegments` | packages/adapter-prisma/src/resource.ts:601-616 | the nested loops take the longest column at each place, or nothing at all |
| `IndexNames.ColumnsAreSound` | packages/adapter-prisma/src/resource.ts:597-616 | what the walk finds is a segmentation |
| `IndexNames.ColumnsAreComplete` | packages/adapter-prisma/src/resource.ts:597-616 | where no column overtakes a list of others, a segmentation is found and is the only one |
| `IndexNames.FoundExactly` | packages/adapter-prisma/src/resource.ts:599-616 | every segmentation of every body is found if and only if no column runs along a list of columns beyond the first of them |
| `IndexNames.PrefixFreeSuffices` | packages/adapter-prisma/src/resource.ts:599-616 | it is enough that no column starts with all segments of another |
| `IndexNames.LongestMatchMisses` | packages/adapter-prisma/src/resource.ts:599-600 | a concrete case: of `a_b_c` the walk takes `a_b`, and misses `a` with `b_c` |
| `SubscriptionIterator.RealtimeIterator.OnEvent` | packages/graphql/src/subscription-iterator.ts:22-32 | accepts exactly matching events while open; an accepted event answers the waiting call of its own number, and no other answer changes |
| `SubscriptionIterator.RealtimeIterator.OnSubscribed` | packages/graphql/src/subscription-iterator.ts:37-44 | soundness and all answers stay; the bus has been unsubscribed once if the iterator was closed, else not yet |
| `SubscriptionIterator.RealtimeIterator.OnSubscribeFailed` | packages/graphql/src/subscription-iterator.ts:45-52 | of those waiting exactly the first is told the end and the others get nothing, none is left if and only if at most one was waiting, and the bus is not unsubscribed |
| `SubscriptionIterator.RealtimeIterator.Teardown` | packages/graphql/src/subscription-iterator.ts:55-65 | closing answers every waiter with the end, changes no answer, and unsubscribes once if there is a subscription |
| `SubscriptionIterator.RealtimeIterator.Pull` | packages/graphql/src/subscription-iterator.ts:68-76 | the call is answered at once exactly with what it is due, the event of its number or the end, and waits if and only if nothing is due |
| `SubscriptionIterator.DeliversInOrder` | packages/graphql/src/subscription-iterator.ts:17-87 | in every interleaving the n-th call gets the n-th event that matched before the iterator closed, or the end; the queue holds exactly the events not yet asked for, events and calls never wait at once, the bus is unsubscribed exactly once, and only a failed subscription leaves waiters |
| `SubscriptionIterator.RunFollows` | packages/graphql/src/subscription-iterator.ts:17-87 | in every continuation an answer once given stays as it is |
| `SubscriptionIterator.FailureReleasesOne` | packages/graphql/src/subscription-iterator.ts:45-48 | a failed subscription leaves no waiter if and only if at most one was waiting |
| `SubscriptionIterator.ClosedLeavesWaiting` | packages/graphql/src/subscription-iterator.ts:45-65 | whoever waits at a closed iterator waits for ever |
| `SubscriptionIterator.WaitsForEver` | packages/graphql/src/subscription-iterator.ts:45-52 | two calls of `next` and a failed subscription, from the start: the second call is never answered, whatever follows |

## Left out

- Redis: the paths for clients without EVAL, publish and subscribe, jitter of times to live, key prefixes (four maps stand for four name spaces that do not overlap), JSON text.
- The cache runtime's in-flight map, local epochs, quarantine and retries; readers are the capture, load, conditional-set protocol itself, and forced refreshes add the previous value, the check, the announcement and the second capture. A captured epoch of the first time stays until it is captured again.
- Tag builders are injective constructors; the relation bypasses and cache configuration of the interceptor are not modelled.
- Patcher: file search, the package manifest, symbolic links; regular-expression literals are scanned as code, as the source does.
- Modules spelled out: blanks are the four usual ones, and a slash that begins no comment has a plain character behind it.
- Budget: all tasks are of one month and kind, money is a real number, the task store is linearizable, `createTask`'s lookup before the reservation is not modelled.
- Applying results: failures before the edit are one outcome, and the marker carries no file index.
- Promise chains: without a configured budget or a user, reservations bypass the chain.
- M2m: parsing of payloads, cascade deletes, transactions; extra fields are not named like the key columns or `id`; an adapter answers in one fixed row order.
- Time series: fetching and its row cap, date truncation, display SQL, the order of series and points; values are real numbers and the database aggregates correctly.
- FilterOperators.BetweenIsNeither: assumes a database that orders its cells, because nothing else is said of its comparisons.
- Filter compiler: filters on members of related objects, date-only end of day (a parameter), the wording of LIKE; comparisons of values are those of an arbitrary database.
- Iterator: promises are tickets; the rejection of `throw` is not modelled beyond its teardown.
- Controllers, schema building, authentication, provider calls, file transfer and user interfaces.
