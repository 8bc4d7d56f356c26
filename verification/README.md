# Verified models of the fault-injection libraries

Dafny models of the parts of the repository whose correctness is not visible from one function:
lock-free protocols, in-place algorithms, heap surgery and a small compiler. Each model follows the
code branch by branch and is proved against a property stated without it.

* **Rule snapshots** (`HitPool`, `RuleSnapshots`, `RuleSnapshotsSafety`, `RuleSnapshotsTheorems`,
  `RuleSnapshotsFires`, `RuleSnapshotsLookups`, `RuleSnapshotsStamps`, `RuleSnapshotsRuns`): one CAS elects a reload owner, which clears and rewrites the inactive of two
  snapshots under a sequence word and hands hit slots to rules by text, while any number of threads
  copy rules out word by word and claim `@first` allowances. The protocol is a transition system, one
  shared access per step; the theorems hold in every run of it, and the runs that break what its
  comments promise are constructed. The loops over the pool are array methods.
* **Descriptor cache** (`FdCache`) and **hits writer** (`HitsReport`): the same style of model for
  the mapped descriptor-to-path table and for the elected writer of the hits buffer.
* **Hits files** (`HitsFiles`): any number of processes publish files by staging, linking and renaming.
* **Filter compiler** (`BpfFilter`): a classic-BPF interpreter, and the compiler proved to emit a
  program whose verdict is a set-membership predicate.
* **Paths** (`Paths`, `PathRules`): the two-cursor normalisation refines split, fold and join; the
  prefix test means a prefix of components; selection finds the deepest rule.
* **Rule qualifiers** (`Qualifiers`, `QualifierParser`, `Probability`, `Decimals`): the right-to-left
  in-place parser, characterised by the layout of a line, with a round trip; and the probability
  grammar and its value.
* **DNS answers** (`DnsLists`, `DnsOverride`, `DnsAnswers`, `DnsLookup`, `Shuffling`) and **DNS
  selectors** (`DnsRules`): list surgery on heap nodes with two ownership regimes. A node can be
  read, written or released only while it is live, so no verified method touches a released node.
* **Supervisor** (`DelayQueue`, `Supervisor`, `SupervisorLoop`, `SupervisorFates`): the delay queue as
  an array, the two steps of the event loop as a state machine over runs, the loop's methods proved to
  do them, and what becomes of each notification told by its event.
* **String reads** (`ReadString`) and **rank statistics** (`RankSum`).

`CStrings`, `Options`, `Selection`, `Sets` and `TextSplit` are shared. Times are milliseconds, doubles
that hold whole numbers exactly are integers, other doubles are rationals, and foreign functions
(the kernel, the resolver, the file system, the clock, random draws) are arbitrary inputs. The value
of a rule's text is what the parser makes of it, so texts stand for policies.

Where code and comments disagree, the code is modelled:

* Two rules with one text in a first load get two slots (`HitPool.DuplicatesOfAFirstLoad`), although
  `src/common/chaos_hits.h:205-206` says they share one. They share one exactly when an active rule
  has the text (`HitPool.DuplicatesShareOnlyASurvivor`).
* A reload releases the slots of departed rules before it stores the new index
  (`src/config/chaos_io_config.c:1222-1228`). A fork by another thread in between leaves the child
  with active rules whose slots are unused, which the repair after a fork does not see. The child's
  pool is settled exactly when every active rule's slot was in use (`HitPool.PoolAfterFork`);
  otherwise its first reload can give two rules one slot (`HitPool.ForkInReleaseWindowSharesASlot`).
  Some reload does with two rules more than there are unused slots before such a slot, and none
  does with fewer (`HitPool.UnsettledForkSharesASlot`, `HitPool.SharedOnlyWhenUnused`).
* A reload clears the inactive snapshot with `memset`, its sequence word included
  (`src/config/chaos_io_config.c:243-246`, and likewise `src/net/chaos_net_config.c:242-245` and
  `src/process/chaos_process_config.c:254-257`), so the sequence reads 0, which is even, until it is
  put back. The comments there and at `src/common/chaos_hits.h:132-134` say that a reader which saw a
  rewrite discards its copy. It does when it sampled any sequence but 0
  (`RuleSnapshotsTheorems.AcceptedCopyIsAWholeRule`), and does not exactly when both its reads fall
  in a clear (`RuleSnapshotsTheorems.UnsoundExactlyInClears`). Such a copy can fire without its
  `@first` (`RuleSnapshotsRuns.LimitedRuleFiresUnclaimed`) or overdraw the limit of another rule
  (`RuleSnapshotsRuns.LimitIsOverdrawn`); no other copy overdraws a limit, in claims or in hits
  (`RuleSnapshotsTheorems.WholeCopiesClaimWithinLimit`, `RuleSnapshotsFires.FiresWithinLimit`).
* Extraction leaves a line unchanged when a word is malformed, but refuses `@until` <= `@from` only
  after the cut, although `src/common/chaos_policy.h:211-212` says a failure leaves the line
  unchanged. It fails and changes the line exactly then (`QualifierParser.FailureCutsEmptyWindows`,
  `QualifierParser.FailureByWords`).
* A hits file is taken to be owned whenever its publication returns 0, also when it failed. Even if
  every file operation succeeds or reports an existing name, four taken staging names make a process
  the owner of a file it never created (`HitsFiles.TwoOwnersAreReachable`), and it then replaces
  that file (`HitsFiles.StrangersFileIsReplaced`), although `src/common/chaos_hits.h:451-455` says
  only the creator does. This is the only way (`HitsFiles.OnlyRunningOutReplacesAStrangersFile`,
  `HitsFiles.OwnersCreated`, `HitsFiles.RunsOutAtTheFourthName`).

Verify everything with `dafny verify dfyconfig.toml`.

## Model

| member | source | states |
|---|---|---|
| RuleSnapshots.NormalizeAvoidsSentinels | src/config/chaos_io_config.c:551-560 | no file hash, after normalisation, equals the MISSING, RELOADING or UNKNOWN stamp |
| RuleSnapshotsSafety.StepKeeps | src/config/chaos_io_config.c:1144-1330 | every step of every thread, the clear of a snapshot included, keeps the whole protocol invariant: one owner, sequence parity, snapshot contents, slots, claim words, what each reader may have copied |
| RuleSnapshotsSafety.AcceptedCopyIsSelected | src/common/chaos_hits.h:140-153 | a copy whose two sequence reads agree, are even and are not 0 is what the lookup run alone on one completed snapshot selects |
| RuleSnapshotsSafety.SwingKeepsClaims | src/common/chaos_policy.h:343-357 | a claim CAS, won or lost, keeps every tenure's wins at its claim count and, unless a copy accepted with sequence 0 claimed under it, within its allowance |
| RuleSnapshotsSafety.HandKeepsCore | src/common/chaos_hits.h:224-270 | handing a slot on starts a tenure nobody held, and keeps the claims of all others |
| RuleSnapshotsSafety.ReleaseKeeps | src/common/chaos_hits.h:281-304 | freeing and outdating a slot that left keeps the claims of all others |
| RuleSnapshotsSafety.SwapKeeps | src/config/chaos_io_config.c:282-289 | publishing the finished snapshot keeps the invariant |
| RuleSnapshotsSafety.ClaimKeeps | src/config/chaos_io_config.c:1293-1330 | both outcomes of the CAS on the stamp keep the invariant, so winning it makes the thread the only owner |
| RuleSnapshotsTheorems.RunKeepsInv | src/config/chaos_io_config.c:1293-1330 | the invariant holds in every state of every run |
| RuleSnapshotsTheorems.OneOwner | src/config/chaos_io_config.c:1293-1330 | no two threads are reload owners at once, and there is an owner exactly while the stamp is RELOADING |
| RuleSnapshotsTheorems.ActiveIsNeverWritten | src/config/chaos_io_config.c:232-289 | the active snapshot has an even sequence, in place, in every state, and no step changes it, finished or aborted reloads included |
| RuleSnapshotsTheorems.AcceptedCopyIsAWholeRule | src/config/chaos_io_config.c:1620-1643 | a copy accepted with a sampled sequence other than 0 is, word for word, one rule of one completed snapshot with its slot and generation, namely the earliest rule of longest matching prefix there |
| RuleSnapshotsTheorems.AcceptedCopyIsPresent | src/config/chaos_io_config.c:1620-1643 | when validation accepts such a copy, the list it was selected from is still the whole of its snapshot |
| RuleSnapshotsTheorems.UnsoundExactlyInClears | src/config/chaos_io_config.c:232-248 | the other acceptances are exactly those whose two reads of the sequence both fall in a clear of the snapshot, and every validation of that kind accepts |
| RuleSnapshotsTheorems.EveryCopySlotWasHandedOut | src/config/chaos_io_config.c:1093-1098 | whatever copy a thread holds, torn ones included, its slot is NULL or one that was handed to a rule |
| RuleSnapshotsTheorems.BetweenReloadsSlotsMatch | src/config/chaos_io_config.c:1067-1099 | outside reloads the used slots are exactly those of the active rules, at their generations |
| RuleSnapshotsTheorems.PoolNeverExhausted | src/common/chaos_hits.h:224-270 | with twice as many slots as rules, no assignment of any run finds the pool exhausted |
| RuleSnapshotsTheorems.ReloadFollowsTexts | src/config/chaos_io_config.c:1217-1228 | a finished reload keeps the very slot of a surviving text, gives other texts slots no active rule had, and frees and outdates exactly the slots that left |
| RuleSnapshotsTheorems.WinsCountClaims | src/common/chaos_policy.h:333-361 | the recorded wins of a tenure are the successful claim steps of the run |
| RuleSnapshotsTheorems.FirstIsNeverOverdrawn | src/common/chaos_policy.h:333-361 | a rule with limit N makes at most min(N, 2^32 - 1) successful claims from the moment its slot is handed out until the generation moves on, over every reload that keeps its text, unless a copy accepted with sequence 0 claimed in its name; claims belong to a rule and fit the claim word in any case |
| RuleSnapshotsTheorems.WholeCopiesClaimWithinLimit | src/common/chaos_policy.h:333-361 | whatever such copies did before, any other copy claims only within the limit, so the claim that overdraws a limit is always one of a copy accepted with sequence 0 |
| RuleSnapshotsTheorems.TornClaimsAreRecorded | src/common/chaos_policy.h:333-361 | the recorded tenures are exactly those some copy accepted with sequence 0 has claimed under |
| RuleSnapshotsTheorems.TenuresAreForever | src/common/chaos_hits.h:193-270 | a slot at one generation belongs to one text for the rest of the run |
| RuleSnapshotsTheorems.StaleCopyCannotClaim | src/common/chaos_policy.h:333-361 | the claim of a copy whose slot was handed on fails and changes nothing |
| RuleSnapshotsFires.FiresAreClaims | src/common/chaos_policy.h:333-361 | over every run the hits counted of `@first` copies under a tenure, plus those due and those whose thread left in between, are exactly the successful claims under it; the same for copies accepted with a sequence other than 0 alone |
| RuleSnapshotsFires.FiresWithinLimit | src/common/chaos_policy.h:333-361 | an `@first=N` rule fires at most min(N, 2^32 - 1) times under a tenure by copies accepted with a sequence other than 0, whatever other copies do, and by copies of any kind if none accepted with sequence 0 has claimed |
| RuleSnapshotsFires.RefusedOnlyAtLimit | src/common/chaos_policy.h:343-355 | such a copy's claim is refused exactly when its slot has been handed to a later rule or the tenure's claims have reached min(N, 2^32 - 1); at the slot's present generation the first is impossible |
| RuleSnapshotsFires.TagsAreLast | src/common/chaos_hits.h:261-266 | in every run a slot's claim word carries the generation of the last rule the slot was handed to |
| RuleSnapshotsFires.DepartedRulesDoNotFire | src/common/chaos_policy.h:336-342 | outside reloads a call is dropped before claiming exactly when no active rule has the copy's slot and generation; otherwise a rule without limit counts its hit at once and one with a limit claims first |
| RuleSnapshotsFires.LostClaimMeansProgress | src/common/chaos_policy.h:347-357 | a CAS that fails means that since the word was loaded another thread claimed on the slot or the slot was handed to a rule; the thread then loads anew |
| RuleSnapshotsFires.SlotsShowTheirHits | src/common/chaos_hits.h:359-366 | the count a slot shows is the number of hits recorded on it since it was last cleared for a rule |
| RuleSnapshotsFires.NewTenureStartsOver | src/common/chaos_hits.h:254-267 | a slot is handed out only by the owner that cleared it, and is then in use with no state, no claims and its generation as tag, under a tenure nobody held, claimed or fired under; no other slot changes |
| RuleSnapshotsStamps.CachedStampIsOfTheLastReload | src/config/chaos_io_config.c:1144-1230 | outside reloads the cached stamp is what the thread that last finished a reload had seen of the file before it began; a reload given up leaves no trace in it |
| RuleSnapshotsLookups.MissMeansNoMatch | src/config/chaos_io_config.c:1577-1643 | a lookup gives up only if its snapshot was or has been written since it began, or no rule of the published list that lies there matches |
| RuleSnapshotsLookups.LookupIsNotStale | src/config/chaos_io_config.c:1577-1643 | a copy accepted with a sequence other than 0 comes from the list that was active when its lookup began, or from one completed since |
| RuleSnapshotsRuns.Reload | src/config/chaos_io_config.c:1144-1230 | from every quiet state of every run, some run publishes any list of texts within the limits: no reload is stuck |
| RuleSnapshotsRuns.LimitedRuleFiresUnclaimed | src/config/chaos_io_config.c:232-248 | a run in which a reader accepts, during a clear, a copy that is no published rule: it has the limit of one but no slot, and fires without a claim |
| RuleSnapshotsRuns.LimitIsOverdrawn | src/config/chaos_io_config.c:232-248 | a run in which a copy accepted between two clears joins one rule's limit to another's slot and generation, and a limit of 1 is claimed twice |
| HitPool.FreshClaimWord | src/common/chaos_hits.h:178-196 | a fresh claim word holds no claims, and two generations have the same one exactly when they agree modulo 2^32 |
| HitPool.ClaimOnce | src/common/chaos_policy.h:346-356 | adding one to a claim word short of the limit adds one claim and keeps the tag |
| HitPool.SearchActive | src/common/chaos_hits.h:244-251 | finds the first active rule with a text |
| HitPool.FindsTheFirst | src/common/chaos_hits.h:244-251 | no active rule before the one found has the text and a slot |
| HitPool.Assign | src/common/chaos_hits.h:224-270 | the in-place assignment computes the specification: survivors keep their slot, others get the next free slot, cleared and tagged |
| HitPool.AssignAllKeeps | src/common/chaos_hits.h:224-270 | for every settled pool and list of texts the assignment never runs out, keeps surviving slots, and never takes an active one |
| HitPool.FreeSlotRemains | src/common/chaos_hits.h:224-270 | a pool twice the rule limit has a free slot at every step of an assignment |
| HitPool.Release | src/common/chaos_hits.h:281-304 | a used slot that no kept rule holds is freed and outdated, field by field; everything else is untouched |
| HitPool.ReloadSettles | src/config/chaos_io_config.c:1067-1099 | assign, attach and release together leave exactly the new rules' slots in use; survivors' slots keep hits and claims; departed slots change only their use and generation; slots newly taken have no hits, no claims, no state and their generation as tag |
| HitPool.DistinctTextsDistinctSlots | src/common/chaos_hits.h:224-270 | rules with different texts get different slots |
| HitPool.DuplicatesOfAFirstLoad | src/common/chaos_hits.h:244-251 | two rules with one text in a first load get two slots |
| HitPool.DuplicatesShareOnlyASurvivor | src/common/chaos_hits.h:205-251 | two rules with one text share a slot exactly when an active rule has that text |
| HitPool.PoolReset | src/common/chaos_hits.h:310-322 | every slot is free, one generation later, with no hits, state or claims |
| HitPool.PoolAfterFork | src/common/chaos_hits.h:334-351 | used slots that no active rule holds are freed and outdated, and counts and claims of every slot restart; the child's pool is settled exactly when the fork found every active rule's slot in use |
| HitPool.ForkedSlot | src/common/chaos_hits.h:334-351 | slot by slot: hits and claims restart under the slot's tag, a REGRESS decision in the making is armed again, use and generation change exactly for used slots no active rule holds |
| HitPool.ForkSettlesWhatIsInUse | src/common/chaos_hits.h:334-351 | that condition over pools and rules: a fork repairs the slots of a half-built snapshot but not a slot already released |
| HitPool.ForkInReleaseWindowSharesASlot | src/config/chaos_io_config.c:1222-1228 | a fork between the release of a departed rule and the store of the new index leaves a pool from which the child's first reload gives two different rules one slot |
| HitPool.UnsettledForkSharesASlot | src/common/chaos_hits.h:224-270 | after any fork that found an active rule's slot unused, some reload gives it to two texts; it lists two rules more than there are unused slots before that one |
| HitPool.SharedOnlyWhenUnused | src/common/chaos_hits.h:224-270 | and two texts get one slot in no other case: it is an unused slot of an active rule, and the reload lists at least that many rules |
| FdCache.StepKeeps | src/config/chaos_io_fdcache.c:172-332 | every step of store, lookup, invalidation and resolution keeps the cache invariant |
| FdCache.RunKeepsInv | src/config/chaos_io_fdcache.c:172-332 | the invariant holds in every state of every run |
| FdCache.HitIsCurrent | src/config/chaos_io_fdcache.c:219-265 | a hit is the whole path of one completed store for that descriptor, sampled at the slot's present generation; a resolved one is a name the kernel gave since the latest invalidation |
| FdCache.LookupStaysInBuffer | src/config/chaos_io_fdcache.c:219-265 | however torn the read, path and NUL fit the caller's buffer |
| FdCache.OneWriterPerSlot | src/config/chaos_io_fdcache.c:172-207 | two stores never fill one entry at the same time |
| FdCache.GenerationsCountInvalidations | src/config/chaos_io_fdcache.c:208-284 | a slot's generation is what it was at first and one for each invalidation since |
| FdCache.HitWasNotInvalidated | src/config/chaos_io_fdcache.c:208-332 | for every hit of every run: the store it returns began with a sample of the slot's generation, and no step from there to the hit invalidated the slot |
| FdCache.CompletedStoreIsHeld | src/config/chaos_io_fdcache.c:172-207 | when a store completes, its entry is even and holds exactly its descriptor, generation, path and NUL |
| FdCache.HeldPathIsFound | src/config/chaos_io_fdcache.c:219-265 | while an entry holds a store for the descriptor and the path fits the buffer, no step of an undisturbed lookup gives up, and what it reads is that path and generation |
| FdCache.LookupBeginsAndEnds | src/config/chaos_io_fdcache.c:219-265 | a lookup begins unless the table is unused or the entry is being filled, and ends in a hit unless the generation has moved on |
| FdCache.StoreGivesUpToAnother | src/config/chaos_io_fdcache.c:172-207 | a store gives up only for a path that may not be kept or to another store of the same slot |
| HitsReport.StepKeeps | src/config/chaos_io_config.c:800-857 | every step keeps: one writer, a pending mark is served, counts not yet written are marked, and a due hit is written, marked or covered by the write in progress |
| HitsReport.RunKeepsInv | src/config/chaos_io_config.c:800-857 | the invariant holds in every state of every run |
| HitsReport.OneWriterAtATime | src/config/chaos_io_config.c:800-857 | at most one thread writes the hits buffer |
| HitsReport.QuietCountsAreWritten | src/config/chaos_io_config.c:800-857 | with no thread inside and nothing pending, the last write read every count |
| HitsReport.OnlyDeferredHitsWait | src/config/chaos_io_config.c:800-857 | with no thread inside, a mark is pending only if a hit was left not due since the last write began, and without one every hit is in the last write |
| HitsReport.DueHitsAreNotLost | src/config/chaos_io_config.c:787-857 | for every due hit of every run, whether it found the writer busy or not and whatever other hits were left not due: once every thread has left, the last write has counted it |
| HitsReport.CountsAreHits | src/config/chaos_io_config.c:800-822 | a slot's count is what it was at first and one for each hit since |
| HitsReport.DueThreadWrites | src/config/chaos_io_config.c:829-857 | from any state in which nobody holds the flag, a thread whose mark is due, left to itself, ends with every count written, nothing pending and the flag free |
| HitsReport.MarksAreLookedAt | src/config/chaos_io_config.c:800-828 | a flush goes on exactly when something is pending, and a hit always leaves a mark or finds one |
| BpfFilter.PrologueDecides | src/init/chaos_init_core.c:255-267 | a foreign architecture and the x32 range are allowed; everything else goes on with its number |
| BpfFilter.HandoverDecides | src/init/chaos_init_core.c:268-284 | sendmsg is allowed exactly for the handover descriptor and flags, by their low words; every other number passes through |
| BpfFilter.ChainDecides | src/init/chaos_init_core.c:285-294 | the jump chain notifies exactly the numbers still listed |
| BpfFilter.ProgramDecides | src/init/chaos_init_core.c:214-296 | the program's verdict is the membership predicate |
| BpfFilter.FilterIsMembership | src/init/chaos_init_core.c:214-296 | for every library set, descriptor and record the program returns inside itself with the membership verdict, and every jump fits its byte |
| BpfFilter.CollectedSize | src/init/chaos_init_core.c:105-117 | a list without repeats is as long as its set |
| BpfFilter.AddSyscall | src/init/chaos_init_core.c:105-117 | adds a number to the set listed, without repeats, within the buffer |
| BpfFilter.CollectCalls | src/init/chaos_init_core.c:222-237 | the list holds exactly the union of the selected tables |
| BpfFilter.TakeSendmsg | src/init/chaos_init_core.c:238-247 | swap-removal takes out exactly sendmsg and tells whether it was there |
| BpfFilter.EmitChain | src/init/chaos_init_core.c:285-292 | the loop writes the chain of tests |
| BpfFilter.WriteProgram | src/init/chaos_init_core.c:255-295 | the emitted instructions are the program, at most fifteen more than the calls |
| BpfFilter.BuildFilter | src/init/chaos_init_core.c:214-296 | compiles the membership filter within capacity, or writes nothing exactly when calls and 16 exceed it |
| Paths.NormalizePath | src/core/chaos_io_internal.h:749-797 | the in-place loop leaves exactly the normal form, never longer, for every absolute path, and touches nothing beyond the old text |
| Paths.Consume | src/core/chaos_io_internal.h:758-796 | one component is folded in place without the write cursor overtaking unread input |
| Paths.DropLast | src/core/chaos_io_internal.h:777-788 | moving back to the previous separator drops the last component, stopping at the root |
| Paths.ComponentsAreClean | src/core/chaos_io_internal.h:749-797 | folding leaves no empty, dot or dot-dot component |
| Paths.ComponentsOfRender | src/core/chaos_io_internal.h:749-797 | clean components survive rendering and splitting |
| Paths.NormalIsCanonical | src/core/chaos_io_internal.h:749-797 | normalising is idempotent, keeps the components, and leaves exactly the normal paths as they are |
| Paths.ComponentsByPiece | src/core/chaos_io_internal.h:749-797 | for every absolute path: appending `..` drops the last component, nothing when there is none; appending `.` or a separator changes nothing; appending a plain name adds it |
| PathRules.CoversIsComponentPrefix | src/config/chaos_io_config.c:730-738 | on normal paths the text test holds exactly when the prefix's components are a prefix of the path's |
| PathRules.JoinedPathDescends | src/core/chaos_io_internal.h:813-844 | a joined path resolves to the base's components followed by those of the relative path |
| PathRules.JoinedText | src/core/chaos_io_internal.h:813-844 | two texts that are not empty are joined by exactly one separator, when that fits with its NUL, and refused otherwise |
| PathRules.SelectRule | src/config/chaos_io_config.c:1577-1617 | returns a matching rule whose prefix as written is longest, the earliest of those, and nothing exactly when none matches |
| PathRules.MatchesByComponents | src/config/chaos_io_config.c:730-765 | a prefix matches what lies below it or below what it resolves to, by components; the wildcard matches every absolute path but memory files |
| PathRules.SelectedIsDeepest | src/config/chaos_io_config.c:1577-1617 | without links and wildcards the selected rule's prefix is the deepest that covers the path, the earliest among equals |
| Selection.BestIsEarliestMaximum | src/config/chaos_io_config.c:1577-1617 | a scan that replaces only by strictly larger keys ends on the earliest maximum |
| Probability.Parse | src/common/chaos_policy.h:85-126 | accepts exactly the grammar and reads a field of it as its meaning |
| Probability.TruncatedToFifteenPlaces | src/common/chaos_policy.h:85-126 | the value is in [0, 1], the written decimal cut after 15 places, less than 10^-15 below it |
| Probability.ScanDigits | src/common/chaos_policy.h:103-117 | the loop keeps the decimals below the scale and the scale at most 10^15 |
| Probability.CountDigit | src/common/chaos_policy.h:112-116 | a digit counts while the scale is below 10^15 and is ignored after that |
| QualifierParser.ReadNumber | src/common/chaos_policy.h:135-154 | reads exactly 1 to 18 digits up to the NUL |
| QualifierParser.ReadWord | src/common/chaos_policy.h:163-196 | reads a word as the qualifier it spells, in the order of the keywords |
| Qualifiers.WordGrammar | src/common/chaos_policy.h:163-196 | a word is a qualifier exactly when it is a keyword and 1 to 18 digits, and not first=0 |
| Qualifiers.ParsesItsRendering | src/common/chaos_policy.h:163-196 | every allowed qualifier below 10^18 is read back from its rendering |
| Qualifiers.WordsByText | src/common/chaos_policy.h:163-196 | the five keywords letter by letter: which amount each one sets, with zero refused for `@first` alone |
| Qualifiers.LeftmostWins | src/common/chaos_policy.h:217-264 | a repeated qualifier resolves to its leftmost occurrence |
| Qualifiers.LayoutDecides | src/common/chaos_policy.h:217-264 | what the right-to-left scan yields, by the rule, words and blanks of the line: malformed, or cut at the leftmost qualifier with all of them applied |
| Qualifiers.EveryBodyHasALayout | src/common/chaos_policy.h:217-264 | every line divides into a rule, qualifier words and trailing blanks |
| Qualifiers.RenderedList | src/common/chaos_policy.h:217-264 | any list of qualifiers rendered behind a rule, before any comment, is read back in order |
| Qualifiers.OneWordBehindBlanks | src/common/chaos_policy.h:217-264 | a qualifier is found behind any spaces and tabs and before any spaces, tabs and carriage returns |
| Qualifiers.NoBlankNoQualifier | src/common/chaos_policy.h:217-264 | a line with no space or tab before its comment has no qualifiers |
| Qualifiers.RoundTrip | src/common/chaos_policy.h:217-264 | a rendered policy is read back as that policy, and the cut leaves the rule and one blank |
| Qualifiers.EmptyWindowStillCuts | src/common/chaos_policy.h:255-262 | an empty window is refused only after the line was cut |
| QualifierParser.FailureCutsEmptyWindows | src/common/chaos_policy.h:211-264 | for every line: extraction fails and yet changes the line exactly when its words are well formed and the window they give is empty |
| QualifierParser.FailureByWords | src/common/chaos_policy.h:211-264 | in terms of the line: extraction fails exactly when some word is no qualifier or the leftmost from and until make an empty window, and changes the line only in the second case |
| QualifierParser.FindBody | src/common/chaos_policy.h:219-220 | finds the end of the part before the first comment mark |
| QualifierParser.TakeWord | src/common/chaos_policy.h:226-253 | one round of the scan, with the word terminated and restored in place |
| QualifierParser.Extract | src/common/chaos_policy.h:217-264 | computes the scan; a malformed word leaves the line byte for byte as it was, otherwise one NUL is written at the cut |
| Decimals.ValueSplit | src/common/chaos_policy.h:135-154 | leading digits count for powers of ten of the trailing ones |
| Decimals.ValueOfDigits | src/common/chaos_policy.h:135-154 | the digits of a number have it as their value |
| DnsLists.CallRealFree | src/dns/chaos_dns_actions.c:133-147 | releases each node of a real list once and leaves block nodes alone |
| DnsLists.Drop | src/dns/chaos_dns_actions.c:190-217 | unlinks one node, handing its name on, and releases only that node |
| DnsLists.Filter | src/dns/chaos_dns_actions.c:173-224 | leaves exactly the nodes of family 2 or 10, as asked, in order, releases each dropped real node once, moves the head's name to the new head, and reports whether anything is left |
| DnsLists.KeepsFamily | src/dns/chaos_dns_actions.c:184-215 | exactly the nodes of the family are kept |
| DnsLists.KeepSplits | src/dns/chaos_dns_actions.c:184-215 | the kept nodes stay in order: filtering distributes over the parts of a list |
| DnsLists.Limit | src/dns/chaos_dns_actions.c:232-263 | leaves the first nodes up to the limit and releases the real tail in one call |
| DnsLists.Sweep | src/dns/chaos_dns_actions.c:306-315 | the descending sweep is the swap function of the draws |
| DnsLists.Reorder | src/dns/chaos_dns_actions.c:317-328 | relinks the nodes in the array's order with the name on the new head |
| DnsLists.Shuffle | src/dns/chaos_dns_actions.c:272-331 | relinks a permutation of the same nodes for every draw, the name on the new head only |
| Shuffling.SweepPermutes | src/dns/chaos_dns_actions.c:306-315 | whatever is drawn, the sweep permutes |
| Shuffling.EveryOrderIsReached | src/dns/chaos_dns_actions.c:306-315 | some draws produce any given order |
| DnsLists.Registry.Find | src/dns/chaos_dns_owned.c:51-66 | finds the block a node lies in |
| DnsLists.Registry.Contains | src/dns/chaos_dns_owned.c:154-162 | tells whether a node lies in a registered block |
| DnsLists.Registry.Register | src/dns/chaos_dns_owned.c:138-150 | enters a block in a free slot, or refuses exactly when there is none |
| DnsLists.Registry.Free | src/dns/chaos_dns_owned.c:170-185 | frees the whole block of any of its nodes once and empties its slot; a real node frees nothing |
| DnsOverride.CopyAll | src/dns/chaos_dns_owned.c:110-131 | one new node per node of the lists, in order and of its family, linked and unnamed |
| DnsOverride.OwnedCopy | src/dns/chaos_dns_owned.c:77-151 | registers the copies as one named block; fails for no nodes, without memory, or with a full table, leaving the table as it was |
| DnsOverride.GatherTakesAll | src/dns/chaos_dns_lookup.c:350-390 | resolved is every usable literal, in order, up to the one that ends it: a malformed one, one beyond 32, or one the resolver refuses, whose code is returned |
| DnsOverride.ResolveLiterals | src/dns/chaos_dns_lookup.c:350-390 | the loop resolves exactly those literals and reports the error that ended it |
| DnsOverride.ReleaseAll | src/dns/chaos_dns_lookup.c:398-401 | each partial result is released once |
| DnsOverride.ApplyOverride | src/dns/chaos_dns_lookup.c:319-403 | whatever the outcome every real result is released once; on success the answer is one block with the queried name |
| DnsOverride.CodeByLiterals | src/dns/chaos_dns_lookup.c:350-403 | the result code by the literals: -4, the resolver's own, -2, -10 or 0, and when each |
| DnsOverride.FamiliesFromFirst | src/dns/chaos_dns_owned.c:110-131 | the copies follow the order of the lists, the first list's nodes first |
| DnsAnswers.Shape | src/dns/chaos_dns_lookup.c:475-507 | filter, shuffle and limit leave a prefix of the kept nodes in their own or the swept order and account for all others |
| DnsAnswers.AnswerByRules | src/dns/chaos_dns_lookup.c:475-507 | an answer holds the nodes of the family asked for (2 or 10) and no others, cut at the limit, and in their own order unless shuffled |
| DnsAnswers.EmptiedByRules | src/dns/chaos_dns_lookup.c:475-507 | a lookup is emptied exactly when a family filter or a limit is set and no wanted node is left, or the limit is zero |
| DnsAnswers.Transform | src/dns/chaos_dns_lookup.c:459-508 | EAI_NONAME exactly when filtering or the limit leaves nothing, and then everything is released, the block whole |
| DnsAnswers.FreeAddrInfo | src/dns/chaos_dns_lookup.c:578-585 | the application's freeaddrinfo releases whatever is left: the block whole, or the real list |
| DnsLookup.ResolveReal | src/dns/chaos_dns_lookup.c:420-508 | a resolver answer after the transforms: its code, list, order, length and name |
| DnsLookup.ResolveOverride | src/dns/chaos_dns_lookup.c:420-508 | an OVERRIDE answer after the transforms: its code, block, list and name |
| DnsLookup.RealLookup | src/dns/chaos_dns_lookup.c:420-585 | from resolver to freeaddrinfo every node is released exactly once |
| DnsLookup.OverrideLookup | src/dns/chaos_dns_lookup.c:319-585 | from literals to freeaddrinfo every real node and the block are released exactly once, and the registry is as before |
| DnsRules.CaseEqual | src/dns/chaos_dns_config.c:370-391 | two texts are equal letter by letter, the 26 letters of the alphabet without case |
| DnsRules.SuffixIsLabels | src/dns/chaos_dns_config.c:635-649 | the textual suffix test with its dot is the test that the labels are a proper suffix |
| DnsRules.MatchSelector | src/dns/chaos_dns_config.c:592-655 | the rank is 3 for an exact name, 2 for a name below the suffix, 1 for any, 0 for none |
| DnsRules.SelectRule | src/dns/chaos_dns_config.c:1558-1600 | returns the earliest of the rules of highest rank and then longest selector, and nothing exactly when none matches |
| DnsRules.WinnerIsUnique | src/dns/chaos_dns_config.c:1558-1600 | no second rule is the winner |
| DnsRules.DeepestSuffixWins | src/dns/chaos_dns_config.c:1558-1600 | when a suffix rule wins, no matching suffix rule names more labels |
| DnsRules.WinnerByKind | src/dns/chaos_dns_config.c:1558-1600 | by kind and text: an exact rule for the name wins if there is one; else a suffix rule the name lies below; an ANY rule only when neither exists |
| DelayQueue.DelayAnswer | src/init/chaos_init_delay.c:29-38 | a due answer is never held again |
| DelayQueue.Queue.Add | src/init/chaos_init_delay.c:40-54 | appends unless 1024 entries are parked |
| DelayQueue.Queue.Resume | src/init/chaos_init_delay.c:56-74 | gives the first entry of the same call the new id and changes nothing else |
| DelayQueue.Queue.Next | src/init/chaos_init_delay.c:76-93 | the earliest due time, attained; nothing when empty |
| DelayQueue.Queue.Pop | src/init/chaos_init_delay.c:95-110 | takes the first due entry out by moving the last into its place; nothing when none is due |
| DelayQueue.SwapRemoveTakesOne | src/init/chaos_init_delay.c:95-110 | that removal takes exactly one entry |
| Supervisor.ParkedLongEnough | src/init/chaos_init.c:447-567 | despite the clock cut to milliseconds, an entry is due later than arrival plus delay |
| Supervisor.AnswerConserves | src/init/chaos_init.c:511-572 | one notification is bound again, dropped, parked or answered: every id stays accounted for |
| Supervisor.DrainKeeps | src/init/chaos_init.c:593-596 | draining loses and invents no id and answers nothing early |
| Supervisor.DrainAnswersDue | src/init/chaos_init.c:593-596 | the entries answered and those left are together the entries there were, each as often; the answered ones were due, the others are not, and each answered one gets its own reply in the order taken |
| Supervisor.DrainLeavesUndue | src/init/chaos_init.c:593-596 | draining leaves exactly the entries that are not due |
| Supervisor.StepKeeps | src/init/chaos_init.c:511-616 | both steps keep the supervisor's invariant |
| Supervisor.RunKeepsInv | src/init/chaos_init.c:511-616 | the invariant holds in every state of every run |
| Supervisor.EachNotificationHasOneFate | src/init/chaos_init.c:511-616 | in every run each id received is in exactly one place: parked, answered once, dropped, or superseded |
| Supervisor.NoTwinsAndNoneEarly | src/init/chaos_init.c:511-616 | in every run no two parked entries are the same call, and no delayed reply comes before arrival plus delay |
| Supervisor.TimerCoversEarliest | src/init/chaos_init.c:583-616 | after every timer step nothing due is parked and the timer is set no later than the earliest due call and the next flush; it is off only with nothing to wait for |
| Supervisor.WaitsForTheEarliest | src/init/chaos_init.c:858-942 | in every run, whenever the loop waits no parked call is due, and the timer wakes it no later than any falls due |
| Supervisor.RestartKeepsDueTime | src/init/chaos_init_delay.c:56-74 | a restarted call keeps its due time and answer under its new id |
| SupervisorLoop.Loop.AnswerNotification | src/init/chaos_init.c:511-572 | the method does the answering step of the state machine |
| SupervisorLoop.Loop.AnswerDue | src/init/chaos_init.c:593-596 | the pop loop drains |
| SupervisorLoop.Loop.Rearm | src/init/chaos_init.c:602-615 | the timer is what the state machine arms |
| SupervisorLoop.Loop.ServeTimer | src/init/chaos_init.c:583-616 | the method does the timer step of the state machine |
| SupervisorFates.EventDecidesFate | src/init/chaos_init.c:549-571 | by the event alone: a call is dropped if and only if its verdict is not PASS and its caller is gone, held back if and only if its verdict is DELAY, it is not dropped and there is room, and otherwise answered at once with the reply its verdict means; nothing else changes |
| SupervisorFates.ParkedWereHeldBack | src/init/chaos_init.c:556-567 | in every run each parked call was held back by a DELAY event, for its delay and at most a millisecond more than the clock's reading, and will be answered as its verdict meant |
| SupervisorFates.RepliesAreAccounted | src/init/chaos_init.c:466-489 | every reply of a run was sent at once for an event not withdrawn and not held back, or when due for one held back, with the effect the event's verdict meant |
| SupervisorFates.DroppedWereWithdrawn | src/init/chaos_init.c:549-554 | a notification is dropped only when its caller was gone and its verdict not PASS |
| SupervisorFates.TimerHasAReason | src/init/chaos_init.c:602-615 | the timer is the due time of a parked call or the time of the next write of hits, or the next millisecond when that is past: never earlier |
| SupervisorFates.FlushesAreSpaced | src/init/chaos_init.c:597-601 | hits that wait are written at once unless the last write is less than 100 ms ago, and writes are at least that far apart |
| HitsFiles.StepKeeps | src/common/chaos_status.h:348-426 | every system call of every process keeps the invariant over names, files and owners |
| HitsFiles.RunKeepsInv | src/common/chaos_status.h:348-426 | the invariant holds in every state of every run |
| HitsFiles.OwnersCreated | src/common/chaos_hits.h:465-512 | an owner created its file exactly unless it ran out of staging names; two processes own one file only if one of them ran out |
| HitsFiles.RunsOutAtTheFourthName | src/common/chaos_status.h:366-392 | ownership without creation arises at one branch only: the fourth staging name is taken too |
| HitsFiles.RunningOutClaimsOwnership | src/common/chaos_hits.h:494-510 | from any state with the remaining staging names taken, the process ends up an owner without creating a file |
| HitsFiles.TwoOwnersAreReachable | src/common/chaos_hits.h:494-510 | a run in which two processes own the same file |
| HitsFiles.ReplacingStep | src/common/chaos_status.h:396-411 | a step replaces or removes a hits file exactly when it is the rename of a process that takes it for its own; that process created it exactly when it never ran out of staging names |
| HitsFiles.OnlyRunningOutReplacesAStrangersFile | src/common/chaos_hits.h:449-456 | in every run, a process that replaces a hits file created it exactly when no publication of its own ran out of staging names |
| HitsFiles.StrangersFileIsReplaced | src/common/chaos_hits.h:449-512 | a run in which a process renames over the file another created |
| HitsFiles.HitsFilesAreWhole | src/common/chaos_status.h:348-426 | whatever a hits file's name leads to is the whole of some writer's data |
| HitsFiles.PublishedIsTheData | src/common/chaos_status.h:348-426 | in every run, whatever comes under a hits file's name is to the last byte what the process that put it there last set out to publish |
| HitsFiles.GivesUpAtTheFourthName | src/common/chaos_hits.h:494-512 | a process that owns no file takes the next number while fewer than four were taken, gives up at the fourth, and owns the first that was free |
| HitsFiles.GivesUpAtTheFourthStaging | src/common/chaos_status.h:366-392 | a publication tries four staging names and gives up at the fourth that is taken, with the process taken for an owner |
| HitsFiles.NoStagingIsLeft | src/common/chaos_status.h:348-426 | every staging name belongs to a process in the middle of a publication |
| HitsFiles.OpenFilesStayWhole | src/common/chaos_status.h:293-426 | no step changes a file that is whole, so an open reader never sees a mix |
| ReadString.Read | src/init/chaos_init_proc.c:68-93 | succeeds exactly when a NUL lies within the size and every page up to it is mapped, with the exact length and bytes |
| ReadString.ReadChunk | src/init/chaos_init_proc.c:28-46 | a chunk inside one page is read whole or not at all |
| ReadString.SamePage | src/init/chaos_init_proc.c:72-77 | the chunk computed never crosses a page |
| ReadString.OneString | src/init/chaos_init_proc.c:68-93 | there is at most one string at an address |
| RankSum.Midranks | benchmark/driver/chaos_bench_driver.py:138-149 | every value's rank is half a point more than its points against all values |
| RankSum.RunRank | benchmark/driver/chaos_bench_driver.py:141-148 | a run of ties shares the mean of the ranks it spans |
| RankSum.RanksAddUp | benchmark/driver/chaos_bench_driver.py:138-149 | all ranks add up to N(N + 1) / 2 |
| RankSum.RankSumCountsPairs | benchmark/driver/chaos_bench_driver.py:150-151 | a group's rank sum exceeds the least possible by its points against the other group |
| RankSum.GridMirror | benchmark/driver/chaos_bench_driver.py:152 | every pair shares one point, whichever way it is counted |
| RankSum.SortKeepsSums | benchmark/driver/chaos_bench_driver.py:137 | sorting keeps every sum over the values |
| RankSum.RankSumOfSamples | benchmark/driver/chaos_bench_driver.py:150-153 | the rank sum of the sorted pool, by the pairs it counts |
| RankSum.Test | benchmark/driver/chaos_bench_driver.py:124-165 | u1 is the pairs won plus half the ties, u2 the same from the other side, they add up to n1 n2, and the lesser is between 0 and n1 n2 / 2 |

## Left out

- Weak memory: shared accesses are sequentially consistent, as the full barriers around them intend.
- Wrap-around of counters: snapshot and cache sequences and cache generations are unbounded, and a run of `RuleSnapshotsTheorems` ends before a slot's generation reaches 2^32, where claim-word tags repeat.
- Hit counts by rule across a racing reload: the count is incremented after the claim without a generation check, so a late hit of a departed rule lands on its slot's next rule; `RuleSnapshotsFires.SlotsShowTheirHits` counts by slot.
- Link re-resolution of rules (`src/config/chaos_io_config.c`, links and resolved paths): it depends on the file system and writes metadata of the active snapshot; a rule's words are those its text parses to.
- The parser of the I/O rule grammar: an arbitrary function from texts to rule words in `RuleSnapshots`. The program keeps 200 bytes of a rule's text (`src/common/chaos_status.h:128-140`), so `RuleSnapshots` and `HitPool` describe rule files whose rules are told apart by their first 200 bytes; longer rules that agree there share a slot whatever follows.
- `RuleSnapshots`: runs begin after `chaos_io_config_init`, which leaves both sequences at 2; a clear writes zeros word by word in any order.
- `RuleSnapshots`: the resolved prefix of a rule points into its snapshot; the words of a copy are values here.
- The text array next to a snapshot, the status file, and the `report` hook of a slot.
- Fork beyond the pool: the child's other state (`chaos_io_config_after_fork`) is not part of the models.
- BpfFilter.LoadWord: models a little-endian record, so the low words of 64-bit arguments come first.
- HitsReport: whether a hit is due (the eager count, the interval, the process id check) is an arbitrary choice of the thread.
- FdCache: `chaos_io_fdcache_resolve` stores whatever the kernel names; the race of two threads that first map the table, and a name cut off by the buffer, are not modelled.
- HitsFiles: crashes, deletions, failing writes and links, and the in-place rewrite after a refused rename; a descriptor's writes are whole steps of any size.
- `chaos_status_write_all` against error codes: in `HitsFiles` a write moves at least one byte.
- Probability.Parse: a NULL argument, and the rounding of the final quotient, which a double rounds and a rational does not.
- QualifierParser.Extract: the policy left behind when a word is malformed is unspecified, as its callers ignore it.
- DNS answers: socket addresses, service names, the parsing of OVERRIDE literals (each is malformed, of another family, or an answer), the spin lock around the registry, and the case that the real freeaddrinfo is not resolved yet.
- DnsLists.AddrInfo: `family` is constant because no code writes it; the registry finds a node by membership where the program compares addresses.
- DnsRules: `tolower` outside ASCII, and the reload of the DNS rule file, which repeats the protocol of the I/O rules.
- Supervisor: the deciders and tracee writes are parts of a notification's verdict; replies succeed or have nobody left to answer.
- Supervisor.EachNotificationHasOneFate: needs notification ids that the kernel does not use twice.
- SupervisorLoop.Loop.ServeTimer: requires that the last flush does not lie after the present, which the invariant and a monotonic clock give; the program subtracts without a test.
- ReadString.Read: addresses do not wrap at 2^64, and the memory does not change during the read.
- RankSum.Test: the z score, p-value and effect size, which need roots and the error function; the sort is written out as a stable insertion sort.
- The median and the bootstrap interval of the benchmark driver.
- Wrappers, stdio variants, symbol lookup, JSON output, the memory rules and the call decoding tables, which are plumbing or table lookups.
