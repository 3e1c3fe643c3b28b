# ZLayer: a verified model of its package-map pipeline, sidecar shutdown, path editing and dependency ordering

This project models parts of ZLayer in Dafny and proves what they promise.

**The package-map generator** (`scripts/generate-package-maps.py`). Rows of (Linux name, Homebrew formula) are grouped
per name, one formula is picked per name through an alias index, the distributions vote on a common formula, and each
directory is published as 27 shards and an index, every file by way of a temporary file and a rename.
`Formulas`, `Selection`, `Aliases`, `Extraction` and `Consensus` are the choice of formulas; `Filing` and `Sharding` the
split into shards; `Commits` the write-then-rename protocol cut off after any step; `Publishing` what a cut-off or
complete run leaves on disk; `Generator` the imperative writers, proved to perform exactly the steps `Publishing` reasons
about; `Pipeline` the whole run and the resolver that reads its result (`macos_image_resolver.rs`).

**The build sidecar's shutdown** (`bin/zlayer-buildd`). `Shutdown` is a transition system over every interleaving of the
signal, idle and stopper goroutines and of the build calls they watch, with a clock. `IdleLoop` is the poll loop itself.

**The installer's PATH editors** (`install.py`): `ShellPath` and `WindowsPath`.

**The Go client's path templates** (`clients/go`): `UrlTemplate`.

**Dependency ordering** (`crates/zlayer-agent`, `crates/zlayer-builder`). `Graphs` is the theory of cycles and orders.
`KahnSort`, `CycleSearch` and `StartupOrder` are the service dependency graph; `BuildWaves` is the pipeline's waves.

`Text` holds shared facts about strings and sequences.

## Where the code and its documentation differ

- The alias index documents that canonical names map to themselves. They do exactly when no later formula takes a name
  over (`Aliases.CanonicalsMapToThemselvesIff`); looking up twice equals looking up once under a weaker, also exact,
  condition (`Aliases.IdempotentIff`).
- `pick_winner` calls itself deterministic. Its result depends on the order of the candidates exactly when two of them
  are differently spelled equal highest majors of the resolved base, such as `node@8` and `node@08`
  (`Extraction.OrderIrrelevantIffNoTies`, and `Extraction.NodeRowsDiffer` for these two).
- The resolver says it mirrors the generator's shard rule. It does except on two first characters: U+212A is filed under
  `k` and looked for under `_misc`, and U+0130 has no shard at all, so the generator stops with a `KeyError` before it
  writes anything to that directory (`Sharding.KeysAgreeIff`, `Sharding.KeyIsShardIff`).
- The idle loop's comment says a finishing build restarts the idle clock before it can be stopped. The build leaves the
  registry before its last touch, so a poll in between still fires (`Shutdown.PollCanBeatTheLastTouch`), exactly when
  every call that has not returned is outside the registry (`Shutdown.PollFiresOverCallsIff`). And since reading,
  counting and sending are separate steps, a build can be in flight when the idle reason is sent
  (`Shutdown.SplitReadsCanStopABuild`): exactly those that registered after the count and have not finished
  (`Shutdown.InFlightAtTheSendIff`).
- A second call of the Windows editor is a no-op exactly when the directory, split at `;`, lists itself
  (`WindowsPath.SecondCallIsNoOpIff`). A directory with a semicolon is added again, and so is the root
  (`WindowsPath.SemicolonIsAddedAgain`, `WindowsPath.RootIsAddedAgain`); a normalized directory without a semicolon is
  not, unless it ends in a backslash (`WindowsPath.SecondCallOnNormalDirectory`).
- The Windows editor updates the process path so that the installed program is found. It looks for the directory as a
  piece of text, so a longer name hides it (`WindowsPath.LongerNameHidesDirectory`); the directory becomes an entry
  exactly when it was one or the text did not occur (`WindowsPath.ProcessEntryIff`). The shell editor has the same
  test (`ShellPath.HoldsTheLineIff`, `ShellPath.LongerNameKeepsItOut`).
- The Go client replaces placeholders in the whole path, the base included; a base path comes through exactly when it
  holds none of them (`UrlTemplate.BaseKeptIff`, and `UrlTemplate.BaseIsReplaced` for one that does).
- The last error of the dependency graph's sort is documented as one that should not happen; it cannot
  (`StartupOrder.Build`).

## Model

| member | source | states |
|---|---|---|
| Formulas.OutranksTotal | scripts/generate-package-maps.py:400-406 | the tie-break compares any two different names |
| Formulas.OutranksTransitive | scripts/generate-package-maps.py:400-406 | and is transitive, so it is a strict total order |
| Formulas.TiebreakIsGreatest | scripts/generate-package-maps.py:400-406 | the tie-break returns the candidate that outranks all others: versioned before unversioned, then the higher major, then the greater string, and the least string among unversioned |
| Formulas.GreatestIsUnique | scripts/generate-package-maps.py:400-406 | a set of names has at most one greatest |
| Selection.DedupeCanonicals | scripts/generate-package-maps.py:371-377 | the loop computes the canonical names in order of first appearance |
| Selection.CanonicalsCover | scripts/generate-package-maps.py:371-377 | which are exactly the canonical names of the candidates |
| Selection.CanonicalsDistinct | scripts/generate-package-maps.py:371-377 | each once |
| Selection.PickWinner | scripts/generate-package-maps.py:366-406 | the loops and early returns compute `Winner`, whose meaning the next rows state |
| Selection.FirstHitResolves | scripts/generate-package-maps.py:381-389 | the variant loop finds the canonical of the name itself, else of its stripped form, if that is a candidate; and nothing else |
| Selection.UpgradePrefersMajor | scripts/generate-package-maps.py:390-398 | an unversioned hit gives way to a highest purely numeric `@N` candidate of it, if there is one |
| Selection.WinnerIsRight | scripts/generate-package-maps.py:366-406 | the declarative meaning: nothing for no candidate, a lone candidate unchanged, otherwise a right choice among the set of canonical names |
| Selection.RightChoiceIsUnique | scripts/generate-package-maps.py:386-406 | there is one right choice unless two majors tie at the top |
| Selection.SameSetSameWinner | scripts/generate-package-maps.py:366-406 | without such a tie the winner depends on the set of candidates only |
| Selection.TieMakesOrderMatter | scripts/generate-package-maps.py:391-397 | with such a tie some candidate, put first, always changes the winner |
| Selection.CanonicalizingFirst | scripts/generate-package-maps.py:366-406 | with an idempotent index and two or more candidates, replacing them by their canonical names first changes nothing |
| Aliases.BuildIndex | scripts/generate-package-maps.py:309-320 | the loop computes the index of the formula list |
| Aliases.LastMentionWins | scripts/generate-package-maps.py:311-320 | a key maps to the canonical name of the last formula that mentions it |
| Aliases.MentionsAreKeys | scripts/generate-package-maps.py:311-320 | every mentioned name is a key |
| Aliases.CanonicalsMapToThemselvesIff | scripts/generate-package-maps.py:287-290 | the documented promise holds if and only if no name is taken over for good |
| Aliases.IdempotentIff | scripts/generate-package-maps.py:309-320 | looking up twice equals looking up once if and only if every formula that loses its own name loses all names it claimed |
| Aliases.SeparateNamesAreIdempotent | scripts/generate-package-maps.py:309-320 | in particular when no alias or old name is another formula's name |
| Aliases.TakeoverBreaksIdempotence | scripts/generate-package-maps.py:316-320 | a two-formula list for which both fail |
| Extraction.RowIff | scripts/generate-package-maps.py:455-462 | a line is a row if and only if the text before and after its first bar is not blank, and the row is those texts without the blanks around them |
| Extraction.RowRoundTrip | scripts/generate-package-maps.py:455-462 | a row of trimmed fields without a bar in the first is read back from its text |
| Extraction.GroupRows | scripts/generate-package-maps.py:454-466 | the loop computes the buckets of the rows |
| Extraction.BucketIsBrews | scripts/generate-package-maps.py:464-466 | a bucket holds each formula paired with the name once, and a name has a bucket exactly when it has a pair |
| Extraction.ExtractMappings | scripts/generate-package-maps.py:454-471 | grouping and picking compute the mapping of the rows |
| Extraction.SameRowsSameMapping | scripts/generate-package-maps.py:454-471 | without ties the mapping depends on the set of rows only, not on order or repeats |
| Extraction.TieMakesRowOrderMatter | scripts/generate-package-maps.py:391-397 | a tie gives a permutation of the rows with another mapping |
| Extraction.OrderIrrelevantIffNoTies | scripts/generate-package-maps.py:454-471 | so row order is irrelevant if and only if no name has tied majors |
| Extraction.NodesTie | scripts/generate-package-maps.py:391-397 | `node@8` and `node@08` tie for the name `node` |
| Extraction.NodeRowsDiffer | scripts/generate-package-maps.py:454-471 | three rows and a permutation of them that give different mappings |
| Consensus.ElectIsElected | scripts/generate-package-maps.py:585-598 | the choice has the most votes, and among those it outranks all others |
| Consensus.ElectedIsUnique | scripts/generate-package-maps.py:585-598 | at most one value is elected by a multiset of votes |
| Consensus.ConsensusAgreesWithSelection | scripts/generate-package-maps.py:566-570 | the consensus choice is `pick_winner` on the vote leaders with an empty index and any Linux name |
| Consensus.CollectVotes | scripts/generate-package-maps.py:578-581 | the nested loops compute, for every name, the votes in distribution order |
| Consensus.AddVotes | scripts/generate-package-maps.py:580-581 | one distribution appends one vote to each name it maps and leaves the others |
| Consensus.ElectFrom | scripts/generate-package-maps.py:585-598 | the value returned for one name has the most of its votes, and outranks every other that has as many |
| Consensus.BuildConsensus | scripts/generate-package-maps.py:578-599 | the whole function computes the consensus |
| Consensus.ChoosesIffElected | scripts/generate-package-maps.py:578-599 | the consensus maps a name to `w` if and only if its votes elect `w` |
| Consensus.DistroOrderIrrelevant | scripts/generate-package-maps.py:578-599 | the order of the distributions is irrelevant |
| Consensus.UnionKeepsTheChoice | scripts/generate-package-maps.py:578-599 | two groups that choose `w`, or one that does and one without a vote, together choose `w` |
| Consensus.MoreSupportKeepsTheChoice | scripts/generate-package-maps.py:578-599 | a distribution that switches to `w`, or starts to vote for it, keeps `w` chosen |
| Consensus.ChoiceIsSomeVote | scripts/generate-package-maps.py:578-599 | every name anyone maps is in the consensus, with a value someone voted for |
| Filing.FileAll | scripts/generate-package-maps.py:495-498 | filing all entries fails exactly when one has no bucket; otherwise every bucket holds the old entries and the new ones under its key |
| Filing.CountIsAll | scripts/generate-package-maps.py:500-530 | the entries counted bucket by bucket are all entries |
| Sharding.KeyIsShardIff | scripts/generate-package-maps.py:54-66 | the shard key is a shard if and only if the name does not start with U+0130 |
| Sharding.KeysAgreeIff | crates/zlayer-builder/src/macos_image_resolver.rs:1484-1524 | generator and resolver agree on a name's shard if and only if it starts with neither U+0130 nor U+212A |
| Sharding.FillBuckets | scripts/generate-package-maps.py:494-498 | the loops fail exactly when some name has no shard; otherwise looking a name up in its own bucket gives the override, else the mapping, else nothing, and no name is in two buckets |
| Sharding.TotalIsUnion | scripts/generate-package-maps.py:500-535 | the returned total is the size of the union of mapped names and overrides |
| Commits.CommitCompletes | scripts/generate-package-maps.py:506-527 | the steps of one file leave it published, or dropped, and no temporary file |
| Commits.CommitCut | scripts/generate-package-maps.py:524-527 | cut off before the last step, nothing but the temporary file has changed |
| Commits.EveryCut | scripts/generate-package-maps.py:488-490 | wherever a list of commits is cut off, some number of them is complete and the rest has changed one temporary file at most |
| Publishing.AllSeparate | scripts/generate-package-maps.py:500-557 | no file of a run is written twice, and no temporary file is a published one |
| Publishing.EveryCrashIsAPrefix | scripts/generate-package-maps.py:488-557 | at every crash point there is a position before which all files are exactly the new ones and after which exactly the old ones, so none is half written |
| Publishing.AtMostOneTmp | scripts/generate-package-maps.py:488-490 | from a disk without temporary files a crash leaves one at most |
| Publishing.OtherDirectoriesUntouched | scripts/generate-package-maps.py:500-557 | other directories never change |
| Publishing.IndexIsOldOrTrue | scripts/generate-package-maps.py:538-557 | at every crash point an index is the previous one, or the new one with exactly the listed shards present, all new, and its total their entry count |
| Publishing.CompleteRunHolds | scripts/generate-package-maps.py:649-670 | a generation that is not cut off leaves every index true in that sense |
| Publishing.CompleteRunForgetsThePast | scripts/generate-package-maps.py:481-486 | from any two prior disks, crashed ones included, and however the writing is split up, a complete generation leaves the same published files |
| Generator.PublishDoc | scripts/generate-package-maps.py:524-527 | writing and renaming performs exactly the steps of one commit |
| Generator.DropFile | scripts/generate-package-maps.py:506-511 | an empty shard's file is removed if it exists |
| Generator.WriteShards | scripts/generate-package-maps.py:500-530 | the loop performs the shard commits in order and returns the non-empty shards and the number of entries |
| Generator.WriteShardedMapFiles | scripts/generate-package-maps.py:494-535 | the function fails without touching the disk exactly when some name has no shard |
| Generator.WriteDistroIndex | scripts/generate-package-maps.py:538-557 | the index is one more commit |
| Generator.PublishRun | scripts/generate-package-maps.py:651-659 | one directory: its 27 shards, then its index |
| Generator.PublishAll | scripts/generate-package-maps.py:649-670 | the directories are published in order up to the first that cannot be sharded |
| Pipeline.ExtractAll | scripts/generate-package-maps.py:633-639 | the first pass keeps the repositories with a mapping |
| Pipeline.Generate | scripts/generate-package-maps.py:631-670 | the program performs exactly the commits of its runs, all of them if and only if every mapping can be sharded |
| Pipeline.EveryNameIsInCommon | scripts/generate-package-maps.py:572-576 | after a complete run every name of any distribution is in its common shard, with its override, else a value some distribution voted for, and the shared value where all agree |
| Pipeline.LoadPackageMap | crates/zlayer-builder/src/macos_image_resolver.rs:1534-1566 | the resolver's loop merges the requested shards of the common directory and then of the distribution |
| Pipeline.MergeIsOwnShard | crates/zlayer-builder/src/macos_image_resolver.rs:1551-1558 | over well filed shards, in any order, a merge says of a name what the name's own shard says |
| Pipeline.MergeIsFlat | crates/zlayer-builder/src/macos_image_resolver.rs:1534-1566 | a merged directory is the flat map restricted to the requested shards |
| Pipeline.ResolverAnswers | crates/zlayer-builder/src/macos_image_resolver.rs:1525-1566 | end to end: the resolver gives the distribution's own entry, else the consensus one, else nothing |
| Pipeline.ShardsAfterACrash | scripts/generate-package-maps.py:488-557 | wherever a generation is cut off, every shard reads as exactly the old or exactly the new one, and no common shard is new before all of every distribution's are |
| Pipeline.ResolverAfterACrash | crates/zlayer-builder/src/macos_image_resolver.rs:1534-1566 | after a crash over published directories the resolver answers from the old consensus and either mapping of the distribution, or from both new ones; never from the new consensus and the old mapping |
| Pipeline.RequestCovers | crates/zlayer-builder/src/macos_image_resolver.rs:1543-1546 | which requested names have their shard read, and which of the two odd first characters do not |
| Shutdown.StepKeepsInv | bin/zlayer-buildd/main.go:212-302 | every step of every goroutine and call keeps the invariant |
| Shutdown.RunKeepsInv | bin/zlayer-buildd/main.go:212-302 | so it holds in every reachable state |
| Shutdown.ShutdownIsSafe | bin/zlayer-buildd/main.go:212-249 | in every interleaving two different reasons are sent at most, no sender blocks, one graceful stop starts at most, a hard stop comes 10 s or more after the reason was taken, and an exit without one leaves no build call running |
| Shutdown.ShutdownCompletes | bin/zlayer-buildd/main.go:232-249 | once a reason has been sent the daemon can exit within ten seconds without a step of any build, from every reachable state |
| Shutdown.RegistryCountsBuilds | bin/zlayer-buildd/internal/server/build.go:24-47 | the registry counts exactly the builds between registration and deregistration, and slot holders never exceed the slots |
| Shutdown.HardStopIsFinal | bin/zlayer-buildd/main.go:242-248 | the stopper does nothing after a hard stop |
| Shutdown.TickFiresIff | bin/zlayer-buildd/main.go:274-299 | an uninterrupted tick sends the idle reason if and only if the timestamp is set, the window has passed and no build is registered |
| Shutdown.PollFiresOverCallsIff | bin/zlayer-buildd/internal/server/build.go:25-47 | an uninterrupted tick fires over calls that have not returned if and only if there are some, none is registered, the timestamp is set and the window has passed |
| Shutdown.IdleReasonWasEarned | bin/zlayer-buildd/main.go:275-298 | under every interleaving a loop about to send has made one read, one look at the clock and one count: the timestamp is the server's at the read, it was at least the window old at the look, and at the count the registry was empty |
| Shutdown.IdleIsNoticed | bin/zlayer-buildd/main.go:258-302 | under every interleaving, if activity has ceased, its last touch at `a`, and the loop looks at the clock at least every `gap`, then once the clock is more than `gap` past a+idle and past the ceasing, the loop is about to count an empty registry, about to send, or has sent |
| Shutdown.InFlightIff | bin/zlayer-buildd/internal/server/build.go:44-47 | between any two points of a run a build comes to be in flight if and only if it registered in between and has not finished since |
| Shutdown.InFlightAtTheSendIff | bin/zlayer-buildd/main.go:288-298 | a build is in flight when the idle reason is about to be sent if and only if it registered after the count and has not finished since |
| Shutdown.SplitReadsCanStopABuild | bin/zlayer-buildd/main.go:275-298 | a run that meets that condition: a build starts between the count and the send, and the idle reason is sent while it runs |
| Shutdown.PollCanBeatTheLastTouch | bin/zlayer-buildd/internal/server/build.go:25-47 | a run in which a poll fires after a build has deregistered and before its last touch |
| IdleLoop.RunIdleLoop | bin/zlayer-buildd/main.go:268-301 | the loop ends at the first wake-up that is cancelled or fires, and otherwise goes on |
| IdleLoop.IdleIsNoticedInTime | bin/zlayer-buildd/main.go:258-302 | if activity ceases at `a` and the loop looks at the clock at least every `gap`, the reason is sent by a tick before a+idle+gap, and not before a+idle unless it read the timestamp before `a`; a tick reads timestamp, clock and count one after the other |
| ShellPath.Home.AddToPath | install.py:1329-1391 | whatever `SHELL` says, every existing readable and writable file that lacks the directory gets its own shell's block, once; exactly those are returned, the detected shell's first |
| ShellPath.OnlyAppends | install.py:1342-1389 | a file only grows, keeps its permissions, and then mentions the directory |
| ShellPath.HoldsTheTextIff | install.py:1347-1361 | a file holds the export line's text afterwards if and only if it did, or could be edited and did not mention the directory |
| ShellPath.HoldsTheLineIff | install.py:1347-1361 | and likewise for the export line as a line of its own |
| ShellPath.LongerNameKeepsItOut | install.py:1351-1352 | a file in which a longer name keeps the line out |
| ShellPath.SecondCallDoesNothing | install.py:1347-1354 | a second call under any shell changes nothing and returns an empty list |
| WindowsPath.AnySame | install.py:1254-1258 | the scan finds an equal entry exactly when there is one |
| WindowsPath.Environment.AddToPath | install.py:1254-1278 | an equal entry changes nothing; otherwise the new value, its kind and the process path are as the rows below describe |
| WindowsPath.NewEntries | install.py:1254-1260 | by a split and join round trip the new value's entries are the directory's and then all old ones in order |
| WindowsPath.OneNewEntry | install.py:1260 | exactly one new entry in front for a non-empty directory without a semicolon |
| WindowsPath.SecondCallIsNoOpIff | install.py:1254-1260 | after an addition a second call is a no-op if and only if the directory lists itself |
| WindowsPath.SecondCallOnPlainDirectory | install.py:1255-1257 | for a directory without a semicolon: if and only if normalizing its slash-stripped form changes no more than case |
| WindowsPath.SecondCallOnNormalDirectory | install.py:1239-1260 | for one that is normalized, as the code makes it: always, unless it ends in a backslash, and then exactly under that condition |
| WindowsPath.SemicolonIsAddedAgain | install.py:1254-1260 | a directory with a semicolon that is added again |
| WindowsPath.RootIsAddedAgain | install.py:1255-1257 | the root is added again |
| WindowsPath.ProcessEntries | install.py:1274-1278 | the process path keeps all its entries, and the directory's come in front unless its text occurred |
| WindowsPath.ProcessEntryIff | install.py:1274-1278 | the directory is then an entry of the process path if and only if it has no semicolon and was one, or its text did not occur |
| WindowsPath.LongerNameHidesDirectory | install.py:1275 | a longer name for which it is not |
| UrlTemplate.DecodeEscape | clients/go/api_groups.go:599-600 | percent-decoding (section 2.1 of RFC 3986) undoes the path escape |
| UrlTemplate.EscapeIsInert | clients/go/api_groups.go:599-600 | an escaped value contains no brace and no slash |
| UrlTemplate.ReplaceFills | clients/go/api_groups.go:599 | replacing a placeholder in a rendered template fills exactly the holes of that name |
| UrlTemplate.SubstituteAll | clients/go/api_groups.go:598-600 | successive replacements compute the sequential substitution |
| UrlTemplate.SequentialIsSimultaneous | clients/go/api_groups.go:598-600 | for any template and any number of parameters, sequential substitution fills all holes at once |
| UrlTemplate.OrderIrrelevant | clients/go/api_groups.go:598-600 | so the order of the parameters is irrelevant |
| UrlTemplate.SubstituteAcross | clients/go/api_groups.go:598-600 | replacements act on the parts of a path around a slash separately |
| UrlTemplate.BuiltPath | clients/go/api_groups.go:598-600 | for any base, the base with its own placeholders filled, and both parameters escaped in their segments |
| UrlTemplate.BaseKeptIff | clients/go/api_groups.go:598-600 | the base is unchanged if and only if it holds none of the placeholders |
| UrlTemplate.BaseIsReplaced | clients/go/api_groups.go:598-600 | a base that is a placeholder itself is changed |
| UrlTemplate.RemoveMemberPath | clients/go/api_groups.go:598-600 | the path built is that one for groups and members, for any base |
| UrlTemplate.GetServicePath | clients/go/api_services.go:73-75 | likewise for deployments and services |
| UrlTemplate.PathRoundTrip | clients/go/api_groups.go:598-600 | for any base the path has the template's segment count, and both parameters decode back from their segments |
| UrlTemplate.PathsAreDistinct | clients/go/api_services.go:73-75 | for any base distinct pairs of parameters give distinct paths |
| Graphs.StuckNodesHaveACycle | crates/zlayer-builder/src/pipeline/executor.rs:277-282 | nodes each of which waits for another of them contain a cycle |
| Graphs.OrderedIsAcyclic | crates/zlayer-agent/src/dependency.rs:64-78 | a graph with an order that respects its dependencies has no cycle |
| BuildWaves.NextWave | crates/zlayer-builder/src/pipeline/executor.rs:266-275 | a wave is exactly the remaining images whose dependencies are assigned, each once |
| BuildWaves.ResolveExecutionOrder | crates/zlayer-builder/src/pipeline/executor.rs:247-294 | unknown image if and only if a dependency is missing, circular if and only if there is a cycle, otherwise waves, none of them empty, that hold every image once, after all it depends on |
| BuildWaves.WavesAreEarliest | crates/zlayer-builder/src/pipeline/executor.rs:264-291 | no other assignment of images to waves puts any image earlier |
| KahnSort.WaitingAfter | crates/zlayer-agent/src/dependency.rs:271-280 | a finished node lowers a dependent's open count by as often as it is listed |
| KahnSort.TopologicalSort | crates/zlayer-agent/src/dependency.rs:251-290 | the sort gives an order that respects all dependencies if and only if there is no cycle |
| CycleSearch.ReadCycle | crates/zlayer-agent/src/dependency.rs:215-227 | the parent links, read back and reversed, are a cycle that visits no node twice |
| CycleSearch.Search | crates/zlayer-agent/src/dependency.rs:193-239 | from a white node: a simple cycle, or the node turns black with all it needs ordered before it |
| CycleSearch.DetectCycle | crates/zlayer-agent/src/dependency.rs:170-190 | a simple cycle is returned if and only if the graph has a cycle |
| StartupOrder.AddAll | crates/zlayer-agent/src/dependency.rs:101-140 | both adjacency lists mirror each other, repeats included, unless a service depends on itself or on a missing one |
| StartupOrder.Build | crates/zlayer-agent/src/dependency.rs:96-159 | a graph is built if and only if every dependency exists and none is circular; every refusal names a real fault; the unresolved-cycles error never happens |
| StartupOrder.DependentsAre | crates/zlayer-agent/src/dependency.rs:349-354 | the dependents listed for a service are those that declare it |
| StartupOrder.DependsOn | crates/zlayer-agent/src/dependency.rs:318-346 | the stack search answers whether one service depends on another, directly or not |
| StartupOrder.StartsAfterAllItNeeds | crates/zlayer-agent/src/dependency.rs:294-296 | a service starts after everything it depends on, directly or not |

## Left out

- PostgreSQL, `psql`, the dump and HTTP: the rows and the formula list are inputs; a failed fetch is the empty index.
- JSON text and timestamps: a document is a datatype, a file being written is a count of its pieces, and the time of a run is a parameter.
- Unicode beyond the two characters named above: digits, white space and lower case are those of ASCII.
- `os.makedirs` and failing file operations: a crash is a cut between steps; the order in which a file system makes steps durable after a power loss is not modelled.
- Two repositories of one name and a repository called `common`: `Pipeline.EveryNameIsInCommon` and `Pipeline.ResolverAnswers` take distinct directories.
- Shutdown.ShutdownIsSafe: the server is reduced to its build calls, registry, slots and timestamp; TLS, storage, flags and logging are not modelled.
- Shutdown.ShutdownIsSafe: `GracefulStop` waits for build calls only; other calls touch the timestamp and take no time.
- IdleLoop.IdleIsNoticedInTime: the longest time between two looks at the clock is a parameter; it is five seconds, and what a late or dropped tick adds.
- ShellPath.Home.AddToPath: the value of `SHELL` is a parameter, a file's readability and writability do not change during a call, `~` is expanded already, and symbolic links and newline translation are not modelled.
- WindowsPath.Environment.AddToPath: `os.path.normpath` is a parameter, the directory is expanded already, registry failures and the settings broadcast are not modelled.
- UrlTemplate.RemoveMemberPath: takes `parameterValueToString` as the identity on strings.
- UrlTemplate.GetServicePath: takes `parameterValueToString` as the identity on strings.
- The resolver's cache, its expiry and its name transformations: a shard is read from the published disk.
- StartupOrder.Build: a service is its list of dependency names; conditions, timeouts and the waiting on them are not modelled.
- The rest of the dependency graph's accessors, of the pipeline executor and of the Go client.
- Raft, the scheduler, the overlay network, the proxy and the container runtimes.
