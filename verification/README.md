# aurweb in Dafny

A model of the parts of aurweb that keep state, with proofs about every run of them:
pushes through the Git update hook, the life of a package base and of the requests about
it, votes and popularity, the rate limiter, the metadata archives, and Trusted User
ballots. `dafny verify dfyconfig.toml` checks everything.

| file | models |
|---|---|
| `CommitGraph.dfy` | commits, reachability, topological walks with hidden commits |
| `Srcinfo.dfy` | the per-commit checks of the update hook |
| `UpdateHook.dfy` | the hook as a step on refs and package tables; runs of pushes |
| `Metadata.dfy`, `Exports.dfy`, `Sequences.dfy` | dependency rows, both archive versions, the RPC's information request |
| `Publication.dfy` | from pushes to archives |
| `Comaintainers.dfy` | priorities, edits, succession |
| `Requests.dfy` | request rows and `handle_request` |
| `Lifecycle.dfy` | steps on bases and requests, invariants of every run, outcomes |
| `Steps.dfy` | who may take which step, and what each step leaves behind |
| `Store.dfy` | the same steps carried out in place, loop by loop |
| `Batch.dfy` | batch actions on a set of bases |
| `VoteCounts.dfy`, `Popularity.dfy` | interleaved voting, `NumVotes`, decaying popularity |
| `Ratelimit.dfy` | the limiter on a table and on Redis |
| `Ballots.dfy` | proposals and ballots |

State-changing code is a class whose methods reassign its fields and are proved equal to a
specification function; the laws are lemmas about those functions, and say what they mean
in terms of the rows and refs alone. Order that the database
leaves open (query results, iteration over sets) is left open in the model as well.

Where behaviour differs from what one would expect, the model follows the code:

- The version a push is judged by is that of the last commit walked, while HEAD's data are
  stored. The last one may be any new commit without new parents (`ComesLastIffOldest`), so the
  decision is sure to be HEAD's only if all of those agree with HEAD
  (`VersionJudgedByOldestCommit`); a bump on top of an unbumped commit is refused (`BumpExample`).
- A push that brings no new commit, and hence every `restore`, ends with unset version
  variables and is refused (`NothingNewIsDenied`).
- A push that fails while saving is refused but leaves writes behind (`DeniedPushWritesIff`).
- A base left without package rows can never be pushed to again (`EmptyBaseIsStuck`). That takes
  a first push whose .SRCINFO parses without a `pkgdesc` (`LosesItsRowsIff`); whether the parser
  lets one through is not part of this model.
- Disowning through the web interface rotates while the promoted row is still visible, so
  priorities continue from 2 (`SucceedOrder`); editing comaintainers makes them 1 to n.
- On a call exactly one window length after a window's start Redis and the table may
  disagree (`VerdictsDifferIff`, `VerdictsDifferExample`).
- Rows are read as mapped objects, one per (package, type, name), so a name listed twice
  for one type survives in the archives only once (`V2RoundTripIff`), and the two archives and
  the RPC may list different texts for it (`V1MatchesV2Iff`, `RpcMatchesV1Iff`).

An exception and an exit through `die` are both a refused push. The walk handed to the
hook, the key expiries of Redis, the first row of an unordered query and the clock are
parameters; clocks do not go back, names of users and bases do not change, and names are
compared exactly.

## Model

| member | source | states |
|---|---|---|
| CommitGraph.ReachableIffChain | aurweb/git/update.py:317-327 | reachability, as the walks use it, is the existence of a chain of parent links |
| CommitGraph.WalkEmptyIff | aurweb/git/update.py:317-322 | the walk from one commit hiding another is empty exactly when the first is an ancestor of the second |
| CommitGraph.WalkStartsAtHead | aurweb/git/update.py:324-330 | a walk that is not empty begins with the pushed head |
| CommitGraph.WalkEndsAtOldest | aurweb/git/update.py:324-330 | all parents of the last commit walked are hidden, so it is an oldest new commit |
| CommitGraph.ComesLastIffOldest | aurweb/git/update.py:324-330 | the commits some topological walk ends with are exactly the oldest new ones |
| CommitGraph.WalkExists | aurweb/git/update.py:325-327 | whatever is hidden, a topological walk exists |
| Srcinfo.CheckTree | aurweb/git/update.py:330-423 | the loops of the per-commit validation accept exactly the valid trees |
| Srcinfo.CheckInfo | aurweb/git/update.py:354-423 | the lint loops accept exactly valid metadata: required variables, names, epoch, scripts, sources |
| Srcinfo.ValidIffNoDefect | aurweb/git/update.py:330-423 | a commit passes exactly when none of the messages of the loop applies to it |
| Srcinfo.MatchesNameIff | aurweb/git/update.py:387-389 | the regular expression accepts lines of the allowed characters, and such lines followed by one newline |
| Srcinfo.ParsedIff | aurweb/git/update.py:354-356 | the metadata are those of the first entry called .SRCINFO |
| Srcinfo.VersionIsSpelled | aurweb/git/update.py:32-36 | the version is pkgver and pkgrel, behind the epoch if there is one |
| UpdateHook.InsertAllIff | aurweb/git/update.py:140-149 | row by row creation under the unique index succeeds exactly for distinct names that are free, and adds exactly those |
| UpdateHook.SaveIff | aurweb/git/update.py:80-149 | saving succeeds exactly with a description and distinct, free names; then the base's rows are the ones described |
| UpdateHook.SaveEffect | aurweb/git/update.py:119-149 | saving, even when it fails half-way, touches rows of its own base only |
| UpdateHook.HeadIsWalked | aurweb/git/update.py:448-453 | HEAD is among the validated commits when its .SRCINFO is read |
| UpdateHook.AcceptedIff | aurweb/git/update.py:316-505 | a push is accepted exactly if it may move master, head and all new commits are new and valid, a known base has rows, the version judged is not stored or the user is privileged, pkgbase and names are right, and an update is complete |
| UpdateHook.AcceptedEffect | aurweb/git/update.py:487-505 | an accepted push moves master to HEAD; an update stores HEAD's rows field by field and makes a tag; anything else leaves tables and tags alone |
| UpdateHook.TagOfUpdate | aurweb/git/update.py:495-502 | the tag of the version judged exists after an update, on HEAD unless it existed before |
| UpdateHook.TagNameReplaces | aurweb/git/update.py:498 | tag names have '!' for ':' |
| UpdateHook.DeniedForItsReason | aurweb/git/update.py:316-485 | a refused push has the fault it is refused for |
| UpdateHook.NextConsistent | aurweb/git/update.py:280-505 | a push keeps validated refs, one version per base, and rows whose base exists |
| UpdateHook.EveryReachableCommitIsValid | aurweb/git/update.py:317-423 | over every run from empty repositories, overwriting pushes included, each commit reachable from a master has passed validation |
| UpdateHook.AcceptedKeepsHistoryIff | aurweb/git/update.py:317-322 | an accepted push keeps all commits exactly when it is a fast-forward; otherwise it was a privileged overwrite |
| UpdateHook.HistoryOnlyGrows | aurweb/git/update.py:317-327 | over every run without overwriting pushes no repository loses a commit |
| UpdateHook.OtherBasesUntouched | aurweb/git/update.py:456-505 | a push changes no rows, master or tag of another base; tags never move |
| UpdateHook.AcceptedNamesAreFree | aurweb/git/update.py:459-485 | no accepted push names a package of another base |
| UpdateHook.UpdateMirrorsHead | aurweb/git/update.py:448-493 | after an updating push the base's packages are exactly HEAD's names, each with HEAD's version and rows |
| UpdateHook.UpdateStoresVersion | aurweb/git/update.py:137-149 | after an updating push HEAD's version is the only one stored for the base |
| UpdateHook.DeniedPushWritesIff | aurweb/git/update.py:80-149 | a refused push leaves writes behind exactly when it failed while saving and had created its base or begun to write rows that were not there |
| UpdateHook.AcceptedMirrorsIff | aurweb/git/update.py:436-493 | an accepted push leaves rows that mirror HEAD exactly when it updates or the rows were HEAD's before |
| UpdateHook.NextMirrorsIff | aurweb/git/update.py:436-493 | after a push, privileged or not, the rows mirror master exactly when the push is faithful |
| UpdateHook.RunMirrors | aurweb/git/update.py:436-493 | over every run the package tables are at all times what a master describes exactly when all pushes to it are faithful, whatever happens elsewhere |
| UpdateHook.OrdinaryRunIsFaithful | aurweb/git/update.py:436-493 | unprivileged pushes of heads with a description and distinct names are faithful |
| UpdateHook.VersionJudgedByOldestCommit | aurweb/git/update.py:324-446 | in whatever order the new commits are walked, the version decision is the one HEAD deserves, exactly when every oldest new commit agrees with HEAD on being stored |
| UpdateHook.BumpOnTopOfUnbumpedCommitIsDenied | aurweb/git/update.py:324-446 | a fast-forward to a HEAD with a new version is refused for its version in some order of walking exactly when an oldest new commit has a stored version |
| UpdateHook.BumpExample | aurweb/git/update.py:324-446 | from an empty host: first push, then an unbumped and a bumped commit together, which is refused |
| UpdateHook.NothingNewIsDenied | aurweb/git/update.py:324-437 | the walk over new commits is empty exactly for heads already reachable, and then the push is refused without a change |
| UpdateHook.RestoreIsDenied | aurweb/git/update.py:303-310 | consequence of the previous row: pushing master onto itself, as `restore` does, is refused |
| UpdateHook.EmptyBaseIsStuck | aurweb/git/update.py:439-441 | a base without package rows stays without, and its master stays put, over every run |
| UpdateHook.LosesItsRowsIff | aurweb/git/update.py:80-149 | a push leaves a base that had rows, or did not exist, without rows exactly when it is the first, passes all checks and has no pkgdesc |
| UpdateHook.DescribedBasesKeepRows | aurweb/git/update.py:80-149 | over every run of heads with pkgdesc no base is left without rows |
| UpdateHook.EmptyBaseExample | aurweb/git/update.py:86-104 | from an empty host, one push without pkgdesc is refused and leaves such a base |
| UpdateHook.Server.Update | aurweb/git/update.py:280-505 | the hook, check by check and row by row, takes the step the laws are about |
| UpdateHook.Server.CheckCommits | aurweb/git/update.py:317-423 | the two walks refuse exactly non-fast-forwards, invalid commits and empty pushes |
| UpdateHook.Server.SaveMetadata | aurweb/git/update.py:80-149 | deletion and re-creation of rows, up to the first duplicate name |
| Metadata.ParseDepRoundTripIff | aurweb/git/update.py:53-58 | name and condition joined give the entry without description exactly when no newline follows a comparison operator |
| Metadata.ParseDepWithDescription | aurweb/git/update.py:53-58 | the description is what follows the first ": "; the rest is cut at its first comparison operator |
| Metadata.ParseDepWithoutDescription | aurweb/git/update.py:53-58 | without ": " nothing is description |
| Metadata.EntryIsStored | aurweb/git/update.py:167-234 | one entry becomes one row of its kind and key with name, condition and description apart |
| Metadata.SaveRows | aurweb/git/update.py:167-234 | the nested loops over kinds, variables and entries write the flattened rows |
| Metadata.OfKindFlatten | aurweb/git/update.py:167-234 | selecting a kind from the stored rows gives that kind's entries and no others |
| Exports.EntitiesCompleteIff | aurweb/models/package_dependency.py:18-24 | reading rows as mapped objects loses none exactly when names are distinct |
| Exports.GroupRows | aurweb/scripts/mkpkglists.py:279-304 | regrouping yields one group per occurring key with that key's texts in order |
| Exports.V2RoundTripIff | aurweb/scripts/mkpkglists.py:279-330 | flattening, reading in any order and regrouping gives the .SRCINFO lists back exactly when no name occurs twice for the type |
| Exports.V2KeysAreTheNonEmptyOnes | aurweb/scripts/mkpkglists.py:296-304 | a group is present exactly for the keys with entries |
| Exports.ExportV1 | aurweb/scripts/mkpkglists.py:216-224 | the version 1 list, absent when there is nothing to list |
| Exports.V1MatchesV2Iff | aurweb/scripts/mkpkglists.py:158-304 | version 1 lists what version 2 lists without distribution and architecture, in all orders of reading, exactly when plain rows share their names only with plain rows of the same text |
| Exports.CollectExtraInfo | aurweb/rpc.py:286-296 | the collecting loop files every record under its package and type |
| Exports.RpcMatchesV1Iff | aurweb/rpc.py:221-296 | the RPC lists what version 1 of the archive lists exactly when names of plain rows are distinct and, except for the four dependency types in version 5, all rows are plain |
| Publication.StoredAsHead | aurweb/git/update.py:137-234 | after every run whose pushes to a repository are faithful its stored packages are the ones HEAD names, with HEAD's version and rows |
| Publication.ArchiveFollowsHead | aurweb/scripts/mkpkglists.py:279-330 | the version 2 archive of every such package lists what HEAD's .SRCINFO lists exactly when names are distinct |
| Comaintainers.OrderUnique | aurweb/pkgbase/util.py:189-201 | distinct priorities determine the order of the query |
| Comaintainers.Rotate | aurweb/pkgbase/util.py:189-201 | rotation numbers the rows 1 to n in their order |
| Comaintainers.LatestPriority | aurweb/pkgbase/util.py:102-114 | the highest priority, or 0 without rows |
| Comaintainers.EditComaintainers | aurweb/routers/pkgbase.py:598-614 | removal, rotation and additions leave the edited order numbered from 1; an error exactly for an unknown newcomer |
| Comaintainers.EditOutcome | aurweb/routers/pkgbase.py:598-608 | after an edit priorities are exactly 1 to n, and who is a comaintainer then |
| Comaintainers.EditKeepsSurvivors | aurweb/pkgbase/util.py:76-186 | survivors keep their relative order and precede all newcomers |
| Comaintainers.SucceedOrder | aurweb/pkgbase/actions.py:55-68 | a web disown promotes the first by priority; the rest follow in order, numbered from 2 |
| Requests.HandledOutcome | aurweb/packages/requests.py:186-248 | pending requests of kind and base are split into accepted and rejected, none stays pending, comments are kept, one is created exactly when none was to be accepted |
| Requests.UnsupportedIff | aurweb/packages/requests.py:51-78 | exactly when the unsupported-type error arises |
| Requests.NoDueRequestIff | aurweb/packages/requests.py:114-184 | handling orphan requests fails exactly when no pending one is older than the idle time |
| Requests.HandledRow | aurweb/packages/requests.py:186-248 | what becomes of one request, told by its columns |
| Requests.AutogeneratedOutcome | aurweb/packages/requests.py:214-248 | the request made up when there is none to accept |
| Requests.CommentedOutcome | aurweb/packages/requests.py:81-111 | which requests get the closure comment, and that nothing else changes |
| Requests.ClosureNames | aurweb/packages/requests.py:26-48 | a made-up closure comment names the base, and what is merged into what |
| Requests.HandledEvolves | aurweb/packages/requests.py:154-258 | handling removes no request, reopens none and keeps what requests are about |
| Requests.RequestTable.HandleRequest | aurweb/packages/requests.py:154-248 | the loops and both transactions, with the roll-back, take the specified step |
| Requests.RequestTable.UpdateClosureComment | aurweb/packages/requests.py:81-111 | the loop sets the comment of pending requests of the kind, for merges of the target |
| Lifecycle.RunKeeps | aurweb/routers/pkgbase.py:419-856 | over every run of steps priorities stay distinct and positive, vote counts exact, references right; no request is removed or reopened |
| Steps.RefusedIff | aurweb/routers/pkgbase.py:508-830 | a step is refused exactly without its credential or with a form that does not validate, and then changes nothing |
| Steps.RemovedIff | aurweb/routers/pkgbase.py:665-856 | a base goes exactly by a deletion or merge of a trusted user, or its maintainer's deletion request within a day |
| Steps.BaseStays | aurweb/routers/pkgbase.py:665-856 | over every run without such a step a base stays |
| Steps.VoteOutcome | aurweb/routers/pkgbase.py:419-433 | one vote of the user afterwards, the old one if there was one, and the count |
| Steps.UnvoteOutcome | aurweb/routers/pkgbase.py:437-451 | no vote of the user afterwards, and the count |
| Steps.NotifyOutcome | aurweb/pkgbase/actions.py:16-36 | who is on the list afterwards |
| Steps.FlagOutcome | aurweb/pkgbase/actions.py:39-48 | who sets and takes off a flag, and with what |
| Steps.AdoptOutcome | aurweb/routers/pkgbase.py:541-553 | who becomes maintainer by adoption, through the web interface and the API |
| Steps.SetComaintainersOutcome | aurweb/routers/pkgbase.py:582-622 | only trusted users and the maintainer edit comaintainers, who are then the requested ones, numbered 1 to n |
| Steps.SubmitOutcome | aurweb/git/update.py:61-78 | a new base belongs to its submitter, who is notified, and has nothing else |
| Steps.DeleteStep | aurweb/routers/pkgbase.py:731-769 | what a trusted user's deletion leaves of bases and of every request |
| Steps.MergeStep | aurweb/routers/pkgbase.py:801-856 | what a trusted user's merge leaves of bases and of every request |
| Steps.DisownStep | aurweb/routers/pkgbase.py:498-538 | a trusted user's disown goes through exactly when an orphan request is due; otherwise only the comment is left |
| Steps.StrangersDisownNothing | aurweb/pkgbase/actions.py:51-76 | disowning by anybody but the maintainer and trusted users does nothing |
| Steps.CloseOutcome | aurweb/routers/requests.py:71-92 | closing by hand rejects the request in the name of the closer |
| Steps.FiledOutcome | aurweb/routers/pkgbase.py:634-717 | the row a request is filed as, and when it is decided at once |
| Steps.ApiDisownRow | aurweb/routers/api.py:134-147 | the API closes the pending orphan requests about the base and no others |
| Lifecycle.SuccessionOrder | aurweb/pkgbase/actions.py:51-68 | over every run of disowns by the maintainer of the time, comaintainers are promoted in ascending priority and the base is orphaned after one disown more than there are comaintainers |
| Lifecycle.SuccessionGoesOn | aurweb/pkgbase/actions.py:51-68 | and that many disowns can always be taken |
| Lifecycle.UnsupportedIsUnreachable | aurweb/packages/requests.py:68-78 | no step ever raises the unsupported-type error |
| Lifecycle.PrivilegedDisown | aurweb/packages/requests.py:114-126 | a privileged disown raises exactly when no orphan request is due, and otherwise accepts all pending ones, creating none |
| Lifecycle.DeleteOutcome | aurweb/pkgbase/actions.py:87-98 | deleting accepts all pending deletion requests, its own comment update changes nothing, and the base is gone |
| Lifecycle.MergeOutcome | aurweb/pkgbase/actions.py:101-136 | a merge leaves the union of voters and of notified users, the target's vote times, all comments, the right count, and no source |
| Lifecycle.MergeSettlesRequests | aurweb/pkgbase/actions.py:106-107 | pending merge requests about the source are accepted if into the target, else rejected |
| Lifecycle.OpenOutcome | aurweb/routers/pkgbase.py:665-714 | a filed request stays pending except for automatic orphaning and deletion, which accept it |
| Lifecycle.ApiDisownOutcome | aurweb/routers/api.py:125-161 | consequence of the step: pending orphan requests are closed and one comaintainer is promoted without renumbering the others |
| Lifecycle.UndoRestores | aurweb/routers/pkgbase.py:419-479 | consequence of the steps: unvoting, unflagging and unnotifying restore the base |
| Store.Database.MergeInstance | aurweb/pkgbase/actions.py:101-136 | the three loops over rows, the recount and the deletion take the specified step |
| Store.Database.DeleteInstance | aurweb/pkgbase/actions.py:87-98 | request handling, comment update and deletion take the specified step |
| Store.Database.DisownInstance | aurweb/pkgbase/actions.py:51-76 | both ways of disowning take the specified step |
| Store.Database.RequestPost | aurweb/routers/pkgbase.py:658-714 | filing with automatic acceptance takes the specified step |
| Store.Database.ClosePost | aurweb/routers/requests.py:76-92 | closing by hand takes the specified step |
| Store.Database.ApiDisownPost | aurweb/routers/api.py:121-161 | the API's disown takes the specified step |
| Batch.EditAll | aurweb/routers/packages.py:162-298 | batch unflag, notify, unnotify and adopt change all selected bases or none, in any order |
| Batch.PermittedIff | aurweb/routers/packages.py:162-298 | who may unflag, notify, unnotify and adopt in a batch |
| Batch.FailingIff | aurweb/routers/packages.py:301-309 | a batch disown fails on the selected bases of others whose pending orphan requests are all too young |
| Batch.NotifyUndoesUnnotify | aurweb/routers/packages.py:187-258 | a batch notify undoes a batch unnotify |
| Batch.AnyOrder | aurweb/routers/packages.py:301-309 | every order of the bases gives the same state and fails on the same bases: those of others without a due orphan request |
| Batch.DisownAll | aurweb/routers/packages.py:311-350 | the permission check and the loop of the batch disown |
| Popularity.PopularityDecays | aurweb/scripts/popupdate.py:32-45 | with unchanged votes popularity is multiplied by the decay over the time passed |
| Popularity.PopularityAppend | aurweb/scripts/popupdate.py:32-45 | zero without votes; a vote adds the decay by its age if it is dated and for the base, else nothing |
| Popularity.DecayOfAges | aurweb/scripts/popupdate.py:36 | the decay is one at age zero and the daily rate to the power k after k days |
| Popularity.OldVoteCounts | aurweb/scripts/popupdate.py:32-45 | a vote k days old adds the daily rate to the power k |
| Popularity.PopularityPermutation | aurweb/scripts/popupdate.py:32-45 | the order of the vote rows does not matter |
| Popularity.NumVotesCounts | aurweb/scripts/popupdate.py:23-29 | NumVotes is the number of vote rows of the base |
| Popularity.RecomputedOutcome | aurweb/scripts/popupdate.py:47-60 | which bases an update recomputes, and to what |
| Popularity.DailyDecay | aurweb/scripts/popupdate.py:36 | after k days it is multiplied by the daily rate to the power k |
| Popularity.PopularityBounds | aurweb/scripts/popupdate.py:24-45 | without votes from the future it lies between 0 and NumVotes |
| Popularity.SweepsRankAlike | aurweb/scripts/popupdate.py:47-60 | full sweeps store the same ranking as long as votes do not change |
| Popularity.PackageBases.RunVariable | aurweb/scripts/popupdate.py:13-60 | the update recomputes the selected bases, all when none is given |
| VoteCounts.CountsAreExactWhenSettled | aurweb/routers/pkgbase.py:419-451 | under every interleaving votes stay unique and NumVotes is off by at most the recomputations still owed |
| VoteCounts.NextKeepsInv | aurweb/scripts/popupdate.py:13-72 | each half-step keeps that bound |
| VoteCounts.LookOutcome | aurweb/routers/pkgbase.py:424-426 | what a look-up remembers |
| VoteCounts.WriteOutcome | aurweb/routers/pkgbase.py:426-449 | what the write of a vote or unvote leaves, whoever wrote in between |
| VoteCounts.RecomputeOutcome | aurweb/scripts/popupdate.py:22-60 | a recomputation makes the count exact |
| Ratelimit.OtherHostsDoNotMatter | aurweb/ratelimit.py:41-43 | other hosts' calls and purges never change a verdict |
| Ratelimit.FirstCallsAllowed | aurweb/ratelimit.py:36-54 | a window lets through exactly its first `limit` calls |
| Ratelimit.AtMostTwiceTheLimit | aurweb/ratelimit.py:36-107 | any interval one window long has at most twice the limit of allowed calls |
| Ratelimit.SameVerdict | aurweb/ratelimit.py:11-54 | Redis and the table agree on every call of every trace on which no key has expired by its window's very end |
| Ratelimit.VerdictsDifferIff | aurweb/ratelimit.py:11-54 | after such a trace they disagree on the next call exactly when it comes at its window's end, finds a key expired, and the allowance was used up |
| Ratelimit.VerdictsDifferExample | aurweb/ratelimit.py:20-34 | two calls from empty limiters on which they disagree |
| Ratelimit.DbLimiter.Check | aurweb/ratelimit.py:36-107 | purge, count and compare on the table |
| Ratelimit.RedisLimiter.Check | aurweb/ratelimit.py:11-107 | window and counter keys, and compare |
| Ballots.RunTallied | aurweb/routers/trusted_user.py:228-255 | counters add up to the distinct voters, ActiveTUs grew by their number, the subject never voted |
| Ballots.RunVoters | aurweb/routers/trusted_user.py:228-255 | the voters are exactly the other Trusted Users who handed in a valid ballot |
| Ballots.RunCounters | aurweb/routers/trusted_user.py:244-255 | each counter is the number of ballots for its decision that count |
| Ballots.AnswerIff | aurweb/routers/trusted_user.py:231-250 | which ballots are turned away, and why |
| Ballots.AcceptedIff | aurweb/routers/trusted_user.py:136-143 | more than half of the active Trusted Users said Yes, or more than the quorum voted and Yes outnumbers No |
| Ballots.ParticipationAtMostOne | aurweb/routers/trusted_user.py:136-138 | participation lies between 0 and 1 |
| Ballots.YesKeepsAccepted | aurweb/routers/trusted_user.py:136-143 | one more Yes never turns an accepted proposal into a rejected one |
| Ballots.VoteInfo.Post | aurweb/routers/trusted_user.py:228-255 | the checks in order, then counter, row and ActiveTUs |

## Left out

- Routing, templates, translations, sessions, e-mail and notification texts: no deep state.
- SRCINFO parsing and its entry splitter: the parser library is not part of this model; a parsed file is a table, one without pkgbase, pkgname, pkgver or pkgrel counts as invalid, entries are single lines split as `parse_dep` does, script paths come normalised, and digits are ASCII.
- Object storage, deletion of `master`, invalid tag names, the adoption of an orphan by a push, licenses, sources and timestamps of packages.
- The order in which a commit's defects are reported: every defect is one reason, an invalid commit.
- Concurrent pushes, and concurrent steps on one base other than voting.
- Account deletion, whose cascade removes votes without a recomputation.
- Keywords, comment editing and pinning, batch deletion, official providers, search and paging: easy members.
- Closing times of Trusted User proposals, and concurrent ballots of one user.
- DECIMAL rounding of popularity: it is computed over the reals.
- VoteCounts.CountsAreExactWhenSettled: bounds NumVotes only, because the popularity column depends on the time of its last recomputation.
- Lifecycle.MergeOutcome: a base holds the rows that refer to it, so re-pointing a foreign key is a move from one base to another.
