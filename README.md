# workspace-tools, modelled in Dafny

workspace-tools (`wst`) is a command-line wrapper around git, svn and tox.
It manages checkouts of several products in one workspace. Its commands
commit, push, merge, update, bump requirements, publish releases, run tests
and show status. Most of it shells out to subprocesses. Beneath that lies
deterministic logic, and this project models it.

The repository carries two code generations, and both are modelled side by
side:

- `workspace/`: the current one. Child branches record their parent in the
  name (`child@parent`).
- `src/workspace/`: the older one. It is rooted at `master`.

Modules named `Ws*` model the current generation and modules named `Legacy*`
model the older one. The remaining modules hold logic both share.

The source tree is not consistent as one importable package. For instance,
src/workspace/commands/commit.py:8 imports a `push` function that the older
push module does not define, and workspace/scm.py:12 imports `shortest_id`,
which workspace/utils.py does not define. The model follows the text of each
function as written, and does not model the failing imports.

- **BranchNaming**: deriving a branch name from a commit message. This is
  `_branch_for_msg` in the current generation and `branch_for_msg` in the older
  one. It is the same algorithm, written as a scanning method and proved
  against a specification function.
- **Repository**: the repository that every flow acts on. A `RepoState` value
  holds:
  - a map from branch name to its commit sequence;
  - the current branch;
  - the remote branches;
  - a log of the SCM calls made.

  The class `Repository.Repo` has one method per SCM call: checkout, create,
  delete, hard reset, update, rebase, merge, push, add and commit. Each flow's
  plan is a sequence of steps. A step marked fatal models an SCM call made with
  `raises=True`: when it fails, the rest of the plan is skipped.
- **Flows**:
  - `WsCommit` and `LegacyCommit`: commit, including discard, move, auto-branch
    and dummy commits;
  - `WsPush` and `LegacyPush`: push;
  - `WsMerge`: merge, including the downstream chain walk;
  - `WsUpdate` and `LegacyUpdate`: update.

  Each flow is a plan function plus a `Run` method that executes it on a
  `Repo`. Lemmas state what the plan does to the branches.
- **Parsers and SCM names** (`CommitLog`, `BranchList`, `WsScm`, `LegacyScm`):
  - `git log` / `svn log` message extraction;
  - `git branch` listing;
  - remote ordering;
  - product names and paths;
  - svn revision ranges;
  - the argument lists that SCM commands are built from.
- **ProductGroups**: expanding product groups, with `-name` exclusions.
- **Tox configuration** (`ToxConfig`, `WsHelpers`, `LegacyHelpers`):
  - the environment list;
  - environment sections;
  - test commands;
  - `bindir`;
  - choosing the `tox*.ini` path.
- **Release text**:
  - `VersionBump`: version bumps;
  - `WsPublish` and `LegacyPublish`: changes since the last publish, changelog
    text, and the publish flow;
  - `Bump`, `WsBump` and `LegacyBump`: bump commit messages and the bump flow.
- **Small text transforms**:
  - `DocParams`, `WsCommands` and `LegacyUtils`: docstring `:param` parsing;
  - `SetupScript`, `WsSetup` and `LegacySetup`: the `.bashrc` marker filter and
    the function and alias lists;
  - `WsStatus`: the status header;
  - `WsTest`: summarising test results and the remaining-tests line;
  - `PathSearch`, `WsUtils` and `LegacyUtils`: parent-path search;
  - `WsUtils`: the editor-prompt comment filter and the `run_in_background`
    title and log names.

Three kinds of input are parameters of the model rather than effects:

- **Command output**: the text printed by `git`, `svn` and `tox`.
- **Configuration values**: the auto-branch word count, the parent indicator,
  the merge chain and the product groups.
- **Regular expressions**: the test-output and build regexes, and
  `IGNORE_CHANGE_RE`, become predicates.

## Model

| member | source | states |
|---|---|---|
| BranchNaming.RegexSplit | workspace/commands/commit.py:181 | Splitting on runs of non-word characters always yields at least one piece |
| BranchNaming.RegexSplitKeepsWordChars | workspace/commands/commit.py:181 | The pieces concatenate to exactly the word characters of the message, and every piece consists of word characters only |
| BranchNaming.StripDraft | workspace/commands/commit.py:178-179 | A leading `DRAFT: ` is removed once; any other message is unchanged |
| BranchNaming.Trim | workspace/commands/commit.py:196-201 | The last token is dropped exactly when `DropsLast` holds: it is a stop-word, or it has at most two characters while the final loop variable is not all digits, and the shortened name is not an existing branch; otherwise the name is kept whole |
| BranchNaming.FinalWord | workspace/commands/commit.py:181-196 | The loop variable after the loop is the token the loop broke on, or else the last piece of the split, all tokens being taken |
| BranchNaming.BranchName | workspace/commands/commit.py:170-207 | A derived name is never an existing branch; the only errors are "no words" and "branch exists" |
| BranchNaming.StopFromIsLeast | workspace/commands/commit.py:187-191 | The stop index is the first position at or after `from` where the loop's stopping condition holds |
| BranchNaming.StopFromUnique | workspace/commands/commit.py:187-191 | Any position that stops, and before which nothing stops, is the stop index |
| BranchNaming.NoWordsIff | workspace/commands/commit.py:193-194 | Derivation fails for lack of words exactly when the message, after the DRAFT strip, has no word characters |
| BranchNaming.StopIndexMeaning | workspace/commands/commit.py:187-191 | Every earlier prefix that reached the word budget collides with an existing branch; the stop prefix itself reached the budget unless all tokens were used |
| BranchNaming.BranchNameValue | workspace/commands/commit.py:181-207 | The derived name exactly: the lower-cased token prefix up to the stop index, less its last token exactly when `DropsLast` holds for that prefix and the final loop variable, dash-joined, and refused when it is an existing branch |
| BranchNaming.PiecesValue | workspace/commands/commit.py:181-207 | The same exact value, over the pieces the scanning loop sees, with the final loop variable being the piece it broke on or else the last piece of the split |
| BranchNaming.ScanPieces | workspace/commands/commit.py:181-191 | The scanning loop's lower-cased names are the lower-cased prefix of the non-empty pieces it kept |
| BranchNaming.BranchForMsg | src/workspace/commands/commit.py:121-156 | The older generation's `branch_for_msg` derives the same name as the current one |
| BranchNaming.SplitTokens | workspace/commands/commit.py:181 | Splitting tokens joined by separators gives back the tokens |
| BranchNaming.NameOfTokens | workspace/commands/commit.py:178-181 | A message of tokens and separators is named from its tokens |
| BranchNaming.ShortTailTrimmed | test/test_commit.py:20 | `Fix test to` with three words is named `fix-test`: the short last token is dropped |
| BranchNaming.DigitTailKept | test/test_commit.py:17 | `Publish version 0.4.2` with three words is named `publish-version-0-4-2`: the final loop variable is all digits, so the short last token stays |
| BranchList.ClassifyMeaning | workspace/scm.py:312-316 | A listing line is blank exactly when it strips to nothing, and starred exactly when it starts with `*` |
| BranchList.ListingSplit | workspace/scm.py:312-316 | The listing is the starred branches followed by all the others, in their original order |
| BranchList.OneStarFirst | workspace/scm.py:312-316 | With one starred line, that branch comes first and the others follow in order |
| BranchList.Place | workspace/scm.py:313-316 | A starred line's branch goes to the front, another non-blank line's to the back, and a blank line adds nothing |
| BranchList.ListLines | workspace/scm.py:312-316 | The loop that inserts the starred branch at the front builds exactly the specified listing |
| BranchList.AllBranches | src/workspace/scm.py:253-266 | Both generations' `all_branches` give the specified listing of the `git branch` output, and nothing for empty output |
| BranchList.CurrentBranch | workspace/scm.py:328-330 | The current branch is the starred branch when there is one, else the first listed one |
| CommitLog.Dedent | workspace/scm.py:85-86 | A four-space indent is removed when dedenting, and nothing else changes |
| CommitLog.FeedRun | workspace/scm.py:71-95 | Feeding a run of message lines appends them, dedented, to the pending message |
| CommitLog.RunIsOneMessage | workspace/scm.py:71-95 | A run of message lines yields exactly one message: its lines joined by newlines |
| CommitLog.SeparatorSplits | workspace/scm.py:71-95 | A header line between two runs closes the first message and starts the next |
| CommitLog.FeedAllKeepsClosed | workspace/scm.py:71-95 | Messages already closed are never changed by later lines |
| CommitLog.ExtractCommitMsgs | workspace/scm.py:71-95 | The extraction loop returns exactly the messages `Messages` defines: runs of indented lines, dedented in git mode |
| WsScm.RemoteLinesMembers | workspace/scm.py:225-229 | A remote is listed exactly when it is a non-empty output line, stripped |
| WsScm.RemoteNames | workspace/scm.py:220-242 | With two or more remotes both `origin` and `upstream` are present; a failure is the command's exit status |
| WsScm.DefaultRemote | workspace/scm.py:245-251 | `origin` when there are several remotes, the only remote when there is one, an error when there are none |
| WsScm.UpstreamRemote | workspace/scm.py:254-261 | `upstream` when there are several remotes, the only remote when there is one, none when there are none |
| WsScm.AllRemotes | workspace/scm.py:210-217 | With several remotes, `origin` comes first, followed by the other remotes sorted and without duplicates; otherwise the list is unchanged |
| WsScm.AllBranches | workspace/scm.py:273-318 | The non-verbose branch listing of the `git branch` output, in the current generation's stripping |
| WsScm.CurrentBranch | workspace/scm.py:328-330 | No current branch for an empty listing |
| WsScm.MasterBranch | workspace/scm.py:321-325 | `trunk` exactly when a `trunk` branch exists, else `master` |
| WsScm.ParentBranch | workspace/scm.py:333-337 | A parent exists exactly when the indicator occurs; it is the text after an occurrence and contains no indicator, so it is the text after the last one |
| WsScm.ParentHasNoParent | workspace/scm.py:333-337 | A parent branch has no parent of its own |
| WsScm.ParentOfChildName | workspace/scm.py:333-337 | A name built as `child@parent` decodes back to `parent` |
| WsScm.CheckoutResetName | workspace/scm.py:150-154 | A reset name exists exactly for `remote/name` with a non-empty last segment; it is that segment |
| WsScm.CheckoutArgs | workspace/scm.py:140-163 | `git checkout <branch>`, plus `-B <last segment>` exactly for remote branches |
| WsScm.MergeArgs | workspace/scm.py:190-201 | `git merge <branch>`, with `--squash` exactly when squashing, and a strategy flag and message exactly when a strategy is given |
| WsScm.LocalCommitArgs | workspace/scm.py:418-426 | `git commit`, with `--amend` and `--allow-empty` exactly when asked, and `-m <msg>` exactly when a message is given |
| WsScm.RemoveBranchCommands | workspace/scm.py:178-183 | One `git branch -d` (or `-D` when forced) command, and a `git push <remote> --delete` command exactly when removing remotely |
| WsScm.PushCommandAsWritten | workspace/scm.py:373-387 | The push command fails exactly for an untracked branch with no remote given |
| WsScm.PushUntrackedRaises | workspace/scm.py:379-380 | Pushing an untracked branch with no remote raises a TypeError |
| WsScm.PushCommand | workspace/scm.py:373-387 | Corrected: an untracked branch is pushed to the default remote when no remote is given |
| WsScm.PushCommandAgrees | workspace/scm.py:373-387 | Wherever the code as written succeeds, the corrected command is the same |
| WsScm.ProductName | workspace/scm.py:479-492 | A product name never contains `/` |
| WsScm.ProductNameOfUrl | workspace/scm.py:479-492 | For `<base>/<name>` followed by `.git`, `_trunk` or `/trunk`, the product name is `<name>` |
| WsScm.ProductPath | workspace/scm.py:499-503 | A relative name is joined to the workspace directory, or else to the workspace path |
| WsScm.ProductCheckoutPath | workspace/scm.py:495-496 | The checkout path is the workspace directory joined with the product name |
| WsScm.ExtractCommitMsgs | workspace/scm.py:71-95 | The current generation extracts git messages by indentation |
| LegacyScm.ExtractCommitMsgs | src/workspace/scm.py:129-156 | git mode splits on indentation; svn mode splits on header lines and keeps indentation |
| LegacyScm.RevisionLineIsHeader | src/workspace/scm.py:16 | Every `rN … line(s)` revision line is a header |
| LegacyScm.SvnMessageIsNotHeader | src/workspace/scm.py:16 | An ordinary message line such as `r42 fix` is not a header |
| LegacyScm.AllBranches | src/workspace/scm.py:253-266 | The branch listing, with the older generation's stripping |
| LegacyScm.CurrentBranch | src/workspace/scm.py:269-270 | Empty output raises, as indexing an empty list does; otherwise the first listed branch |
| LegacyScm.ProductName | src/workspace/scm.py:423-430 | A product name never contains `/` |
| LegacyScm.ProductNameForRepo | src/workspace/scm.py:213-214 | A repository name without `_trunk` is its basename |
| LegacyScm.ProductCheckoutPath | src/workspace/scm.py:433-437 | The checkout path is the workspace path joined with the product name |
| LegacyScm.NameForCheckout | src/workspace/scm.py:213-437 | The product name of a product's checkout path is the product name of its URL (the name at lines 213-214, the checkout path at lines 433-437) |
| LegacyScm.RevisionAt | src/workspace/scm.py:343-347 | A revision is read only from a line of the form `r…` |
| LegacyScm.LastRevisionLine | src/workspace/scm.py:345-349 | The backward scan finds the last revision line at or before its start |
| LegacyScm.RangeOfLines | src/workspace/scm.py:332-353 | A range has its head on line 1 and its from-revision on some later line |
| LegacyScm.ScanBack | src/workspace/scm.py:345-349 | The backward scanning loop finds the specified from-revision |
| LegacyScm.SvnRevisionRange | src/workspace/scm.py:332-353 | The method returns the specified range; every failure gives no range |
| LegacyScm.CommitLogsArgs | src/workspace/scm.py:85-106 | `git log` or `svn log` with the limit, patch and file arguments; a pager exactly for svn with show and no limit or a limit above 3 |
| LegacyScm.UpdateMode | src/workspace/scm.py:273-281 | `svn update` is used exactly for non-git checkouts |
| Repository.ExecAppend | workspace/utils.py:110-193 | Running two plans in a row is running the first, and the second only if the first did not halt |
| Repository.ExecHalted | workspace/utils.py:185-191 | Nothing after a raising call runs |
| Repository.ExecLogGrows | workspace/utils.py:110-193 | A run only appends to the call log, at most one entry per step |
| Repository.ExecHaltIsFatal | workspace/utils.py:185-191 | A run halts only at a step made with `raises=True` |
| Repository.FatalRunOrder | workspace/utils.py:185-191 | A plan of raising calls logs a prefix of its calls, in order |
| Repository.FatalComplete | workspace/utils.py:185-191 | When every call succeeds, all calls are logged, in order |
| Repository.FatalIsApplyAll | workspace/utils.py:185-191 | A plan of raising calls halts exactly when some call fails |
| Repository.FatalKeepsBranches | workspace/scm.py:140-201 | Calls that neither create nor delete branches keep the set of branches |
| Repository.FatalGrows | workspace/scm.py:140-201 | Such calls never lose a commit from any branch |
| Repository.ApplyCheckout | workspace/scm.py:140-163 | Checkout succeeds exactly for an existing branch and changes only the current branch |
| Repository.ApplyPull | workspace/scm.py:340-366 | An update changes only the current branch's commits |
| Repository.ApplyRebase | workspace/scm.py:174-175 | A rebase puts the current branch's own commits after its parent's |
| Repository.ApplyMerge | workspace/scm.py:190-201 | A merge appends the branch's new commits; a squash merge changes no branch |
| Repository.ApplyPush | workspace/scm.py:373-387 | A push sets the remote branch to the local one and changes nothing else |
| Repository.CheckoutPull | workspace/commands/update.py:57-58 | Checking out the parent and updating it leaves the other branches alone |
| Repository.CheckoutRebase | workspace/commands/update.py:63-66 | Checking out a branch and rebasing it onto its parent puts its own commits after the parent's |
| Repository.ParentRebase | workspace/commands/update.py:56-66 | The whole parent sequence ends on the branch, rebased onto the updated parent, with other branches untouched |
| Repository.Repo.constructor | workspace/scm.py:140-163 | A repository object starts in the given state |
| Repository.Repo.CurrentBranch | workspace/scm.py:328-330 | A current branch exists exactly when there are branches |
| Repository.Repo.CheckoutBranch | workspace/scm.py:140-163 | Succeeds exactly for an existing branch, which then becomes current |
| Repository.Repo.CreateBranch | workspace/scm.py:166-171 | Succeeds exactly for a new name and an existing base; the new branch starts at the base |
| Repository.Repo.DeleteBranch | workspace/scm.py:178-183 | Succeeds exactly for an existing branch that is not current, and removes only it |
| Repository.Repo.DeleteRemoteBranch | workspace/scm.py:178-183 | Succeeds exactly for an existing remote branch, and removes only it |
| Repository.Repo.HardReset | workspace/scm.py:475-476 | Succeeds exactly when the commit is on the current branch with enough history, and drops the commits after the target |
| Repository.Repo.Pull | workspace/scm.py:340-366 | Succeeds exactly when the update applies, and then the branch holds the pulled commits |
| Repository.Repo.Rebase | workspace/scm.py:174-175 | Succeeds exactly when the parent exists |
| Repository.Repo.Merge | workspace/scm.py:190-201 | Succeeds exactly when the merged branch exists |
| Repository.Repo.Push | workspace/scm.py:373-387 | Succeeds exactly for a tracked branch or with set-upstream; only the remote changes |
| Repository.Repo.AddFiles | workspace/scm.py:55-62 | Adding files always succeeds and changes no branch |
| Repository.Repo.LocalCommit | workspace/scm.py:418-426 | Succeeds unless amending with nothing to amend |
| Repository.Repo.Perform | workspace/utils.py:110-193 | A successful call moves the object to the state `Apply` gives for that call |
| Repository.Repo.Execute | workspace/utils.py:110-193 | Executing a plan reaches exactly the specified run's state and halt |
| WsCommit.EntriesOfLog | workspace/commands/commit.py:67 | Splitting a log on the entry separator gives back its entries |
| WsCommit.MatchHash | workspace/commands/commit.py:75 | A match is a non-empty hex prefix of the entry |
| WsCommit.DecoratedEntryMatches | workspace/commands/commit.py:75 | An entry decorated with ref names yields its hash, as written and as corrected |
| WsCommit.PlainEntryMatches | workspace/commands/commit.py:75 | Corrected: an undecorated entry yields its hash |
| WsCommit.PlainEntryRejected | workspace/commands/commit.py:75 | As written, an undecorated entry yields no hash |
| WsCommit.MatchHashExtends | workspace/commands/commit.py:75 | The corrected match agrees with the written one wherever that one matches |
| WsCommit.TargetBranch | workspace/commands/commit.py:54-59 | A given branch is used; otherwise discard acts on the current branch |
| WsCommit.AutoNameDefault | workspace/commands/commit.py:119-124 | With the default `@` indicator, the corrected auto-name is the written one |
| WsCommit.AutoNameAsWrittenNotChild | workspace/commands/commit.py:121-124 | With any other indicator, the written auto-name has no parent |
| WsCommit.AutoNameIsChild | workspace/commands/commit.py:121-124 | The corrected auto-name has the current branch as its parent |
| WsCommit.EmptyListing | workspace/commands/commit.py:116-117 | The branch listing is empty exactly for a repository without branches |
| WsCommit.Run | workspace/commands/commit.py:53-168 | Running the commit flow as written (the written hash pattern, the literal `@` and a push without an upstream option) reaches exactly the state and halt of its plan |
| WsCommit.DiscardDeletesChild | workspace/commands/commit.py:61-72 | Discarding all of a child's commits checks out the parent and force-deletes the child, and nothing else |
| WsCommit.DiscardDropsCommits | workspace/commands/commit.py:74-89 | When the written hash pattern matches the first entry, discard checks out the branch and drops its last N commits, and succeeds exactly when the branch exists with more than N commits |
| WsCommit.MoveLastCommit | workspace/commands/commit.py:80-86 | Move creates the target at the current commit and drops that commit from the current branch |
| WsCommit.UnreadableLog | workspace/commands/commit.py:75-92 | An empty log raises; an entry with no hash leaves the repository untouched |
| WsCommit.AutoBranchChoice | workspace/commands/commit.py:119-124 | The branch is auto-named exactly under the auto-branch conditions and is then the derived name, a literal `@` and the current branch; it fails only when naming fails, and is otherwise the given branch; with the default `@` indicator the auto-named branch is a child of the current branch |
| WsCommit.MaterialiseOutcome | workspace/commands/commit.py:126-136 | Materialising always succeeds: an existing branch is checked out, a missing one is created from the current branch or from nothing |
| WsCommit.CommitOutcome | workspace/commands/commit.py:126-139 | The commit lands on the target branch on top of its base, replacing the last commit when amending |
| WsCommit.CommitThenPush | workspace/commands/commit.py:165-166 | After a complete run with push, the remote branch equals the local one |
| LegacyCommit.DummyMessage | src/workspace/commands/commit.py:49-55 | The dummy message is the given one, or a non-empty default |
| LegacyCommit.DummyOutcome | src/workspace/commands/commit.py:49-55 | Dummy mode, with its push as written, ends on `master` with the empty commit pushed |
| LegacyCommit.MatchHash | src/workspace/commands/commit.py:76 | A match is a non-empty hex string |
| LegacyCommit.PlainEntryMatches | src/workspace/commands/commit.py:76 | An undecorated entry yields its hash |
| LegacyCommit.MatchesAgree | src/workspace/commands/commit.py:76 | Where the older pattern matches, it agrees with the current generation's corrected match |
| LegacyCommit.Run | src/workspace/commands/commit.py:29-118 | Running the commit flow, with its push as written, reaches exactly the state and halt of its plan |
| LegacyCommit.DiscardDeletesBranch | src/workspace/commands/commit.py:64-73 | Discarding all of a non-master branch's commits returns to `master` and force-deletes the branch |
| LegacyCommit.DiscardDropsCommits | src/workspace/commands/commit.py:75-90 | Otherwise discard checks out the branch and drops its last N commits |
| LegacyCommit.MoveLastCommit | src/workspace/commands/commit.py:81-86 | Move creates the target at the current commit and drops that commit from the current branch |
| LegacyCommit.MoveWithoutBranches | src/workspace/commands/commit.py:81-86 | Moving in an empty repository raises |
| LegacyCommit.UnreadableLog | src/workspace/commands/commit.py:76-93 | An empty log raises; an entry with no hash leaves the repository untouched |
| LegacyCommit.AutoBranchChoice | src/workspace/commands/commit.py:99-100 | Auto-naming happens exactly on `master` under the auto-branch conditions; the name has no parent suffix and is new |
| LegacyCommit.MaterialiseOutcome | src/workspace/commands/commit.py:102-112 | A missing branch is created from `master`; materialising fails exactly when neither the branch nor `master` exists |
| LegacyCommit.CommitOutcome | src/workspace/commands/commit.py:102-115 | The commit lands on the target branch on top of its base, replacing the last commit when amending |
| LegacyCommit.CommitThenPush | src/workspace/commands/commit.py:117-118 | Corrected: after commit and a push that commits its squash merge, only `master` carries the squashed work, pushed |
| LegacyCommit.CommitThenPushAsWritten | src/workspace/commands/commit.py:117-118 | As written, after commit and push the branch is gone, `master` is the pulled `master` locally and remotely, and a new commit that was in neither does not reach it |
| WsPush.PushedBranch | workspace/commands/push.py:32-35 | The pushed branch is the given one, or the current one |
| WsPush.MergeParent | workspace/commands/push.py:39-45 | A merge target exists exactly when merging a branch that has a parent |
| WsPush.Run | workspace/commands/push.py:30-59 | Running push reaches exactly the state and halt of its plan |
| WsPush.MergeIgnoredWithoutParent | workspace/commands/push.py:39-45 | `--merge` on a branch without a parent plans the same as no merge |
| WsPush.RemovalOnlyAfterMerge | workspace/commands/push.py:58-59 | The plan removes the branch exactly when it merged, and removes nothing else |
| WsPush.NoMergeNoCheckout | workspace/commands/push.py:32-56 | Without a merge the plan is update then push, with no checkout |
| WsPush.RemoveMerged | workspace/commands/push.py:58-59 | Removal never halts and deletes the branch locally and, when tracked, remotely |
| WsPush.MergedMain | workspace/commands/push.py:40-56 | After the merge sequence the parent holds every commit of the branch and is pushed |
| WsPush.MergePlan | workspace/commands/push.py:39-59 | Merging a child plans the merge sequence and its removal |
| WsPush.MergeStepsComplete | workspace/commands/push.py:39-59 | A complete merge-push runs the calls in order, ends on the parent holding the branch's commits, pushed, with the branch gone |
| WsPush.MergeStepsHalted | workspace/commands/push.py:39-59 | A merge-push that halts deletes no branch |
| WsPush.PushMergeOutcome | workspace/commands/push.py:39-59 | The parent of a child branch is another branch, and push with merge plans the merge sequence |
| WsPush.PlainPushPlan | workspace/commands/push.py:47-56 | A branch without a parent is updated and pushed |
| WsPush.PullPushComplete | workspace/commands/push.py:47-56 | Update then push changes only the current branch, and the remote then matches it |
| WsPush.FirstPushHalts | workspace/commands/push.py:47-56 | The first push of a branch without an upstream stops the run at the push and leaves the remote untouched, as the TypeError of workspace/scm.py:379-380 does |
| LegacyPush.Run | src/workspace/commands/push.py:22-45 | Running push as written, without a commit after the squash merge, reaches exactly the state and halt of its plan |
| LegacyPush.RemovesExactlyOffMaster | src/workspace/commands/push.py:44-45 | The branch is removed exactly when it is not `master` |
| LegacyPush.MasterPush | src/workspace/commands/push.py:31-42 | Pushing `master` updates it and pushes it; there the corrected push does the same as the written one |
| LegacyPush.PushOutcome | src/workspace/commands/push.py:26-45 | Corrected: pushing a branch squashes its work into one new commit on `master`, pushes it and deletes the branch |
| LegacyPush.MainOutcome | src/workspace/commands/push.py:31-42 | Corrected: the main sequence updates `master`, rebases the branch, squash-merges it and commits the squash |
| LegacyPush.OnlyMasterRemains | src/workspace/commands/push.py:42-45 | Corrected: after a complete push only `master` remains |
| LegacyPush.MainOutcomeAsWritten | src/workspace/commands/push.py:31-42 | The main sequence as written, without a commit after the squash merge |
| LegacyPush.AsWrittenLosesCommits | src/workspace/commands/push.py:35-45 | As written, the branch's commits reach neither `master` nor the remote, and the branch is deleted |
| LegacyPush.SquashPushAsWritten | src/workspace/commands/push.py:40-42 | A squash merge followed directly by a push changes no local branch |
| LegacyPush.PushOutcomeAsWritten | src/workspace/commands/push.py:26-45 | As written, a complete push of a branch ends on `master`, which is the pulled `master` both locally and remotely, deletes the branch and changes nothing else |
| WsMerge.Downstream | workspace/commands/merge.py:48-55 | A downstream list exists exactly when the current branch is in the chain; it starts after the first occurrence |
| WsMerge.Run | workspace/commands/merge.py:30-61 | Running merge reaches exactly the state and halt of its plan |
| WsMerge.WalkChain | workspace/commands/merge.py:54-61 | The hop loop, pushing each hop without an upstream option as the code does, reaches exactly the state and halt of the chain plan |
| WsMerge.RefusedIff | workspace/commands/merge.py:34-52 | A branch together with `--all`, an empty chain, or a current branch outside the chain exits 1 before any SCM call |
| WsMerge.HopMerges | workspace/commands/merge.py:56-59 | Each hop merges only the previous hop's branch |
| WsMerge.ChainMergeOrder | workspace/commands/merge.py:54-61 | Merges follow the chain order exactly: hop j merges branch j-1 into branch j |
| WsMerge.HopComplete | workspace/commands/merge.py:56-61 | A complete hop ends on its branch, which holds the previous branch's commits and is pushed |
| WsMerge.HopGrows | workspace/commands/merge.py:56-61 | A hop never loses a commit |
| WsMerge.ChainComplete | workspace/commands/merge.py:54-61 | After a walk run to the end, no branch lost a commit and every branch walked holds the starting branch's commits |
| WsMerge.ChainGrows | workspace/commands/merge.py:54-61 | The walk never loses a commit |
| WsMerge.SingleMergeComplete | workspace/commands/merge.py:38-41 | A single merge stays on the current branch, which then holds the named branch's commits |
| WsMerge.MergeAllPlan | workspace/commands/merge.py:43-61 | `--all` plans the walk over the branches after the current one |
| WsMerge.MergeAllComplete | workspace/commands/merge.py:43-61 | After `--all` every branch after the current one holds its commits |
| WsUpdate.OutcomeOf | workspace/commands/update.py:68-74 | Success exactly without a halt; a halt raises exactly when `raises` is set, and is otherwise logged |
| WsUpdate.CheckoutCall | workspace/scm.py:150-154 | A checkout of a plain branch name has no reset name |
| WsUpdate.CheckoutTarget | workspace/scm.py:150-154 | A plain branch name is checked out as itself |
| WsUpdate.RebaseParent | workspace/commands/update.py:57-58 | The rebase parent is the decoded parent, when non-empty |
| WsUpdate.UpdateRepoCalls | workspace/commands/update.py:55-66 | A branch without a parent is only updated |
| WsUpdate.ComputeFilter | workspace/commands/update.py:33-34 | The filter is empty without products, else the expansion of the products, and fails exactly when that expansion does not terminate |
| WsUpdate.UpdateRepo | workspace/commands/update.py:49-74 | The update of one repository reaches the state of its plan and reports the outcome it gives |
| WsUpdate.UpdateEmptyRepo | workspace/commands/update.py:56-57 | A repository without branches raises a TypeError before any SCM call |
| WsUpdate.UpdateWithoutParent | workspace/commands/update.py:56-61 | Without a parent only the current branch changes, and at most one update is called |
| WsUpdate.UpdateWithParent | workspace/commands/update.py:56-66 | With a parent: checkout parent, update, checkout the branch, rebase onto the parent, in that order |
| WsUpdate.UpdateKeepsCommits | workspace/commands/update.py:55-66 | Every call of the update keeps the commits already on each branch: plain checkouts, fast-forward pulls, rebases, merges and pushes |
| WsUpdate.UpdateEndsOn | workspace/commands/update.py:55-66 | A complete update ends on the branch it started on |
| WsUpdate.SelectRepos | workspace/commands/update.py:33-36 | A repository is selected exactly when there is no filter or its product name is in the filter |
| WsUpdate.SelectAll | workspace/commands/update.py:33-36 | With no filter every repository is selected, in order |
| WsUpdate.Run | workspace/commands/update.py:31-46 | No repository: no product; one: that repository is updated; several: handed to the parallel path; only the single case changes state |
| LegacyUpdate.OutcomeOf | src/workspace/commands/update.py:51-55 | Success exactly without a halt; a halt raises exactly when `raises` is set |
| LegacyUpdate.Update | src/workspace/commands/update.py:27-55 | Each repository in turn gets the outcome of its own update, and the loop stops at the first raise |
| LegacyUpdate.VisitAll | src/workspace/commands/update.py:30-55 | Each checkout visited gets the state and outcome of its own update, the unvisited ones are unchanged, and the loop stops right after the first raise and only there |
| LegacyUpdate.Visit | src/workspace/commands/update.py:33-55 | A checkout outside the filter is skipped unchanged; any other one runs its update calls and, without `raises`, never raises |
| LegacyUpdate.OnlyUpdated | src/workspace/commands/update.py:39-45 | A repository on `master`, or not on git, is only updated |
| LegacyUpdate.ThroughMaster | src/workspace/commands/update.py:39-50 | A git branch off `master`: checkout `master`, update, checkout the branch, rebase onto `master` |
| LegacyUpdate.EmptyCheckout | src/workspace/commands/update.py:40-55 | A checkout without branches raises or is logged, as `raises` says |
| LegacyUpdate.FilteredOut | src/workspace/commands/update.py:33-34 | A repository not in the filter is skipped unchanged |
| ProductGroups.Plain | workspace/commands/helpers.py:127-132 | The plain names are the input names that are not exclusions |
| ProductGroups.ExpandHasNoGroups | workspace/commands/helpers.py:135-138 | An expansion contains no group names |
| ProductGroups.SubstituteKeeps | workspace/commands/helpers.py:135-138 | Substitution keeps every name that is not a group being replaced |
| ProductGroups.SubstituteAdds | workspace/commands/helpers.py:135-138 | Substitution adds the full expansion of each group |
| ProductGroups.ExcludedCovers | workspace/commands/helpers.py:130-133 | The exclusion set covers the full expansion of every `-name` |
| ProductGroups.ExpansionMeaning | workspace/commands/helpers.py:125-140 | The result has no groups, is disjoint from every exclusion's expansion, keeps each plain name exactly when not excluded, and contains each group's members less the exclusions |
| ProductGroups.ExpandProductGroups | workspace/commands/helpers.py:125-140 | The result is sorted and duplicate-free, and exists exactly when the expansion terminates |
| ProductGroups.CollectExclusions | workspace/commands/helpers.py:130-133 | The exclusions gathered are the expansions of every `-name`, and the loop fails exactly when one of those expansions does not terminate |
| ProductGroups.SubstituteGroups | workspace/commands/helpers.py:135-138 | Each group present in the names, in configuration order, is replaced by the expansion of its members; the loop fails exactly when one of those expansions does not terminate |
| ToxConfig.Envlist | workspace/commands/helpers.py:50-51 | No environment name contains a comma |
| ToxConfig.EnvlistOfJoin | workspace/commands/helpers.py:50-51 | Comma-joined stripped non-empty names read back as the same list |
| ToxConfig.DropEmpty | workspace/commands/helpers.py:73 | Dropping empty pieces keeps exactly the non-empty ones |
| ToxConfig.CommandLines | workspace/commands/helpers.py:73 | Command lines are non-empty and contain no newline |
| ToxConfig.CommandLinesJoin | workspace/commands/helpers.py:73 | Non-empty single lines joined by newlines read back as the same lines |
| WsHelpers.Envsection | workspace/commands/helpers.py:53-54 | The section starts with `testenv`, and is just `testenv` exactly when no environment is given |
| WsHelpers.Envdir | workspace/commands/helpers.py:60-62 | The configured `envdir` is used as it is when it holds no `{`; a leading `{toxworkdir}` becomes the work directory; without any configured envdir the default one is used |
| WsHelpers.EnvdirSetting | workspace/commands/helpers.py:60-62 | The environment's own `envdir` wins over the shared `testenv` one, and `<path>/.tox/<env>` is used when neither is set |
| WsHelpers.LeadingToxworkdir | workspace/commands/helpers.py:62 | A leading `{toxworkdir}` is replaced by the work directory and the rest is kept |
| WsHelpers.Bindir | workspace/commands/helpers.py:64-68 | For an envdir without a trailing `/`, exactly `<envdir>/bin`, or `<envdir>/bin/<script>` with a relative script; an absolute script is returned as it is; otherwise the path starts with the envdir, ends in `/bin` without a script, and in the script's name with one |
| WsHelpers.CommandsIn | workspace/commands/helpers.py:72-73 | Commands are non-empty single lines, taken from the section's own `commands`, else the shared `testenv` ones, else the default, after expansion |
| WsHelpers.Commands | workspace/commands/helpers.py:70-73 | The environment's own `commands` win over the shared `testenv` ones, and the default applies when neither is set; each is expanded and split into non-empty lines |
| LegacyHelpers.PathFor | src/workspace/commands/helpers.py:29-44 | An IOError exactly when there is no match; otherwise the first match |
| LegacyHelpers.Envsection | src/workspace/commands/helpers.py:50-51 | The section is always `testenv:` followed by the environment |
| LegacyHelpers.Commands | src/workspace/commands/helpers.py:70-73 | The environment's own `commands` win over the shared `testenv` ones, and the default applies when neither is set; each is expanded and split into non-empty lines |
| LegacyHelpers.EnvsectionAgrees | src/workspace/commands/helpers.py:50-73 | For a named environment both generations read the same section (lines 50-51) and so the same commands (lines 70-73) |
| VersionBump.BumpIndex | workspace/commands/publish.py:130 | The part to bump is 0 exactly for major, and at most 2 |
| VersionBump.JoinParts | workspace/commands/publish.py:139 | Joining succeeds exactly when every part is a string |
| VersionBump.ReplaceVersionAsWritten | workspace/commands/publish.py:126-141 | The written `replace_version` computes the written bump |
| VersionBump.ReplaceVersion | workspace/commands/publish.py:126-141 | The corrected `replace_version` computes the corrected bump |
| VersionBump.BumpMeaning | workspace/commands/publish.py:129-139 | Corrected: bumping succeeds exactly when the chosen part is numeric or missing; it increments that part, zeroes later ones and keeps earlier ones |
| VersionBump.AsWrittenTypeError | workspace/commands/publish.py:132-139 | As written, bumping a part past the end of the version raises a TypeError |
| VersionBump.PatchOfOnePart | workspace/commands/publish.py:132-139 | A patch bump of `1` raises as written, and gives `1.0.1` corrected |
| VersionBump.BumpsAgree | workspace/commands/publish.py:129-139 | Where the version has the chosen part, written and corrected bumps agree |
| VersionBump.NoAssignment | workspace/commands/publish.py:143-150 | Without a `version=` assignment nothing is rewritten and no version is found |
| VersionBump.OneAssignment | workspace/commands/publish.py:126-143 | One assignment between two texts: only it is rewritten, with its own quote around the written bump, which is the version kept; this succeeds exactly when the written bump does, equals the corrected bump where the version has the chosen part, and raises TypeError where it is shorter |
| VersionBump.OneAssignmentSteps | workspace/commands/publish.py:126-143 | The substitution over one assignment between two texts raises what the written bump raises, and otherwise rewrites only the assignment |
| VersionBump.Substitute | workspace/commands/publish.py:126-143 | The substitution raises exactly when the written bump of some assignment raises; when it succeeds, a version is kept exactly when some assignment exists, and it is the written bump of an assignment followed only by text |
| VersionBump.BumpVersion | workspace/commands/publish.py:120-152 | A missing `setup.py` ends the bump; a file without an assignment is not found; a bumped version is the written bump of one of its assignments |
| WsPublish.ChangesSinceLastPublish | workspace/commands/publish.py:80-91 | The loop returns exactly the specified changes of the log's messages |
| WsPublish.KeptMembers | workspace/commands/publish.py:87-89 | A message is kept exactly when it is one of the messages, has at least 7 characters and is not ignored |
| WsPublish.ChangesMeaning | workspace/commands/publish.py:84-89 | A change is a significant message that comes before the first publish message |
| WsPublish.ReleaseIsBoundary | workspace/commands/publish.py:71-85 | Changes stop at the previous release's commit |
| WsPublish.UpdateChangelog | workspace/commands/publish.py:93-114 | The written text is exactly the specified changelog |
| WsPublish.EntryRoundTrip | workspace/commands/publish.py:108 | An entry starts with `* `, ends with a newline, and un-indenting it gives back the change |
| WsPublish.ChangelogLayout | workspace/commands/publish.py:103-114 | The changelog starts with the version header; without old text it is header and entries; with the title change skipped it ends with the old text |
| WsPublish.PreviousTitleDemoted | workspace/commands/publish.py:112-113 | The previous version's major title is demoted to a minor title |
| WsPublish.RunMeaning | workspace/commands/publish.py:36-71 | `--minor` with `--major` is refused; a publish has changes, the version bumped as written, its changelog header and the publish message, after which there are no changes |
| LegacyPublish.ChangesSinceLastPublish | src/workspace/commands/publish.py:58-67 | The loop returns exactly the specified changes |
| LegacyPublish.ChangesMeaning | src/workspace/commands/publish.py:58-67 | Changes are exactly the messages before the first publish message |
| LegacyPublish.UpdateChangelogAsWritten | src/workspace/commands/publish.py:77-88 | The written method produces the written changelog |
| LegacyPublish.UpdateChangelog | src/workspace/commands/publish.py:77-88 | The corrected method produces the corrected changelog |
| LegacyPublish.WriteEntries | src/workspace/commands/publish.py:81-84 | The numbering loop writes the header then the numbered entries |
| LegacyPublish.EntryRoundTrip | src/workspace/commands/publish.py:81-84 | An entry reads back as its number, `. `, the change with its indent removed, and a blank line |
| LegacyPublish.EntriesExtend | src/workspace/commands/publish.py:81-84 | One more change adds one more entry with the next number |
| LegacyPublish.PriorTextKept | src/workspace/commands/publish.py:86-88 | As written, the old text is lost with an AttributeError; corrected, it is kept with its title demoted |
| LegacyPublish.DemotedHasNoMajorTitle | src/workspace/commands/publish.py:87 | After demotion no major title is left |
| LegacyPublish.SecondReleaseNeverCommitted | src/workspace/commands/publish.py:86-88 | As written, a release with an existing changelog raises; corrected, it is published |
| LegacyPublish.RunMeaning | src/workspace/commands/publish.py:28-49 | Corrected: with the corrected changelog a release never raises at the changelog, and a publish has changes, the version bumped as written, its changelog header and the publish message, after which there are no changes |
| LegacyPublish.ReleaseCommitted | src/workspace/commands/publish.py:28-49 | The changelog of a release opens with its title, and its commit is where the next publish stops collecting changes |
| Bump.RequirementFiles | workspace/commands/bump.py:73-78 | A list is used as it is, a single name is wrapped in a list |
| Bump.ConfiguredNames | workspace/commands/bump.py:78 | Configured names are non-empty and contain no whitespace |
| Bump.SplitFirstMeaning | workspace/commands/bump.py:90-93 | The summary is the first line and the rest is the detail; together they give back the message |
| Bump.Summaries | workspace/commands/bump.py:89-95 | One summary per message |
| Bump.Details | workspace/commands/bump.py:89-95 | At most one detail per message |
| Bump.ComposeCommitMessage | workspace/commands/bump.py:86-98 | The composing loop builds exactly the specified commit message |
| Bump.SingleLineReadBack | workspace/commands/bump.py:89-98 | Splitting the message on blank lines gives the user message, then the sorted bump messages |
| Bump.CommitMessageLayout | workspace/commands/bump.py:89-98 | The message is the user message, the sorted summaries, then the details, separated by blank lines |
| Bump.MessageRecovered | workspace/commands/bump.py:89-98 | Each summary with its detail gives back its bump message |
| Bump.SummaryAt | workspace/commands/bump.py:90-92 | Summary i is the first line of message i |
| Bump.CommitConfig.constructor | workspace/commands/bump.py:100-104 | The configuration starts with the given word count |
| Bump.Files | workspace/commands/bump.py:103 | The files of the bump messages, in order |
| Bump.Values | workspace/commands/bump.py:89 | The bump messages, in order |
| WsBump.Run | workspace/commands/bump.py:63-118 | The bump flow's actions, outcome and final word count are those of its plan |
| WsBump.Proceed | workspace/commands/bump.py:80-118 | The steps after composing the message follow the plan |
| WsBump.PlanParts | workspace/commands/bump.py:63-118 | The actions are the bump, then the commit part, then the tail |
| WsBump.CommitWhen | workspace/commands/bump.py:86-103 | A commit happens exactly when there are bump messages and it is not a dry run |
| WsBump.CommitCarries | workspace/commands/bump.py:103 | Every commit carries the composed message and the commit word count |
| WsBump.NoCommitAfterBump | workspace/commands/bump.py:106-118 | Nothing after the commit commits again |
| WsBump.PushWhen | workspace/commands/bump.py:110-118 | A push happens exactly with bumps, no dry run and `--push`, and comes last; a failed commit is reverted and not pushed |
| WsBump.PushLast | workspace/commands/bump.py:110-118 | The push is the last action |
| WsBump.WordsLeft | workspace/commands/bump.py:97-104 | The word count is restored to 2 after a commit, and left unchanged without bump messages |
| WsBump.UpToDate | workspace/commands/bump.py:83-120 | Nothing to bump gives no messages, no commit message and no bumps |
| LegacyBump.Run | src/workspace/commands/bump.py:57-138 | The bump flow's actions, outcome and final word count are those of its plan |
| LegacyBump.Proceed | src/workspace/commands/bump.py:85-138 | The steps after composing the message follow the plan |
| LegacyBump.PlanParts | src/workspace/commands/bump.py:57-138 | The actions are the bump, then the commit part, then the tail |
| LegacyBump.NoCommitAfterBump | src/workspace/commands/bump.py:105-136 | Nothing after the commit commits again |
| LegacyBump.CommitWhen | src/workspace/commands/bump.py:88-103 | A commit happens exactly with bump messages, no dry run, on git |
| LegacyBump.CommitCarries | src/workspace/commands/bump.py:103 | Every commit carries the composed message |
| LegacyBump.PushLast | src/workspace/commands/bump.py:109-136 | The push is the last action, and happens exactly with bumps, no dry run, `--push`, on git |
| LegacyBump.PushWhen | src/workspace/commands/bump.py:109-136 | A push happens exactly under those conditions and comes last |
| LegacyBump.WordsLeft | src/workspace/commands/bump.py:65-66 | Without a message the word count is set to 1 and never restored |
| LegacyBump.SvnNeverCommits | src/workspace/commands/bump.py:102-132 | On svn the flow bumps and tests but never commits or pushes |
| WsTest.Banners | workspace/commands/test.py:144 | Banner lines are the output's lines starting with `===` |
| WsTest.Label | workspace/commands/test.py:116-120 | The product name prefixes a summary exactly when there are several products |
| WsTest.Report | workspace/commands/test.py:122-146 | One summary per product |
| WsTest.Current | workspace/commands/test.py:122 | At most one entry, and it is the current product |
| WsTest.OthersMembers | workspace/commands/test.py:122 | The others are exactly the entries of other products |
| WsTest.OrderMeaning | workspace/commands/test.py:122 | Corrected: the current product comes first, the others follow sorted by name |
| WsTest.Summary | workspace/commands/test.py:96-148 | A single result gives a single summary, several give a list, and the corrected order never raises |
| WsTest.Summarize | workspace/commands/test.py:96-148 | Summarising with the test and build patterns is the summary as written: the sort raises with the current product among others, and products without tests are labelled by the written label |
| WsTest.Verdicts | workspace/commands/test.py:122-146 | The verdict loop gives exactly the success flag and summaries of the written report |
| WsTest.ReportSuccess | workspace/commands/test.py:123-146 | Success holds exactly when no product's result fails |
| WsTest.ReportAt | workspace/commands/test.py:116-146 | Corrected: summary i is the labelled verdict of product i |
| WsTest.SingleResult | workspace/commands/test.py:107-148 | A single result gives its verdict's summary and success |
| WsTest.SeveralResults | workspace/commands/test.py:96-148 | Corrected: several results give one summary per product, each prefixed by its name, current product first; success exactly when none fails |
| WsTest.CurrentAmongOthersRaises | workspace/commands/test.py:122 | As written, sorting with the current product among others raises |
| WsTest.NoTestsVerdict | workspace/commands/test.py:130-131 | Output with no collected tests gives `No tests` and does not fail |
| WsTest.ReportAtAsWritten | workspace/commands/test.py:116-146 | As written, summary i is labelled by the written label |
| WsTest.OrderWithoutCurrent | workspace/commands/test.py:122 | Without the current product the order is by name |
| WsTest.NoTestsUnlabelled | workspace/commands/test.py:131 | As written, a product with no tests is reported as `None: No tests` |
| WsTest.NoTestsLabelled | workspace/commands/test.py:131 | Corrected, it is reported under its own name |
| WsTest.ListedAsWritten | workspace/commands/test.py:96-148 | The written summary of several results is the written report |
| WsTest.ListedIntended | workspace/commands/test.py:96-148 | The corrected summary of several results is the corrected report |
| WsTest.Remaining | workspace/commands/test.py:189-191 | The remaining tests are those not completed |
| WsTest.LastIsGreatest | workspace/commands/test.py:192-193 | The last of a sorted list is the greatest |
| WsTest.ShowRemainingMeaning | workspace/commands/test.py:188-197 | `None` exactly when nothing remains; otherwise the greatest remaining name and how many more remain |
| WsStatus.ShownMeaning | workspace/commands/status.py:27-39 | Something is shown exactly with several branches or pending changes; the header, `#` line and status appear as the branch count and status say |
| WsStatus.Run | workspace/commands/status.py:24-39 | The status loop writes exactly the specified entries |
| WsStatus.WritesMeaning | workspace/commands/status.py:24-39 | An entry is written exactly when some repository shows it |
| WsStatus.EntryMeaning | workspace/commands/status.py:27-39 | A repository's entry is what it shows |
| WsStatus.CleanSingleBranchSilent | workspace/commands/status.py:38-39 | Clean single-branch repositories write nothing |
| SetupScript.FilterBashrc | workspace/commands/setup.py:482-490 | The filtering loop keeps exactly the specified script |
| SetupScript.KeptAppend | workspace/commands/setup.py:482-490 | Filtering two parts is filtering each, with the skip flag carried over |
| SetupScript.SkippedDropped | workspace/commands/setup.py:484-489 | Lines without markers are all dropped while skipping |
| SetupScript.BlockDropped | workspace/commands/setup.py:482-490 | A marked block and its markers are dropped, the lines around it kept |
| SetupScript.MarkerFlips | workspace/commands/setup.py:484-486 | A marker line flips the skip flag and is dropped |
| SetupScript.KeptSound | workspace/commands/setup.py:482-490 | Every kept line is an input line that is neither a marker nor mentions the wstrc file |
| SetupScript.KeptWithoutMarkers | workspace/commands/setup.py:488-489 | Without markers, a line is kept exactly when it does not mention the wstrc file |
| SetupScript.ScriptStripped | workspace/commands/setup.py:490 | The filtered script is stripped |
| SetupScript.RelativePathMeaning | workspace/commands/setup.py:543-546 | A path under the cwd loses the cwd prefix; any other path is unchanged |
| SetupScript.RelativePathRoundTrip | workspace/commands/setup.py:543-546 | The cwd joined with a relative path reads back as that path |
| SetupScript.PutMeaning | workspace/commands/setup.py:515-516 | Putting a key keeps keys distinct and changes only that key |
| SetupScript.UpdateMeaning | workspace/commands/setup.py:515-516 | Updating the command table keeps keys distinct, and the added entries win |
| SetupScript.WriteBashrc | workspace/commands/setup.py:498-509 | The rewritten `.bashrc` is the filtered script followed by the source line, unless uninstalling |
| SetupScript.RerunKeepsScript | workspace/commands/setup.py:482-509 | Running setup again filters the rewritten file back to the same script |
| SetupScript.FunctionBlocks | workspace/commands/setup.py:522-525 | One function block per function, in order: block i is the function line of command i |
| SetupScript.FunctionBlocksConcat | workspace/commands/setup.py:522-525 | The functions of two lists of commands are those of each, in order |
| SetupScript.WriteFunctions | workspace/commands/setup.py:524-525 | The writing loop appends exactly the function blocks |
| WsSetup.DispatchMeaning | workspace/commands/setup.py:310-325 | Not exactly one option exits 1; otherwise the chosen option's setup runs |
| WsSetup.FunctionsMeaning | workspace/commands/setup.py:518-522 | The functions are the non-special command values, sorted |
| WsSetup.AliasesMeaning | workspace/commands/setup.py:530-531 | The aliases are the entries whose key does not start with `_`, sorted by value less its leading `_` |
| WsSetup.AliasBlocks | workspace/commands/setup.py:532-533 | One alias block per alias, in order: block i is the alias line of entry i |
| WsSetup.WorkspaceDirHidesHome | workspace/commands/setup.py:492-496 | The workspace directory written to the script never mentions the home directory |
| WsSetup.Workspace | workspace/commands/setup.py:471-539 | Setup rewrites `.bashrc` and writes the wstrc script, unless uninstalling |
| WsSetup.WriteAliases | workspace/commands/setup.py:532-533 | The writing loop appends exactly the alias blocks |
| LegacySetup.FunctionsMeaning | src/workspace/commands/setup.py:315 | The functions are the command values not starting with a quote, sorted |
| LegacySetup.AliasesMeaning | src/workspace/commands/setup.py:323 | The aliases are the entries whose key does not start with `_`, sorted by key |
| LegacySetup.AliasesAscending | src/workspace/commands/setup.py:323 | With distinct keys the aliases ascend strictly by key |
| LegacySetup.AliasesDistinct | src/workspace/commands/setup.py:323 | With distinct keys no alias name repeats |
| LegacySetup.AliasBlocks | src/workspace/commands/setup.py:324-325 | One alias block per alias, in order: block i is the alias of entry i |
| LegacySetup.WriteAliases | src/workspace/commands/setup.py:324-325 | The writing loop appends exactly the alias blocks |
| LegacySetup.Workspace | src/workspace/commands/setup.py:267-328 | Setup rewrites `.bashrc` and writes the wstrc script, unless uninstalling |
| DocParams.ParamOfMeaning | src/workspace/utils.py:158-161 | A part parses exactly when it has a colon with a word before it; the name is the last word before the first colon and the description the stripped rest |
| DocParams.ParseParams | src/workspace/utils.py:158-161 | The parsing loop gives exactly the specified parameters |
| DocParams.ParamsFail | src/workspace/utils.py:158-161 | Parsing fails exactly when some part fails |
| DocParams.ParamsLastWins | src/workspace/utils.py:161 | A repeated name keeps the last description |
| DocParams.DocMeaning | src/workspace/utils.py:154-155 | The description is the text before the first `:param `, right-stripped |
| DocParams.ParamOfRoundTrip | src/workspace/utils.py:158-161 | `name:text` parses back as the name and the stripped text |
| DocParams.ParamsAppend | src/workspace/utils.py:158-161 | Parsing two runs of parts is parsing each |
| LegacyUtils.SplitDoc | src/workspace/utils.py:146-163 | `split_doc` gives exactly the specified description and parameters |
| LegacyUtils.SameAsCurrent | src/workspace/utils.py:14-32 | The older `parent_path_with_dir` finds the same path as the current one |
| LegacyUtils.FirstHolding | src/workspace/utils.py:14-32 | The result is the first ancestor holding the directory, or nothing when none does |
| PathSearch.DirnameStep | workspace/utils.py:64-73 | The directory name is a prefix of the path, and stays absolute |
| PathSearch.TrailSteps | workspace/utils.py:64-73 | The search starts at the path, or at the cwd for an empty path, and steps to each directory name in turn |
| PathSearch.TrailAncestors | workspace/utils.py:64-73 | Every searched path is an ancestor of the start, or of the cwd for a relative path |
| PathSearch.RootedEnds | workspace/utils.py:64-73 | A search from an absolute path not starting with `//` ends |
| WsUtils.SearchIsWalk | workspace/utils.py:55-73 | The recursive search is the first passing path of the walk |
| WsUtils.FirstPassing | workspace/utils.py:55-73 | The first passing path is found; otherwise nothing, or an endless search for a path starting with `//` |
| WsUtils.FoundAncestor | workspace/utils.py:55-73 | A found path passes the check and is an ancestor of the start |
| WsUtils.SearchEnds | workspace/utils.py:55-73 | The search ends for paths that do not loop |
| WsUtils.ResponseRecoversMessage | workspace/utils.py:24-28 | Corrected: for a text-mode file, the response to a prompt is the user's text, stripped, with the commented instructions dropped |
| WsUtils.PromptRaises | workspace/utils.py:22-24 | As written, the binary-mode temporary file makes the write of the instruction text raise TypeError, so the prompt never returns a message |
| WsUtils.PromptRecoversMessage | workspace/utils.py:20-28 | Corrected: with a text-mode file, a message typed above the instruction is returned stripped, and an untouched file gives the empty message |
| WsUtils.Commented | workspace/utils.py:24 | Each instruction line is written after `# ` |
| WsUtils.SanitizedMeaning | workspace/utils.py:303-304 | Sanitised names hold only letters, digits and `_`, and sanitising twice changes nothing |
| WsUtils.Background.constructor | workspace/utils.py:281-305 | A fresh process has not forked |
| WsUtils.Background.RunInBackground | workspace/utils.py:281-305 | The process is titled from the program, repository and title, and is marked forked; only the first call forks and names its log file (the given one, else one in the temporary directory), and a later call returns no log, so the call is idempotent apart from the title |
| WsCommands.NameMeaning | workspace/commands/__init__.py:17-20 | The command name is the class name, lower-cased letter by letter |
| WsCommands.Attr | workspace/commands/__init__.py:8-15 | An attribute reads as the constructor's value, else the class's, else None |
| WsCommands.DocParts | workspace/commands/__init__.py:35-46 | A parsed document always has a description part |
| WsCommands.MergeShape | workspace/commands/__init__.py:43-46 | The merged document takes the parent's description when its own is blank, and appends the parent's parameter parts |
| WsCommands.ParsedMerge | workspace/commands/__init__.py:43-56 | The merged document parses to the chosen description and both parameter sets |
| WsCommands.Docs | workspace/commands/__init__.py:27-56 | `docs` gives exactly the specified description and parameters |
| WsCommands.DocsInherited | workspace/commands/__init__.py:38-42 | Without its own document a command uses its parent's; with neither, an AttributeError |
| WsCommands.DocsUnchanged | workspace/commands/__init__.py:38-42 | A document equal to the parent's is parsed once |
| WsCommands.DocsMerged | workspace/commands/__init__.py:43-46 | A differing document keeps its own parameters and adds the parent's; for a name both describe, the parent's description wins, because its part comes later |

## Left out

- Subprocess execution is not modelled: `run` and `silent_run` in both generations. Command output is a parameter, and SCM effects are the abstract repository's.
- `parallel_call` and the multi-repository branch of `Update.run` are not modelled. `WsUpdate.Run` returns the selected repositories instead of updating them in parallel.
- Forking, daemonising and process scanning in `run_in_background` are not modelled. `WsUtils.Background` keeps only the title and the forked flag.
- Terminal output is not modelled: `ProgressLogger`, `show_status`, the pager, and colours.
- Network access and cloning are not modelled: the GitHub search and `checkout_product` in both generations.
- `BumperDriver` and configuration loading are not modelled. Configured values and bump results are parameters.
- The regular expressions are predicates, not matched text: the test-output and build patterns, `IGNORE_CHANGE_RE`, and the greedy `expand_vars` substitution.
- `ToxConfig.ExpandVars`: only the case without `{` is stated; the substitution itself is a parameter.
- `update_repo` is one abstract pull. Its error scraping and retries are not modelled.
- Verbose `all_branches` is not modelled. It depends on `shortest_id`, which is not part of this model.
- argparse wiring, the `arguments()` methods and the controllers are not modelled. `make_args` returns its arguments unchanged, and the default `arguments()` is `[]`; neither holds logic.
- Template texts and file writing are not modelled. Script blocks are modelled, but their bodies are not.
- The thin wrapper commands are not modelled: clean, diff, checkout, log, review, wait and develop.
- The review, rb and wait steps of the older commit and bump (src/workspace/commands/bump.py:112-134) are not modelled. Nor are the current commit's test, style-check and review steps (workspace/commands/commit.py:102-114,141-163).
- Test setup and running beyond `summarize` and `show_remaining` is not modelled.
- `ProductGroups.Expand`: a `fuel` bound stands for Python's recursion limit, because the code has no cycle check. Running out of fuel models the RecursionError.
- An expansion that comes out empty (only exclusions, say) gives an empty filter. Both generations then select every repository, and so does the model.
- `LegacyUpdate.Update` works on values: each product carries its repository state. In-place update and aliasing of checkouts are not modelled.
- Character classes are ASCII only: lower-casing, word characters and whitespace. Whitespace is the ASCII set of Python 3's `str.strip()`: U+0009 to U+000D, U+001C to U+001F and the space. Non-ASCII whitespace such as U+0085 and U+00A0, and the rest of Unicode, is not modelled.
- IntValue (`VersionBump.IntValue`): accepts digits only, through `Text.ParseNat`. Python's `int()` also accepts surrounding whitespace, a sign and `_` separators between digits; version parts of that form are not modelled.
- Exception messages are abbreviated to their kind (for instance `IndexError` or "branch exists"), not their full text.
- Some tests describe a newer variant of the code, and the model follows the code instead:
  - tests/test_commands.py:202,212-219 on push and remove arguments;
  - tests/test_status.py:17 on the header for one branch;
  - tests/test_merge.py:18 on `--downstream`.
- The older generation's `envdir` and `bindir` are not part of this model.
- The module-level `new_version` global is a return value in the model.
- Linear history stands in for git's commit graph. A rebase is the parent's commits followed by the branch's own, a merge appends the commits that are missing, and a squash merge changes no branch.
- The flows run the code as written: the hash pattern, the literal `@`, the push without an upstream option, the squash merge pushed without a commit, the padded bump and the written test summary. The members below state the corrected behaviour beside them, and no flow uses them.
- PushCommand (`WsScm.PushCommand`): states the corrected command; as written an untracked branch with no remote raises, which `WsScm.PushCommandAsWritten` and `WsScm.PushUntrackedRaises` state.
- PlainEntryMatches (`WsCommit.PlainEntryMatches`): states the corrected pattern; as written an undecorated entry yields no hash, which `WsCommit.PlainEntryRejected` states.
- CommitThenPush (`LegacyCommit.CommitThenPush`): states the corrected push that commits the squash merge; as written the squashed work never reaches `master`, which `LegacyCommit.CommitThenPushAsWritten` states.
- PushOutcome (`LegacyPush.PushOutcome`): states the corrected push; the push as written is `LegacyPush.PushOutcomeAsWritten`.
- MainOutcome (`LegacyPush.MainOutcome`): states the corrected main sequence; the sequence as written is `LegacyPush.MainOutcomeAsWritten`.
- OnlyMasterRemains (`LegacyPush.OnlyMasterRemains`): states the corrected push only.
- BumpMeaning (`VersionBump.BumpMeaning`): states the corrected bump; as written a part missing before the bumped one raises TypeError, which `VersionBump.AsWrittenTypeError` states.
- RunMeaning (`LegacyPublish.RunMeaning`): states the flow with the corrected changelog; as written a release with an existing changelog raises, which `LegacyPublish.SecondReleaseNeverCommitted` states.
- OrderMeaning (`WsTest.OrderMeaning`): states the corrected order; as written the sort raises with the current product among others, which `WsTest.CurrentAmongOthersRaises` states.
- ReportAt (`WsTest.ReportAt`): states the corrected labels; as written a product without tests is labelled `None`, which `WsTest.ReportAtAsWritten` and `WsTest.NoTestsUnlabelled` state.
- SeveralResults (`WsTest.SeveralResults`): states the corrected summary; the written one is `WsTest.ListedAsWritten`.
- ResponseRecoversMessage (`WsUtils.ResponseRecoversMessage`): states the round trip of a text-mode file; as written the binary-mode write raises TypeError first, which `WsUtils.PromptRaises` states.
- PromptRecoversMessage (`WsUtils.PromptRecoversMessage`): states the corrected prompt, as above. `WsCommit.Steps` takes the editor's answer as an input, that is, it follows the corrected prompt; as written a commit that needs the prompt raises TypeError there.

## Findings

The flows execute each of these as written, except the commit prompt: `WsCommit.Steps` takes the editor's answer as an input. The corrected member in each row is proved beside it.

| source | as written | input that shows it | evidently intended | confidence | as-written member | corrected member |
|---|---|---|---|---|---|---|
| workspace/commands/publish.py:132-139 (and src/workspace/commands/publish.py:109-116) | short versions are padded with the integer 0, and the join then fails | a patch bump of version `1` | pad with `'0'`, giving `1.0.1` | not executed | VersionBump.PatchOfOnePart | VersionBump.BumpMeaning |
| workspace/commands/test.py:122 | the sort key gives `True` for the current product and the name for the others, and Python 3 cannot compare `True` with a string | two products, one of which is the current product | the current product first, then the others by name | not executed | WsTest.CurrentAmongOthersRaises | WsTest.SeveralResults |
| workspace/commands/test.py:131 | `append_summary('No tests')` passes no name | several products, one with no tests collected | `<name>: No tests` | not executed | WsTest.NoTestsUnlabelled | WsTest.NoTestsLabelled |
| workspace/scm.py:379-380, via workspace/commands/push.py:56 | an untracked branch with no remote concatenates `None` | a first push of a new branch | push to the default remote | not executed | WsScm.PushUntrackedRaises | WsScm.PushCommandAgrees |
| src/workspace/commands/publish.py:86-88 | `existing_changes.repliace` | a publish when a changelog already exists | keep the old text, demoted | not executed | LegacyPublish.SecondReleaseNeverCommitted | LegacyPublish.UpdateChangelog |
| workspace/commands/commit.py:75, with workspace/scm.py:204-207 | the hash pattern needs a space after the hash | a log entry with no ref decoration | match the hash at the end of its line too | not executed | WsCommit.PlainEntryRejected | WsCommit.PlainEntryMatches |
| workspace/commands/commit.py:121-124, with workspace/config.py:60-62 | the auto-branch name uses a literal `@` | a configured parent indicator other than `@` | join with the configured indicator | not executed | WsCommit.AutoNameAsWrittenNotChild | WsCommit.AutoNameIsChild |
| src/workspace/commands/push.py:35-45, with src/workspace/scm.py:243-244 | a squash merge is pushed without a commit, then the branch is force-deleted | pushing a branch with one commit of its own | commit the squash before pushing | not executed | LegacyPush.AsWrittenLosesCommits | LegacyPush.PushOutcome |
| workspace/utils.py:22-24, via workspace/commands/commit.py:98 | `NamedTemporaryFile` opens the file in binary mode and a `str` is written to it, which raises TypeError | any commit without `-m` or `--amend` | open the file in text mode (`mode='w+'`) | not executed | WsUtils.PromptRaises | WsUtils.PromptRecoversMessage |
