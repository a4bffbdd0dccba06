# codemod-kit, modelled in Dafny

A model of the core of codemod-kit. The library runs ast-grep codemods over
checked-out git repositories, then commits the changes, pushes them and opens
pull requests. The model covers five parts:

- **Git branch reconciliation** (`GitRepository`, `GitErrors`). This is the
  `Repository` class: a cached current branch and ordered git command sequences
  with early returns (`checkoutBranch`, `push`, `resetBranch`,
  `updateBranchToLatestMain`, `prepareForUpdate`). It also holds the text
  parsers for `git branch`, `git ls-remote --heads` and `git remote` output, and
  the repository name derived from an address. The shell becomes a value of type
  `GitEnv`:
  - the local branches and the checked-out branch are fields of the class, and
    `git branch` output is rendered from them;
  - the other outputs are constant strings;
  - the exit codes the code inspects, the rebase and the default-branch lookup
    are oracles; the commands the code neither inspects nor guards are taken to
    return (see "## Left out").

  Every command that changes the working copy is appended to the field `log`.
- **Codemod targets and run outcomes** (`CodemodConstants`, `CodemodRunner`).
  This covers the language-to-extension table, the extension-set union, the
  target filter, the per-file read/transform/write outcome, the option and hook
  defaults, and `runCodemods` filling a record keyed by codemod name. The file
  system is a value: the readable files and the paths that accept a write.
- **Repository dedupe and clone decisions** (`GitUtils`). This covers the
  first-occurrence dedupe by derived name, the checkouts already present
  according to `ls`, the choice between clone and skip, and the fold over the
  clone results.
- **Pull-request publishing** (`Publisher`). This covers the "some success has
  changes" gate and the per-repository commit, push and pull-request sequence on
  real `Repository` objects. Its console lines are recorded as an event trace,
  and a codemod name with no codemod throws.
- **Generic folds** (`Results`, `Arrays`). `groupResults` and `tryCatch` are
  functions. `groupBy` is a method whose loop fills a dictionary.

Shared pieces:

- `Wrappers` holds `Option` and `Result`.
- `Strings` holds the JavaScript string operations the parsers use (`includes`,
  `split`, `join`, `trim`, `startsWith`, `toLowerCase`), with round-trip lemmas.
- `Records` holds a JavaScript object with string keys, as the list of its own
  properties in creation order: assigning an existing key keeps its position.
  `Entries` is the order `Object.entries` uses: array-index keys (`"0"`, `"1"`,
  ...) first, ascending, then the others in creation order. `Assign` under
  `__proto__` replaces the prototype and creates no property.

Behaviour the model keeps as written in the code:

- `getRemoteName` never returns `undefined`, because a split always has a first
  piece. So the `remoteName == null` guards in `push` and
  `updateBranchToLatestMain` can never fire.
- `getRepoNameFromRepoAddress` never returns `undefined`. An address whose last
  segment has no `.` gives `""` (`RepoNameWithoutDot`), so the null check in
  `fromAddressAndCwd` is dead too.
- `getRemoteBranches` names a line by the piece between the first and the
  second `refs/heads/`. That is element `[1]` of the split, not everything after
  the first occurrence.
- `checkoutBranch` of an existing branch does not update the cache.
  `StaleCacheAfterSwitch` shows the cache reporting a branch other than the one
  checked out.
  - While the cache agrees with the working copy (`CacheAgrees`, true of a fresh
    repository), a successful update or preparation ends with the working branch
    checked out. With a stale cache it need not: `StaleCachePrepare` caches
    `feature`, checks out `main`, and then `prepareForUpdate("feature")` skips the
    checkout (src/git/repository.ts:140-144), rebases `main` and succeeds with
    `main` still checked out.
  - The fallback of `updateBranchToLatestMain` ends by creating the working
    branch with `-b`, which writes the cache. So the checks after it, "current
    branch missing" and "current branch is main", can never fail.
    `RecreateWorkingBranch` proves this: its only errors are checkout errors.
- `preCodemodRun` is given a default but is never called
  (`RunCodemodIgnoresPreCodemodRun`).
- The transformer returns `Modifications`, as `runCodemod` uses it; the
  declared type in src/codemods/types.ts:13 says a string instead.
- An exit code counts as failed when it is present and differs from `'0'`, as
  each check is written. No claim is made about what execa actually returns.
- The record returned by `runCodemods` is walked in `Object.entries` order, so
  codemods named `"2"` and then `"1"` are published `"1"` first. A key that
  several codemods share keeps the last codemod's results at its first
  position. A codemod named `__proto__` runs, but its results never reach the
  record.
- `groupBy` throws a `TypeError` at the first element whose key is a property
  of `Object.prototype` (`constructor`, `toString`, `__proto__`, ...): the
  inherited value is not `null`, so `push` is called on it.
- `getSelectedBranch` never writes the cache (src/git/repository.ts:176 is
  dead). When the cache is empty, `getCurrentBranch` has already returned the
  selected branch of the listing; when it returned none, the second search of
  the same listing finds none either.
- A repository listed `n` times in `makePullRequestsForCodemodResult` runs its
  round `n` times (`Occurrences`).

## Model

| member | source | states |
|---|---|---|
| GitErrors.NewGitError | src/git/errors.ts:9-14 | the error stores the given message, repository and cause; the cause is absent exactly when no options are passed |
| GitErrors.CloneError | src/git/errors.ts:17-21 | message is "Git clone failed for " followed by exactly the address; no cause; records the repository |
| GitErrors.CheckoutError | src/git/errors.ts:23-27 | message is exactly "Git checkout failed for <address>, couldn't checkout to <branch>"; no cause; records the repository |
| GitErrors.GetMainBranchError | src/git/errors.ts:29-33 | the optional cause is forwarded unchanged and the repository recorded |
| GitErrors.PushError | src/git/errors.ts:35-39 | message is "Git push failed for <address>; message: <message>"; cause forwarded; repository recorded |
| GitErrors.RebaseError | src/git/errors.ts:41-45 | the optional cause is forwarded unchanged and the repository recorded |
| GitErrors.PushErrorDetailRecoverable | src/git/errors.ts:35-39 | two push errors for one repository are equal iff their detail messages are: the prefix never hides the detail |
| GitErrors.CheckoutErrorBranchRecoverable | src/git/errors.ts:23-27 | two checkout errors for one repository are equal iff they name the same branch |
| GitRepository.BranchOfLine | src/git/repository.ts:198-203 | a `git branch` line becomes the branch named by the line with every `*` removed and trimmed, selected iff the line starts with `*` |
| GitRepository.GetBranches | src/git/repository.ts:195-204 | one branch per line of the output, each named and flagged as its own line dictates |
| GitRepository.GetBranchesOfListing | src/git/repository.ts:195-204 | parsing the `git branch` output of non-empty local branches gives every branch back, in order, with exactly the checked-out one selected |
| GitRepository.GetBranchesOfEmptyOutput | src/git/repository.ts:195-204 | empty output still yields one unselected branch with the empty name |
| GitRepository.ListingIsParsedOutput | src/git/repository.ts:195-204 | the listing the class works from is what the parser makes of the rendered output |
| GitRepository.BranchLineParses | src/git/repository.ts:198-200 | a rendered line (`* b` or `  b`) parses back to `b`, selected iff it is the checked-out one, and holds no newline |
| GitRepository.RemoteBranchOfLine | src/git/repository.ts:184-191 | a line without `refs/heads/` is dropped; a kept branch is unselected and named by the text of the trimmed line from just after the first `refs/heads/` up to the next one or the end, which is non-empty; a line where something other than `refs/heads/` follows the first one is kept |
| GitRepository.CompactRemote | src/git/repository.ts:184-192 | a branch is returned iff some line parses to it; never more branches than lines; every branch non-empty and unselected |
| GitRepository.CompactMapMembers | src/git/repository.ts:184 | `compactMap` keeps exactly the results of the elements its callback accepts |
| GitRepository.CompactMapConcat | src/git/repository.ts:184 | `compactMap` keeps input order: it distributes over concatenation |
| GitRepository.CompactRemoteConcat | src/git/repository.ts:184-192 | the remote parse of a concatenation of lines is the concatenation of the parses |
| GitRepository.GetRemoteBranches | src/git/repository.ts:181-193 | a branch is returned iff some line of the output parses to it; at most one per line, each non-empty and unselected |
| GitRepository.RemoteHeadLineParses | src/git/repository.ts:185-191 | a well-formed `<object id>\trefs/heads/<name>` line yields exactly that name, unselected |
| GitRepository.GetRemoteBranchesOfListing | src/git/repository.ts:181-193 | parsing a `git ls-remote --heads` listing recovers every head's name, in order, none selected |
| GitRepository.CompactRemoteOfLines | src/git/repository.ts:184-192 | the heads' lines parse one by one to the heads' names, in order |
| GitRepository.RemoteLinesWithoutRefsAreDropped | src/git/repository.ts:185-186 | lines that never mention `refs/heads/` contribute no branch |
| GitRepository.GetRemoteName | src/git/repository.ts:130-134 | always present: the output up to its first newline (the whole output when it has none) |
| GitRepository.RepoNameFromAddress | src/git/repository.ts:246-250 | never absent |
| GitRepository.RepoNameStripsExtension | src/git/repository.ts:246-250 | the name of `.../base.ext` is `base`: the last `/`-segment without its final `.`-suffix (so `a.b.git` gives `a.b`) |
| GitRepository.RepoNameWithoutDot | src/git/repository.ts:249 | a last segment without `.` gives the empty name, not `undefined` |
| GitRepository.RepoIdFromAddressAndCwd | src/git/repository.ts:239-244 | always a repository, with the given address, the derived name and the path `cwd` joined with that name |
| GitRepository.RepoPathUnderCwd | src/git/repository.ts:239-244 | for `.../base.ext` the repository is named `base` and lives at `cwd/base` |
| GitRepository.ParentDirectoryOf | src/git/repository.ts:32 | `clone` runs in the directory that holds the checkout |
| GitRepository.FindByName | src/git/repository.ts:147 | the first branch with the name; none iff no branch has it |
| GitRepository.FindSelected | src/git/repository.ts:173 | the first selected branch; none iff no branch is selected |
| GitRepository.CheckoutDecision | src/git/repository.ts:140-157 | stay iff already on the branch and not forced (returning the current branch); switch only unforced to a listed branch of that name; create iff forced or neither current nor listed |
| GitRepository.PushDecision | src/git/repository.ts:53-60 | push iff remote and current branch exist, the main-name lookup succeeds and the current branch is not main; each refusal carries its own error; a pushed branch is never main |
| GitRepository.CloneOutcome | src/git/repository.ts:35-39 | an error iff the exit code fails, and then exactly `CloneError` of the repository |
| GitRepository.RemoveBranch | src/git/repository.ts:106-108 | `git branch -D` leaves every other branch and removes the named one |
| GitRepository.UpdateCommandsOf | src/git/repository.ts:80-94 | at most one checkout of the working branch, the rebase and, when the fallback runs, at most one checkout of main with the delete and the `checkout -b`, is the command shape of a successful update |
| GitRepository.UpdateShapeSummary | src/git/repository.ts:80-94 | a successful update without the fallback ends with the rebase after at most one checkout of the working branch; with it, it ends with the delete and `checkout -b` |
| GitRepository.Repository.CurrentBranch | src/git/repository.ts:210-216 | the cache when set; otherwise a selected branch of the listing, when there is one |
| GitRepository.Repository.CurrentIsCheckedOut | src/git/repository.ts:210-216 | while the cache, if set, names the checked-out branch, the current branch is the checked-out one |
| GitRepository.Repository.CurrentBranchFirstSelected | src/git/repository.ts:213-215 | without a cache, the first selected branch of the listing; none iff no branch is selected |
| GitRepository.Repository.MainBranchName | src/git/repository.ts:222-237 | a failing `gh repo view` is `GetMainBranchError` without cause; a parse or schema failure is one with that cause; success is the non-empty default-branch name |
| GitRepository.Repository.MainBranch | src/git/repository.ts:120-128 | a failed name lookup is passed on; otherwise the listed branch of that name, or `GetMainBranchError` when none is listed |
| GitRepository.Repository.ListingIsBranchOutput | src/git/repository.ts:195-204 | for a repository whose local branch names git accepts, the listing is what `getBranches` makes of the `git branch` output |
| GitRepository.Repository.SetCurrentBranch | src/git/repository.ts:218-220 | writes the cache and nothing else |
| GitRepository.Repository.CheckoutBranch | src/git/repository.ts:136-166 | staying issues no command and changes nothing; switching issues `git checkout`, moves HEAD on success and leaves the cache untouched; creating issues `git checkout -b` and on success adds the branch, moves HEAD and caches it selected; a failing exit code is `CheckoutError` with HEAD unchanged |
| GitRepository.Repository.GetSelectedBranch | src/git/repository.ts:168-179 | changes nothing, the cache included; the cache when set, otherwise the first selected branch of the listing, none iff no branch is selected |
| GitRepository.Repository.DeleteBranch | src/git/repository.ts:106-108 | issues `git branch -D`; removes the branch unless it is checked out; the failure is ignored |
| GitRepository.Repository.Clone | src/git/repository.ts:31-40 | issues `git clone <address>` in the parent directory; an error iff the exit code fails, and then `CloneError` |
| GitRepository.Repository.Commit | src/git/repository.ts:42-45 | stages and commits with the message; a failing commit is ignored; the checkout is unchanged |
| GitRepository.Repository.Push | src/git/repository.ts:47-63 | refuses with no command when the remote or current branch is missing, the main lookup fails or the current branch is main; otherwise stages and pushes the current branch, never main |
| GitRepository.Repository.UpdateBranchToLatestMain | src/git/repository.ts:73-104 | a failed main lookup is a `RebaseError` carrying it, with no command; after a successful lookup every failure is a checkout error or the main-branch guard; on ok the commands are at most one checkout of the working branch, the rebase onto `<remote>/<main>`, and, when the rebase failed or the branch is not on the remote, at most one checkout of main, the delete and the `checkout -b` of the working branch, which is then current, cached and not main; the main-branch guard stops right after the rebase; on ok the working branch is checked out when the cache agreed with the working copy or the working branch was already checked out; already on the working branch with no need for the fallback and the main branch known, the update succeeds and leaves cache, branches and checkout as they were |
| GitRepository.Repository.CheckoutExisting | src/git/repository.ts:80-81 | the unforced checkout of the working branch issues at most one checkout command and fails only with `CheckoutError`; per path of `checkoutBranch`: staying changes nothing, a switch leaves cache and branches alone and checks the branch out unless the checkout fails, a creation checks out, lists and caches the new branch unless it fails; on ok the branch is checked out when the cache agreed with the working copy or the branch was already checked out |
| GitRepository.Repository.RebaseOrRecreate | src/git/repository.ts:83-103 | the rebase is issued first; without need for the fallback the result is ok, nothing more is issued and cache, branches and checkout are unchanged; the main-branch guard fires before any checkout of main; the fallback fails only with checkout errors and on ok issues at most one checkout of main, then the delete and `checkout -b` of the working branch, which is then current |
| GitRepository.Repository.RecreateUnlessMain | src/git/repository.ts:85-100 | the main branch itself is refused with the main-branch error and no command; otherwise the fallback's guarantees |
| GitRepository.Repository.CheckoutAndRebase | src/git/repository.ts:78-103 | with both lookups done: every failure is a checkout error or the main-branch guard, and one without need for the fallback is the working-branch `CheckoutError`; on ok the command shape of a successful update; a recreated branch is current, cached and not main; on ok the working branch is checked out when the cache agreed with the working copy or it was already checked out; already on the working branch with no need for the fallback, the result is ok and the state other than the log is unchanged |
| GitRepository.Repository.RecreateWorkingBranch | src/git/repository.ts:89-100 | at most one checkout of main, then the delete and the `checkout -b` of the working branch; the checks at lines 97-99 never fail (its only errors are checkout errors); on ok the working branch is checked out, listed and cached |
| GitRepository.Repository.DeleteAndCreate | src/git/repository.ts:92-100 | with main checked out: exactly the delete and the `checkout -b` of the working branch on ok, which is then checked out, listed and cached; the checks after it never fail, so every error is a checkout error |
| GitRepository.Repository.ResetBranch | src/git/repository.ts:65-71 | stages, hard-resets and fetches, then on ok the commands of a successful update follow; a failure after a successful main lookup is a checkout error or the main-branch guard; on ok the working branch is checked out when the cache agreed or it was already checked out; already on it with no need for the fallback and the main branch known, the result is ok and cache, branches and checkout are unchanged |
| GitRepository.Repository.PrepareForUpdate | src/git/repository.ts:110-118 | on ok the result is the repository itself and the commands are at most one checkout of the working branch, then stage, hard reset and fetch, then those of a successful update; on ok a recreated working branch is checked out, cached and not main (`Reconciled`), and the working branch is checked out whenever the cache agreed with the working copy; already on the working branch with no need for the fallback and the main branch known, the result is ok and cache, branches and checkout are unchanged; a plain `GitError` means the working branch is the main branch; with the main branch known every failure is a checkout error or that guard |
| GitRepository.Repository.FromAddressAndCwd | src/git/repository.ts:239-244 | always a fresh repository with the derived identity, an empty cache and no commands |
| GitRepository.StaleCacheAfterSwitch | src/git/repository.ts:146-155 | after creating `feature` and checking `main` out again, the cache still reports `feature` while `main` is checked out |
| GitRepository.StaleCachePrepare | src/git/repository.ts:110-118 | from that stale cache, `prepareForUpdate("feature")` succeeds with `main` still checked out |
| CodemodConstants.LowercasedEntries | src/codemods/constants.ts:15 | each entry's key lowercased and its list turned into a set, in order |
| CodemodConstants.MappingContents | src/codemods/constants.ts:3-16 | the table is exactly the six lowercased entries with their extension sets |
| CodemodConstants.MappingKeys | src/codemods/constants.ts:7-16 | the keys are `typescript`, `ts`, `tsx`, `jsx`, `javascript`, `js` |
| CodemodConstants.MappingDistinct | src/codemods/constants.ts:7-16 | no key is listed twice |
| CodemodConstants.MappingLookup | src/codemods/constants.ts:7-16 | each entry is what its key selects |
| CodemodConstants.ExtensionsForTypeScript | src/codemods/constants.ts:3-4 | `TypeScript`, `typescript` and `ts` select `{.js,.cjs,.mjs,.ts,.mts}` |
| CodemodConstants.ExtensionsForJsx | src/codemods/constants.ts:5 | `Tsx` and `tsx` select `{.jsx,.tsx}`; `jsx` selects `{.jsx}` |
| CodemodConstants.ExtensionsForJavaScript | src/codemods/constants.ts:3 | `JavaScript`, `javascript` and `js` select `{.js,.cjs,.mjs}` |
| CodemodConstants.ExtensionsForUnmapped | src/codemods/utils.ts:48-49 | a language whose lower case is not a key selects nothing |
| CodemodConstants.ExtensionsForIgnoresCase | src/codemods/utils.ts:48 | the lookup does not depend on letter case |
| CodemodConstants.TypeScriptCoversJavaScript | src/codemods/constants.ts:3-4 | the JavaScript extensions are among the TypeScript ones; `.tsx` and `.jsx` are not |
| CodemodRunner.DefaultedHooks | src/codemods/utils.ts:104-110 | missing hooks default to an accept-all filter, an identity `postTransform` and a no-op `preCodemodRun`; given hooks are kept |
| CodemodRunner.DefaultedOptions | src/codemods/utils.ts:98-102 | logging defaults to on, dry mode to off, hooks to their defaults |
| CodemodRunner.ExtensionSetMembers | src/codemods/utils.ts:46-53 | an extension is in the set iff the table lists it for one of the declared languages; unmapped languages add nothing |
| CodemodRunner.ExtensionSetOfTypeScriptAndTsx | src/codemods/utils.ts:46-53 | a TypeScript-and-Tsx codemod targets the union of both extension sets |
| CodemodRunner.ExtName | src/codemods/utils.ts:60 | the extension is empty or one leading dot followed by no dot and no slash |
| CodemodRunner.ExtNameOfFile | src/codemods/utils.ts:60 | `dir/stem.ext` has extension `.ext` |
| CodemodRunner.TargetsMembers | src/codemods/utils.ts:54-61 | a glob item is a target iff the filter accepts it and the extension set is empty or holds its extension |
| CodemodRunner.TargetsConcat | src/codemods/utils.ts:54-61 | filtering distributes over concatenation, so glob order is kept |
| CodemodRunner.ProcessFile | src/codemods/utils.ts:71-93 | written iff the file reads, the transformer returns with changes, the run is not dry, `postTransform` returns and the write succeeds, and then the post-processed tree text is written; ok iff no step threw, with the transformer's modifications |
| CodemodRunner.ProcessTargetsShape | src/codemods/utils.ts:70-95 | one result per target, in order, each that file's own outcome; the writes are exactly the files' writes |
| CodemodRunner.RunCodemodWithoutTargets | src/codemods/utils.ts:62 | with no targets the run returns no result and writes nothing |
| CodemodRunner.RunCodemodPerTarget | src/codemods/utils.ts:38-96 | one result per target, in target order, a throw affecting only its own file |
| CodemodRunner.DryRunWritesNothing | src/codemods/utils.ts:78-80 | a dry run writes no file |
| CodemodRunner.RunCodemodIgnoresPreCodemodRun | src/codemods/utils.ts:104-110 | replacing `preCodemodRun` never changes a run: the hook is defaulted but not called |
| CodemodRunner.RunCodemods | src/codemods/utils.ts:24-36 | the loop builds the record of the codemods run in order over one glob listing; its keys are the distinct codemod names other than `__proto__` |
| CodemodRunner.RunAllKeys | src/codemods/utils.ts:30-33 | one key per distinct codemod name, except `__proto__`, which gets none |
| CodemodRunner.RunAllLastWins | src/codemods/utils.ts:31-32 | the last codemod's results are what its name reads, unless the name is `__proto__` |
| CodemodRunner.RunAllKeepsOthers | src/codemods/utils.ts:31-32 | a codemod leaves the results under other names as they were |
| CodemodRunner.RunAllLaterWins | src/codemods/utils.ts:31-32 | a name keeps the results of its last codemod, run on the files as the codemods before it left them; under `__proto__` nothing is kept |
| GitUtils.DedupeKeepsFirstOfEachName | src/git/utils.ts:60-74 | kept repositories have distinct names, every derived name is kept, and a repository is kept iff it comes from the first entry of its name |
| GitUtils.DedupeSkipsUnderived | src/git/utils.ts:66-67 | an entry that derives no repository changes nothing |
| GitUtils.DedupePrefix | src/git/utils.ts:65-71 | deduplicating a prefix of the input gives a prefix of the result |
| GitUtils.DedupeOrder | src/git/utils.ts:65-71 | a repository whose first entry is earlier is kept earlier |
| GitUtils.ExistingInMembers | src/git/utils.ts:41-46 | a repository is existing iff some entry derives it and its name is an `ls` line |
| GitUtils.ExistingAddresses | src/git/utils.ts:38-52 | an address counts as checked out iff it is an input address whose derived name is an `ls` line |
| GitUtils.CloneDecision | src/git/utils.ts:49-58 | an existing address is ok without cloning; otherwise the clone's outcome; an error iff not existing and the clone fails, and then `CloneError` |
| GitUtils.KeepClonedIsFilter | src/git/utils.ts:23-31 | a repository is kept iff it is deduped and its result is ok |
| GitUtils.KeepClonedSubsequence | src/git/utils.ts:23-31 | keeping distributes over splitting the list, so deduped order is kept |
| GitUtils.CloneRepositoriesKeeps | src/git/utils.ts:13-32 | the result is the deduped repositories that are already checked out at their address or whose clone succeeded |
| GitUtils.CloneRepositoriesDistinct | src/git/utils.ts:13-32 | the returned repositories have pairwise distinct names |
| Publisher.HasChangesIff | src/github/utils.ts:26-27 | the gate opens iff some result is ok with `hasChanges`; errors play no part |
| Publisher.NoChangesNoPullRequests | src/github/utils.ts:28-31 | with no change, only the "nothing transformed" line: no commit, push or pull request |
| Publisher.RoundCommands | src/github/utils.ts:35-36 | each round stages and commits with the codemod message, then pushes iff the push guards allow it |
| Publisher.RoundRequestsAfterPush | src/github/utils.ts:36-51 | a pull request is requested iff the push went through, in the repository directory with the commit message as title; a failed creation is reported "already pushed" |
| Publisher.MakePullRequest | src/github/utils.ts:56-58 | ok iff `gh pr create` returns |
| Publisher.PublishToRepository | src/github/utils.ts:34-52 | commit then push; the events are the round's events; the log gains the round's commands; the checkout is unchanged |
| Publisher.RoundsEventsConcat | src/github/utils.ts:33-53 | a returned push error or a failed pull request in one repository does not affect the others' rounds: rounds concatenate |
| Publisher.RoundsRequestPullRequests | src/github/utils.ts:33-53 | every pull request carries the commit message and belongs to a pushed repository, and each pushed repository gets one |
| Publisher.PublishRounds | src/github/utils.ts:33-53 | the repositories' rounds in list order; each log gains its round once per listing |
| Publisher.MakePullRequestsForCodemodResult | src/github/utils.ts:21-54 | closed gate: logs unchanged; open gate: every repository committed and push-attempted, events are the rounds'; checkouts never change |
| Publisher.FindCodemod | src/github/utils.ts:14 | the first codemod of that name; none iff no codemod has it |
| Publisher.PublishAllThrows | src/github/utils.ts:13-18 | throws iff some key names no codemod, and then the invariant message |
| Publisher.PublishAllStopsAtMissing | src/github/utils.ts:13-18 | entries after the first missing codemod are not processed |
| Publisher.PublishLogStops | src/github/utils.ts:13-15 | the logs stop growing exactly when some key names no codemod |
| Publisher.PublishLogStopsAtMissing | src/github/utils.ts:13-15 | entries from the first key without a codemod on add no command to any log |
| Publisher.PublishLogStep | src/github/utils.ts:13-17 | an entry whose codemod is found adds that codemod's round once per listing of the repository when its gate opens, and nothing when it is closed |
| Publisher.PublishEntry | src/github/utils.ts:17 | one found codemod: its events, and every log advances by that entry along `PublishLog` |
| Publisher.PublishStep | src/github/utils.ts:14-17 | one loop step: a key without a codemod throws the invariant message and ends the logs; otherwise the events and logs advance by that entry |
| Publisher.PublishEntries | src/github/utils.ts:13-18 | the loop over the entries: events and throw as `PublishAll` gives them, and every log its start followed by `PublishLog` |
| Publisher.MakePullRequestsForCodemodResults | src/github/utils.ts:8-19 | the entries processed sequentially in `Object.entries` order, stopping with the throw at a missing codemod; each repository's log is exactly its old log followed by, for every entry before the first missing codemod whose gate opens, that codemod's round once per listing of the repository; checkouts never change |
| Results.TryCatch | src/utils/results.ts:3-9 | a returned value is `ok` of it, a throw is `err` of what was thrown |
| Results.TryCatchFaithful | src/utils/results.ts:3-9 | the completion can be read back from the result |
| Results.GroupResults | src/utils/results.ts:15-26 | successes and failures together are as many as the results; empty input gives two empty lists |
| Results.GroupResultsPartition | src/utils/results.ts:15-26 | successes are the ok values and failures the errors, each in input order |
| Results.OkValuesMembership | src/utils/results.ts:20-22 | a value is a success iff some result is ok with it |
| Results.GroupResultsConcat | src/utils/results.ts:15-26 | grouping distributes over concatenation |
| Arrays.GroupBy | src/utils/arrays.ts:1-13 | throws iff some key is a property of `Object.prototype`, with the `push` TypeError; otherwise one group per distinct key holding exactly that key's elements in input order; none empty; sizes sum to the input length; every element is in its key's group; the array is only read |
| Arrays.GroupElements | src/utils/arrays.ts:3-12 | stops with the TypeError iff some key is inherited from `Object.prototype`; otherwise leaves the grouping of every element |
| Arrays.AddElement | src/utils/arrays.ts:4-10 | one step of the reduction keeps the grouping of the elements seen |
| Arrays.GroupNewKey | src/utils/arrays.ts:5-6 | a first element of its key opens a new group and keeps the grouping |
| Arrays.GroupExistingKey | src/utils/arrays.ts:7-8 | a later element of its key is appended to that group and keeps the grouping |
| Strings.Split | src/git/repository.ts:133 | `split` never returns an empty list; no piece holds the separator; joining the pieces gives the text back |
| Strings.SplitJoin | src/git/repository.ts:198 | splitting undoes a join of lines that hold no separator |
| Strings.SplitJoinEmptyRemoves | src/git/repository.ts:199 | `split('*').join('')` removes every `*` |
| Strings.ToLowerIdempotent | src/codemods/constants.ts:15 | lowercasing twice is lowercasing once |
| Strings.SecondPieceOfTail | src/git/repository.ts:188 | element `[1]` of a split is the text after the first separator up to the next one |
| Strings.SecondPieceFollowsFirst | src/git/repository.ts:188 | a non-empty element `[1]` follows the first separator and runs to the next one or the end |
| Strings.SecondPieceNonEmpty | src/git/repository.ts:189 | element `[1]` is non-empty when something other than the separator follows the first one |
| Records.AssignPreservesDistinct | src/codemods/utils.ts:32 | assignment never duplicates a key |
| Records.AssignGetSame | src/codemods/utils.ts:32 | after `r[k] = v` the own property `k` reads `v`, except under `__proto__`, which creates none |
| Records.AssignGetOther | src/codemods/utils.ts:32 | `r[k] = v` leaves every other key as it was |
| Records.EntriesPermutation | src/github/utils.ts:13 | `Object.entries` lists every own property once |
| Records.EntriesOrder | src/github/utils.ts:13 | `Object.entries` lists array-index keys first, in ascending numeric order, then the other keys exactly in creation order |
| Records.EntriesWithoutIndexKeys | src/github/utils.ts:13 | without array-index keys, `Object.entries` is creation order |

## Left out

- Running commands (`execa`) is not modelled. Each command's output, exit code or outcome is a field of `GitEnv` or an oracle parameter:
  - `gh pr create` is a function from directory and title to a completion.
  - `git clone`'s exit code is a function of the repository identity.
- Commands the code runs outside any try/catch and whose result it does not inspect are taken to return: `git add .` (src/git/repository.ts:43, :59 and :66), `git push` (:60), `git reset --hard` and `git fetch` (:67-68), `git remote`, `git branch`, `git ls-remote --heads` and `gh repo view`. In the source execa throws when one of them fails; a throw in a publishing round rejects the `Promise.all` of src/github/utils.ts:33 and with it `makePullRequestsForCodemodResults`. The model has no such path.
- The local branches a repository starts with are taken to have names git accepts (`Valid`, required by the constructor and `FromAddressAndCwd`), since git creates no others; `checkout -b` of any other name fails (`CreateFails`), so every method keeps `Valid`.
- ExtensionsFor: a codemod's languages are ast-grep `Lang` values, none of which is a property name of `Object.prototype`; for an arbitrary string that is one, the source would read the inherited value, which the model treats as unmapped.
- `Promise.all` concurrency in `runCodemod`, `cloneRepositories` and the publisher is not modelled. The items are processed one after the other in list order, and each item's outcome does not depend on the others.
- Console logging is not modelled. The exceptions are the publisher's lines, recorded as events, which mark which branch a repository took.
- The file system and globbing are not modelled. The glob listing is an input list, files are a map, and writes are a list applied after each codemod.
- The `path` module is not modelled. `extname`, `join` and `resolve` are plain string stand-ins (`ExtName`, `PathJoin`, `ResolvePath`), and Node's normalisation of `..`, `.` and absolute paths is not.
- `toLowerCase` is modelled on ASCII letters only.
- `JSON.parse` and the zod schema are not modelled. The default-branch lookup is an oracle that yields a non-empty name or a cause.
- `tryCatchAsync` is not modelled as a promise wrapper. Where it guards a command (commit, rebase, delete, `gh pr create`), the command's throw is an oracle outcome handled as `TryCatch` handles it.
- ast-grep is not modelled. The transformer is an opaque function returning `changesApplied` and the tree text.
- `mkdir -p` in `cloneRepositories` and the `tags` plumbing are not modelled: neither changes a result.
- The project-name invariant in the target filter (src/codemods/utils.ts:57-58) is left out, because a split always has a first piece.
- Git's own semantics of rebase, reset and fetch are not modelled. The model leaves branches and HEAD unchanged and only logs these commands; a failing `git branch -D` is modelled as git refusing to delete the checked-out branch.
- `Publisher.MakePullRequestsForCodemodResult`: logs are stated per repository object. A repository listed twice runs two rounds, so the count is stated with `Occurrences` rather than as one round per entry.
- `GitRepository.Repository.CheckoutExisting`: that the branch ends checked out is stated only when the cache agrees with the working copy or the branch was already checked out. With a stale cache the source returns the cached branch without a checkout (src/git/repository.ts:140-144), and so may the model.
- `GitRepository.Repository.RebaseOrRecreate`: no claim on the checkout is made beyond what it was before, since the rebase path issues no checkout.
- `GitRepository.Repository.CheckoutAndRebase`: a successful update with the working branch checked out is stated only when the cache agreed with the working copy or the working branch was checked out, for the reason given for `CheckoutExisting`.
- `GitRepository.Repository.ResetBranch`: the same condition on a stale cache applies.
- `GitRepository.Repository.PrepareForUpdate`: the working branch is stated to end checked out only when the cache agreed with the working copy. `StaleCachePrepare` shows a stale cache ending on `main`: the source returns ok, so the model does too.
- `GitRepository.Repository.UpdateBranchToLatestMain`: the checkout of the working branch is stated under the same condition on the cache. Also, a failing `git checkout main`, or a failing `checkout -b` of the working branch in the fallback, is stated as an error of kind `CheckoutFailed`, without naming which of the two checkouts failed. The exact log up to the failure is not stated.
