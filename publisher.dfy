/** src/github/utils.ts: publishing codemod results. For each codemod's result list
    that holds a successful result with changes, every repository commits with the
    codemod's commit message and pushes; a pull request titled with that message is
    requested only after a successful push, and its failure is reported and
    tolerated. The result record is walked in `Object.entries` order and a key
    naming no known codemod throws.

    Committing and pushing are the `Repository` methods; `gh pr create` is an oracle
    from working directory and title to what it prints or throws. The console lines
    that mark which branch a repository took are recorded as events. */
module Publisher {
  import opened Wrappers
  import opened Records
  import opened Results
  import opened GitErrors
  import opened GitRepository

  /** What a successful codemod run on one file reports. */
  datatype CodemodOkResult = CodemodOkResult(hasChanges: bool, content: string)

  /** The fields of a codemod the publisher reads. */
  datatype RunnerCodemod = RunnerCodemod(name: string, commitMessage: string)

  /** One codemod's results; an error is its message. */
  type CodemodResult = seq<Result<CodemodOkResult, string>>

  const MissingCodemodMessage: string := "Invariant found codemod should be present"

  /** What the publisher does besides changing the repositories. */
  datatype Event =
    | NothingTransformed(codemodName: string)
    | PushFailureReported(message: string)
    | PullRequestRequested(workingDirectory: string, title: string)
    | PullRequestCreated(stdout: string)
    | AlreadyPushedReported(address: string)

  // ---------------------------------------------------------------------------
  // The gate

  /** `success.some(result => result.hasChanges)`. */
  function AnyHasChanges(success: seq<CodemodOkResult>): bool {
    if success == [] then false else success[0].hasChanges || AnyHasChanges(success[1..])
  }

  /** The gate of `makePullRequestsForCodemodResult`. */
  function HasChanges(results: CodemodResult): bool {
    AnyHasChanges(GroupResults(results).success)
  }

  lemma {:induction false} AnyHasChangesIff(success: seq<CodemodOkResult>)
    ensures AnyHasChanges(success) <==> exists i :: 0 <= i < |success| && success[i].hasChanges
  {
    if success != [] {
      AnyHasChangesIff(success[1..]);
      if exists i :: 0 <= i < |success[1..]| && success[1..][i].hasChanges {
        var i :| 0 <= i < |success[1..]| && success[1..][i].hasChanges;
        assert success[i + 1] == success[1..][i];
      }
      if exists i :: 0 <= i < |success| && success[i].hasChanges {
        var i :| 0 <= i < |success| && success[i].hasChanges;
        if i > 0 { assert success[1..][i - 1] == success[i]; }
      }
    }
  }

  /** The gate opens exactly when some result is `ok` with changes; `err` results
      play no part. */
  lemma HasChangesIff(results: CodemodResult)
    ensures HasChanges(results) <==> exists i :: 0 <= i < |results| && results[i].Ok? && results[i].value.hasChanges
  {
    var success := GroupResults(results).success;
    GroupResultsPartition(results);
    AnyHasChangesIff(success);
    if exists j :: 0 <= j < |success| && success[j].hasChanges {
      var j :| 0 <= j < |success| && success[j].hasChanges;
      OkValuesMembership(results, success[j]);
    }
    if exists i :: 0 <= i < |results| && results[i].Ok? && results[i].value.hasChanges {
      var i :| 0 <= i < |results| && results[i].Ok? && results[i].value.hasChanges;
      OkValuesMembership(results, results[i].value);
      var j :| 0 <= j < |success| && success[j] == results[i].value;
    }
  }

  // ---------------------------------------------------------------------------
  // One repository's round

  /** What publishing needs of a repository: its identity and what its `push`
      decides. Committing and pushing leave both as they were. */
  datatype Target = Target(id: RepoId, push: Result<(string, string), GitError>)

  ghost function TargetOf(r: Repository): Target
    reads r
  {
    Target(r.Id(), PushDecision(r.Id(), r.RemoteName(), r.CurrentBranch(), r.MainBranchName()))
  }

  /** The checkout state of a repository, which committing and pushing leave alone. */
  ghost function Checkout(r: Repository): (Option<Branch>, seq<string>, Option<string>)
    reads r
  {
    (r.currentBranch, r.locals, r.head)
  }

  ghost function TargetsOf(rs: seq<Repository>): (ts: seq<Target>)
    reads rs
    ensures |ts| == |rs|
    ensures forall k :: 0 <= k < |rs| ==> ts[k] == TargetOf(rs[k])
  {
    if rs == [] then [] else TargetsOf(rs[..|rs| - 1]) + [TargetOf(rs[|rs| - 1])]
  }

  /** The commands one round adds to a repository's log: the commit, then the push
      when `push` allows it. */
  function RoundCommands(message: string, push: Result<(string, string), GitError>): (cs: seq<Command>)
    ensures |cs| >= 2 && cs[..2] == [GitAdd, GitCommit(message)]
    ensures |cs| == 4 <==> push.Ok?
    ensures push.Ok? ==> cs[3] == GitPush(push.value.0, push.value.1)
    ensures push.Err? ==> |cs| == 2
  {
    [GitAdd, GitCommit(message)] + (if push.Ok? then [GitAdd, GitPush(push.value.0, push.value.1)] else [])
  }

  /** The events of one repository's round. */
  function RoundEvents(t: Target, title: string, ghPrCreate: (string, string) -> Completion<string>): seq<Event> {
    if t.push.Err? then [PushFailureReported(t.push.error.message)]
    else
      [PullRequestRequested(t.id.path, title)] +
      (match TryCatch(ghPrCreate(t.id.path, title))
       case Ok(stdout) => [PullRequestCreated(stdout)]
       case Err(_) => [AlreadyPushedReported(t.id.address)])
  }

  /** A pull request is requested exactly when the push went through, in the
      repository's directory and titled with the commit message; its failure is
      reported as already pushed. */
  lemma RoundRequestsAfterPush(t: Target, title: string, ghPrCreate: (string, string) -> Completion<string>)
    ensures (exists e :: e in RoundEvents(t, title, ghPrCreate) && e.PullRequestRequested?) <==> t.push.Ok?
    ensures t.push.Ok? ==> RoundEvents(t, title, ghPrCreate)[0] == PullRequestRequested(t.id.path, title)
    ensures t.push.Ok? && ghPrCreate(t.id.path, title).Thrown? ==>
      RoundEvents(t, title, ghPrCreate) == [PullRequestRequested(t.id.path, title), AlreadyPushedReported(t.id.address)]
    ensures t.push.Err? ==> RoundEvents(t, title, ghPrCreate) == [PushFailureReported(t.push.error.message)]
  {
    if t.push.Ok? {
      assert RoundEvents(t, title, ghPrCreate)[0] in RoundEvents(t, title, ghPrCreate);
    }
  }

  /** `makePullRequest`: `gh pr create --title <title> --fill` in the directory,
      a throw becoming `err`. */
  function MakePullRequest(workingDirectory: string, title: string, ghPrCreate: (string, string) -> Completion<string>): (r: Result<string, string>)
    ensures r.Ok? <==> ghPrCreate(workingDirectory, title).Normal?
  {
    TryCatch(ghPrCreate(workingDirectory, title))
  }

  /** The callback for one repository: commit, push, and on a successful push
      request the pull request. */
  method PublishToRepository(repository: Repository, codemod: RunnerCodemod,
                             ghPrCreate: (string, string) -> Completion<string>)
    returns (events: seq<Event>)
    modifies repository
    ensures events == RoundEvents(old(TargetOf(repository)), codemod.commitMessage, ghPrCreate)
    ensures repository.log == old(repository.log) + RoundCommands(codemod.commitMessage, old(TargetOf(repository)).push)
    ensures repository.currentBranch == old(repository.currentBranch)
    ensures repository.locals == old(repository.locals) && repository.head == old(repository.head)
  {
    repository.Commit(codemod.commitMessage);
    var pushResult := repository.Push();
    if pushResult.Err? {
      events := [PushFailureReported(pushResult.error.message)];
      return;
    }
    events := [PullRequestRequested(repository.path, codemod.commitMessage)];
    var pullRequestResult := MakePullRequest(repository.path, codemod.commitMessage, ghPrCreate);
    if pullRequestResult.Err? {
      events := events + [AlreadyPushedReported(repository.address)];
      return;
    }
    events := events + [PullRequestCreated(pullRequestResult.value)];
  }

  // ---------------------------------------------------------------------------
  // One codemod

  /** The rounds of the repositories, in list order. */
  function RoundsEvents(targets: seq<Target>, title: string, ghPrCreate: (string, string) -> Completion<string>): seq<Event> {
    if targets == [] then []
    else RoundsEvents(targets[..|targets| - 1], title, ghPrCreate) + RoundEvents(targets[|targets| - 1], title, ghPrCreate)
  }

  /** What `makePullRequestsForCodemodResult` does with a result list. */
  function CodemodEvents(codemod: RunnerCodemod, results: CodemodResult, targets: seq<Target>,
                         ghPrCreate: (string, string) -> Completion<string>): seq<Event> {
    if !HasChanges(results) then [NothingTransformed(codemod.name)]
    else RoundsEvents(targets, codemod.commitMessage, ghPrCreate)
  }

  /** A round more is its events appended. */
  lemma RoundsEventsStep(targets: seq<Target>, i: nat, title: string, ghPrCreate: (string, string) -> Completion<string>)
    requires i < |targets|
    ensures RoundsEvents(targets[..i + 1], title, ghPrCreate) ==
            RoundsEvents(targets[..i], title, ghPrCreate) + RoundEvents(targets[i], title, ghPrCreate)
  {
    assert targets[..i + 1][..i] == targets[..i];
  }

  /** `cs` repeated `n` times. */
  function Repeat(cs: seq<Command>, n: nat): seq<Command> {
    if n == 0 then [] else Repeat(cs, n - 1) + cs
  }

  /** Each repository runs its own round whatever the others' outcomes, a failed
      push or pull request included: the rounds concatenate. */
  lemma {:induction false} RoundsEventsConcat(a: seq<Target>, b: seq<Target>, title: string,
                                              ghPrCreate: (string, string) -> Completion<string>)
    ensures RoundsEvents(a + b, title, ghPrCreate) == RoundsEvents(a, title, ghPrCreate) + RoundsEvents(b, title, ghPrCreate)
    decreases |b|
  {
    if b != [] {
      assert (a + b)[..|a + b| - 1] == a + b[..|b| - 1];
      RoundsEventsConcat(a, b[..|b| - 1], title, ghPrCreate);
    } else {
      assert a + b == a;
    }
  }

  /** Every pull request is titled with the commit message and is requested in the
      directory of a repository whose push went through; and every such repository
      gets one. */
  lemma {:induction false} RoundsRequestPullRequests(targets: seq<Target>, title: string,
                                                     ghPrCreate: (string, string) -> Completion<string>)
    ensures forall e :: e in RoundsEvents(targets, title, ghPrCreate) && e.PullRequestRequested? ==>
      e.title == title && exists k :: 0 <= k < |targets| && targets[k].push.Ok? && targets[k].id.path == e.workingDirectory
    ensures forall k :: 0 <= k < |targets| && targets[k].push.Ok? ==>
      PullRequestRequested(targets[k].id.path, title) in RoundsEvents(targets, title, ghPrCreate)
  {
    if targets != [] {
      var init, last := targets[..|targets| - 1], targets[|targets| - 1];
      RoundsRequestPullRequests(init, title, ghPrCreate);
      RoundRequestsAfterPush(last, title, ghPrCreate);
      var all := RoundsEvents(targets, title, ghPrCreate);
      assert all == RoundsEvents(init, title, ghPrCreate) + RoundEvents(last, title, ghPrCreate);
      forall e | e in all && e.PullRequestRequested?
        ensures e.title == title && exists k :: 0 <= k < |targets| && targets[k].push.Ok? && targets[k].id.path == e.workingDirectory
      {
        if e in RoundsEvents(init, title, ghPrCreate) {
          var k :| 0 <= k < |init| && init[k].push.Ok? && init[k].id.path == e.workingDirectory;
          assert targets[k] == init[k];
        } else {
          assert e in RoundEvents(last, title, ghPrCreate);
          assert e == PullRequestRequested(last.id.path, title);
          assert targets[|targets| - 1] == last;
        }
      }
      forall k | 0 <= k < |targets| && targets[k].push.Ok?
        ensures PullRequestRequested(targets[k].id.path, title) in all
      {
        if k < |init| {
          assert targets[k] == init[k];
        } else {
          assert RoundEvents(last, title, ghPrCreate)[0] == PullRequestRequested(targets[k].id.path, title);
        }
      }
    }
  }

  /** With no change among the results only the "nothing transformed" line is
      produced: no repository is committed, pushed or asked for a pull request. */
  lemma NoChangesNoPullRequests(codemod: RunnerCodemod, results: CodemodResult, targets: seq<Target>,
                                ghPrCreate: (string, string) -> Completion<string>)
    requires forall i :: 0 <= i < |results| && results[i].Ok? ==> !results[i].value.hasChanges
    ensures CodemodEvents(codemod, results, targets, ghPrCreate) == [NothingTransformed(codemod.name)]
  {
    HasChangesIff(results);
  }

  lemma LogStep(log: seq<Command>, base: seq<Command>, cs: seq<Command>, n: nat)
    requires log == base + Repeat(cs, n)
    ensures log + cs == base + Repeat(cs, n + 1)
  {
  }

  /** How often `r` is listed in `rs`. */
  function Occurrences(rs: seq<Repository>, r: Repository): nat {
    if rs == [] then 0 else Occurrences(rs[..|rs| - 1], r) + (if rs[|rs| - 1] == r then 1 else 0)
  }

  lemma {:induction false} OccurrencesPositive(rs: seq<Repository>, r: Repository)
    requires r in rs
    ensures Occurrences(rs, r) > 0
    decreases |rs|
  {
    if rs[|rs| - 1] != r {
      assert r in rs[..|rs| - 1];
      OccurrencesPositive(rs[..|rs| - 1], r);
    }
  }

  /** Committing and pushing leave what publishing depends on as it was. */
  twostate lemma TargetStable(r: Repository)
    requires Checkout(r) == old(Checkout(r))
    ensures TargetOf(r) == old(TargetOf(r))
  {
  }

  twostate lemma TargetsStable(rs: seq<Repository>)
    requires forall r :: r in rs ==> Checkout(r) == old(Checkout(r))
    ensures TargetsOf(rs) == old(TargetsOf(rs))
  {
    forall k | 0 <= k < |rs| ensures TargetsOf(rs)[k] == old(TargetsOf(rs))[k] {
      assert rs[k] in rs;
      TargetStable(rs[k]);
    }
  }

  /** The rounds of `makePullRequestsForCodemodResult`, each repository in list
      order; a repository listed `n` times runs its round `n` times. */
  method PublishRounds(codemod: RunnerCodemod, repositories: seq<Repository>,
                       ghPrCreate: (string, string) -> Completion<string>,
                       ghost logs: map<Repository, seq<Command>>, ghost rounds: map<Repository, seq<Command>>)
    returns (events: seq<Event>)
    requires forall r :: r in repositories ==>
      r in logs && r in rounds && logs[r] == r.log && rounds[r] == RoundCommands(codemod.commitMessage, TargetOf(r).push)
    modifies repositories
    ensures events == RoundsEvents(old(TargetsOf(repositories)), codemod.commitMessage, ghPrCreate)
    ensures forall r :: r in repositories ==> r.log == logs[r] + Repeat(rounds[r], Occurrences(repositories, r))
    ensures forall r :: r in repositories ==> Checkout(r) == old(Checkout(r))
  {
    ghost var targets := TargetsOf(repositories);
    events := [];
    for i := 0 to |repositories|
      invariant events == RoundsEvents(targets[..i], codemod.commitMessage, ghPrCreate)
      invariant forall r :: r in repositories ==> Checkout(r) == old(Checkout(r))
      invariant forall r :: r in repositories ==>
        r.log == logs[r] + Repeat(rounds[r], Occurrences(repositories[..i], r))
    {
      TargetStable(repositories[i]);
      var e := PublishRound(codemod, repositories, i, ghPrCreate, logs, rounds);
      RoundsEventsStep(targets, i, codemod.commitMessage, ghPrCreate);
      events := events + e;
    }
    assert repositories[..|repositories|] == repositories;
    assert targets[..|repositories|] == targets;
  }

  /** One round on `rs[i]`, which appends its commands to its log and leaves the
      other logs alone, moves every log one occurrence further. */
  lemma LogsAfterRound(rs: seq<Repository>, i: nat, logs: map<Repository, seq<Command>>,
                       rounds: map<Repository, seq<Command>>,
                       before: map<Repository, seq<Command>>, after: map<Repository, seq<Command>>)
    requires i < |rs| && forall r :: r in rs ==> r in logs && r in rounds && r in before && r in after
    requires forall r :: r in rs ==> before[r] == logs[r] + Repeat(rounds[r], Occurrences(rs[..i], r))
    requires after[rs[i]] == before[rs[i]] + rounds[rs[i]]
    requires forall r :: r in rs && r != rs[i] ==> after[r] == before[r]
    ensures forall r :: r in rs ==> after[r] == logs[r] + Repeat(rounds[r], Occurrences(rs[..i + 1], r))
  {
    assert rs[..i + 1][..i] == rs[..i];
    forall r | r in rs ensures after[r] == logs[r] + Repeat(rounds[r], Occurrences(rs[..i + 1], r)) {
      var n := Occurrences(rs[..i], r);
      if r == rs[i] {
        assert Occurrences(rs[..i + 1], r) == n + 1;
        LogStep(before[r], logs[r], rounds[r], n);
      } else {
        assert Occurrences(rs[..i + 1], r) == n;
      }
    }
  }

  /** The round of the `i`-th repository in the list: its log moves one occurrence
      further, every other log stays. */
  method PublishRound(codemod: RunnerCodemod, repositories: seq<Repository>, i: nat,
                      ghPrCreate: (string, string) -> Completion<string>,
                      ghost logs: map<Repository, seq<Command>>, ghost rounds: map<Repository, seq<Command>>)
    returns (events: seq<Event>)
    requires i < |repositories| && forall r :: r in repositories ==> r in logs && r in rounds
    requires rounds[repositories[i]] == RoundCommands(codemod.commitMessage, TargetOf(repositories[i]).push)
    requires forall r :: r in repositories ==> r.log == logs[r] + Repeat(rounds[r], Occurrences(repositories[..i], r))
    modifies repositories[i]
    ensures events == RoundEvents(old(TargetOf(repositories[i])), codemod.commitMessage, ghPrCreate)
    ensures forall r :: r in repositories ==> r.log == logs[r] + Repeat(rounds[r], Occurrences(repositories[..i + 1], r))
    ensures forall r :: r in repositories ==> Checkout(r) == old(Checkout(r))
  {
    ghost var before := map r | r in repositories :: r.log;
    events := PublishToRepository(repositories[i], codemod, ghPrCreate);
    ghost var after := map r | r in repositories :: r.log;
    LogsAfterRound(repositories, i, logs, rounds, before, after);
  }

  /** `makePullRequestsForCodemodResult`: nothing but the "nothing transformed" line
      when the gate is closed; otherwise the rounds of all repositories. */
  method MakePullRequestsForCodemodResult(codemod: RunnerCodemod, results: CodemodResult, repositories: seq<Repository>,
                                          ghPrCreate: (string, string) -> Completion<string>)
    returns (events: seq<Event>)
    modifies repositories
    ensures events == CodemodEvents(codemod, results, old(TargetsOf(repositories)), ghPrCreate)
    ensures !HasChanges(results) ==> forall r :: r in repositories ==> r.log == old(r.log)
    ensures HasChanges(results) ==> forall r :: r in repositories ==>
      r.log == old(r.log) + Repeat(RoundCommands(codemod.commitMessage, old(TargetOf(r)).push), Occurrences(repositories, r))
    ensures forall r :: r in repositories ==> Checkout(r) == old(Checkout(r))
    ensures forall r :: r in repositories ==> Extends(r.log, old(r.log))
    ensures TargetsOf(repositories) == old(TargetsOf(repositories))
  {
    if !HasChanges(results) {
      events := [NothingTransformed(codemod.name)];
      return;
    }
    ghost var logs := map r | r in repositories :: r.log;
    ghost var rounds := map r | r in repositories :: RoundCommands(codemod.commitMessage, TargetOf(r).push);
    events := PublishRounds(codemod, repositories, ghPrCreate, logs, rounds);
    TargetsStable(repositories);
    forall r | r in repositories ensures Extends(r.log, old(r.log)) {
      assert r.log[..|old(r.log)|] == old(r.log);
    }
  }

  // ---------------------------------------------------------------------------
  // All codemods

  /** `codemods.find(c => c.name === name)`: the first codemod of that name. */
  function FindCodemod(codemods: seq<RunnerCodemod>, name: string): (r: Option<RunnerCodemod>)
    ensures r.None? <==> forall i :: 0 <= i < |codemods| ==> codemods[i].name != name
    ensures r.Some? ==> r.value.name == name && r.value in codemods
    ensures forall k :: 0 <= k < |codemods| && codemods[k].name == name && (forall j :: 0 <= j < k ==> codemods[j].name != name) ==> r == Some(codemods[k])
  {
    if codemods == [] then None
    else if codemods[0].name == name then Some(codemods[0])
    else
      var rest := FindCodemod(codemods[1..], name);
      assert forall i :: 0 < i < |codemods| ==> codemods[i] == codemods[1..][i - 1];
      rest
  }

  /** What `makePullRequestsForCodemodResults` does with the entries of the result
      record, in order: the events, and what it throws. It stops at the first key
      without a codemod. */
  function PublishAll(codemods: seq<RunnerCodemod>, entries: Record<CodemodResult>, targets: seq<Target>,
                      ghPrCreate: (string, string) -> Completion<string>): (seq<Event>, Option<string>)
  {
    if entries == [] then ([], None)
    else
      var before := PublishAll(codemods, entries[..|entries| - 1], targets, ghPrCreate);
      var entry := entries[|entries| - 1];
      if before.1.Some? then before
      else
        match FindCodemod(codemods, entry.0)
        case None => (before.0, Some(MissingCodemodMessage))
        case Some(codemod) => (before.0 + CodemodEvents(codemod, entry.1, targets, ghPrCreate), None)
  }

  /** Some entry's key names no codemod. */
  ghost predicate AnyMissing(codemods: seq<RunnerCodemod>, entries: Record<CodemodResult>) {
    exists i :: 0 <= i < |entries| && FindCodemod(codemods, entries[i].0).None?
  }

  lemma AnyMissingSnoc(codemods: seq<RunnerCodemod>, entries: Record<CodemodResult>)
    requires entries != []
    ensures AnyMissing(codemods, entries) <==>
      AnyMissing(codemods, entries[..|entries| - 1]) || FindCodemod(codemods, entries[|entries| - 1].0).None?
  {
    var init := entries[..|entries| - 1];
    if AnyMissing(codemods, init) {
      var i :| 0 <= i < |init| && FindCodemod(codemods, init[i].0).None?;
      assert entries[i] == init[i];
    }
    if AnyMissing(codemods, entries) {
      var i :| 0 <= i < |entries| && FindCodemod(codemods, entries[i].0).None?;
      if i < |init| { assert init[i] == entries[i]; }
    }
  }

  /** The run throws exactly when some key names no codemod, and then throws the
      invariant message. A push that returns an error and a failed `gh pr create`
      are logged, not thrown; `git add`/`git commit` and the push command itself
      run outside any catch and are taken to return here. */
  lemma {:induction false} PublishAllThrows(codemods: seq<RunnerCodemod>, entries: Record<CodemodResult>, targets: seq<Target>,
                                            ghPrCreate: (string, string) -> Completion<string>)
    ensures PublishAll(codemods, entries, targets, ghPrCreate).1.Some? <==> AnyMissing(codemods, entries)
    ensures PublishAll(codemods, entries, targets, ghPrCreate).1.Some? ==>
      PublishAll(codemods, entries, targets, ghPrCreate).1 == Some(MissingCodemodMessage)
  {
    if entries != [] {
      PublishAllThrows(codemods, entries[..|entries| - 1], targets, ghPrCreate);
      AnyMissingSnoc(codemods, entries);
    }
  }

  /** Entries after a throw are not processed: the events are those of the entries
      before the first key without a codemod. */
  lemma {:induction false} PublishAllStopsAtMissing(codemods: seq<RunnerCodemod>, entries: Record<CodemodResult>, targets: seq<Target>,
                                                    ghPrCreate: (string, string) -> Completion<string>, i: nat)
    requires i < |entries| && FindCodemod(codemods, entries[i].0).None?
    requires !AnyMissing(codemods, entries[..i])
    ensures PublishAll(codemods, entries, targets, ghPrCreate) ==
      (PublishAll(codemods, entries[..i], targets, ghPrCreate).0, Some(MissingCodemodMessage))
  {
    var init := entries[..|entries| - 1];
    if i == |entries| - 1 {
      PublishAllThrows(codemods, init, targets, ghPrCreate);
    } else {
      assert init[i] == entries[i] && init[..i] == entries[..i];
      PublishAllStopsAtMissing(codemods, init, targets, ghPrCreate, i);
    }
  }

  /** One more entry whose codemod is found adds that codemod's events. */
  lemma PublishAllStep(codemods: seq<RunnerCodemod>, entries: Record<CodemodResult>, targets: seq<Target>,
                       ghPrCreate: (string, string) -> Completion<string>, i: nat)
    requires i < |entries| && FindCodemod(codemods, entries[i].0).Some?
    requires PublishAll(codemods, entries[..i], targets, ghPrCreate).1.None?
    ensures PublishAll(codemods, entries[..i + 1], targets, ghPrCreate) ==
      (PublishAll(codemods, entries[..i], targets, ghPrCreate).0
         + CodemodEvents(FindCodemod(codemods, entries[i].0).value, entries[i].1, targets, ghPrCreate), None)
  {
    assert entries[..i + 1][..i] == entries[..i];
  }

  /** A key without a codemod ends the run with the invariant message. */
  lemma PublishAllMissingHere(codemods: seq<RunnerCodemod>, entries: Record<CodemodResult>, targets: seq<Target>,
                              ghPrCreate: (string, string) -> Completion<string>, i: nat)
    requires i < |entries| && FindCodemod(codemods, entries[i].0).None?
    requires PublishAll(codemods, entries[..i], targets, ghPrCreate).1.None?
    ensures PublishAll(codemods, entries, targets, ghPrCreate) ==
      (PublishAll(codemods, entries[..i], targets, ghPrCreate).0, Some(MissingCodemodMessage))
  {
    PublishAllThrows(codemods, entries[..i], targets, ghPrCreate);
    PublishAllStopsAtMissing(codemods, entries, targets, ghPrCreate, i);
  }

  /** The commands `makePullRequestsForCodemodResults` adds to the log of a
      repository whose push decision is `push` and which is listed `n` times, and
      whether the run has stopped: for each entry up to the first key without a
      codemod, that codemod's round `n` times when its gate opens. */
  function PublishLog(codemods: seq<RunnerCodemod>, entries: Record<CodemodResult>,
                      push: Result<(string, string), GitError>, n: nat): (seq<Command>, bool)
  {
    if entries == [] then ([], false)
    else
      var before := PublishLog(codemods, entries[..|entries| - 1], push, n);
      var entry := entries[|entries| - 1];
      if before.1 then before
      else
        match FindCodemod(codemods, entry.0)
        case None => (before.0, true)
        case Some(codemod) =>
          (before.0 + (if HasChanges(entry.1) then Repeat(RoundCommands(codemod.commitMessage, push), n) else []), false)
  }

  /** The logs stop growing exactly when some key names no codemod, as the run
      throws. */
  lemma {:induction false} PublishLogStops(codemods: seq<RunnerCodemod>, entries: Record<CodemodResult>,
                                           push: Result<(string, string), GitError>, n: nat)
    ensures PublishLog(codemods, entries, push, n).1 <==> AnyMissing(codemods, entries)
  {
    if entries != [] {
      PublishLogStops(codemods, entries[..|entries| - 1], push, n);
      AnyMissingSnoc(codemods, entries);
    }
  }

  /** Entries from the first key without a codemod on add nothing to any log. */
  lemma {:induction false} PublishLogStopsAtMissing(codemods: seq<RunnerCodemod>, entries: Record<CodemodResult>,
                                                    push: Result<(string, string), GitError>, n: nat, i: nat)
    requires i < |entries| && FindCodemod(codemods, entries[i].0).None?
    requires !PublishLog(codemods, entries[..i], push, n).1
    ensures PublishLog(codemods, entries, push, n) == (PublishLog(codemods, entries[..i], push, n).0, true)
  {
    var init := entries[..|entries| - 1];
    if i == |entries| - 1 {
      assert init == entries[..i];
    } else {
      assert init[i] == entries[i] && init[..i] == entries[..i];
      PublishLogStopsAtMissing(codemods, init, push, n, i);
    }
  }

  /** One more entry, with the run not stopped before it, whose codemod is found. */
  lemma PublishLogStep(codemods: seq<RunnerCodemod>, entries: Record<CodemodResult>,
                       push: Result<(string, string), GitError>, n: nat, i: nat, codemod: RunnerCodemod)
    requires i < |entries| && FindCodemod(codemods, entries[i].0) == Some(codemod)
    requires !PublishLog(codemods, entries[..i], push, n).1
    ensures PublishLog(codemods, entries[..i + 1], push, n) == (PublishLog(codemods, entries[..i], push, n).0
      + (if HasChanges(entries[i].1) then Repeat(RoundCommands(codemod.commitMessage, push), n) else []), false)
  {
    assert entries[..i + 1][..i] == entries[..i];
  }

  lemma LogsExtend(repositories: seq<Repository>, starts: map<Repository, seq<Command>>,
                   ends: map<Repository, seq<Command>>, pushes: map<Repository, Result<(string, string), GitError>>,
                   codemods: seq<RunnerCodemod>, entries: Record<CodemodResult>)
    requires forall r :: r in repositories ==> (r in starts && r in ends && r in pushes &&
      ends[r] == starts[r] + PublishLog(codemods, entries, pushes[r], Occurrences(repositories, r)).0)
    ensures forall r :: r in repositories ==> Extends(ends[r], starts[r])
  {
    forall r | r in repositories ensures Extends(ends[r], starts[r]) {
      assert ends[r][..|starts[r]|] == starts[r];
    }
  }

  // Associativity of `+` on logs, stated once: written inline in PublishEntries it costs the solver far more.
  lemma AppendAssociative(a: seq<Command>, b: seq<Command>, c: seq<Command>)
    ensures a + b + c == a + (b + c)
  {
  }

  /** Every repository's log is its log at `starts` followed by what publishing
      `entries` adds to it. */
  ghost predicate LogsFollow(repositories: seq<Repository>, starts: map<Repository, seq<Command>>,
                             pushes: map<Repository, Result<(string, string), GitError>>,
                             codemods: seq<RunnerCodemod>, entries: Record<CodemodResult>)
    reads repositories
  {
    forall r :: r in repositories ==> (r in starts && r in pushes &&
      r.log == starts[r] + PublishLog(codemods, entries, pushes[r], Occurrences(repositories, r)).0)
  }

  lemma LogsFollowStart(repositories: seq<Repository>, starts: map<Repository, seq<Command>>,
                        pushes: map<Repository, Result<(string, string), GitError>>,
                        codemods: seq<RunnerCodemod>, entries: Record<CodemodResult>)
    requires entries == []
    requires forall r :: r in repositories ==> r in starts && r in pushes && r.log == starts[r]
    ensures LogsFollow(repositories, starts, pushes, codemods, entries)
  {
    forall r | r in repositories
      ensures r.log == starts[r] + PublishLog(codemods, entries, pushes[r], Occurrences(repositories, r)).0
    {
      assert starts[r] + [] == starts[r];
    }
  }

  /** The logs stop where a key names no codemod. */
  lemma LogsAtMissing(codemods: seq<RunnerCodemod>, entries: Record<CodemodResult>, i: nat, repositories: seq<Repository>,
                      starts: map<Repository, seq<Command>>, pushes: map<Repository, Result<(string, string), GitError>>)
    requires i < |entries| && FindCodemod(codemods, entries[i].0).None?
    requires !AnyMissing(codemods, entries[..i])
    requires forall r :: r in repositories ==> (r in starts && r in pushes &&
      r.log == starts[r] + PublishLog(codemods, entries[..i], pushes[r], Occurrences(repositories, r)).0)
    ensures forall r :: r in repositories ==>
      r.log == starts[r] + PublishLog(codemods, entries, pushes[r], Occurrences(repositories, r)).0
  {
    forall r | r in repositories
      ensures r.log == starts[r] + PublishLog(codemods, entries, pushes[r], Occurrences(repositories, r)).0
    {
      PublishLogStops(codemods, entries[..i], pushes[r], Occurrences(repositories, r));
      PublishLogStopsAtMissing(codemods, entries, pushes[r], Occurrences(repositories, r), i);
    }
  }

  /** One entry whose codemod is found, with no key missing before it: its
      `makePullRequestsForCodemodResult`, the logs advancing along `PublishLog`. */
  method PublishEntry(codemods: seq<RunnerCodemod>, entries: Record<CodemodResult>, i: nat, codemod: RunnerCodemod,
                      repositories: seq<Repository>, ghPrCreate: (string, string) -> Completion<string>,
                      ghost starts: map<Repository, seq<Command>>,
                      ghost pushes: map<Repository, Result<(string, string), GitError>>)
    returns (events: seq<Event>)
    requires i < |entries| && FindCodemod(codemods, entries[i].0) == Some(codemod)
    requires !AnyMissing(codemods, entries[..i])
    requires forall r :: r in repositories ==> (r in starts && r in pushes && TargetOf(r).push == pushes[r] &&
      r.log == starts[r] + PublishLog(codemods, entries[..i], pushes[r], Occurrences(repositories, r)).0)
    modifies repositories
    ensures events == CodemodEvents(codemod, entries[i].1, old(TargetsOf(repositories)), ghPrCreate)
    ensures forall r :: r in repositories ==>
      r.log == starts[r] + PublishLog(codemods, entries[..i + 1], pushes[r], Occurrences(repositories, r)).0
    ensures forall r :: r in repositories ==> Checkout(r) == old(Checkout(r))
    ensures TargetsOf(repositories) == old(TargetsOf(repositories))
  {
    ghost var before := map r | r in repositories :: r.log;
    events := MakePullRequestsForCodemodResult(codemod, entries[i].1, repositories, ghPrCreate);
    forall r | r in repositories
      ensures r.log == starts[r] + PublishLog(codemods, entries[..i + 1], pushes[r], Occurrences(repositories, r)).0
    {
      var n := Occurrences(repositories, r);
      var done := PublishLog(codemods, entries[..i], pushes[r], n).0;
      var round := if HasChanges(entries[i].1) then Repeat(RoundCommands(codemod.commitMessage, pushes[r]), n) else [];
      assert before[r] == starts[r] + done && old(TargetOf(r)).push == pushes[r];
      assert r.log == before[r] + round;
      PublishLogStops(codemods, entries[..i], pushes[r], n);
      PublishLogStep(codemods, entries, pushes[r], n, i, codemod);
      AppendAssociative(starts[r], done, round);
    }
  }

  /** One entry of `makePullRequestsForCodemodResults`' loop, with no key missing
      before it: the codemod's `makePullRequestsForCodemodResult` when its key names
      one, the throw otherwise. */
  method PublishStep(codemods: seq<RunnerCodemod>, entries: Record<CodemodResult>, i: nat,
                     repositories: seq<Repository>, ghPrCreate: (string, string) -> Completion<string>,
                     events: seq<Event>, ghost targets: seq<Target>, ghost starts: map<Repository, seq<Command>>,
                     ghost pushes: map<Repository, Result<(string, string), GitError>>)
    returns (events': seq<Event>, thrown: Option<string>)
    requires i < |entries|
    requires (events, None) == PublishAll(codemods, entries[..i], targets, ghPrCreate)
    requires !AnyMissing(codemods, entries[..i])
    requires TargetsOf(repositories) == targets
    requires forall r :: r in repositories ==> r in pushes && TargetOf(r).push == pushes[r]
    requires LogsFollow(repositories, starts, pushes, codemods, entries[..i])
    modifies repositories
    ensures thrown.None? ==> (events', thrown) == PublishAll(codemods, entries[..i + 1], targets, ghPrCreate)
    ensures thrown.None? ==> !AnyMissing(codemods, entries[..i + 1])
    ensures thrown.None? ==> LogsFollow(repositories, starts, pushes, codemods, entries[..i + 1])
    ensures thrown.Some? ==> (events', thrown) == PublishAll(codemods, entries, targets, ghPrCreate)
    ensures thrown.Some? ==> LogsFollow(repositories, starts, pushes, codemods, entries)
    ensures forall r :: r in repositories ==> Checkout(r) == old(Checkout(r))
    ensures TargetsOf(repositories) == targets
  {
    var (codemodName, codemodResult) := entries[i];
    var codemod := FindCodemod(codemods, codemodName);
    if codemod.None? {
      events', thrown := events, Some(MissingCodemodMessage);
      PublishAllMissingHere(codemods, entries, targets, ghPrCreate, i);
      LogsAtMissing(codemods, entries, i, repositories, starts, pushes);
      return;
    }
    var e := PublishEntry(codemods, entries, i, codemod.value, repositories, ghPrCreate, starts, pushes);
    PublishAllStep(codemods, entries, targets, ghPrCreate, i);
    PublishAllThrows(codemods, entries[..i + 1], targets, ghPrCreate);
    events', thrown := events + e, None;
  }

  /** The loop of `makePullRequestsForCodemodResults` over `entries`: each entry in
      turn, stopping with the throw at the first key without a codemod. */
  method PublishEntries(codemods: seq<RunnerCodemod>, entries: Record<CodemodResult>, repositories: seq<Repository>,
                        ghPrCreate: (string, string) -> Completion<string>, ghost targets: seq<Target>,
                        ghost starts: map<Repository, seq<Command>>,
                        ghost pushes: map<Repository, Result<(string, string), GitError>>)
    returns (events: seq<Event>, thrown: Option<string>)
    requires TargetsOf(repositories) == targets
    requires forall r :: r in repositories ==>
      r in starts && r in pushes && r.log == starts[r] && TargetOf(r).push == pushes[r]
    modifies repositories
    ensures (events, thrown) == PublishAll(codemods, entries, targets, ghPrCreate)
    ensures LogsFollow(repositories, starts, pushes, codemods, entries)
    ensures forall r :: r in repositories ==> Checkout(r) == old(Checkout(r))
  {
    events, thrown := [], None;
    assert entries[..0] == [];
    LogsFollowStart(repositories, starts, pushes, codemods, entries[..0]);
    for i := 0 to |entries|
      invariant (events, thrown) == PublishAll(codemods, entries[..i], targets, ghPrCreate)
      invariant thrown.None? && !AnyMissing(codemods, entries[..i])
      invariant TargetsOf(repositories) == targets
      invariant LogsFollow(repositories, starts, pushes, codemods, entries[..i])
      invariant forall r :: r in repositories ==> Checkout(r) == old(Checkout(r))
    {
      forall r | r in repositories ensures TargetOf(r).push == pushes[r] {
        TargetStable(r);
      }
      events, thrown := PublishStep(codemods, entries, i, repositories, ghPrCreate, events, targets, starts, pushes);
      if thrown.Some? {
        return;
      }
    }
    assert entries[..|entries|] == entries;
  }

  /** `makePullRequestsForCodemodResults`: each entry of the result record in the
      order `Object.entries` lists them (array-index names first, ascending, then
      the others in creation order), sequentially; a key without a codemod throws
      the invariant message. */
  method MakePullRequestsForCodemodResults(codemods: seq<RunnerCodemod>, codemodResults: Record<CodemodResult>,
                                           repositories: seq<Repository>,
                                           ghPrCreate: (string, string) -> Completion<string>)
    returns (events: seq<Event>, thrown: Option<string>)
    modifies repositories
    ensures (events, thrown) == PublishAll(codemods, Entries(codemodResults), old(TargetsOf(repositories)), ghPrCreate)
    ensures forall r :: r in repositories ==>
      r.log == old(r.log) + PublishLog(codemods, Entries(codemodResults), old(TargetOf(r)).push, Occurrences(repositories, r)).0
    ensures forall r :: r in repositories ==> Extends(r.log, old(r.log))
    ensures forall r :: r in repositories ==> Checkout(r) == old(Checkout(r))
  {
    ghost var targets := TargetsOf(repositories);
    ghost var starts := map r | r in repositories :: r.log;
    ghost var pushes := map r | r in repositories :: TargetOf(r).push;
    var entries := Entries(codemodResults);
    events, thrown := PublishEntries(codemods, entries, repositories, ghPrCreate, targets, starts, pushes);
    ghost var ends := map r | r in repositories :: r.log;
    LogsExtend(repositories, starts, ends, pushes, codemods, entries);
  }
}
