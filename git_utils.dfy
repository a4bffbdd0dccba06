/** src/git/utils.ts: deciding which repositories to clone into a location. The
    input list is deduplicated by derived repository name, keeping the first entry
    of each name; the repositories already checked out are those whose name is a
    line of `ls` in the location; a repository already checked out at its address is
    skipped with `ok`, every other one is cloned; the repositories whose result is
    `ok` are returned in deduplicated order.

    `git clone`'s exit code is a parameter per repository identity, and `ls` is its
    output text. */
module GitUtils {
  import opened Wrappers
  import opened Strings
  import opened GitErrors
  import opened GitRepository

  /** An entry of the input list: the address (its tags are not modelled). */
  datatype RepositoryInput = RepositoryInput(address: string)

  /** `Repository.fromAddressAndCwd` under a fixed `cwd`, as a function of the
      address. The folds below are stated for any such function, which may also
      return `None`. */
  function FromAddressIn(cwd: string): string -> Option<RepoId> {
    address => RepoIdFromAddressAndCwd(address, cwd)
  }

  /** Entry `i` derives a repository. */
  predicate Derives(repos: seq<RepositoryInput>, fromAddress: string -> Option<RepoId>, i: nat)
    requires i < |repos|
  {
    fromAddress(repos[i].address).Some?
  }

  // ---------------------------------------------------------------------------
  // dedupeRepositoriesToClone

  /** The `reduce` accumulator: the kept repositories and their names. */
  datatype DedupeResult = DedupeResult(result: seq<RepoId>, names: seq<string>)

  /** One step of the `reduce`: skip an entry without a repository or whose name is
      already kept, otherwise append it and its name. */
  function DedupeStep(acc: DedupeResult, repo: RepositoryInput, fromAddress: string -> Option<RepoId>): DedupeResult {
    match fromAddress(repo.address)
    case None => acc
    case Some(repository) =>
      if repository.name in acc.names then acc
      else DedupeResult(acc.result + [repository], acc.names + [repository.name])
  }

  /** The `reduce` from the left over `repos`. */
  function DedupeFold(repos: seq<RepositoryInput>, fromAddress: string -> Option<RepoId>): DedupeResult {
    if repos == [] then DedupeResult([], [])
    else DedupeStep(DedupeFold(repos[..|repos| - 1], fromAddress), repos[|repos| - 1], fromAddress)
  }

  /** `dedupeRepositoriesToClone(repositories, cwd)`. */
  function DedupeRepositoriesToClone(repos: seq<RepositoryInput>, cwd: string): seq<RepoId> {
    DedupeFold(repos, FromAddressIn(cwd)).result
  }

  /** Entry `i` derives a repository and no earlier entry derives one of that name. */
  ghost predicate FirstOfName(repos: seq<RepositoryInput>, fromAddress: string -> Option<RepoId>, i: nat)
    requires i < |repos|
  {
    && Derives(repos, fromAddress, i)
    && forall j :: 0 <= j < i && Derives(repos, fromAddress, j) ==>
         fromAddress(repos[j].address).value.name != fromAddress(repos[i].address).value.name
  }

  /** The names of a list of repositories, pairwise distinct. */
  ghost predicate DistinctNames(rs: seq<RepoId>) {
    forall a, b :: 0 <= a < b < |rs| ==> rs[a].name != rs[b].name
  }

  /** What the `reduce` keeps at every step. */
  ghost predicate DedupeInvariant(acc: DedupeResult, repos: seq<RepositoryInput>, fromAddress: string -> Option<RepoId>) {
    && |acc.names| == |acc.result|
    && (forall k :: 0 <= k < |acc.result| ==> acc.names[k] == acc.result[k].name)
    && DistinctNames(acc.result)
    && (forall n :: n in acc.names <==>
          exists i :: 0 <= i < |repos| && Derives(repos, fromAddress, i) && fromAddress(repos[i].address).value.name == n)
    && (forall x :: x in acc.result <==>
          exists i :: 0 <= i < |repos| && FirstOfName(repos, fromAddress, i) && x == fromAddress(repos[i].address).value)
  }

  /** Extending the input keeps what holds of its prefix positions. */
  lemma PrefixPositions(repos: seq<RepositoryInput>, repo: RepositoryInput, fromAddress: string -> Option<RepoId>)
    ensures forall i :: 0 <= i < |repos| ==> (repos + [repo])[i] == repos[i]
    ensures forall i :: 0 <= i < |repos| ==>
      FirstOfName(repos + [repo], fromAddress, i) == FirstOfName(repos, fromAddress, i)
  {
    var all := repos + [repo];
    forall i | 0 <= i < |repos| ensures FirstOfName(all, fromAddress, i) == FirstOfName(repos, fromAddress, i) {
      assert forall j :: 0 <= j <= i ==> all[j] == repos[j];
      assert forall j :: 0 <= j <= i ==> Derives(all, fromAddress, j) == Derives(repos, fromAddress, j);
    }
  }

  lemma DedupeStepUnderived(acc: DedupeResult, repos: seq<RepositoryInput>, repo: RepositoryInput, fromAddress: string -> Option<RepoId>)
    requires DedupeInvariant(acc, repos, fromAddress) && fromAddress(repo.address).None?
    ensures DedupeStep(acc, repo, fromAddress) == acc
    ensures DedupeInvariant(acc, repos + [repo], fromAddress)
  {
    var all := repos + [repo];
    PrefixPositions(repos, repo, fromAddress);
    assert all[|repos|] == repo;
    assert !Derives(all, fromAddress, |repos|);
    forall n ensures n in acc.names <==>
        exists i :: 0 <= i < |all| && Derives(all, fromAddress, i) && fromAddress(all[i].address).value.name == n {
      if exists i :: 0 <= i < |all| && Derives(all, fromAddress, i) && fromAddress(all[i].address).value.name == n {
        var i :| 0 <= i < |all| && Derives(all, fromAddress, i) && fromAddress(all[i].address).value.name == n;
        assert i < |repos|;
      }
    }
    forall x ensures x in acc.result <==>
        exists i :: 0 <= i < |all| && FirstOfName(all, fromAddress, i) && x == fromAddress(all[i].address).value {
      if exists i :: 0 <= i < |all| && FirstOfName(all, fromAddress, i) && x == fromAddress(all[i].address).value {
        var i :| 0 <= i < |all| && FirstOfName(all, fromAddress, i) && x == fromAddress(all[i].address).value;
        assert i < |repos|;
      }
    }
  }

  lemma DedupeStepKnownName(acc: DedupeResult, repos: seq<RepositoryInput>, repo: RepositoryInput, fromAddress: string -> Option<RepoId>)
    requires DedupeInvariant(acc, repos, fromAddress) && fromAddress(repo.address).Some?
    requires fromAddress(repo.address).value.name in acc.names
    ensures DedupeStep(acc, repo, fromAddress) == acc
    ensures DedupeInvariant(acc, repos + [repo], fromAddress)
  {
    var all := repos + [repo];
    var name := fromAddress(repo.address).value.name;
    PrefixPositions(repos, repo, fromAddress);
    assert all[|repos|] == repo;
    var i0 :| 0 <= i0 < |repos| && Derives(repos, fromAddress, i0) && fromAddress(repos[i0].address).value.name == name;
    assert Derives(all, fromAddress, i0);
    assert !FirstOfName(all, fromAddress, |repos|);
    forall n ensures n in acc.names <==>
        exists i :: 0 <= i < |all| && Derives(all, fromAddress, i) && fromAddress(all[i].address).value.name == n {
      if exists i :: 0 <= i < |all| && Derives(all, fromAddress, i) && fromAddress(all[i].address).value.name == n {
        var i :| 0 <= i < |all| && Derives(all, fromAddress, i) && fromAddress(all[i].address).value.name == n;
        if i == |repos| { assert Derives(repos, fromAddress, i0); }
      }
      if n in acc.names {
        var i :| 0 <= i < |repos| && Derives(repos, fromAddress, i) && fromAddress(repos[i].address).value.name == n;
        assert Derives(all, fromAddress, i);
      }
    }
    forall x ensures x in acc.result <==>
        exists i :: 0 <= i < |all| && FirstOfName(all, fromAddress, i) && x == fromAddress(all[i].address).value {
      if exists i :: 0 <= i < |all| && FirstOfName(all, fromAddress, i) && x == fromAddress(all[i].address).value {
        var i :| 0 <= i < |all| && FirstOfName(all, fromAddress, i) && x == fromAddress(all[i].address).value;
        assert i < |repos|;
      }
    }
  }

  lemma DedupeStepNewName(acc: DedupeResult, repos: seq<RepositoryInput>, repo: RepositoryInput, fromAddress: string -> Option<RepoId>)
    requires DedupeInvariant(acc, repos, fromAddress) && fromAddress(repo.address).Some?
    requires fromAddress(repo.address).value.name !in acc.names
    ensures DedupeStep(acc, repo, fromAddress)
         == DedupeResult(acc.result + [fromAddress(repo.address).value], acc.names + [fromAddress(repo.address).value.name])
    ensures DedupeInvariant(DedupeStep(acc, repo, fromAddress), repos + [repo], fromAddress)
  {
    var all := repos + [repo];
    var id := fromAddress(repo.address).value;
    var next := DedupeStep(acc, repo, fromAddress);
    PrefixPositions(repos, repo, fromAddress);
    assert all[|repos|] == repo;
    assert FirstOfName(all, fromAddress, |repos|) by {
      forall j | 0 <= j < |repos| && Derives(all, fromAddress, j) ensures fromAddress(all[j].address).value.name != id.name {
        assert Derives(repos, fromAddress, j);
      }
    }
    forall k | 0 <= k < |acc.result| ensures acc.result[k].name != id.name {
      assert acc.names[k] in acc.names;
    }
    assert DistinctNames(next.result);
    forall n ensures n in next.names <==>
        exists i :: 0 <= i < |all| && Derives(all, fromAddress, i) && fromAddress(all[i].address).value.name == n {
      if exists i :: 0 <= i < |all| && Derives(all, fromAddress, i) && fromAddress(all[i].address).value.name == n {
        var i :| 0 <= i < |all| && Derives(all, fromAddress, i) && fromAddress(all[i].address).value.name == n;
        if i < |repos| { assert Derives(repos, fromAddress, i); }
      }
      if n in acc.names {
        var i :| 0 <= i < |repos| && Derives(repos, fromAddress, i) && fromAddress(repos[i].address).value.name == n;
        assert Derives(all, fromAddress, i);
      }
    }
    forall x ensures x in next.result <==>
        exists i :: 0 <= i < |all| && FirstOfName(all, fromAddress, i) && x == fromAddress(all[i].address).value {
      if x in acc.result {
        var i :| 0 <= i < |repos| && FirstOfName(repos, fromAddress, i) && x == fromAddress(repos[i].address).value;
        assert FirstOfName(all, fromAddress, i);
      }
    }
  }

  lemma {:induction false} DedupeFoldInvariant(repos: seq<RepositoryInput>, fromAddress: string -> Option<RepoId>)
    ensures DedupeInvariant(DedupeFold(repos, fromAddress), repos, fromAddress)
  {
    if repos != [] {
      var init, last := repos[..|repos| - 1], repos[|repos| - 1];
      assert repos == init + [last];
      DedupeFoldInvariant(init, fromAddress);
      var acc := DedupeFold(init, fromAddress);
      if fromAddress(last.address).None? {
        DedupeStepUnderived(acc, init, last, fromAddress);
      } else if fromAddress(last.address).value.name in acc.names {
        DedupeStepKnownName(acc, init, last, fromAddress);
      } else {
        DedupeStepNewName(acc, init, last, fromAddress);
      }
    }
  }

  /** An entry that derives no repository leaves the result as it was. */
  lemma DedupeSkipsUnderived(repos: seq<RepositoryInput>, repo: RepositoryInput, fromAddress: string -> Option<RepoId>)
    requires fromAddress(repo.address).None?
    ensures DedupeFold(repos + [repo], fromAddress) == DedupeFold(repos, fromAddress)
  {
    assert (repos + [repo])[..|repos|] == repos;
  }

  /** The kept repositories have pairwise distinct names; every derived name is
      among them; and a repository is kept exactly when it is the first entry of
      its name. */
  lemma DedupeKeepsFirstOfEachName(repos: seq<RepositoryInput>, fromAddress: string -> Option<RepoId>)
    ensures DistinctNames(DedupeFold(repos, fromAddress).result)
    ensures forall i :: 0 <= i < |repos| && Derives(repos, fromAddress, i) ==>
      fromAddress(repos[i].address).value.name in NamesOf(DedupeFold(repos, fromAddress).result)
    ensures forall x :: x in DedupeFold(repos, fromAddress).result <==>
      exists i :: 0 <= i < |repos| && FirstOfName(repos, fromAddress, i) && x == fromAddress(repos[i].address).value
  {
    DedupeFoldInvariant(repos, fromAddress);
    var acc := DedupeFold(repos, fromAddress);
    assert NamesOf(acc.result) == acc.names;
  }

  /** The names of a list of repositories. */
  function NamesOf(rs: seq<RepoId>): (r: seq<string>)
    ensures |r| == |rs| && forall k :: 0 <= k < |rs| ==> r[k] == rs[k].name
  {
    seq(|rs|, k requires 0 <= k < |rs| => rs[k].name)
  }

  /** Deduplicating a prefix gives a prefix: kept repositories stay in input order. */
  lemma {:induction false} DedupePrefix(repos: seq<RepositoryInput>, fromAddress: string -> Option<RepoId>, n: nat)
    requires n <= |repos|
    ensures var short := DedupeFold(repos[..n], fromAddress).result;
      |short| <= |DedupeFold(repos, fromAddress).result| && DedupeFold(repos, fromAddress).result[..|short|] == short
  {
    if n < |repos| {
      var init := repos[..|repos| - 1];
      assert init[..n] == repos[..n];
      DedupePrefix(init, fromAddress, n);
    } else {
      assert repos[..n] == repos;
    }
  }

  lemma FirstOfNameInPrefix(repos: seq<RepositoryInput>, fromAddress: string -> Option<RepoId>, n: nat, i: nat)
    requires i < n <= |repos|
    ensures repos[..n][i] == repos[i]
    ensures FirstOfName(repos[..n], fromAddress, i) == FirstOfName(repos, fromAddress, i)
  {
    var pre := repos[..n];
    assert forall j :: 0 <= j <= i ==> pre[j] == repos[j];
    assert forall j :: 0 <= j <= i ==> Derives(pre, fromAddress, j) == Derives(repos, fromAddress, j);
  }

  /** The first entry of a name after position `n` is not kept from the first `n`. */
  lemma NotKeptBefore(repos: seq<RepositoryInput>, fromAddress: string -> Option<RepoId>, n: nat, j: nat)
    requires n <= j < |repos| && FirstOfName(repos, fromAddress, j)
    ensures fromAddress(repos[j].address).value !in DedupeFold(repos[..n], fromAddress).result
  {
    var pre := repos[..n];
    var idJ := fromAddress(repos[j].address).value;
    DedupeKeepsFirstOfEachName(pre, fromAddress);
    if idJ in DedupeFold(pre, fromAddress).result {
      var q :| 0 <= q < |pre| && FirstOfName(pre, fromAddress, q) && idJ == fromAddress(pre[q].address).value;
      FirstOfNameInPrefix(repos, fromAddress, n, q);
      assert false;
    }
  }

  /** A repository whose first entry comes before another's is kept before it. */
  lemma DedupeOrder(repos: seq<RepositoryInput>, fromAddress: string -> Option<RepoId>, i: nat, j: nat)
    requires i < j < |repos| && FirstOfName(repos, fromAddress, i) && FirstOfName(repos, fromAddress, j)
    ensures var r := DedupeFold(repos, fromAddress).result;
      exists a, b :: 0 <= a < b < |r| && r[a] == fromAddress(repos[i].address).value && r[b] == fromAddress(repos[j].address).value
  {
    var all := DedupeFold(repos, fromAddress).result;
    var short := DedupeFold(repos[..i + 1], fromAddress).result;
    var idI, idJ := fromAddress(repos[i].address).value, fromAddress(repos[j].address).value;
    DedupePrefix(repos, fromAddress, i + 1);
    DedupeKeepsFirstOfEachName(repos[..i + 1], fromAddress);
    DedupeKeepsFirstOfEachName(repos, fromAddress);
    FirstOfNameInPrefix(repos, fromAddress, i + 1, i);
    assert idI in short;
    var a :| 0 <= a < |short| && short[a] == idI;
    assert all[a] == short[a];
    assert idJ in all;
    var b :| 0 <= b < |all| && all[b] == idJ;
    NotKeptBefore(repos, fromAddress, i + 1, j);
    if b < |short| {
      assert false;
    }
  }

  // ---------------------------------------------------------------------------
  // getExistingRepositories

  /** The `compactMap`: each entry's repository whose name is among `lines`, in input order. */
  function ExistingIn(repos: seq<RepositoryInput>, fromAddress: string -> Option<RepoId>, lines: seq<string>): (r: seq<RepoId>)
    ensures |r| <= |repos|
  {
    if repos == [] then []
    else
      var rest := ExistingIn(repos[1..], fromAddress, lines);
      match fromAddress(repos[0].address)
      case None => rest
      case Some(repository) =>
        if repository.name in lines then [repository] + rest else rest
  }

  /** `getExistingRepositories`: the input repositories, under the directory `ls`
      ran in, whose names are lines of its output. */
  function GetExistingRepositories(repos: seq<RepositoryInput>, lsStdout: string, lsCwd: string): seq<RepoId> {
    ExistingIn(repos, FromAddressIn(lsCwd), Split(lsStdout, "\n"))
  }

  /** A repository is among the existing ones exactly when some entry derives it and
      its name is one of the lines. */
  lemma {:induction false} ExistingInMembers(repos: seq<RepositoryInput>, fromAddress: string -> Option<RepoId>, lines: seq<string>, x: RepoId)
    ensures x in ExistingIn(repos, fromAddress, lines) <==>
      exists i :: 0 <= i < |repos| && fromAddress(repos[i].address) == Some(x) && x.name in lines
  {
    if repos != [] {
      var tail := repos[1..];
      ExistingInMembers(tail, fromAddress, lines, x);
      if exists i :: 0 <= i < |tail| && fromAddress(tail[i].address) == Some(x) && x.name in lines {
        var i :| 0 <= i < |tail| && fromAddress(tail[i].address) == Some(x) && x.name in lines;
        assert repos[i + 1] == tail[i];
      }
      if exists i :: 0 <= i < |repos| && fromAddress(repos[i].address) == Some(x) && x.name in lines {
        var i :| 0 <= i < |repos| && fromAddress(repos[i].address) == Some(x) && x.name in lines;
        if i > 0 { assert tail[i - 1] == repos[i]; }
      }
    }
  }

  // ---------------------------------------------------------------------------
  // cloneRepositoryInternal and cloneRepositories

  /** The addresses of the existing repositories. */
  function Addresses(rs: seq<RepoId>): (r: set<string>)
    ensures forall a :: a in r <==> exists k :: 0 <= k < |rs| && rs[k].address == a
  {
    set k | 0 <= k < |rs| :: rs[k].address
  }

  /** `cloneRepositoryInternal(existing)(repository)`: `ok` without cloning when the
      address is already checked out, otherwise the outcome of `git clone`. */
  function CloneDecision(existingAddresses: set<string>, repository: RepoId, cloneCode: ExitCode): (r: Result<(), GitError>)
    ensures repository.address in existingAddresses ==> r.Ok?
    ensures r.Err? <==> repository.address !in existingAddresses && Failed(cloneCode)
    ensures r.Err? ==> r.error == CloneError(repository)
  {
    if repository.address in existingAddresses then Ok(())
    else CloneOutcome(repository, cloneCode)
  }

  /** The `compactMap` over the results: the repositories whose result is `ok`. */
  function KeepCloned(deduped: seq<RepoId>, results: seq<Result<(), GitError>>): seq<RepoId>
    requires |results| == |deduped|
  {
    if deduped == [] then []
    else (if results[0].Ok? then [deduped[0]] else []) + KeepCloned(deduped[1..], results[1..])
  }

  /** `cloneRepositories(repositories, location)`, with `ls` printing `lsStdout` and
      `git clone` of a repository exiting with `cloneCode` of it. */
  function CloneRepositories(repos: seq<RepositoryInput>, location: string, lsStdout: string,
                             cloneCode: RepoId -> ExitCode): seq<RepoId>
  {
    var deduped := DedupeRepositoriesToClone(repos, location);
    var existing := Addresses(GetExistingRepositories(repos, lsStdout, location));
    var results := seq(|deduped|, k requires 0 <= k < |deduped| => CloneDecision(existing, deduped[k], cloneCode(deduped[k])));
    KeepCloned(deduped, results)
  }

  lemma {:induction false} KeepClonedIsFilter(deduped: seq<RepoId>, results: seq<Result<(), GitError>>, x: RepoId)
    requires |results| == |deduped|
    ensures x in KeepCloned(deduped, results) <==> exists k :: 0 <= k < |deduped| && deduped[k] == x && results[k].Ok?
  {
    if deduped != [] {
      KeepClonedIsFilter(deduped[1..], results[1..], x);
      if exists k :: 0 <= k < |deduped[1..]| && deduped[1..][k] == x && results[1..][k].Ok? {
        var k :| 0 <= k < |deduped[1..]| && deduped[1..][k] == x && results[1..][k].Ok?;
        assert deduped[k + 1] == x && results[k + 1].Ok?;
      }
      if exists k :: 0 <= k < |deduped| && deduped[k] == x && results[k].Ok? {
        var k :| 0 <= k < |deduped| && deduped[k] == x && results[k].Ok?;
        if k > 0 { assert deduped[1..][k - 1] == x && results[1..][k - 1].Ok?; }
      }
    }
  }

  /** The filter keeps the relative order: it is a subsequence of its input. */
  lemma {:induction false} KeepClonedSubsequence(deduped: seq<RepoId>, results: seq<Result<(), GitError>>, n: nat)
    requires |results| == |deduped| && n <= |deduped|
    ensures KeepCloned(deduped, results) ==
      KeepCloned(deduped[..n], results[..n]) + KeepCloned(deduped[n..], results[n..])
  {
    if n > 0 {
      assert deduped[1..][..n - 1] == deduped[1..n] && results[1..][..n - 1] == results[1..n];
      assert deduped[1..][n - 1..] == deduped[n..] && results[1..][n - 1..] == results[n..];
      KeepClonedSubsequence(deduped[1..], results[1..], n - 1);
      assert deduped[..n][1..] == deduped[1..n] && results[..n][1..] == results[1..n];
    } else {
      assert deduped[..0] == [] && deduped[0..] == deduped && results[0..] == results;
    }
  }

  /** `cloneRepositories` returns the deduplicated repositories that are already
      checked out at their address or whose clone succeeded: a deduplicated
      repository is dropped exactly when it is not checked out and its clone fails. */
  lemma CloneRepositoriesKeeps(repos: seq<RepositoryInput>, location: string, lsStdout: string,
                               cloneCode: RepoId -> ExitCode, x: RepoId)
    ensures x in CloneRepositories(repos, location, lsStdout, cloneCode) <==>
      x in DedupeRepositoriesToClone(repos, location) &&
      (x.address in Addresses(GetExistingRepositories(repos, lsStdout, location)) || !Failed(cloneCode(x)))
  {
    var deduped := DedupeRepositoriesToClone(repos, location);
    var existing := Addresses(GetExistingRepositories(repos, lsStdout, location));
    var results := seq(|deduped|, k requires 0 <= k < |deduped| => CloneDecision(existing, deduped[k], cloneCode(deduped[k])));
    KeepClonedIsFilter(deduped, results, x);
  }

  /** Under a fixed `cwd` every address derives a repository, named after the address. */
  lemma FromAddressInDerives(cwd: string, address: string)
    ensures FromAddressIn(cwd)(address).Some?
    ensures FromAddressIn(cwd)(address).value == RepoId(RepoNameFromAddress(address).value, address,
                                                         ResolvePath(cwd, RepoNameFromAddress(address).value))
  {
  }

  /** An address counts as checked out exactly when an input entry has that address
      and the name derived from it is a line of `ls`. */
  lemma ExistingAddresses(repos: seq<RepositoryInput>, lsStdout: string, location: string, a: string)
    ensures a in Addresses(GetExistingRepositories(repos, lsStdout, location)) <==>
      (exists i :: 0 <= i < |repos| && repos[i].address == a) && RepoNameFromAddress(a).value in Split(lsStdout, "\n")
  {
    var existing := GetExistingRepositories(repos, lsStdout, location);
    var lines := Split(lsStdout, "\n");
    if a in Addresses(existing) {
      var k :| 0 <= k < |existing| && existing[k].address == a;
      ExistingInMembers(repos, FromAddressIn(location), lines, existing[k]);
    }
    if (exists i :: 0 <= i < |repos| && repos[i].address == a) && RepoNameFromAddress(a).value in lines {
      var i :| 0 <= i < |repos| && repos[i].address == a;
      FromAddressInDerives(location, a);
      var x := FromAddressIn(location)(a).value;
      ExistingInMembers(repos, FromAddressIn(location), lines, x);
      var k :| 0 <= k < |existing| && existing[k] == x;
    }
  }

  /** The returned repositories keep deduplicated order and distinct names. */
  lemma CloneRepositoriesDistinct(repos: seq<RepositoryInput>, location: string, lsStdout: string,
                                  cloneCode: RepoId -> ExitCode)
    ensures DistinctNames(CloneRepositories(repos, location, lsStdout, cloneCode))
  {
    var deduped := DedupeRepositoriesToClone(repos, location);
    var existing := Addresses(GetExistingRepositories(repos, lsStdout, location));
    var results := seq(|deduped|, k requires 0 <= k < |deduped| => CloneDecision(existing, deduped[k], cloneCode(deduped[k])));
    DedupeKeepsFirstOfEachName(repos, FromAddressIn(location));
    KeepClonedDistinct(deduped, results);
  }

  lemma {:induction false} KeepClonedDistinct(deduped: seq<RepoId>, results: seq<Result<(), GitError>>)
    requires |results| == |deduped| && DistinctNames(deduped)
    ensures DistinctNames(KeepCloned(deduped, results))
  {
    if deduped != [] {
      var rest := KeepCloned(deduped[1..], results[1..]);
      assert DistinctNames(deduped[1..]) by {
        forall a, b | 0 <= a < b < |deduped[1..]| ensures deduped[1..][a].name != deduped[1..][b].name {
          assert deduped[1..][a] == deduped[a + 1] && deduped[1..][b] == deduped[b + 1];
        }
      }
      KeepClonedDistinct(deduped[1..], results[1..]);
      forall b | 0 <= b < |rest| ensures rest[b].name != deduped[0].name {
        KeepClonedIsFilter(deduped[1..], results[1..], rest[b]);
        var k :| 0 <= k < |deduped[1..]| && deduped[1..][k] == rest[b] && results[1..][k].Ok?;
        assert deduped[k + 1] == rest[b];
      }
      var r := KeepCloned(deduped, results);
      if results[0].Ok? {
        forall a, b | 0 <= a < b < |r| ensures r[a].name != r[b].name {
          if a == 0 { assert r[b] == rest[b - 1]; } else { assert r[a] == rest[a - 1] && r[b] == rest[b - 1]; }
        }
      }
    }
  }
}
