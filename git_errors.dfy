/** The git error taxonomy of src/git/errors.ts: a base `GitError` that records the
    repository it belongs to and an optional cause, and five kinds built on it,
    each with its own message. A class hierarchy there, one datatype here whose
    `kind` says which constructor built the value. */
module GitErrors {
  import opened Wrappers
  import opened Strings

  /** The readonly identity of a `Repository`: what an error records about it. */
  datatype RepoId = RepoId(name: string, address: string, path: string)

  datatype ErrorKind =
    | Generic        // `new GitError(message, repository)`
    | CloneFailed
    | CheckoutFailed
    | GetMainBranchFailed
    | PushFailed
    | RebaseFailed

  datatype GitError = GitError(kind: ErrorKind, message: string, repository: RepoId, cause: Option<Cause>)

  /** The `cause` option: another git error, or something thrown by a collaborator
      (a JSON or schema failure), kept as its description. */
  datatype Cause = GitCause(error: GitError) | Thrown(description: string)

  /** `new GitError(message, repository, options)`: the options' cause, absent without options. */
  function NewGitError(message: string, repository: RepoId, options: Option<Cause>): (e: GitError)
    ensures e.kind == Generic && e.message == message
    ensures e.repository == repository && e.cause == options
  {
    GitError(Generic, message, repository, options)
  }

  function CloneError(repository: RepoId): (e: GitError)
    ensures e.kind == CloneFailed && e.repository == repository && e.cause == None
    ensures StartsWith(e.message, "Git clone failed for ")
    ensures e.message[|"Git clone failed for "|..] == repository.address
  {
    var e := GitError(CloneFailed, "Git clone failed for " + repository.address, repository, None);
    assert e.message[..|"Git clone failed for "|] == "Git clone failed for ";
    e
  }

  function CheckoutError(repository: RepoId, branchName: string): (e: GitError)
    ensures e.kind == CheckoutFailed && e.repository == repository && e.cause == None
    ensures e.message == "Git checkout failed for " + repository.address + ", couldn't checkout to " + branchName
    ensures Occurs(e.message, repository.address) && Occurs(e.message, branchName)
  {
    var prefix := "Git checkout failed for ";
    var middle := ", couldn't checkout to ";
    var message := prefix + repository.address + middle + branchName;
    assert OccursAt(message, repository.address, |prefix|) by {
      assert message[|prefix|..|prefix| + |repository.address|] == repository.address;
    }
    assert OccursAt(message, branchName, |message| - |branchName|) by {
      assert message[|message| - |branchName|..] == branchName;
    }
    GitError(CheckoutFailed, message, repository, None)
  }

  function GetMainBranchError(repository: RepoId, options: Option<Cause>): (e: GitError)
    ensures e.kind == GetMainBranchFailed && e.repository == repository && e.cause == options
    ensures e.message == "Failed to get main branch for " + repository.address
  {
    GitError(GetMainBranchFailed, "Failed to get main branch for " + repository.address, repository, options)
  }

  function PushError(repository: RepoId, message: string, options: Option<Cause>): (e: GitError)
    ensures e.kind == PushFailed && e.repository == repository && e.cause == options
    ensures e.message == "Git push failed for " + repository.address + "; message: " + message
  {
    GitError(PushFailed, "Git push failed for " + repository.address + "; message: " + message, repository, options)
  }

  function RebaseError(repository: RepoId, options: Option<Cause>): (e: GitError)
    ensures e.kind == RebaseFailed && e.repository == repository && e.cause == options
    ensures e.message == "Git rebase failed for " + repository.address
  {
    GitError(RebaseFailed, "Git rebase failed for " + repository.address, repository, options)
  }

  /** Two checkout errors for one repository differ exactly when their branch names
      do. */
  lemma CheckoutErrorBranchRecoverable(repository: RepoId, b1: string, b2: string)
    ensures CheckoutError(repository, b1) == CheckoutError(repository, b2) <==> b1 == b2
  {
    var prefix := "Git checkout failed for " + repository.address + ", couldn't checkout to ";
    if CheckoutError(repository, b1) == CheckoutError(repository, b2) {
      assert (prefix + b1)[|prefix|..] == b1;
      assert (prefix + b2)[|prefix|..] == b2;
    }
  }

  /** Two push errors for one repository differ exactly when their detail messages
      do: the prefix never swallows the detail. */
  lemma PushErrorDetailRecoverable(repository: RepoId, m1: string, m2: string)
    ensures PushError(repository, m1, None) == PushError(repository, m2, None) <==> m1 == m2
  {
    var prefix := "Git push failed for " + repository.address + "; message: ";
    if PushError(repository, m1, None) == PushError(repository, m2, None) {
      assert (prefix + m1)[|prefix|..] == m1;
      assert (prefix + m2)[|prefix|..] == m2;
    }
  }
}
