/** src/git/repository.ts: one git working copy. The text parsers over the stdout
    of `git branch`, `git ls-remote --heads` and `git remote`, the repository name
    derived from an address, and the `Repository` class, whose branch operations
    run ordered git command sequences with early returns and keep a cached
    current branch.

    The shell is replaced by an abstract environment: the class keeps the local
    branches and the checked-out branch (from which `git branch` output is
    rendered), constant stdout for `git remote` and `git ls-remote --heads`,
    and oracles for exit codes, for the rebase and for the default-branch
    lookup. Every command that changes the working copy is appended to `log`. */
module GitRepository {
  import opened Wrappers
  import opened Strings
  import opened GitErrors

  /** src/git/branch.ts: a snapshot of one branch. */
  datatype Branch = Branch(name: string, isSelected: bool)

  const RefsHeads: string := "refs/heads/"
  const MainBranchMessage: string := "Checked out branch is main branch"

  // ---------------------------------------------------------------------------
  // Parsers

  /** One line of `git branch`: every `*` removed, then trimmed; selected iff the
      line starts with `*`. */
  function BranchOfLine(line: string): (b: Branch)
    ensures b.name == Trim(Without(line, '*'))
    ensures b.isSelected <==> StartsWith(line, "*")
  {
    SplitJoinEmptyRemoves(line, '*');
    Branch(Trim(Join(Split(line, "*"), "")), StartsWith(line, "*"))
  }

  /** `getBranches`: one branch per line of the `git branch` output. */
  function GetBranches(stdout: string): (r: seq<Branch>)
    ensures |r| == |Split(stdout, "\n")|
    ensures forall i :: 0 <= i < |r| ==>
      r[i].name == Trim(Without(Split(stdout, "\n")[i], '*')) &&
      (r[i].isSelected <==> StartsWith(Split(stdout, "\n")[i], "*"))
  {
    var lines := Split(stdout, "\n");
    seq(|lines|, i requires 0 <= i < |lines| => BranchOfLine(lines[i]))
  }

  /** One line of `git ls-remote --heads`: kept only when it contains `refs/heads/`;
      named by the second piece of the trimmed line split on `refs/heads/`, which is
      the text from just after the first `refs/heads/` up to the next one or the end;
      an empty name drops the line. */
  function RemoteBranchOfLine(line: string): (r: Option<Branch>)
    ensures !Contains(line, RefsHeads) ==> r.None?
    ensures r.Some? ==> !r.value.isSelected && Contains(line, RefsHeads) && FollowsFirst(Trim(line), RefsHeads, r.value.name)
    ensures Contains(line, RefsHeads) && NonEmptyAfterFirst(Trim(line), RefsHeads) ==> r.Some?
  {
    if !Contains(line, RefsHeads) then None
    else
      var trimmed := Trim(line);
      var parts := Split(trimmed, RefsHeads);
      SecondPieceNonEmpty(trimmed, RefsHeads);
      SecondPieceFollowsFirst(trimmed, RefsHeads);
      if |parts| < 2 || parts[1] == "" then None
      else Some(Branch(parts[1], false))
  }

  /** `arrays.compactMap` of the `@kamaalio/kamaal` package: the non-null results of
      `parse` over `xs`, in order. */
  function CompactMap<T, U>(xs: seq<T>, parse: T -> Option<U>): (r: seq<U>)
    ensures |r| <= |xs|
  {
    if xs == [] then []
    else (if parse(xs[0]).Some? then [parse(xs[0]).value] else []) + CompactMap(xs[1..], parse)
  }

  /** An element the parser accepts contributes its result. */
  lemma {:induction false} CompactMapHas<T, U>(xs: seq<T>, parse: T -> Option<U>, i: nat, u: U)
    requires i < |xs| && parse(xs[i]) == Some(u)
    ensures u in CompactMap(xs, parse)
  {
    if i > 0 {
      assert xs[1..][i - 1] == xs[i];
      CompactMapHas(xs[1..], parse, i - 1, u);
    }
  }

  /** Every result kept comes from an element the parser accepts. */
  lemma {:induction false} CompactMapFrom<T, U>(xs: seq<T>, parse: T -> Option<U>, u: U) returns (i: nat)
    requires u in CompactMap(xs, parse)
    ensures i < |xs| && parse(xs[i]) == Some(u)
  {
    if parse(xs[0]) == Some(u) {
      i := 0;
    } else {
      var k := CompactMapFrom(xs[1..], parse, u);
      assert xs[1..][k] == xs[k + 1];
      i := k + 1;
    }
  }

  /** `compactMap` keeps exactly the results of the elements the parser accepts. */
  lemma CompactMapMembers<T, U>(xs: seq<T>, parse: T -> Option<U>)
    ensures forall u :: u in CompactMap(xs, parse) <==> exists i :: 0 <= i < |xs| && parse(xs[i]) == Some(u)
  {
    forall u ensures u in CompactMap(xs, parse) <==> exists i :: 0 <= i < |xs| && parse(xs[i]) == Some(u) {
      if u in CompactMap(xs, parse) {
        var i := CompactMapFrom(xs, parse, u);
      }
      if exists i :: 0 <= i < |xs| && parse(xs[i]) == Some(u) {
        var i :| 0 <= i < |xs| && parse(xs[i]) == Some(u);
        CompactMapHas(xs, parse, i, u);
      }
    }
  }

  /** `compactMap` keeps the order of its input: mapping a concatenation is
      concatenating the results. */
  lemma {:induction false} CompactMapConcat<T, U>(a: seq<T>, b: seq<T>, parse: T -> Option<U>)
    ensures CompactMap(a + b, parse) == CompactMap(a, parse) + CompactMap(b, parse)
  {
    if a != [] {
      assert (a + b)[0] == a[0] && (a + b)[1..] == a[1..] + b;
      CompactMapConcat(a[1..], b, parse);
    } else {
      assert a + b == b;
    }
  }

  /** The `compactMap` of `getRemoteBranches` over the lines of its output: exactly
      the branches of the lines the parser accepts. */
  function CompactRemote(lines: seq<string>): (r: seq<Branch>)
    ensures |r| <= |lines|
    ensures forall b :: b in r <==> exists i :: 0 <= i < |lines| && RemoteBranchOfLine(lines[i]) == Some(b)
    ensures forall b :: b in r ==> b.name != "" && !b.isSelected
  {
    CompactMapMembers(lines, RemoteBranchOfLine);
    CompactMap(lines, RemoteBranchOfLine)
  }

  /** Parsing a concatenation of lines is concatenating the parses. */
  lemma CompactRemoteConcat(a: seq<string>, b: seq<string>)
    ensures CompactRemote(a + b) == CompactRemote(a) + CompactRemote(b)
  {
    CompactMapConcat(a, b, RemoteBranchOfLine);
  }

  /** `getRemoteBranches`: the remote heads named in `git ls-remote --heads` output,
      none of them selected: exactly the branches of the lines the parser accepts. */
  function GetRemoteBranches(stdout: string): (r: seq<Branch>)
    ensures |r| <= |Split(stdout, "\n")|
    ensures forall b :: b in r ==> b.name != "" && !b.isSelected
    ensures forall b :: b in r <==> exists i :: 0 <= i < |Split(stdout, "\n")| && RemoteBranchOfLine(Split(stdout, "\n")[i]) == Some(b)
  {
    CompactRemote(Split(stdout, "\n"))
  }

  /** `getRemoteName`: the first line of `git remote` output. It is never
      `undefined`, since splitting always yields at least one piece. */
  function GetRemoteName(stdout: string): (r: Option<string>)
    ensures r.Some?
    ensures '\n' !in r.value && StartsWith(stdout, r.value)
    ensures |r.value| < |stdout| ==> stdout[|r.value|] == '\n'
  {
    var parts := Split(stdout, "\n");
    NoneMeansAbsent(parts[0], '\n');
    SplitFirstPiece(stdout, "\n");
    assert |parts[0]| < |stdout| ==> stdout[|parts[0]|] == '\n' by {
      if |parts| == 1 { assert Join(parts, "\n") == parts[0]; }
    }
    Some(parts[0])
  }

  /** `getRepoNameFromRepoAddress`: the last `/`-segment of the address without its
      final `.`-suffix. The optional chaining never yields `undefined`, because the
      split has a last element. */
  function RepoNameFromAddress(address: string): (r: Option<string>)
    ensures r.Some?
  {
    Some(DropLastSegment(LastSegment(address, '/'), '.'))
  }

  /** `path.resolve(cwd, name)`, as a plain join. */
  function ResolvePath(cwd: string, name: string): string {
    cwd + "/" + name
  }

  /** `Repository.fromAddressAndCwd`: the identity of the repository `address`
      checked out under `cwd`. */
  function RepoIdFromAddressAndCwd(address: string, cwd: string): (r: Option<RepoId>)
    ensures r.Some? && r.value.address == address
    ensures r.value.name == RepoNameFromAddress(address).value
    ensures r.value.path == ResolvePath(cwd, r.value.name)
  {
    match RepoNameFromAddress(address)
    case None => None
    case Some(name) => Some(RepoId(name, address, ResolvePath(cwd, name)))
  }

  /** The working directory `clone` runs in: `path.split('/').slice(0, -1).join('/')`. */
  function ParentDirectory(path: string): string {
    DropLastSegment(path, '/')
  }

  // ---------------------------------------------------------------------------
  // Properties of the parsers

  /** The name of a repository is what follows the last `/` up to its last `.`. */
  lemma {:induction false} RepoNameStripsExtension(prefix: string, base: string, ext: string)
    requires '/' !in base && '/' !in ext && '.' !in ext
    ensures RepoNameFromAddress(prefix + "/" + base + "." + ext) == Some(base)
  {
    var seg := base + "." + ext;
    assert prefix + "/" + base + "." + ext == prefix + ['/'] + seg;
    assert '/' !in seg;
    LastSegmentAfter(prefix, '/', seg);
    DropLastSegmentAfter(base, '.', ext);
  }

  /** An address whose last segment has no `.` gives the empty name, not `undefined`. */
  lemma {:induction false} RepoNameWithoutDot(prefix: string, seg: string)
    requires '/' !in seg && '.' !in seg
    ensures RepoNameFromAddress(prefix + "/" + seg) == Some("")
  {
    LastSegmentAfter(prefix, '/', seg);
    DropLastSegmentWhole(seg, '.');
  }

  /** The path of a repository is `cwd` joined with its name. */
  lemma {:induction false} RepoPathUnderCwd(cwd: string, prefix: string, base: string, ext: string)
    requires '/' !in base && '/' !in ext && '.' !in ext
    ensures RepoIdFromAddressAndCwd(prefix + "/" + base + "." + ext, cwd)
         == Some(RepoId(base, prefix + "/" + base + "." + ext, cwd + "/" + base))
  {
    RepoNameStripsExtension(prefix, base, ext);
  }

  /** `clone` runs in the directory that holds the checkout. */
  lemma {:induction false} ParentDirectoryOf(dir: string, name: string)
    requires '/' !in name
    ensures ParentDirectory(dir + "/" + name) == dir
  {
    DropLastSegmentAfter(dir, '/', name);
  }

  /** Names git accepts for a branch never hold `*` or whitespace. */
  predicate ValidBranchName(n: string) {
    |n| > 0 && forall i :: 0 <= i < |n| ==> n[i] != '*' && !IsWhitespace(n[i])
  }

  /** One line of `git branch` output: `* ` before the checked-out branch, two spaces before the others. */
  function BranchLine(b: string, head: Option<string>): string {
    (if head == Some(b) then "* " else "  ") + b
  }

  /** What `git branch` prints for `locals` with `head` checked out (execa strips the final newline). */
  function BranchListing(locals: seq<string>, head: Option<string>): string {
    Join(seq(|locals|, i requires 0 <= i < |locals| => BranchLine(locals[i], head)), "\n")
  }

  /** Dropping the `*` marker and trimming a listed line gives back the name. */
  lemma LineName(pad: string, b: string)
    requires pad == "* " || pad == "  "
    requires ValidBranchName(b)
    ensures Trim(Without(pad + b, '*')) == b
  {
    assert '*' !in b;
    WithoutAbsent(b, '*');
    if pad == "* " {
      WithoutConcat("* ", b, '*');
      assert Without("* ", '*') == " ";
      TrimPadded(" ", b);
    } else {
      WithoutConcat("  ", b, '*');
      assert Without("  ", '*') == "  ";
      TrimPadded("  ", b);
    }
  }

  lemma BranchLineParses(b: string, head: Option<string>)
    requires ValidBranchName(b)
    ensures BranchOfLine(BranchLine(b, head)) == Branch(b, head == Some(b))
    ensures '\n' !in BranchLine(b, head)
  {
    if head == Some(b) {
      SelectedLineParses(b);
    } else {
      UnselectedLineParses(b);
    }
    BranchLineSingle(b, head);
  }

  lemma SelectedLineParses(b: string)
    requires ValidBranchName(b)
    ensures BranchOfLine("* " + b) == Branch(b, true)
  {
    LineName("* ", b);
    assert ("* " + b)[..1] == "*";
  }

  lemma UnselectedLineParses(b: string)
    requires ValidBranchName(b)
    ensures BranchOfLine("  " + b) == Branch(b, false)
  {
    LineName("  ", b);
    assert ("  " + b)[0] == ' ';
  }

  lemma BranchLineSingle(b: string, head: Option<string>)
    requires ValidBranchName(b)
    ensures '\n' !in BranchLine(b, head)
  {
    var line := BranchLine(b, head);
    assert IsWhitespace('\n');
    forall i | 0 <= i < |line| ensures line[i] != '\n' {
      if i >= 2 { assert line[i] == b[i - 2]; }
    }
  }

  /** Parsing the rendered `git branch` output gives back every local branch, in
      order, with exactly the checked-out one selected. */
  lemma GetBranchesOfListing(locals: seq<string>, head: Option<string>)
    requires |locals| > 0
    requires forall i :: 0 <= i < |locals| ==> ValidBranchName(locals[i])
    ensures GetBranches(BranchListing(locals, head))
         == seq(|locals|, i requires 0 <= i < |locals| => Branch(locals[i], head == Some(locals[i])))
  {
    var lines := seq(|locals|, i requires 0 <= i < |locals| => BranchLine(locals[i], head));
    var expected := seq(|locals|, i requires 0 <= i < |locals| => Branch(locals[i], head == Some(locals[i])));
    forall i | 0 <= i < |locals| ensures '\n' !in lines[i] && BranchOfLine(lines[i]) == expected[i] {
      BranchLineParses(locals[i], head);
    }
    SplitJoin(lines, "\n");
    assert BranchListing(locals, head) == Join(lines, "\n");
    var parsed := GetBranches(BranchListing(locals, head));
    assert Split(BranchListing(locals, head), "\n") == lines;
    assert |parsed| == |expected|;
    forall i | 0 <= i < |parsed| ensures parsed[i] == expected[i] {
      assert parsed[i] == BranchOfLine(lines[i]);
    }
  }

  /** With no local branch at all, `git branch` prints nothing and the parser
      still reports one unselected branch with the empty name. */
  lemma GetBranchesOfEmptyOutput()
    ensures GetBranches("") == [Branch("", false)]
  {
    IndexOfFree("", "\n");
    assert Trim(Without("", '*')) == "";
  }

  /** What `getBranches` reports for `locals` with `head` checked out. */
  function LocalListing(locals: seq<string>, head: Option<string>): seq<Branch> {
    if locals == [] then [Branch("", false)]
    else seq(|locals|, i requires 0 <= i < |locals| => Branch(locals[i], head == Some(locals[i])))
  }

  /** The listing the repository works from is exactly what the parser makes of
      the `git branch` output for its branches. */
  lemma ListingIsParsedOutput(locals: seq<string>, head: Option<string>)
    requires forall i :: 0 <= i < |locals| ==> ValidBranchName(locals[i])
    ensures GetBranches(BranchListing(locals, head)) == LocalListing(locals, head)
  {
    if locals == [] {
      assert BranchListing(locals, head) == "";
      GetBranchesOfEmptyOutput();
    } else {
      GetBranchesOfListing(locals, head);
    }
  }

  /** A remote head as `git ls-remote --heads` lists it: an object id and a branch name. */
  datatype RemoteHead = RemoteHead(objectId: string, name: string)

  predicate IsHexDigit(ch: char) {
    '0' <= ch <= '9' || 'a' <= ch <= 'f'
  }

  predicate WellFormedHead(h: RemoteHead) {
    && |h.objectId| > 0
    && (forall i :: 0 <= i < |h.objectId| ==> IsHexDigit(h.objectId[i]))
    && ValidBranchName(h.name)
    && !Contains(h.name, RefsHeads)
  }

  function RemoteHeadLine(h: RemoteHead): string {
    h.objectId + "\t" + RefsHeads + h.name
  }

  lemma HexHasNoLetterR(objectId: string)
    requires forall i :: 0 <= i < |objectId| ==> IsHexDigit(objectId[i])
    ensures 'r' !in objectId + "\t" && '\n' !in objectId + "\t"
  {
    var pre := objectId + "\t";
    forall i | 0 <= i < |pre| ensures pre[i] != 'r' && pre[i] != '\n' {
      if i < |objectId| { assert IsHexDigit(objectId[i]); }
    }
  }

  lemma RemoteHeadLineSplits(h: RemoteHead)
    requires WellFormedHead(h)
    ensures Split(RemoteHeadLine(h), RefsHeads) == [h.objectId + "\t", h.name]
  {
    var pre := h.objectId + "\t";
    HexHasNoLetterR(h.objectId);
    assert RefsHeads[0] == 'r';
    IndexOfAfterFree(pre, RefsHeads, h.name);
    var line := pre + RefsHeads + h.name;
    assert line[|pre| + |RefsHeads|..] == h.name;
    assert Split(h.name, RefsHeads) == [h.name];
  }

  lemma RemoteHeadLineTrimmed(h: RemoteHead)
    requires WellFormedHead(h)
    ensures Trim(RemoteHeadLine(h)) == RemoteHeadLine(h)
  {
    var line := RemoteHeadLine(h);
    assert line[0] == h.objectId[0];
    assert IsHexDigit(line[0]);
    assert line[|line| - 1] == h.name[|h.name| - 1];
    TrimPadded("", line);
    assert "" + line == line;
  }

  lemma RemoteHeadLineSingle(h: RemoteHead)
    requires WellFormedHead(h)
    ensures '\n' !in RemoteHeadLine(h)
  {
    var pre := h.objectId + "\t";
    var line := RemoteHeadLine(h);
    HexHasNoLetterR(h.objectId);
    assert IsWhitespace('\n');
    forall i | 0 <= i < |line| ensures line[i] != '\n' {
      if i < |pre| { assert line[i] == pre[i]; }
      else if i >= |pre| + |RefsHeads| { assert line[i] == h.name[i - |pre| - |RefsHeads|]; }
    }
  }

  /** Each well-formed `ls-remote` line yields its head's name, unselected. */
  lemma RemoteHeadLineParses(h: RemoteHead)
    requires WellFormedHead(h)
    ensures RemoteBranchOfLine(RemoteHeadLine(h)) == Some(Branch(h.name, false))
    ensures '\n' !in RemoteHeadLine(h)
  {
    HexHasNoLetterR(h.objectId);
    assert RefsHeads[0] == 'r';
    IndexOfAfterFree(h.objectId + "\t", RefsHeads, h.name);
    RemoteHeadLineTrimmed(h);
    RemoteHeadLineSplits(h);
    RemoteHeadLineSingle(h);
  }

  /** The lines `git ls-remote --heads` prints for `heads`, one per head. */
  function HeadLines(heads: seq<RemoteHead>): (lines: seq<string>)
    ensures |lines| == |heads|
    ensures forall i :: 0 <= i < |heads| ==> lines[i] == RemoteHeadLine(heads[i])
  {
    if heads == [] then [] else [RemoteHeadLine(heads[0])] + HeadLines(heads[1..])
  }

  /** The heads' names as unselected branches, in order. */
  function HeadBranches(heads: seq<RemoteHead>): (bs: seq<Branch>)
    ensures |bs| == |heads|
    ensures forall i :: 0 <= i < |heads| ==> bs[i] == Branch(heads[i].name, false)
  {
    if heads == [] then [] else [Branch(heads[0].name, false)] + HeadBranches(heads[1..])
  }

  lemma {:induction false} CompactRemoteOfLines(heads: seq<RemoteHead>)
    requires forall i :: 0 <= i < |heads| ==> WellFormedHead(heads[i])
    ensures CompactRemote(HeadLines(heads)) == HeadBranches(heads)
  {
    if heads != [] {
      var lines := HeadLines(heads);
      RemoteHeadLineParses(heads[0]);
      assert lines[0] == RemoteHeadLine(heads[0]) && lines[1..] == HeadLines(heads[1..]);
      CompactRemoteOfLines(heads[1..]);
    }
  }

  lemma HeadLinesSingle(heads: seq<RemoteHead>)
    requires forall i :: 0 <= i < |heads| ==> WellFormedHead(heads[i])
    ensures forall i :: 0 <= i < |heads| ==> '\n' !in HeadLines(heads)[i]
  {
    forall i | 0 <= i < |heads| ensures '\n' !in HeadLines(heads)[i] {
      RemoteHeadLineSingle(heads[i]);
    }
  }

  /** The listing splits back into its lines, which the parser then reads one by one. */
  lemma ParseHeadListing(heads: seq<RemoteHead>)
    requires |heads| > 0
    requires forall i :: 0 <= i < |heads| ==> WellFormedHead(heads[i])
    ensures GetRemoteBranches(Join(HeadLines(heads), "\n")) == CompactRemote(HeadLines(heads))
  {
    HeadLinesSingle(heads);
    SplitJoin(HeadLines(heads), "\n");
  }

  /** Parsing `git ls-remote --heads` output recovers every head's name, in order,
      none selected. */
  lemma GetRemoteBranchesOfListing(heads: seq<RemoteHead>)
    requires |heads| > 0
    requires forall i :: 0 <= i < |heads| ==> WellFormedHead(heads[i])
    ensures GetRemoteBranches(Join(HeadLines(heads), "\n")) == HeadBranches(heads)
  {
    ParseHeadListing(heads);
    CompactRemoteOfLines(heads);
  }

  /** A line that does not mention `refs/heads/` never becomes a remote branch. */
  lemma {:induction false} RemoteLinesWithoutRefsAreDropped(lines: seq<string>)
    requires forall i :: 0 <= i < |lines| ==> !Contains(lines[i], RefsHeads)
    ensures CompactRemote(lines) == []
  {
    if lines != [] {
      RemoteLinesWithoutRefsAreDropped(lines[1..]);
    }
  }

  // ---------------------------------------------------------------------------
  // Decisions taken by the class's operations

  /** `branches.find(b => b.name === name)`. */
  function FindByName(bs: seq<Branch>, name: string): (r: Option<Branch>)
    ensures r.Some? ==> r.value in bs && r.value.name == name
    ensures r.None? <==> forall i :: 0 <= i < |bs| ==> bs[i].name != name
    ensures forall k :: 0 <= k < |bs| && bs[k].name == name && (forall j :: 0 <= j < k ==> bs[j].name != name) ==> r == Some(bs[k])
  {
    if bs == [] then None else if bs[0].name == name then Some(bs[0]) else FindByName(bs[1..], name)
  }

  /** `branches.find(b => b.isSelected)`. */
  function FindSelected(bs: seq<Branch>): (r: Option<Branch>)
    ensures r.Some? ==> r.value in bs && r.value.isSelected
    ensures r.None? <==> forall i :: 0 <= i < |bs| ==> !bs[i].isSelected
    ensures forall k :: 0 <= k < |bs| && bs[k].isSelected && (forall j :: 0 <= j < k ==> !bs[j].isSelected) ==> r == Some(bs[k])
  {
    if bs == [] then None else if bs[0].isSelected then Some(bs[0]) else FindSelected(bs[1..])
  }

  /** `branches.some(b => b.name === name)`. */
  predicate HasBranchNamed(bs: seq<Branch>, name: string) {
    exists i | 0 <= i < |bs| :: bs[i].name == name
  }

  /** Which of its three paths `checkoutBranch` takes. */
  datatype CheckoutStep = StayOn(branch: Branch) | SwitchTo(branch: Branch) | CreateNew

  /** The branch test of `checkoutBranch`: stay when already on the branch and not
      forced; switch when the branch exists locally and not forced; create otherwise. */
  function CheckoutDecision(current: Option<Branch>, listing: seq<Branch>, branchName: string, forceCreateNew: bool): (s: CheckoutStep)
    ensures s.StayOn? <==> current.Some? && current.value.name == branchName && !forceCreateNew
    ensures s.StayOn? ==> s.branch == current.value
    ensures s.SwitchTo? ==> !forceCreateNew && s.branch.name == branchName && s.branch in listing
    ensures s.CreateNew? <==>
      forceCreateNew || (!(current.Some? && current.value.name == branchName) && !HasBranchNamed(listing, branchName))
  {
    if current.Some? && current.value.name == branchName && !forceCreateNew then StayOn(current.value)
    else
      match FindByName(listing, branchName)
      case Some(b) =>
        if !forceCreateNew then SwitchTo(b) else CreateNew
      case None => CreateNew
  }

  /** The guards of `push`: a missing remote or current branch, a failed main-branch
      lookup, and the current branch being the main branch each refuse the push;
      otherwise it pushes the current branch to the remote. */
  function PushDecision(repo: RepoId, remoteName: Option<string>, current: Option<Branch>,
                        mainBranchName: Result<string, GitError>): (r: Result<(string, string), GitError>)
    ensures r.Ok? <==> remoteName.Some? && current.Some? && mainBranchName.Ok? && mainBranchName.value != current.value.name
    ensures r.Ok? ==> r.value == (remoteName.value, current.value.name) && r.value.1 != mainBranchName.value
    ensures (remoteName.None? || current.None?) ==> r == Err(PushError(repo, "Failed to find remote name", None))
    ensures remoteName.Some? && current.Some? && mainBranchName.Err? ==> r == Err(mainBranchName.error)
    ensures remoteName.Some? && current.Some? && mainBranchName.Ok? && mainBranchName.value == current.value.name
      ==> r == Err(PushError(repo, "Can't push to main branch", None))
  {
    if remoteName.None? || current.None? then Err(PushError(repo, "Failed to find remote name", None))
    else if mainBranchName.Err? then Err(mainBranchName.error)
    else if mainBranchName.value == current.value.name then Err(PushError(repo, "Can't push to main branch", None))
    else Ok((remoteName.value, current.value.name))
  }

  /** The outcome of `git clone`: a failing exit code is a `CloneError`. */
  function CloneOutcome(repo: RepoId, code: ExitCode): (r: Result<(), GitError>)
    ensures r.Err? <==> Failed(code)
    ensures r.Err? ==> r.error == CloneError(repo)
  {
    if Failed(code) then Err(CloneError(repo)) else Ok(())
  }

  // ---------------------------------------------------------------------------
  // The environment and the class

  /** An exit code as the source reads it: possibly absent. */
  type ExitCode = Option<string>

  /** The exit check the source writes after each command: `code != null && code !== '0'`. */
  predicate Failed(code: ExitCode) {
    code.Some? && code.value != "0"
  }

  /** A default-branch name the schema accepts: `z.string().nonempty()`. */
  type BranchRefName = s: string | s != [] witness "main"

  /** What the shell and the hosting tool answer, fixed for one repository. */
  datatype GitEnv = GitEnv(
    remoteOutput: string,                            // stdout of `git remote`
    lsRemoteOutput: string,                          // stdout of `git ls-remote --heads`
    repoViewCode: ExitCode,                          // exit code of `gh repo view --json defaultBranchRef`
    defaultBranchRef: Result<BranchRefName, Cause>,  // what JSON.parse and the schema make of its stdout
    rebaseSucceeds: bool,                            // whether `git rebase <remote>/<main>` returns
    cloneCode: ExitCode,                             // exit code of `git clone`
    checkoutCode: string -> ExitCode,                // exit code of `git checkout <name>`
    createCode: string -> ExitCode)                  // exit code of `git checkout -b <name>`

  /** The commands that change the working copy, in the order they are issued. */
  datatype Command =
    | GitAdd
    | GitCommit(message: string)
    | GitResetHard
    | GitFetch
    | GitRebase(upstream: string)
    | GitCheckout(branch: string)
    | GitCheckoutNew(branch: string)
    | GitDeleteBranch(branch: string)
    | GitPush(remote: string, branch: string)
    | GitClone(address: string, cwd: string)

  function AddBranch(locals: seq<string>, name: string): seq<string> {
    if name in locals then locals else locals + [name]
  }

  function RemoveBranch(locals: seq<string>, name: string): (r: seq<string>)
    ensures name !in r
    ensures forall n :: n in r <==> n in locals && n != name
  {
    if locals == [] then []
    else (if locals[0] == name then [] else [locals[0]]) + RemoveBranch(locals[1..], name)
  }

  /** `longer` is `shorter` followed by more commands. */
  predicate Extends(longer: seq<Command>, shorter: seq<Command>) {
    |shorter| <= |longer| && longer[..|shorter|] == shorter
  }

  // Steps on logs, kept as lemmas so that the methods using them do no reasoning on slices themselves.
  lemma ExtendsAppend(a: seq<Command>, b: seq<Command>, c: seq<Command>)
    requires Extends(b, a)
    ensures Extends(b + c, a)
  {
    assert (b + c)[..|a|] == b[..|a|];
  }

  lemma ExtendsTrans(a: seq<Command>, b: seq<Command>, c: seq<Command>)
    requires Extends(a, b) && Extends(b, c)
    ensures Extends(a, c)
  {
    assert a[..|c|] == a[..|b|][..|c|];
  }

  /** What `checkoutBranch(branch)` can issue: nothing when already on it, a plain
      checkout of an existing branch, or the creation of a new one. */
  predicate AtMostCheckoutOf(cmds: seq<Command>, branch: string) {
    cmds == [] || cmds == [GitCheckout(branch)] || cmds == [GitCheckoutNew(branch)]
  }

  /** The fallback of `updateBranchToLatestMain`: the checkout of main, then the
      deletion and re-creation of the working branch. */
  predicate RecreateCommands(cmds: seq<Command>, workingBranchName: string, mainBranchName: string) {
    && |cmds| >= 2
    && AtMostCheckoutOf(cmds[..|cmds| - 2], mainBranchName)
    && cmds[|cmds| - 2..] == [GitDeleteBranch(workingBranchName), GitCheckoutNew(workingBranchName)]
  }

  /** The rebase onto `upstream`, followed by the fallback exactly when `recreate`. */
  predicate RebaseCommands(cmds: seq<Command>, workingBranchName: string, upstream: string,
                           mainBranchName: string, recreate: bool) {
    && |cmds| >= 1
    && cmds[0] == GitRebase(upstream)
    && if recreate then RecreateCommands(cmds[1..], workingBranchName, mainBranchName) else |cmds| == 1
  }

  /** A checkout of the working branch followed by the rebase commands is a
      successful update. */
  lemma UpdateFromParts(cmds: seq<Command>, c: seq<Command>, rest: seq<Command>, workingBranchName: string,
                        upstream: string, mainBranchName: string, recreate: bool)
    requires cmds == c + rest && AtMostCheckoutOf(c, workingBranchName)
    requires RebaseCommands(rest, workingBranchName, upstream, mainBranchName, recreate)
    ensures UpdateCommandsShape(cmds, workingBranchName, upstream, mainBranchName, recreate)
  {
    assert cmds[0] == (if c == [] then rest[0] else c[0]);
    assert cmds[..|c|] == c && cmds[|c|..] == rest;
  }

  /** What a successful update leaves at the end of the log: without the fallback,
      the rebase after at most one checkout of the working branch; with it, the
      deletion and re-creation of the working branch. */
  lemma UpdateShapeSummary(log: seq<Command>, before: seq<Command>, workingBranchName: string,
                           upstream: string, mainBranchName: string, recreate: bool)
    requires |before| <= |log|
    requires UpdateCommandsShape(log[|before|..], workingBranchName, upstream, mainBranchName, recreate)
    ensures !recreate ==>
      && |before| + 1 <= |log| <= |before| + 2
      && log[|log| - 1] == GitRebase(upstream)
      && forall i :: |before| <= i < |log| - 1 ==>
           log[i] == GitCheckout(workingBranchName) || log[i] == GitCheckoutNew(workingBranchName)
    ensures recreate ==>
      |log| >= |before| + 3 &&
      log[|log| - 2..] == [GitDeleteBranch(workingBranchName), GitCheckoutNew(workingBranchName)]
  {
    var cmds := log[|before|..];
    var k := if |cmds| > 0 && cmds[0] == GitRebase(upstream) then 0 else 1;
    var rest := cmds[k..];
    if recreate {
      assert rest[1..][|rest| - 3..] == log[|log| - 2..];
    } else {
      forall i | |before| <= i < |log| - 1
        ensures log[i] == GitCheckout(workingBranchName) || log[i] == GitCheckoutNew(workingBranchName)
      {
        assert cmds[..k][i - |before|] == log[i];
      }
    }
  }

  /** A successful `prepareForUpdate`: the checkout of the working branch, the stage,
      reset and fetch, then a successful update. */
  predicate PrepareCommandsShape(cmds: seq<Command>, workingBranchName: string, upstream: string,
                                 mainBranchName: string, recreate: bool) {
    var k := if |cmds| > 0 && cmds[0] == GitAdd then 0 else 1;
    && |cmds| >= k + 3
    && AtMostCheckoutOf(cmds[..k], workingBranchName)
    && cmds[k..k + 3] == [GitAdd, GitResetHard, GitFetch]
    && UpdateCommandsShape(cmds[k + 3..], workingBranchName, upstream, mainBranchName, recreate)
  }

  /** The checkout, then the stage, reset and fetch, then a successful update. */
  lemma PrepareFromParts(log: seq<Command>, before: seq<Command>, afterCheckout: seq<Command>, workingBranchName: string,
                         upstream: string, mainBranchName: string, recreate: bool)
    requires Extends(afterCheckout, before) && AtMostCheckoutOf(afterCheckout[|before|..], workingBranchName)
    requires |log| >= |afterCheckout| + 3
    requires log[..|afterCheckout| + 3] == afterCheckout + [GitAdd, GitResetHard, GitFetch]
    requires UpdateCommandsShape(log[|afterCheckout| + 3..], workingBranchName, upstream, mainBranchName, recreate)
    ensures Extends(log, before) && PrepareCommandsShape(log[|before|..], workingBranchName, upstream, mainBranchName, recreate)
  {
    LogAfterThree(log, before, afterCheckout, [GitAdd, GitResetHard, GitFetch]);
    PrepareOf(log[|before|..], afterCheckout[|before|..], log[|afterCheckout| + 3..], workingBranchName,
              upstream, mainBranchName, recreate);
  }

  // A log that extends `mid` by three commands splits after `before` (a step on logs, as above).
  lemma LogAfterThree(log: seq<Command>, before: seq<Command>, mid: seq<Command>, three: seq<Command>)
    requires Extends(mid, before) && |three| == 3 && |log| >= |mid| + 3 && log[..|mid| + 3] == mid + three
    ensures Extends(log, before) && log[|before|..] == mid[|before|..] + three + log[|mid| + 3..]
  {
    assert log[..|before|] == mid[..|before|];
    assert log == mid + three + log[|mid| + 3..];
  }

  lemma PrepareOf(cmds: seq<Command>, c: seq<Command>, u: seq<Command>, workingBranchName: string,
                  upstream: string, mainBranchName: string, recreate: bool)
    requires cmds == c + [GitAdd, GitResetHard, GitFetch] + u && AtMostCheckoutOf(c, workingBranchName)
    requires UpdateCommandsShape(u, workingBranchName, upstream, mainBranchName, recreate)
    ensures PrepareCommandsShape(cmds, workingBranchName, upstream, mainBranchName, recreate)
  {
    assert cmds[0] == if c == [] then GitAdd else c[0];
    assert cmds[..|c|] == c && cmds[|c|..|c| + 3] == [GitAdd, GitResetHard, GitFetch] && cmds[|c| + 3..] == u;
  }

  /** A log that extends `before` splits after it (a step on logs, as above). */
  lemma LogAfter(log: seq<Command>, before: seq<Command>, mid: seq<Command>)
    requires Extends(mid, before) && Extends(log, mid)
    ensures log[..|before|] == before
    ensures log[|before|..] == mid[|before|..] + log[|mid|..]
  {
    assert log[..|mid|] == mid;
    assert log[..|before|] == mid[..|before|];
  }

  /** A log that extends `before` and one more command splits after `before` (a
      step on logs, as above). */
  lemma LogAfterRebase(log: seq<Command>, before: seq<Command>, c: Command, mid: seq<Command>)
    requires mid == before + [c] && Extends(log, mid)
    ensures |log| >= |before| + 1 && log[..|before| + 1] == before + [c]
    ensures log[|before|..] == [c] + log[|mid|..]
  {
    assert log[..|before| + 1] == mid;
    assert log[|before|..][0] == c;
    assert log[|before|..][1..] == log[|mid|..];
  }

  lemma RebaseThenRecreate(cmds: seq<Command>, rebase: seq<Command>, rest: seq<Command>,
                           workingBranchName: string, upstream: string, mainBranchName: string)
    requires rebase == [GitRebase(upstream)] && cmds == rebase + rest
    requires RecreateCommands(rest, workingBranchName, mainBranchName)
    ensures RebaseCommands(cmds, workingBranchName, upstream, mainBranchName, true)
  {
    assert cmds[1..] == rest;
  }

  /** A successful update: the checkout of the working branch, then the rebase and,
      when `recreate`, the fallback. The checkout is empty exactly when the rebase
      comes first, since a rebase is not a checkout. */
  predicate UpdateCommandsShape(cmds: seq<Command>, workingBranchName: string, upstream: string,
                                mainBranchName: string, recreate: bool) {
    var k := if |cmds| > 0 && cmds[0] == GitRebase(upstream) then 0 else 1;
    && |cmds| >= k
    && AtMostCheckoutOf(cmds[..k], workingBranchName)
    && RebaseCommands(cmds[k..], workingBranchName, upstream, mainBranchName, recreate)
  }

  /** Every checkout of the working branch followed by the rebase and, when asked, a
      checkout of main and the re-creation, has the shape of a successful update. */
  lemma UpdateCommandsOf(c: seq<Command>, m: seq<Command>, workingBranchName: string, upstream: string,
                         mainBranchName: string, recreate: bool)
    requires AtMostCheckoutOf(c, workingBranchName) && AtMostCheckoutOf(m, mainBranchName)
    ensures UpdateCommandsShape(c + [GitRebase(upstream)] +
      (if recreate then m + [GitDeleteBranch(workingBranchName), GitCheckoutNew(workingBranchName)] else []),
      workingBranchName, upstream, mainBranchName, recreate)
  {
    var tail := if recreate then m + [GitDeleteBranch(workingBranchName), GitCheckoutNew(workingBranchName)] else [];
    var cmds := c + [GitRebase(upstream)] + tail;
    assert cmds[..|c|] == c && cmds[|c|..] == [GitRebase(upstream)] + tail;
    if recreate {
      assert ([GitRebase(upstream)] + tail)[1..] == tail;
      assert tail[..|tail| - 2] == m;
    }
  }

  class Repository {
    const name: string
    const address: string
    const path: string
    const env: GitEnv

    /** The private cache `currentBranch`. */
    var currentBranch: Option<Branch>
    /** The local branches, in the order `git branch` lists them. */
    var locals: seq<string>
    /** The checked-out branch. */
    var head: Option<string>
    /** Every working-copy-changing command issued so far. */
    var log: seq<Command>

    constructor (id: RepoId, env: GitEnv, locals: seq<string>, head: Option<string>)
      requires forall n :: n in locals ==> ValidBranchName(n)
      ensures Valid()
      ensures Id() == id && this.env == env
      ensures currentBranch == None && this.locals == locals && this.head == head && log == []
    {
      name, address, path := id.name, id.address, id.path;
      this.env := env;
      currentBranch := None;
      this.locals := locals;
      this.head := head;
      log := [];
    }

    function Id(): RepoId {
      RepoId(name, address, path)
    }

    /** Every local branch has a name git accepts: git creates no other. */
    ghost predicate Valid()
      reads this`locals
    {
      forall n :: n in locals ==> ValidBranchName(n)
    }

    /** `getBranches` on the current working copy; `ListingIsBranchOutput` shows it is
        what the parser makes of the `git branch` output. */
    function Listing(): seq<Branch>
      reads this`locals, this`head
    {
      LocalListing(locals, head)
    }

    /** The listing the repository works from is what `getBranches` makes of the
        `git branch` output for its branches. */
    lemma ListingIsBranchOutput()
      requires Valid()
      ensures Listing() == GetBranches(BranchListing(locals, head))
    {
      ListingIsParsedOutput(locals, head);
    }

    /** `git checkout -b` fails on a name git does not accept, and otherwise as its
        exit code says. */
    predicate CreateFails(branchName: string) {
      !ValidBranchName(branchName) || Failed(env.createCode(branchName))
    }

    /** `getCurrentBranch`: the cache when set, otherwise the selected branch of the listing. */
    function CurrentBranch(): (b: Option<Branch>)
      reads this`currentBranch, this`locals, this`head
      ensures currentBranch.Some? ==> b == currentBranch
      ensures currentBranch.None? && b.Some? ==> b.value.isSelected && b.value in Listing()
    {
      if currentBranch.Some? then currentBranch else FindSelected(Listing())
    }

    /** Without a cached branch, the current branch is the first selected line of
        the listing, and there is none exactly when no line is selected. */
    lemma CurrentBranchFirstSelected()
      ensures currentBranch.None? ==> (CurrentBranch().None? <==> forall i :: 0 <= i < |Listing()| ==> !Listing()[i].isSelected)
      ensures currentBranch.None? ==> forall k :: 0 <= k < |Listing()| && Listing()[k].isSelected && (forall j :: 0 <= j < k ==> !Listing()[j].isSelected) ==> CurrentBranch() == Some(Listing()[k])
    {
    }

    /** The cached branch, when there is one, is the branch checked out. It holds on
        a fresh repository, whose cache is empty, and is lost once `checkoutBranch`
        switches to an existing branch while a branch is cached. */
    ghost predicate CacheAgrees()
      reads this`currentBranch, this`head
    {
      currentBranch.Some? ==> head == Some(currentBranch.value.name)
    }

    /** The current branch is the one named: `checkoutBranch(name)` then stays where it is. */
    ghost predicate OnBranch(name: string)
      reads this`currentBranch, this`locals, this`head
    {
      CurrentBranch().Some? && CurrentBranch().value.name == name
    }

    /** While the cache agrees with the working copy, the current branch is the one
        checked out. */
    lemma CurrentIsCheckedOut()
      requires CacheAgrees()
      ensures CurrentBranch().Some? ==> head == Some(CurrentBranch().value.name)
    {
      if currentBranch.None? && CurrentBranch().Some? {
        var b := CurrentBranch().value;
        var k :| 0 <= k < |Listing()| && Listing()[k] == b;
        if locals != [] {
          assert b == Branch(locals[k], head == Some(locals[k]));
        }
      }
    }

    function RemoteName(): Option<string> {
      GetRemoteName(env.remoteOutput)
    }

    function RemoteBranches(): seq<Branch> {
      GetRemoteBranches(env.lsRemoteOutput)
    }

    /** `getMainBranchName`: a failing `gh repo view` is a `GetMainBranchError` without
        cause; a parse or schema failure is one with that cause. */
    function MainBranchName(): (r: Result<string, GitError>)
      ensures r.Ok? ==> r.value != "" && env.defaultBranchRef == Ok(r.value) && !Failed(env.repoViewCode)
      ensures r.Err? ==> r.error.kind == GetMainBranchFailed && r.error.repository == Id()
      ensures Failed(env.repoViewCode) ==> r == Err(GetMainBranchError(Id(), None))
      ensures !Failed(env.repoViewCode) && env.defaultBranchRef.Err?
        ==> r == Err(GetMainBranchError(Id(), Some(env.defaultBranchRef.error)))
    {
      if Failed(env.repoViewCode) then Err(GetMainBranchError(Id(), None))
      else
        match env.defaultBranchRef
        case Err(cause) => Err(GetMainBranchError(Id(), Some(cause)))
        case Ok(n) => Ok(n)
    }

    /** `getMainBranch`: the local branch whose name is the main branch name. */
    function MainBranch(): (r: Result<Branch, GitError>)
      reads this
      ensures MainBranchName().Err? ==> r == Err(MainBranchName().error)
      ensures r.Ok? ==> MainBranchName().Ok? && r.value.name == MainBranchName().value && r.value in Listing()
      ensures MainBranchName().Ok? && !HasBranchNamed(Listing(), MainBranchName().value)
        ==> r == Err(GetMainBranchError(Id(), None))
    {
      match MainBranchName()
      case Err(e) => Err(e)
      case Ok(mainName) =>
        match FindByName(Listing(), mainName)
        case None => Err(GetMainBranchError(Id(), None))
        case Some(b) => Ok(b)
    }

    /** The fallback of `updateBranchToLatestMain` runs when the rebase fails or the
        working branch is not among the remote heads. */
    predicate NeedsRecreate(workingBranchName: string) {
      !env.rebaseSucceeds || !HasBranchNamed(RemoteBranches(), workingBranchName)
    }

    /** The commands a successful `updateBranchToLatestMain(workingBranchName)` issues. */
    ghost predicate UpdateCommands(cmds: seq<Command>, workingBranchName: string)
      reads this
    {
      && MainBranchName().Ok? && RemoteName().Some?
      && UpdateCommandsShape(cmds, workingBranchName, RemoteName().value + "/" + MainBranchName().value,
                             MainBranchName().value, NeedsRecreate(workingBranchName))
    }

    /** The commands a successful `prepareForUpdate(workingBranchName)` issues: the
        checkout of the working branch, the stage, reset and fetch, then the update. */
    ghost predicate PrepareCommands(cmds: seq<Command>, workingBranchName: string)
      reads this
    {
      && MainBranchName().Ok? && RemoteName().Some?
      && PrepareCommandsShape(cmds, workingBranchName, RemoteName().value + "/" + MainBranchName().value,
                              MainBranchName().value, NeedsRecreate(workingBranchName))
    }

    /** The lookup and error facts that hold after `updateBranchToLatestMain(workingBranchName)`
        returned `r`, whatever the state before: a failed lookup is a `RebaseError`
        carrying it; after a successful lookup every failure is a checkout error or
        the main-branch guard; the only plain `GitError` is that guard, and only when
        the working branch is the main branch; a recreated working branch is checked
        out, is cached, and is not the main branch. Which branch is checked out
        after an update without the recreate is not part of it: the methods state
        that separately, in terms of the state before. */
    ghost predicate Reconciled(workingBranchName: string, r: Result<(), GitError>)
      reads this
    {
      && (MainBranchName().Err? ==> r == Err(RebaseError(Id(), Some(GitCause(MainBranchName().error)))))
      && (r.Err? && MainBranchName().Ok? ==> r.error.kind == CheckoutFailed || r.error.kind == Generic)
      && (r.Err? && r.error.kind == Generic ==>
            r.error == NewGitError(MainBranchMessage, Id(), None) &&
            MainBranchName().Ok? && workingBranchName == MainBranchName().value)
      && (r.Ok? && NeedsRecreate(workingBranchName) ==>
            MainBranchName().Ok? && workingBranchName != MainBranchName().value &&
            currentBranch == Some(Branch(workingBranchName, true)) &&
            head == Some(workingBranchName) && workingBranchName in locals)
    }

    method SetCurrentBranch(branch: Branch)
      modifies this
      ensures currentBranch == Some(branch)
      ensures locals == old(locals) && head == old(head) && log == old(log)
    {
      currentBranch := Some(branch);
    }

    /** The path `checkoutBranch(branchName, { forceCreateNew })` takes from the current state. */
    function CheckoutPlan(branchName: string, forceCreateNew: bool): CheckoutStep
      reads this`currentBranch, this`locals, this`head
    {
      CheckoutDecision(CurrentBranch(), Listing(), branchName, forceCreateNew)
    }

    /** `checkoutBranch(branchName, { forceCreateNew })`. */
    method CheckoutBranch(branchName: string, forceCreateNew: bool) returns (r: Result<Branch, GitError>)
      requires Valid()
      modifies this
      ensures Valid()
      ensures match old(CheckoutPlan(branchName, forceCreateNew))
        case StayOn(b) =>
          r == Ok(b) && log == old(log) &&
          currentBranch == old(currentBranch) && locals == old(locals) && head == old(head)
        case SwitchTo(b) =>
          log == old(log) + [GitCheckout(branchName)] &&
          currentBranch == old(currentBranch) && locals == old(locals) &&
          if Failed(env.checkoutCode(branchName)) then
            r == Err(CheckoutError(Id(), branchName)) && head == old(head)
          else
            r == Ok(b) && head == Some(branchName)
        case CreateNew =>
          log == old(log) + [GitCheckoutNew(branchName)] &&
          if CreateFails(branchName) then
            r == Err(CheckoutError(Id(), branchName)) &&
            currentBranch == old(currentBranch) && locals == old(locals) && head == old(head)
          else
            r == Ok(Branch(branchName, true)) && currentBranch == Some(Branch(branchName, true)) &&
            locals == AddBranch(old(locals), branchName) && head == Some(branchName)
    {
      var step := CheckoutPlan(branchName, forceCreateNew);
      match step
      case StayOn(b) =>
        r := Ok(b);
      case SwitchTo(b) =>
        log := log + [GitCheckout(branchName)];
        if Failed(env.checkoutCode(branchName)) {
          r := Err(CheckoutError(Id(), branchName));
        } else {
          head := Some(branchName);
          r := Ok(b);
        }
      case CreateNew =>
        log := log + [GitCheckoutNew(branchName)];
        if CreateFails(branchName) {
          r := Err(CheckoutError(Id(), branchName));
        } else {
          locals := AddBranch(locals, branchName);
          head := Some(branchName);
          SetCurrentBranch(Branch(branchName, true));
          r := Ok(Branch(branchName, true));
        }
    }

    /** `getSelectedBranch`: the current branch, read from the cache or else from the
        selected branch of the listing. Its write of the cache never happens: with an
        empty cache `getCurrentBranch` has already searched the same listing, so the
        second search finds nothing either. */
    method GetSelectedBranch() returns (b: Option<Branch>)
      ensures currentBranch.Some? ==> b == currentBranch
      ensures currentBranch.None? ==> (b.None? <==> forall i :: 0 <= i < |Listing()| ==> !Listing()[i].isSelected)
      ensures currentBranch.None? && b.Some? ==> b.value.isSelected && b.value in Listing()
      ensures currentBranch.None? ==> forall k :: 0 <= k < |Listing()| && Listing()[k].isSelected && (forall j :: 0 <= j < k ==> !Listing()[j].isSelected) ==> b == Some(Listing()[k])
    {
      b := CurrentBranch();
      CurrentBranchFirstSelected();
      if b.Some? {
        return;
      }
      var branch := FindSelected(Listing());
      assert branch.None?;
    }

    /** `deleteBranch`: `git branch -D`, which refuses the checked-out branch; the
        cache is left as it is. */
    method DeleteBranch(branchName: string)
      requires Valid()
      modifies this
      ensures Valid()
      ensures log == old(log) + [GitDeleteBranch(branchName)]
      ensures locals == if old(head) == Some(branchName) then old(locals) else RemoveBranch(old(locals), branchName)
      ensures currentBranch == old(currentBranch) && head == old(head)
    {
      log := log + [GitDeleteBranch(branchName)];
      if head != Some(branchName) {
        locals := RemoveBranch(locals, branchName);
      }
    }

    /** `clone`: `git clone <address>` in the parent directory of the checkout. */
    method Clone() returns (r: Result<(), GitError>)
      modifies this
      ensures log == old(log) + [GitClone(address, ParentDirectory(path))]
      ensures r.Err? <==> Failed(env.cloneCode)
      ensures r.Err? ==> r.error == CloneError(Id())
      ensures currentBranch == old(currentBranch) && locals == old(locals) && head == old(head)
    {
      log := log + [GitClone(address, ParentDirectory(path))];
      r := CloneOutcome(Id(), env.cloneCode);
    }

    /** `commit`: stage everything and commit; a failing commit (nothing to commit) is ignored. */
    method Commit(message: string)
      modifies this
      ensures log == old(log) + [GitAdd, GitCommit(message)]
      ensures currentBranch == old(currentBranch) && locals == old(locals) && head == old(head)
    {
      log := log + [GitAdd, GitCommit(message)];
    }

    /** `push`: refuses, without issuing anything, when the remote or the current
        branch is missing, when the main-branch lookup fails, or when the current
        branch is the main branch; otherwise stages and force-pushes it. */
    method Push() returns (r: Result<(), GitError>)
      modifies this
      ensures var d := PushDecision(Id(), RemoteName(), old(CurrentBranch()), MainBranchName());
        if d.Err? then r == Err(d.error) && log == old(log)
        else r == Ok(()) && log == old(log) + [GitAdd, GitPush(d.value.0, d.value.1)]
      ensures r.Ok? ==> MainBranchName().Ok? && log[|log| - 1].branch != MainBranchName().value
      ensures currentBranch == old(currentBranch) && locals == old(locals) && head == old(head)
    {
      var decision := PushDecision(Id(), RemoteName(), CurrentBranch(), MainBranchName());
      if decision.Err? {
        r := Err(decision.error);
        return;
      }
      log := log + [GitAdd, GitPush(decision.value.0, decision.value.1)];
      r := Ok(());
    }

    /** `updateBranchToLatestMain`: check out the working branch and rebase it onto the
        main branch; when that fails or the branch is not on the remote, check out
        main, delete the working branch and create it afresh. */
    method UpdateBranchToLatestMain(workingBranchName: string) returns (r: Result<(), GitError>)
      requires Valid()
      modifies this
      ensures Valid()
      ensures Reconciled(workingBranchName, r)
      ensures Extends(log, old(log))
      ensures MainBranchName().Err? ==> log == old(log)
      ensures r.Err? && !NeedsRecreate(workingBranchName) ==>
        MainBranchName().Err? || r.error == CheckoutError(Id(), workingBranchName)
      ensures r.Ok? && !NeedsRecreate(workingBranchName) ==>
        && MainBranchName().Ok?
        && |old(log)| + 1 <= |log| <= |old(log)| + 2
        && log[|log| - 1] == GitRebase(RemoteName().value + "/" + MainBranchName().value)
        && forall i :: |old(log)| <= i < |log| - 1 ==>
             log[i] == GitCheckout(workingBranchName) || log[i] == GitCheckoutNew(workingBranchName)
      ensures r.Err? && r.error.kind == Generic ==>
        && |old(log)| + 1 <= |log| <= |old(log)| + 2
        && log[|log| - 1] == GitRebase(RemoteName().value + "/" + MainBranchName().value)
      ensures r.Ok? && NeedsRecreate(workingBranchName) ==>
        |log| >= |old(log)| + 3 &&
        log[|log| - 2..] == [GitDeleteBranch(workingBranchName), GitCheckoutNew(workingBranchName)]
      ensures r.Ok? ==> UpdateCommands(log[|old(log)|..], workingBranchName)
      ensures old(OnBranch(workingBranchName)) && !NeedsRecreate(workingBranchName) && MainBranchName().Ok? ==>
        r.Ok? && currentBranch == old(currentBranch) && locals == old(locals) && head == old(head)
      ensures r.Ok? && (old(CacheAgrees()) || old(head) == Some(workingBranchName)) ==> head == Some(workingBranchName)
    {
      var remoteName := RemoteName();
      var mainBranchName := MainBranchName();
      if mainBranchName.Err? {
        r := Err(RebaseError(Id(), Some(GitCause(mainBranchName.error))));
        return;
      }
      if remoteName.None? {
        r := Err(RebaseError(Id(), None));
        return;
      }
      r := CheckoutAndRebase(workingBranchName, remoteName.value, mainBranchName.value);
      if r.Ok? {
        UpdateShapeSummary(log, old(log), workingBranchName, remoteName.value + "/" + mainBranchName.value,
                           mainBranchName.value, NeedsRecreate(workingBranchName));
      }
    }

    /** `updateBranchToLatestMain` once both lookups have succeeded. */
    method CheckoutAndRebase(workingBranchName: string, remoteName: string, mainBranchName: string)
      returns (r: Result<(), GitError>)
      requires RemoteName() == Some(remoteName) && MainBranchName() == Ok(mainBranchName)
      requires Valid()
      modifies this
      ensures Valid()
      ensures Extends(log, old(log))
      ensures r.Err? && !NeedsRecreate(workingBranchName) ==> r.error == CheckoutError(Id(), workingBranchName)
      ensures r.Err? ==> r.error.kind == CheckoutFailed || r.error.kind == Generic
      ensures r.Err? && r.error.kind == Generic ==>
        && r.error == NewGitError(MainBranchMessage, Id(), None) && workingBranchName == mainBranchName
        && |old(log)| + 1 <= |log| <= |old(log)| + 2
        && log[|log| - 1] == GitRebase(remoteName + "/" + mainBranchName)
      ensures r.Ok? ==> UpdateCommandsShape(log[|old(log)|..], workingBranchName, remoteName + "/" + mainBranchName,
                                            mainBranchName, NeedsRecreate(workingBranchName))
      ensures r.Ok? && NeedsRecreate(workingBranchName) ==>
        && workingBranchName != mainBranchName
        && currentBranch == Some(Branch(workingBranchName, true))
        && head == Some(workingBranchName) && workingBranchName in locals
      ensures old(OnBranch(workingBranchName)) && !NeedsRecreate(workingBranchName) ==>
        r.Ok? && currentBranch == old(currentBranch) && locals == old(locals) && head == old(head)
      ensures r.Ok? && (old(CacheAgrees()) || old(head) == Some(workingBranchName)) ==> head == Some(workingBranchName)
    {
      var checkoutWorking := CheckoutExisting(workingBranchName);
      if checkoutWorking.Err? {
        r := Err(checkoutWorking.error);
        return;
      }
      ghost var afterCheckout := log;
      r := RebaseOrRecreate(workingBranchName, remoteName, mainBranchName);
      ExtendsTrans(log, afterCheckout, old(log));
      if r.Ok? {
        LogAfter(log, old(log), afterCheckout);
        UpdateFromParts(log[|old(log)|..], afterCheckout[|old(log)|..], log[|afterCheckout|..], workingBranchName,
                        remoteName + "/" + mainBranchName, mainBranchName, NeedsRecreate(workingBranchName));
      }
    }

    /** `checkoutBranch(branchName)` without `forceCreateNew`, as the update uses it:
        at most one checkout command is issued, and a failure is a checkout error. */
    method CheckoutExisting(branchName: string) returns (r: Result<Branch, GitError>)
      requires Valid()
      modifies this
      ensures Valid()
      ensures |old(log)| <= |log| <= |old(log)| + 1 && log[..|old(log)|] == old(log)
      ensures AtMostCheckoutOf(log[|old(log)|..], branchName)
      ensures r.Err? ==> r.error == CheckoutError(Id(), branchName)
      ensures match old(CheckoutPlan(branchName, false))
        case StayOn(b) =>
          r == Ok(b) && log == old(log) &&
          currentBranch == old(currentBranch) && locals == old(locals) && head == old(head)
        case SwitchTo(b) =>
          currentBranch == old(currentBranch) && locals == old(locals) &&
          if Failed(env.checkoutCode(branchName)) then r.Err? && head == old(head)
          else r == Ok(b) && head == Some(branchName)
        case CreateNew =>
          if CreateFails(branchName) then
            r.Err? && currentBranch == old(currentBranch) && locals == old(locals) && head == old(head)
          else
            r == Ok(Branch(branchName, true)) && currentBranch == Some(Branch(branchName, true)) &&
            locals == AddBranch(old(locals), branchName) && head == Some(branchName)
      ensures r.Ok? && (old(CacheAgrees()) || old(head) == Some(branchName)) ==> head == Some(branchName)
    {
      if CacheAgrees() {
        CurrentIsCheckedOut();
      }
      r := CheckoutBranch(branchName, false);
    }

    /** The rest of `updateBranchToLatestMain` once the working branch is checked out:
        the rebase, then the fallback when the rebase fails or the branch is not on
        the remote. */
    method RebaseOrRecreate(workingBranchName: string, remoteName: string, mainBranchName: string)
      returns (r: Result<(), GitError>)
      requires RemoteName() == Some(remoteName) && MainBranchName() == Ok(mainBranchName)
      requires Valid()
      modifies this
      ensures Valid()
      ensures |log| >= |old(log)| + 1 && log[..|old(log)| + 1] == old(log) + [GitRebase(remoteName + "/" + mainBranchName)]
      ensures !NeedsRecreate(workingBranchName) ==> r == Ok(()) && log == old(log) + [GitRebase(remoteName + "/" + mainBranchName)]
      ensures !NeedsRecreate(workingBranchName) ==>
        currentBranch == old(currentBranch) && locals == old(locals) && head == old(head)
      ensures NeedsRecreate(workingBranchName) && workingBranchName == mainBranchName ==>
        r == Err(NewGitError(MainBranchMessage, Id(), None)) && log == old(log) + [GitRebase(remoteName + "/" + mainBranchName)]
      ensures NeedsRecreate(workingBranchName) && workingBranchName != mainBranchName && r.Err? ==>
        r.error.kind == CheckoutFailed
      ensures r.Ok? ==> RebaseCommands(log[|old(log)|..], workingBranchName, remoteName + "/" + mainBranchName,
                                         mainBranchName, NeedsRecreate(workingBranchName))
      ensures r.Ok? && NeedsRecreate(workingBranchName) ==>
        && workingBranchName != mainBranchName
        && |log| >= |old(log)| + 3
        && log[|log| - 2..] == [GitDeleteBranch(workingBranchName), GitCheckoutNew(workingBranchName)]
        && currentBranch == Some(Branch(workingBranchName, true))
        && head == Some(workingBranchName) && workingBranchName in locals
    {
      var existsInRemote := HasBranchNamed(RemoteBranches(), workingBranchName);
      log := log + [GitRebase(remoteName + "/" + mainBranchName)];
      if !env.rebaseSucceeds || !existsInRemote {
        ghost var afterRebase := log;
        r := RecreateUnlessMain(workingBranchName, mainBranchName);
        LogAfterRebase(log, old(log), GitRebase(remoteName + "/" + mainBranchName), afterRebase);
        if r.Ok? {
          RebaseThenRecreate(log[|old(log)|..], [GitRebase(remoteName + "/" + mainBranchName)], log[|afterRebase|..],
                             workingBranchName, remoteName + "/" + mainBranchName, mainBranchName);
        }
        return;
      }
      r := Ok(());
    }

    /** The fallback of `updateBranchToLatestMain` behind its guard: the main branch
        itself is never recreated. */
    method RecreateUnlessMain(workingBranchName: string, mainBranchName: string) returns (r: Result<(), GitError>)
      requires Valid()
      modifies this
      ensures Valid()
      ensures Extends(log, old(log))
      ensures workingBranchName == mainBranchName ==> r == Err(NewGitError(MainBranchMessage, Id(), None)) && log == old(log)
      ensures workingBranchName != mainBranchName && r.Err? ==> r.error.kind == CheckoutFailed
      ensures r.Ok? ==>
        && workingBranchName != mainBranchName
        && |log| >= |old(log)| + 2
        && log[|log| - 2..] == [GitDeleteBranch(workingBranchName), GitCheckoutNew(workingBranchName)]
        && RecreateCommands(log[|old(log)|..], workingBranchName, mainBranchName)
        && currentBranch == Some(Branch(workingBranchName, true))
        && head == Some(workingBranchName) && workingBranchName in locals
    {
      if workingBranchName == mainBranchName {
        r := Err(NewGitError(MainBranchMessage, Id(), None));
        return;
      }
      r := RecreateWorkingBranch(workingBranchName, mainBranchName);
    }

    /** The fallback block of `updateBranchToLatestMain`: check out the main branch,
        delete the working branch and create it afresh from main. */
    method RecreateWorkingBranch(workingBranchName: string, mainBranchName: string) returns (r: Result<(), GitError>)
      requires workingBranchName != mainBranchName
      requires Valid()
      modifies this
      ensures Valid()
      ensures Extends(log, old(log))
      ensures r.Err? ==> r.error.kind == CheckoutFailed
      ensures r.Ok? ==>
        && |log| >= |old(log)| + 2
        && log[|log| - 2..] == [GitDeleteBranch(workingBranchName), GitCheckoutNew(workingBranchName)]
        && RecreateCommands(log[|old(log)|..], workingBranchName, mainBranchName)
        && currentBranch == Some(Branch(workingBranchName, true))
        && head == Some(workingBranchName) && workingBranchName in locals
    {
      var checkoutMain := CheckoutExisting(mainBranchName);
      if checkoutMain.Err? {
        r := Err(checkoutMain.error);
        return;
      }
      ghost var beforeDelete := log;
      r := DeleteAndCreate(workingBranchName, mainBranchName);
      if r.Err? {
        return;
      }
      ExtendsAppend(old(log), beforeDelete, [GitDeleteBranch(workingBranchName), GitCheckoutNew(workingBranchName)]);
      assert log[|old(log)|..][..|log| - |old(log)| - 2] == beforeDelete[|old(log)|..];
    }

    /** The last steps of the fallback, with the main branch checked out: delete the
        working branch, create it afresh, and make sure the new current branch is not
        the main branch. */
    method DeleteAndCreate(workingBranchName: string, mainBranchName: string) returns (r: Result<(), GitError>)
      requires workingBranchName != mainBranchName
      requires Valid()
      modifies this
      ensures Valid()
      ensures Extends(log, old(log))
      ensures r.Err? ==> r.error.kind == CheckoutFailed
      ensures r.Ok? ==>
        && log == old(log) + [GitDeleteBranch(workingBranchName), GitCheckoutNew(workingBranchName)]
        && currentBranch == Some(Branch(workingBranchName, true))
        && head == Some(workingBranchName) && workingBranchName in locals
    {
      DeleteBranch(workingBranchName);
      var recreate := CheckoutBranch(workingBranchName, true);
      if recreate.Err? {
        r := Err(recreate.error);
        return;
      }
      var current := CurrentBranch();
      if current.None? {
        r := Err(NewGitError("Failed to find current branch", Id(), None));
        return;
      }
      if current.value.name == mainBranchName {
        r := Err(NewGitError(MainBranchMessage, Id(), None));
        return;
      }
      r := Ok(());
    }

    /** `resetBranch`: stage, hard-reset and fetch, then update to the latest main. */
    method ResetBranch(workingBranchName: string) returns (r: Result<(), GitError>)
      requires Valid()
      modifies this
      ensures Valid()
      ensures Reconciled(workingBranchName, r)
      ensures |log| >= |old(log)| + 3 && log[..|old(log)| + 3] == old(log) + [GitAdd, GitResetHard, GitFetch]
      ensures r.Ok? ==> UpdateCommands(log[|old(log)| + 3..], workingBranchName)
      ensures old(OnBranch(workingBranchName)) && !NeedsRecreate(workingBranchName) && MainBranchName().Ok? ==>
        r.Ok? && currentBranch == old(currentBranch) && locals == old(locals) && head == old(head)
      ensures r.Ok? && (old(CacheAgrees()) || old(head) == Some(workingBranchName)) ==> head == Some(workingBranchName)
    {
      log := log + [GitAdd, GitResetHard, GitFetch];
      ghost var afterFetch := log;
      r := UpdateBranchToLatestMain(workingBranchName);
      assert log[..|afterFetch|] == afterFetch;
    }

    /** `prepareForUpdate`: check out the working branch, then reset and update it. */
    method PrepareForUpdate(workingBranchName: string) returns (r: Result<Repository, GitError>)
      requires Valid()
      modifies this
      ensures Valid()
      ensures r.Ok? ==> r.value == this
      ensures Extends(log, old(log))
      ensures r.Ok? ==> Reconciled(workingBranchName, Ok(()))
      ensures r.Ok? ==> PrepareCommands(log[|old(log)|..], workingBranchName)
      ensures r.Err? && r.error.kind == Generic ==>
        MainBranchName().Ok? && workingBranchName == MainBranchName().value
      ensures r.Err? && MainBranchName().Ok? ==> r.error.kind == CheckoutFailed || r.error.kind == Generic
      ensures old(OnBranch(workingBranchName)) && !NeedsRecreate(workingBranchName) && MainBranchName().Ok? ==>
        r.Ok? && currentBranch == old(currentBranch) && locals == old(locals) && head == old(head)
      ensures r.Ok? && (old(CacheAgrees()) || old(head) == Some(workingBranchName)) ==> head == Some(workingBranchName)
    {
      var checkout := CheckoutExisting(workingBranchName);
      if checkout.Err? {
        r := Err(checkout.error);
        return;
      }
      ghost var afterCheckout := log;
      var reset := ResetBranch(workingBranchName);
      assert log[..|afterCheckout|] == afterCheckout;
      if reset.Err? {
        r := Err(reset.error);
        return;
      }
      PrepareFromUpdate(log, old(log), afterCheckout, workingBranchName);
      r := Ok(this);
    }

    /** `PrepareFromParts` for the commands of this repository's update. */
    lemma PrepareFromUpdate(log: seq<Command>, before: seq<Command>, afterCheckout: seq<Command>, workingBranchName: string)
      requires Extends(afterCheckout, before) && AtMostCheckoutOf(afterCheckout[|before|..], workingBranchName)
      requires |log| >= |afterCheckout| + 3
      requires log[..|afterCheckout| + 3] == afterCheckout + [GitAdd, GitResetHard, GitFetch]
      requires UpdateCommands(log[|afterCheckout| + 3..], workingBranchName)
      ensures Extends(log, before) && PrepareCommands(log[|before|..], workingBranchName)
    {
      PrepareFromParts(log, before, afterCheckout, workingBranchName, RemoteName().value + "/" + MainBranchName().value,
                       MainBranchName().value, NeedsRecreate(workingBranchName));
    }

    /** `Repository.fromAddressAndCwd`. */
    static method FromAddressAndCwd(address: string, cwd: string, env: GitEnv, locals: seq<string>, head: Option<string>)
      returns (r: Option<Repository>)
      requires forall n :: n in locals ==> ValidBranchName(n)
      ensures r.Some? ==> r.value.Valid()
      ensures r.Some?
      ensures fresh(r.value) && Some(r.value.Id()) == RepoIdFromAddressAndCwd(address, cwd)
      ensures r.value.currentBranch == None && r.value.log == []
    {
      match RepoIdFromAddressAndCwd(address, cwd)
      case None => r := None;
      case Some(id) =>
        var repository := new Repository(id, env, locals, head);
        r := Some(repository);
    }
  }

  lemma ExampleNamesValid()
    ensures ValidBranchName("main") && ValidBranchName("feature")
  {
    assert forall i :: 0 <= i < |"main"| ==> "main"[i] in {'m', 'a', 'i', 'n'};
    assert forall i :: 0 <= i < |"feature"| ==> "feature"[i] in {'f', 'e', 'a', 't', 'u', 'r'};
  }

  /** The cache is not refreshed by `checkoutBranch` on an existing branch: after
      creating `feature` from `main` and checking `main` out again, the working copy
      is on `main` while `getCurrentBranch` still reports `feature`. */
  method StaleCacheAfterSwitch(env: GitEnv) returns (reported: Option<Branch>, checkedOut: Option<string>)
    requires !Failed(env.createCode("feature")) && !Failed(env.checkoutCode("main"))
    ensures reported == Some(Branch("feature", true))
    ensures checkedOut == Some("main")
  {
    ExampleNamesValid();
    var repo := new Repository(RepoId("repo", "git@host:owner/repo.git", "/work/repo"), env, ["main"], Some("main"));
    assert repo.Listing() == [Branch("main", true)];
    var created := repo.CheckoutBranch("feature", false);
    assert repo.locals == ["main", "feature"];
    assert repo.Listing()[0] == Branch("main", false);
    var back := repo.CheckoutBranch("main", false);
    reported := repo.CurrentBranch();
    checkedOut := repo.head;
  }

  /** The stale cache carries over to `prepareForUpdate`: with `feature` cached while
      `main` is checked out, preparing `feature` takes the cached branch for the
      checked-out one, skips the checkout, rebases whatever is checked out, and
      succeeds with `main` still checked out. */
  method StaleCachePrepare(env: GitEnv) returns (r: Result<Repository, GitError>, checkedOut: Option<string>)
    requires !Failed(env.createCode("feature")) && !Failed(env.checkoutCode("main"))
    requires env.rebaseSucceeds && HasBranchNamed(GetRemoteBranches(env.lsRemoteOutput), "feature")
    requires !Failed(env.repoViewCode) && env.defaultBranchRef == Ok("main")
    ensures r.Ok?
    ensures checkedOut == Some("main")
  {
    ExampleNamesValid();
    var repo := new Repository(RepoId("repo", "git@host:owner/repo.git", "/work/repo"), env, ["main"], Some("main"));
    assert repo.Listing() == [Branch("main", true)];
    var created := repo.CheckoutBranch("feature", false);
    assert repo.locals == ["main", "feature"];
    assert repo.Listing()[0] == Branch("main", false);
    var back := repo.CheckoutBranch("main", false);
    assert repo.OnBranch("feature") && repo.head == Some("main");
    r := repo.PrepareForUpdate("feature");
    checkedOut := repo.head;
  }
}
