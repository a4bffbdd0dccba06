/** src/codemods/utils.ts: running codemods over the files of a checkout. A codemod
    declares languages; their extension sets select the glob items it targets;
    each target is read, transformed, post-processed and written back when the
    transformer applied changes and the run is not dry. Every failure along one
    file becomes that file's `err`. `runCodemods` runs a list of codemods one after
    the other over one glob listing and keys the results by codemod name.

    The file system is a value: the readable files with their text, and the paths
    that may be written. A codemod's writes are applied before the next codemod
    runs, since the source awaits each codemod before starting the next. */
module CodemodRunner {
  import opened Wrappers
  import opened Strings
  import opened Records
  import opened Results
  import opened CodemodConstants

  /** What the transformer reports: `report.changesApplied` and the text of the
      transformed tree, `ast.root().text()`. */
  datatype Modifications = Modifications(changesApplied: int, rootText: string)

  /** A codemod: its name, its declared languages and its transformer, which gets a
      file's content and full path and returns modifications or throws. */
  datatype Codemod = Codemod(
    name: string,
    languages: seq<string>,
    transformer: (string, string) -> Completion<Modifications>)

  /** `RunCodemodHooks`, each hook optional. */
  datatype RunCodemodHooks = RunCodemodHooks(
    targetFiltering: Option<string -> bool>,
    preCodemodRun: Option<Codemod -> Completion<()>>,
    postTransform: Option<string -> Completion<string>>)

  /** `RunCodemodOptions`, each option optional. */
  datatype RunCodemodOptions = RunCodemodOptions(hooks: Option<RunCodemodHooks>, log: Option<bool>, dry: Option<bool>)

  /** `Required<RunCodemodHooks>`. */
  datatype Hooks = Hooks(
    targetFiltering: string -> bool,
    preCodemodRun: Codemod -> Completion<()>,
    postTransform: string -> Completion<string>)

  datatype Defaulted = Defaulted(hooks: Hooks, log: bool, dry: bool)

  /** `defaultedHooks`: a missing filter accepts every path, a missing `postTransform`
      returns its input, a missing `preCodemodRun` does nothing; given hooks are kept. */
  function DefaultedHooks(hooks: Option<RunCodemodHooks>): (r: Hooks)
    ensures (hooks.None? || hooks.value.targetFiltering.None?) ==> forall p :: r.targetFiltering(p)
    ensures hooks.Some? && hooks.value.targetFiltering.Some? ==>
      forall p :: r.targetFiltering(p) == hooks.value.targetFiltering.value(p)
    ensures (hooks.None? || hooks.value.postTransform.None?) ==> forall t :: r.postTransform(t) == Normal(t)
    ensures hooks.Some? && hooks.value.postTransform.Some? ==>
      forall t :: r.postTransform(t) == hooks.value.postTransform.value(t)
    ensures (hooks.None? || hooks.value.preCodemodRun.None?) ==> forall c :: r.preCodemodRun(c) == Normal(())
    ensures hooks.Some? && hooks.value.preCodemodRun.Some? ==>
      forall c :: r.preCodemodRun(c) == hooks.value.preCodemodRun.value(c)
  {
    var targetFiltering := if hooks.Some? && hooks.value.targetFiltering.Some? then hooks.value.targetFiltering.value else (_ => true);
    var postTransform := if hooks.Some? && hooks.value.postTransform.Some? then hooks.value.postTransform.value else (t => Normal(t));
    var preCodemodRun := if hooks.Some? && hooks.value.preCodemodRun.Some? then hooks.value.preCodemodRun.value else (_ => Normal(()));
    Hooks(targetFiltering, preCodemodRun, postTransform)
  }

  /** `defaultedOptions`: logging on and dry mode off unless given. */
  function DefaultedOptions(options: Option<RunCodemodOptions>): (r: Defaulted)
    ensures r.log == (if options.Some? && options.value.log.Some? then options.value.log.value else true)
    ensures r.dry == (options.Some? && options.value.dry == Some(true))
    ensures r.hooks == DefaultedHooks(if options.Some? then options.value.hooks else None)
  {
    match options
    case None => Defaulted(DefaultedHooks(None), true, false)
    case Some(o) =>
      Defaulted(DefaultedHooks(o.hooks),
                if o.log.Some? then o.log.value else true,
                if o.dry.Some? then o.dry.value else false)
  }

  /** The union of the extension sets `lookup` gives the declared languages,
      skipping languages it does not list. */
  function ExtensionSetIn(lookup: string -> Option<set<string>>, languages: seq<string>): set<string> {
    if languages == [] then {}
    else
      var acc := ExtensionSetIn(lookup, languages[..|languages| - 1]);
      match lookup(languages[|languages| - 1])
      case None => acc
      case Some(e) => acc + e
  }

  /** The extension set of a codemod, from the language table. */
  function ExtensionSet(languages: seq<string>): set<string> {
    ExtensionSetIn(ExtensionsFor, languages)
  }

  lemma {:induction false} ExtensionSetInMembers(lookup: string -> Option<set<string>>, languages: seq<string>, x: string)
    ensures x in ExtensionSetIn(lookup, languages) <==>
      exists i :: 0 <= i < |languages| && lookup(languages[i]).Some? && x in lookup(languages[i]).value
  {
    if languages != [] {
      var init := languages[..|languages| - 1];
      ExtensionSetInMembers(lookup, init, x);
      if exists i :: 0 <= i < |init| && lookup(init[i]).Some? && x in lookup(init[i]).value {
        var i :| 0 <= i < |init| && lookup(init[i]).Some? && x in lookup(init[i]).value;
        assert languages[i] == init[i];
      }
      if exists i :: 0 <= i < |languages| && lookup(languages[i]).Some? && x in lookup(languages[i]).value {
        var i :| 0 <= i < |languages| && lookup(languages[i]).Some? && x in lookup(languages[i]).value;
        if i < |init| { assert init[i] == languages[i]; }
      }
    }
  }

  /** An extension is targeted exactly when the table lists it for one of the
      declared languages. */
  lemma ExtensionSetMembers(languages: seq<string>, x: string)
    ensures x in ExtensionSet(languages) <==>
      exists i :: 0 <= i < |languages| && ExtensionsFor(languages[i]).Some? && x in ExtensionsFor(languages[i]).value
  {
    ExtensionSetInMembers(ExtensionsFor, languages, x);
  }

  lemma ExtensionSetPair(lookup: string -> Option<set<string>>, a: string, b: string)
    ensures ExtensionSetIn(lookup, [a, b])
         == ExtensionSetIn(lookup, [a]) + (match lookup(b) case None => {} case Some(e) => e)
    ensures ExtensionSetIn(lookup, [a]) == (match lookup(a) case None => {} case Some(e) => e)
  {
    assert [a, b][..1] == [a];
    assert [a][..0] == [];
  }

  /** A codemod for TypeScript and Tsx targets the TypeScript extensions and `.jsx`/`.tsx`. */
  lemma ExtensionSetOfTypeScriptAndTsx()
    ensures ExtensionSet([LangTypeScript, LangTsx]) == TypeScriptSet + TsxSet
  {
    ExtensionsForTypeScript();
    ExtensionsForJsx();
    ExtensionSetPair(ExtensionsFor, LangTypeScript, LangTsx);
  }

  /** `path.extname`, as a stand-in: the last `.`-suffix of the last `/`-segment,
      dot included; empty when that segment has no dot or only a leading one. */
  function ExtName(p: string): (e: string)
    ensures e == [] || (e[0] == '.' && '.' !in e[1..] && '/' !in e)
  {
    var base := LastSegment(p, '/');
    if '.' !in base || DropLastSegment(base, '.') == "" then ""
    else
      var suffix := LastSegment(base, '.');
      assert '/' !in suffix by {
        if '/' in suffix {
          LastSegmentChars(base, '.', '/');
        }
      }
      "." + suffix
  }

  /** A file `<stem>.<ext>` under any directory has extension `.<ext>`. */
  lemma ExtNameOfFile(dir: string, stem: string, ext: string)
    requires '/' !in stem && '/' !in ext && '.' !in ext && stem != ""
    ensures ExtName(dir + "/" + stem + "." + ext) == "." + ext
  {
    var base := stem + "." + ext;
    assert dir + "/" + stem + "." + ext == dir + ['/'] + base;
    assert '/' !in base;
    LastSegmentAfter(dir, '/', base);
    assert base == stem + ['.'] + ext;
    assert base[|stem|] == '.';
    DropLastSegmentAfter(stem, '.', ext);
    LastSegmentAfter(stem, '.', ext);
  }

  /** The target test: the hook accepts the path and, unless the extension set is
      empty, its extension is in the set. */
  predicate IsTarget(targetFiltering: string -> bool, extensions: set<string>, filepath: string) {
    targetFiltering(filepath) && (|extensions| == 0 || ExtName(filepath) in extensions)
  }

  /** `globItems.filter(...)`. */
  function Targets(globItems: seq<string>, targetFiltering: string -> bool, extensions: set<string>): seq<string> {
    if globItems == [] then []
    else
      (if IsTarget(targetFiltering, extensions, globItems[0]) then [globItems[0]] else [])
      + Targets(globItems[1..], targetFiltering, extensions)
  }

  /** A glob item is a target exactly when it passes the target test. */
  lemma {:induction false} TargetsMembers(globItems: seq<string>, targetFiltering: string -> bool, extensions: set<string>, p: string)
    ensures p in Targets(globItems, targetFiltering, extensions) <==>
      p in globItems && targetFiltering(p) && (|extensions| == 0 || ExtName(p) in extensions)
  {
    if globItems != [] {
      TargetsMembers(globItems[1..], targetFiltering, extensions, p);
      assert globItems == [globItems[0]] + globItems[1..];
    }
  }

  /** Filtering keeps glob order: it distributes over concatenation. */
  lemma {:induction false} TargetsConcat(a: seq<string>, b: seq<string>, targetFiltering: string -> bool, extensions: set<string>)
    ensures Targets(a + b, targetFiltering, extensions) == Targets(a, targetFiltering, extensions) + Targets(b, targetFiltering, extensions)
  {
    if a == [] {
      assert a + b == b;
    } else {
      assert (a + b)[1..] == a[1..] + b;
      TargetsConcat(a[1..], b, targetFiltering, extensions);
    }
  }

  /** `path.join(transformationPath, filepath)`, as a plain join. */
  function PathJoin(dir: string, filepath: string): string {
    dir + "/" + filepath
  }

  /** The files a run sees: their contents, and the paths that accept a write. */
  datatype FileSystem = FileSystem(files: map<string, string>, writable: set<string>)

  /** What a file's `err` holds: where in the try block it was thrown. */
  datatype FileError =
    | ReadFailed(path: string)
    | TransformThrew(thrown: string)
    | PostTransformThrew(thrown: string)
    | WriteFailed(path: string)

  /** One file's result and the write it made, if any. */
  datatype FileOutcome = FileOutcome(result: Result<Modifications, FileError>, written: Option<(string, string)>)

  /** The body of the per-file callback: read, transform and, when changes were
      applied, post-process and (unless dry) write; any throw is that file's `err`.
      A file is written exactly when every step succeeds, changes were applied and
      the run is not dry, and what is written is the post-processed tree text. */
  function ProcessFile(codemod: Codemod, hooks: Hooks, dry: bool, fs: FileSystem, fullPath: string): (o: FileOutcome)
    ensures o.written.Some? <==>
      && fullPath in fs.files
      && codemod.transformer(fs.files[fullPath], fullPath).Normal?
      && codemod.transformer(fs.files[fullPath], fullPath).value.changesApplied > 0
      && !dry
      && hooks.postTransform(codemod.transformer(fs.files[fullPath], fullPath).value.rootText).Normal?
      && fullPath in fs.writable
    ensures o.written.Some? ==>
      o.written.value == (fullPath, hooks.postTransform(codemod.transformer(fs.files[fullPath], fullPath).value.rootText).value)
    ensures o.result.Ok? <==>
      && fullPath in fs.files
      && codemod.transformer(fs.files[fullPath], fullPath).Normal?
      && (codemod.transformer(fs.files[fullPath], fullPath).value.changesApplied > 0 ==>
            hooks.postTransform(codemod.transformer(fs.files[fullPath], fullPath).value.rootText).Normal? &&
            (dry || fullPath in fs.writable))
    ensures o.result.Ok? ==> o.result.value == codemod.transformer(fs.files[fullPath], fullPath).value
  {
    if fullPath !in fs.files then FileOutcome(Err(ReadFailed(fullPath)), None)
    else
      var content := fs.files[fullPath];
      match codemod.transformer(content, fullPath)
      case Thrown(e) => FileOutcome(Err(TransformThrew(e)), None)
      case Normal(modifications) =>
        if modifications.changesApplied <= 0 then FileOutcome(Ok(modifications), None)
        else
          match hooks.postTransform(modifications.rootText)
          case Thrown(e) => FileOutcome(Err(PostTransformThrew(e)), None)
          case Normal(transformedContent) =>
            if dry then FileOutcome(Ok(modifications), None)
            else if fullPath !in fs.writable then FileOutcome(Err(WriteFailed(fullPath)), None)
            else FileOutcome(Ok(modifications), Some((fullPath, transformedContent)))
  }

  /** The results of a run, in target order, and the writes it made. */
  datatype RunOutcome = RunOutcome(results: seq<Result<Modifications, FileError>>, writes: seq<(string, string)>)

  /** `targets.map(...)` under `Promise.all`: each target on its own. */
  function ProcessTargets(codemod: Codemod, hooks: Hooks, dry: bool, fs: FileSystem,
                          transformationPath: string, targets: seq<string>): RunOutcome
  {
    if targets == [] then RunOutcome([], [])
    else
      var first := ProcessFile(codemod, hooks, dry, fs, PathJoin(transformationPath, targets[0]));
      var rest := ProcessTargets(codemod, hooks, dry, fs, transformationPath, targets[1..]);
      RunOutcome([first.result] + rest.results,
                 (if first.written.Some? then [first.written.value] else []) + rest.writes)
  }

  /** `runCodemod`. */
  function RunCodemod(codemod: Codemod, transformationPath: string, globItems: seq<string>,
                      options: Option<RunCodemodOptions>, fs: FileSystem): RunOutcome
  {
    var defaulted := DefaultedOptions(options);
    var extensions := ExtensionSet(codemod.languages);
    var targets := Targets(globItems, defaulted.hooks.targetFiltering, extensions);
    if |targets| == 0 then RunOutcome([], [])
    else ProcessTargets(codemod, defaulted.hooks, defaulted.dry, fs, transformationPath, targets)
  }

  /** Some target's file made the write `w`. */
  ghost predicate WrittenBy(codemod: Codemod, hooks: Hooks, dry: bool, fs: FileSystem,
                            transformationPath: string, targets: seq<string>, w: (string, string)) {
    exists i :: 0 <= i < |targets| && ProcessFile(codemod, hooks, dry, fs, PathJoin(transformationPath, targets[i])).written == Some(w)
  }

  lemma {:induction false} ProcessTargetsShape(codemod: Codemod, hooks: Hooks, dry: bool, fs: FileSystem,
                                               transformationPath: string, targets: seq<string>)
    ensures var r := ProcessTargets(codemod, hooks, dry, fs, transformationPath, targets);
      && |r.results| == |targets|
      && (forall i :: 0 <= i < |targets| ==>
            r.results[i] == ProcessFile(codemod, hooks, dry, fs, PathJoin(transformationPath, targets[i])).result)
      && (forall w :: w in r.writes <==> WrittenBy(codemod, hooks, dry, fs, transformationPath, targets, w))
  {
    if targets != [] {
      ProcessTargetsShape(codemod, hooks, dry, fs, transformationPath, targets[1..]);
      var r := ProcessTargets(codemod, hooks, dry, fs, transformationPath, targets);
      forall w ensures w in r.writes <==> WrittenBy(codemod, hooks, dry, fs, transformationPath, targets, w) {
        if exists i :: 0 <= i < |targets[1..]| &&
            ProcessFile(codemod, hooks, dry, fs, PathJoin(transformationPath, targets[1..][i])).written == Some(w) {
          var i :| 0 <= i < |targets[1..]| &&
            ProcessFile(codemod, hooks, dry, fs, PathJoin(transformationPath, targets[1..][i])).written == Some(w);
          assert targets[i + 1] == targets[1..][i];
        }
        if exists i :: 0 <= i < |targets| &&
            ProcessFile(codemod, hooks, dry, fs, PathJoin(transformationPath, targets[i])).written == Some(w) {
          var i :| 0 <= i < |targets| &&
            ProcessFile(codemod, hooks, dry, fs, PathJoin(transformationPath, targets[i])).written == Some(w);
          if i > 0 { assert targets[1..][i - 1] == targets[i]; }
        }
      }
    }
  }

  /** With no target, `runCodemod` returns no result and writes nothing. */
  lemma RunCodemodWithoutTargets(codemod: Codemod, transformationPath: string, globItems: seq<string>,
                                 options: Option<RunCodemodOptions>, fs: FileSystem)
    requires Targets(globItems, DefaultedOptions(options).hooks.targetFiltering, ExtensionSet(codemod.languages)) == []
    ensures RunCodemod(codemod, transformationPath, globItems, options, fs) == RunOutcome([], [])
  {
  }

  /** One result per target, in target order, each the outcome of that file alone;
      the writes are exactly those the files made. */
  lemma RunCodemodPerTarget(codemod: Codemod, transformationPath: string, globItems: seq<string>,
                            options: Option<RunCodemodOptions>, fs: FileSystem)
    ensures var d := DefaultedOptions(options);
      var targets := Targets(globItems, d.hooks.targetFiltering, ExtensionSet(codemod.languages));
      var r := RunCodemod(codemod, transformationPath, globItems, options, fs);
      && |r.results| == |targets|
      && (forall i :: 0 <= i < |targets| ==>
            r.results[i] == ProcessFile(codemod, d.hooks, d.dry, fs, PathJoin(transformationPath, targets[i])).result)
      && (forall w :: w in r.writes <==> WrittenBy(codemod, d.hooks, d.dry, fs, transformationPath, targets, w))
  {
    var d := DefaultedOptions(options);
    var targets := Targets(globItems, d.hooks.targetFiltering, ExtensionSet(codemod.languages));
    ProcessTargetsShape(codemod, d.hooks, d.dry, fs, transformationPath, targets);
  }

  lemma {:induction false} ProcessTargetsDry(codemod: Codemod, hooks: Hooks, fs: FileSystem,
                                             transformationPath: string, targets: seq<string>)
    ensures ProcessTargets(codemod, hooks, true, fs, transformationPath, targets).writes == []
  {
    if targets != [] {
      ProcessTargetsDry(codemod, hooks, fs, transformationPath, targets[1..]);
    }
  }

  /** A dry run writes nothing. */
  lemma DryRunWritesNothing(codemod: Codemod, transformationPath: string, globItems: seq<string>,
                            options: Option<RunCodemodOptions>, fs: FileSystem)
    requires DefaultedOptions(options).dry
    ensures RunCodemod(codemod, transformationPath, globItems, options, fs).writes == []
  {
    var d := DefaultedOptions(options);
    ProcessTargetsDry(codemod, d.hooks, fs, transformationPath,
      Targets(globItems, d.hooks.targetFiltering, ExtensionSet(codemod.languages)));
  }

  /** `preCodemodRun` is defaulted but never called: replacing it changes nothing. */
  lemma RunCodemodIgnoresPreCodemodRun(codemod: Codemod, transformationPath: string, globItems: seq<string>,
                                       options: RunCodemodOptions, hooks: RunCodemodHooks,
                                       other: Option<Codemod -> Completion<()>>, fs: FileSystem)
    requires options.hooks == Some(hooks)
    ensures RunCodemod(codemod, transformationPath, globItems, Some(options), fs)
         == RunCodemod(codemod, transformationPath, globItems, Some(options.(hooks := Some(hooks.(preCodemodRun := other)))), fs)
  {
    var h1 := DefaultedOptions(Some(options)).hooks;
    var h2 := DefaultedOptions(Some(options.(hooks := Some(hooks.(preCodemodRun := other))))).hooks;
    assert h1.targetFiltering == h2.targetFiltering && h1.postTransform == h2.postTransform;
    ProcessTargetsIgnorePreCodemodRun(codemod, h1, h2, DefaultedOptions(Some(options)).dry, fs, transformationPath,
      Targets(globItems, h1.targetFiltering, ExtensionSet(codemod.languages)));
  }

  lemma {:induction false} ProcessTargetsIgnorePreCodemodRun(codemod: Codemod, h1: Hooks, h2: Hooks, dry: bool, fs: FileSystem,
                                                             transformationPath: string, targets: seq<string>)
    requires h1.targetFiltering == h2.targetFiltering && h1.postTransform == h2.postTransform
    ensures ProcessTargets(codemod, h1, dry, fs, transformationPath, targets)
         == ProcessTargets(codemod, h2, dry, fs, transformationPath, targets)
  {
    if targets != [] {
      ProcessTargetsIgnorePreCodemodRun(codemod, h1, h2, dry, fs, transformationPath, targets[1..]);
    }
  }

  /** `fs.writeFile` for each recorded write, in order. */
  function ApplyWrites(fs: FileSystem, writes: seq<(string, string)>): FileSystem
    decreases |writes|
  {
    if writes == [] then fs
    else ApplyWrites(fs.(files := fs.files[writes[0].0 := writes[0].1]), writes[1..])
  }

  /** The record `runCodemods` builds from the first `|codemods|` runs, and the files
      after them. */
  function RunAll(codemods: seq<Codemod>, transformationPath: string, globItems: seq<string>,
                  options: Option<RunCodemodOptions>, fs: FileSystem): (Record<seq<Result<Modifications, FileError>>>, FileSystem)
  {
    if codemods == [] then ([], fs)
    else
      var before := RunAll(codemods[..|codemods| - 1], transformationPath, globItems, options, fs);
      var last := codemods[|codemods| - 1];
      var run := RunCodemod(last, transformationPath, globItems, options, before.1);
      (Assign(before.0, last.name, run.results), ApplyWrites(before.1, run.writes))
  }

  /** `runCodemods`: the codemods in list order, each over the same glob listing,
      each result list assigned under the codemod's name. A codemod named
      `__proto__` still runs (its writes happen) but its results become the
      object's prototype instead of an entry. */
  method RunCodemods(codemods: seq<Codemod>, transformationPath: string, globItems: seq<string>,
                     options: Option<RunCodemodOptions>, fs: FileSystem)
    returns (results: Record<seq<Result<Modifications, FileError>>>, after: FileSystem)
    ensures (results, after) == RunAll(codemods, transformationPath, globItems, options, fs)
    ensures KeysDistinct(results)
    ensures forall k :: k in Keys(results) <==> k != ProtoKey && exists i :: 0 <= i < |codemods| && codemods[i].name == k
  {
    results := [];
    after := fs;
    for i := 0 to |codemods|
      invariant (results, after) == RunAll(codemods[..i], transformationPath, globItems, options, fs)
    {
      assert codemods[..i + 1][..i] == codemods[..i];
      var run := RunCodemod(codemods[i], transformationPath, globItems, options, after);
      results := Assign(results, codemods[i].name, run.results);
      after := ApplyWrites(after, run.writes);
    }
    assert codemods[..|codemods|] == codemods;
    RunAllKeys(codemods, transformationPath, globItems, options, fs);
    assert forall k :: k in Names(codemods) <==> exists i :: 0 <= i < |codemods| && codemods[i].name == k;
  }

  /** The names of the codemods. */
  ghost function Names(codemods: seq<Codemod>): set<string> {
    set i | 0 <= i < |codemods| :: codemods[i].name
  }

  // The names of a sequence with one more codemod: a step of RunAllKeys, split out to keep that proof small.
  lemma NamesAppend(codemods: seq<Codemod>)
    requires codemods != []
    ensures Names(codemods) == Names(codemods[..|codemods| - 1]) + {codemods[|codemods| - 1].name}
  {
    var init := codemods[..|codemods| - 1];
    forall k | k in Names(codemods) ensures k in Names(init) + {codemods[|codemods| - 1].name} {
      var i :| 0 <= i < |codemods| && codemods[i].name == k;
      if i < |init| { assert init[i] == codemods[i]; }
    }
    forall k | k in Names(init) ensures k in Names(codemods) {
      var i :| 0 <= i < |init| && init[i].name == k;
      assert codemods[i] == init[i];
    }
    assert codemods[|codemods| - 1].name in Names(codemods);
  }

  /** The record has one key per distinct codemod name other than `__proto__`. */
  lemma {:induction false} RunAllKeys(codemods: seq<Codemod>, transformationPath: string, globItems: seq<string>,
                                      options: Option<RunCodemodOptions>, fs: FileSystem)
    ensures var r := RunAll(codemods, transformationPath, globItems, options, fs).0;
      KeysDistinct(r) && forall k :: k in Keys(r) <==> k in Names(codemods) && k != ProtoKey
  {
    if codemods != [] {
      var init := codemods[..|codemods| - 1];
      var last := codemods[|codemods| - 1];
      RunAllKeys(init, transformationPath, globItems, options, fs);
      var before := RunAll(init, transformationPath, globItems, options, fs);
      var run := RunCodemod(last, transformationPath, globItems, options, before.1);
      AssignPreservesDistinct(before.0, last.name, run.results);
      NamesAppend(codemods);
    }
  }

  /** The last codemod's results are assigned under its name over what the others built.
      One unfolding of `RunAll`, named so that the proofs that use it stay small. */
  lemma RunAllLast(codemods: seq<Codemod>, transformationPath: string, globItems: seq<string>,
                   options: Option<RunCodemodOptions>, fs: FileSystem)
    requires codemods != []
    ensures var before := RunAll(codemods[..|codemods| - 1], transformationPath, globItems, options, fs);
      var last := codemods[|codemods| - 1];
      RunAll(codemods, transformationPath, globItems, options, fs).0
        == Assign(before.0, last.name, RunCodemod(last, transformationPath, globItems, options, before.1).results)
  {
  }

  /** The last codemod's results are what its name selects; under `__proto__`
      nothing is stored. */
  lemma RunAllLastWins(codemods: seq<Codemod>, transformationPath: string, globItems: seq<string>,
                       options: Option<RunCodemodOptions>, fs: FileSystem)
    requires codemods != []
    ensures var last := codemods[|codemods| - 1];
      Get(RunAll(codemods, transformationPath, globItems, options, fs).0, last.name)
        == if last.name == ProtoKey then None
           else Some(RunCodemod(last, transformationPath, globItems, options,
                                RunAll(codemods[..|codemods| - 1], transformationPath, globItems, options, fs).1).results)
  {
    var before := RunAll(codemods[..|codemods| - 1], transformationPath, globItems, options, fs);
    var last := codemods[|codemods| - 1];
    RunAllLast(codemods, transformationPath, globItems, options, fs);
    AssignGetSame(before.0, last.name, RunCodemod(last, transformationPath, globItems, options, before.1).results);
    if last.name == ProtoKey {
      RunAllKeys(codemods[..|codemods| - 1], transformationPath, globItems, options, fs);
    }
  }

  /** The last codemod leaves the results under other names alone. */
  lemma RunAllKeepsOthers(codemods: seq<Codemod>, transformationPath: string, globItems: seq<string>,
                          options: Option<RunCodemodOptions>, fs: FileSystem, k: string)
    requires codemods != [] && k != codemods[|codemods| - 1].name
    ensures Get(RunAll(codemods, transformationPath, globItems, options, fs).0, k)
         == Get(RunAll(codemods[..|codemods| - 1], transformationPath, globItems, options, fs).0, k)
  {
    var before := RunAll(codemods[..|codemods| - 1], transformationPath, globItems, options, fs);
    var last := codemods[|codemods| - 1];
    RunAllLast(codemods, transformationPath, globItems, options, fs);
    AssignGetOther(before.0, last.name, RunCodemod(last, transformationPath, globItems, options, before.1).results, k);
  }

  /** A name used more than once keeps the results of its last codemod, run on the
      files as the codemods before it left them. */
  lemma {:induction false} RunAllLaterWins(codemods: seq<Codemod>, transformationPath: string, globItems: seq<string>,
                                           options: Option<RunCodemodOptions>, fs: FileSystem, i: nat)
    requires i < |codemods|
    requires forall j :: i < j < |codemods| ==> codemods[j].name != codemods[i].name
    ensures Get(RunAll(codemods, transformationPath, globItems, options, fs).0, codemods[i].name)
         == if codemods[i].name == ProtoKey then None
            else Some(RunCodemod(codemods[i], transformationPath, globItems, options,
                                 RunAll(codemods[..i], transformationPath, globItems, options, fs).1).results)
  {
    var init := codemods[..|codemods| - 1];
    if i == |codemods| - 1 {
      RunAllLastWins(codemods, transformationPath, globItems, options, fs);
    } else {
      assert init[i] == codemods[i] && init[..i] == codemods[..i];
      forall j | i < j < |init| ensures init[j].name != init[i].name {
        assert init[j] == codemods[j];
      }
      RunAllLaterWins(init, transformationPath, globItems, options, fs, i);
      RunAllKeepsOthers(codemods, transformationPath, globItems, options, fs, codemods[i].name);
    }
  }
}
