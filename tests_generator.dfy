/**
 * The selection, naming and write logic of `generate_tests` and the
 * working-directory and commit loops of `create_tests_for_repo`, from
 * `ibl_github_bot/tests_generator.py`.
 *
 * A path is its list of segments. The documents the loader finds are given
 * as a list of (path, content) pairs; the language model's reply for a
 * target file and Python's parser are parameters. What the code does to
 * the file system, to git and to GitHub is returned as a log of effects
 * and events, in the order in which they happen.
 */
module TestsGenerator {
  import opened Wrappers
  import opened PyStr
  import CodeParser

  type Path = seq<string>

  /** A loaded source file: `metadata["source"]` and `page_content`. */
  datatype Document = Document(source: Path, content: string)

  /** What `generate_tests` does to the file system. */
  datatype Effect =
    | CreateDir(dir: Path)
    | Touch(file: Path)
    | WriteFile(file: Path, text: string)

  /** The default of `exclude_dirs`. */
  const DefaultExcludeDirs: seq<string> := ["migrations"]

  /** `Path(p).parent.name`: the name of the directory holding `p` ("" at the root). */
  function ParentName(p: Path): string
  {
    if |p| >= 2 then p[|p| - 2] else ""
  }

  /** `Path(p).is_relative_to(base)`. */
  predicate IsUnder(p: Path, base: Path)
  {
    |base| <= |p| && p[..|base|] == base
  }

  /** A document the model is shown: its parent directory is not excluded. */
  predicate InContext(d: Document, excludeDirs: seq<string>)
  {
    ParentName(d.source) !in excludeDirs
  }

  /**
   * A document tests are generated for: it lies under `subPath`, its content
   * is not blank, and its parent directory is neither excluded nor "tests".
   */
  predicate IsTarget(d: Document, subPath: Path, excludeDirs: seq<string>)
  {
    IsUnder(d.source, subPath) && !IsBlank(d.content) && ParentName(d.source) !in excludeDirs + ["tests"]
  }

  /**
   * The first list comprehension of `generate_tests`: the documents whose
   * immediate parent directory is not excluded. Only the parent is looked
   * at, not the other segments of the path.
   */
  function ContextDocuments(docs: seq<Document>, excludeDirs: seq<string>): (r: seq<Document>)
    ensures |r| <= |docs|
    ensures forall d :: d in r <==> d in docs && InContext(d, excludeDirs)
  {
    if docs == [] then []
    else
      var rest := ContextDocuments(docs[..|docs| - 1], excludeDirs);
      var d := docs[|docs| - 1];
      assert forall e :: e in docs <==> e in docs[..|docs| - 1] || e == d by {
        assert docs == docs[..|docs| - 1] + [d];
      }
      if InContext(d, excludeDirs) then rest + [d] else rest
  }

  /** The list comprehension of the generation loop, over the context documents. */
  function TargetDocuments(context: seq<Document>, subPath: Path, excludeDirs: seq<string>): (r: seq<Document>)
    ensures |r| <= |context|
    ensures forall d :: d in r <==> d in context && IsTarget(d, subPath, excludeDirs)
    ensures forall k :: 0 <= k < |r| ==> IsUnder(r[k].source, subPath)
  {
    if context == [] then []
    else
      var rest := TargetDocuments(context[..|context| - 1], subPath, excludeDirs);
      var d := context[|context| - 1];
      assert forall e :: e in context <==> e in context[..|context| - 1] || e == d by {
        assert context == context[..|context| - 1] + [d];
      }
      var r := if IsTarget(d, subPath, excludeDirs) then rest + [d] else rest;
      assert forall k :: 0 <= k < |r| ==> IsUnder(r[k].source, subPath) by {
        forall k | 0 <= k < |r| ensures IsUnder(r[k].source, subPath) {
          if k < |rest| { assert r[k] == rest[k]; } else { assert r[k] == d; }
        }
      }
      r
  }

  /** `str(path)` of a relative path: its segments joined by "/", and "." for the empty path. */
  function RelativeName(rel: Path): string
  {
    if rel == [] then "." else Join(rel, "/")
  }

  /**
   * The name of the test file for a source at `rel` below the module:
   * "test_" followed by the relative path with every "/" replaced by "_".
   * The name is a single path segment.
   */
  function ArtifactName(rel: Path): (r: string)
    ensures StartsWith(r, "test_")
    ensures |r| == 5 + |RelativeName(rel)|
    ensures '/' !in r
  {
    var r := "test_" + Replace(RelativeName(rel), '/', '_');
    assert forall k :: 0 <= k < |r| ==> r[k] != '/' by {
      forall k | 5 <= k < |r| ensures r[k] != '/' {
        assert r[k] == Replace(RelativeName(rel), '/', '_')[k - 5];
      }
    }
    r
  }

  /**
   * The parse result for each document: the model's reply for its path,
   * run through `CodeParser.parse`.
   */
  function Outcomes(respond: Path -> string, syntaxOk: string -> bool): Document -> CodeParser.Parsed
  {
    (d: Document) => CodeParser.Parse(respond(d.source), syntaxOk)
  }

  /** A parse result that is written: it parsed, and the code is not blank. */
  predicate Succeeds(parsed: CodeParser.Parsed)
  {
    parsed.ok && !IsBlank(parsed.code)
  }

  /** `test_dir / ("test_" + ...)`: the test file of a target. */
  function TestFile(t: Document, subPath: Path, testDir: Path): Path
    requires IsUnder(t.source, subPath)
  {
    testDir + [ArtifactName(t.source[|subPath|..])]
  }

  /**
   * What the generation loop does for one target, given the parse result of
   * each document: write the test file only when parsing succeeded and the
   * code is not blank.
   */
  function WriteFor(t: Document, subPath: Path, testDir: Path, outcome: Document -> CodeParser.Parsed): (r: seq<Effect>)
    requires IsUnder(t.source, subPath)
  {
    if Succeeds(outcome(t)) then [WriteFile(TestFile(t, subPath, testDir), outcome(t).code)] else []
  }

  /** The writes of the generation loop over `targets`, in order. */
  function PlannedWrites(targets: seq<Document>, subPath: Path, testDir: Path, outcome: Document -> CodeParser.Parsed): (r: seq<Effect>)
    requires forall k :: 0 <= k < |targets| ==> IsUnder(targets[k].source, subPath)
  {
    if targets == [] then []
    else
      PlannedWrites(targets[..|targets| - 1], subPath, testDir, outcome)
      + WriteFor(targets[|targets| - 1], subPath, testDir, outcome)
  }

  /** One more target adds exactly its own writes. */
  lemma PlannedWritesStep(targets: seq<Document>, i: nat, subPath: Path, testDir: Path, outcome: Document -> CodeParser.Parsed)
    requires i < |targets|
    requires forall k :: 0 <= k < |targets| ==> IsUnder(targets[k].source, subPath)
    ensures PlannedWrites(targets[..i + 1], subPath, testDir, outcome)
      == PlannedWrites(targets[..i], subPath, testDir, outcome) + WriteFor(targets[i], subPath, testDir, outcome)
  {
    assert targets[..i + 1][..i] == targets[..i];
  }

  /** `test_dir.mkdir(exist_ok=True)`, then `__init__.py` created only when it does not exist yet. */
  function Setup(testDir: Path, existing: set<Path>): (r: seq<Effect>)
    ensures Touch(testDir + ["__init__.py"]) in r <==> testDir + ["__init__.py"] !in existing
    ensures |r| >= 1 && r[0] == CreateDir(testDir)
  {
    var init := testDir + ["__init__.py"];
    [CreateDir(testDir)] + (if init !in existing then [Touch(init)] else [])
  }

  /**
   * `generate_tests(directory, sub_path, test_dir, exclude_dirs)`: with no
   * context document it returns before touching the disk; otherwise it
   * prepares the test directory and runs the generation loop over the
   * targets. `existing` is the set of files present beforehand.
   */
  method GenerateTests(
    directory: Path, subPath: Option<Path>, testDir: Option<Path>, excludeDirs: seq<string>,
    docs: seq<Document>, existing: set<Path>, respond: Path -> string, syntaxOk: string -> bool)
    returns (log: seq<Effect>)
    ensures var sp := subPath.GetOr(directory);
      var td := testDir.GetOr(sp + ["tests"]);
      var context := ContextDocuments(docs, excludeDirs);
      && (context == [] ==> log == [])
      && (context != [] ==>
            log == Setup(td, existing) + PlannedWrites(TargetDocuments(context, sp, excludeDirs), sp, td, Outcomes(respond, syntaxOk)))
  {
    var sp := if subPath.None? then directory else subPath.value;
    var td := if testDir.None? then sp + ["tests"] else testDir.value;
    var context := ContextDocuments(docs, excludeDirs);
    if context == [] {
      return [];
    }
    log := Setup(td, existing);
    ghost var setup := log;
    ghost var outcome := Outcomes(respond, syntaxOk);
    var targets := TargetDocuments(context, sp, excludeDirs);
    for i := 0 to |targets|
      invariant log == setup + PlannedWrites(targets[..i], sp, td, outcome)
    {
      var t := targets[i];
      PlannedWritesStep(targets, i, sp, td, outcome);
      ghost var planned := PlannedWrites(targets[..i], sp, td, outcome);
      var parsed := CodeParser.Parse(respond(t.source), syntaxOk);
      assert parsed == outcome(t);
      if !parsed.ok {
        assert planned + [] == planned;
        continue;
      }
      if IsBlank(parsed.code) {
        assert planned + [] == planned;
        continue;
      }
      var w := WriteFile(TestFile(t, sp, td), parsed.code);
      AppendAssoc(setup, planned, [w]);
      log := log + [w];
    }
    assert targets[..|targets|] == targets;
  }

  // ----- Lemmas about selection, naming and writing -----

  lemma AppendAssoc<T>(a: seq<T>, b: seq<T>, c: seq<T>)
    ensures a + (b + c) == (a + b) + c
  {
  }

  /**
   * With the default `exclude_dirs`, files directly inside a `migrations`
   * directory are neither shown to the model nor targets.
   */
  lemma MigrationsHidden(d: Document, subPath: Path)
    requires ParentName(d.source) == "migrations"
    ensures !InContext(d, DefaultExcludeDirs)
    ensures !IsTarget(d, subPath, DefaultExcludeDirs)
  {
    assert DefaultExcludeDirs[0] == "migrations";
    assert (DefaultExcludeDirs + ["tests"])[0] == "migrations";
  }

  /**
   * The context filter keeps the documents in the loader's order: filtering
   * a concatenation filters each part and concatenates the results.
   */
  lemma {:induction false} ContextDocumentsAppend(a: seq<Document>, b: seq<Document>, excludeDirs: seq<string>)
    ensures ContextDocuments(a + b, excludeDirs) == ContextDocuments(a, excludeDirs) + ContextDocuments(b, excludeDirs)
    decreases |b|
  {
    if b == [] {
      assert a + b == a;
    } else {
      var init := b[..|b| - 1];
      assert (a + b)[..|a + b| - 1] == a + init;
      assert (a + b)[|a + b| - 1] == b[|b| - 1];
      ContextDocumentsAppend(a, init, excludeDirs);
    }
  }

  /**
   * The target filter keeps the context's order, so the targets are
   * written in that order.
   */
  lemma {:induction false} TargetDocumentsAppend(a: seq<Document>, b: seq<Document>, subPath: Path, excludeDirs: seq<string>)
    ensures TargetDocuments(a + b, subPath, excludeDirs) == TargetDocuments(a, subPath, excludeDirs) + TargetDocuments(b, subPath, excludeDirs)
    decreases |b|
  {
    if b == [] {
      assert a + b == a;
    } else {
      var init := b[..|b| - 1];
      assert (a + b)[..|a + b| - 1] == a + init;
      assert (a + b)[|a + b| - 1] == b[|b| - 1];
      TargetDocumentsAppend(a, init, subPath, excludeDirs);
    }
  }

  /** Every target is also a context document. */
  lemma TargetsInContext(docs: seq<Document>, subPath: Path, excludeDirs: seq<string>, d: Document)
    requires d in TargetDocuments(ContextDocuments(docs, excludeDirs), subPath, excludeDirs)
    ensures d in ContextDocuments(docs, excludeDirs) && d in docs
  {
  }

  /**
   * Exclusion looks at the parent directory only: a file inside a
   * subdirectory of an excluded directory is still shown to the model.
   */
  lemma OnlyParentChecked()
    ensures var d := Document(["repo", "migrations", "sub", "m.py"], "x = 1");
      d in ContextDocuments([d], ["migrations"])
  {
  }

  /** The test file of `test_file.py` at the top of the module is `test_test_file.py`. */
  lemma ArtifactOfTopLevelFile()
    ensures ArtifactName(["test_file.py"]) == "test_test_file.py"
  {
    var seg := "test_file.py";
    assert "test_" + seg == "test_test_file.py";
    assert RelativeName([seg]) == seg;
    ReplaceAbsent(seg);
  }

  /** For a nested source the name is "test_" and the segments joined by "_". */
  lemma ArtifactFlattens(rel: Path)
    requires rel != []
    requires forall n :: 0 <= n < |rel| ==> '/' !in rel[n]
    ensures ArtifactName(rel) == "test_" + Join(rel, "_")
  {
    ReplaceSeparator(rel);
  }

  /**
   * Flattening is not one-to-one: `a/b.py` and `a_b.py` get the same test
   * file, so the later write replaces the earlier one.
   */
  lemma ArtifactNamesCollide()
    ensures ArtifactName(["a", "b.py"]) == ArtifactName(["a_b.py"])
  {
    ArtifactFlattens(["a", "b.py"]);
    ArtifactFlattens(["a_b.py"]);
    assert Join(["a", "b.py"], "_") == "a_b.py";
  }

  /**
   * Every write of the generation loop goes to the test file of one of the
   * targets and holds that target's parsed code, which passed the syntax
   * check and is not blank.
   */
  lemma {:induction false} WritesAreSound(targets: seq<Document>, subPath: Path, testDir: Path, outcome: Document -> CodeParser.Parsed)
    requires forall k :: 0 <= k < |targets| ==> IsUnder(targets[k].source, subPath)
    ensures forall w :: w in PlannedWrites(targets, subPath, testDir, outcome) ==>
      w.WriteFile? && exists j :: (0 <= j < |targets| && Succeeds(outcome(targets[j])) &&
        w == WriteFile(TestFile(targets[j], subPath, testDir), outcome(targets[j]).code))
  {
    if targets != [] {
      var prefix := targets[..|targets| - 1];
      var last := targets[|targets| - 1];
      WritesAreSound(prefix, subPath, testDir, outcome);
      var before := PlannedWrites(prefix, subPath, testDir, outcome);
      var now := WriteFor(last, subPath, testDir, outcome);
      assert PlannedWrites(targets, subPath, testDir, outcome) == before + now;
      forall w: Effect | w in before + now
        ensures w.WriteFile? && exists j :: (0 <= j < |targets| && Succeeds(outcome(targets[j])) &&
          w == WriteFile(TestFile(targets[j], subPath, testDir), outcome(targets[j]).code))
      {
        if w in before {
          var j :| 0 <= j < |prefix| && Succeeds(outcome(prefix[j])) &&
            w == WriteFile(TestFile(prefix[j], subPath, testDir), outcome(prefix[j]).code);
          assert prefix[j] == targets[j];
        } else {
          assert targets[|targets| - 1] == last;
        }
      }
    }
  }

  /**
   * Conversely every target whose reply parses to non-blank code gets its
   * test file written with that code.
   */
  lemma {:induction false} WritesAreComplete(targets: seq<Document>, subPath: Path, testDir: Path, outcome: Document -> CodeParser.Parsed, j: nat)
    requires forall k :: 0 <= k < |targets| ==> IsUnder(targets[k].source, subPath)
    requires j < |targets|
    requires Succeeds(outcome(targets[j]))
    ensures WriteFile(TestFile(targets[j], subPath, testDir), outcome(targets[j]).code)
      in PlannedWrites(targets, subPath, testDir, outcome)
  {
    var n := |targets| - 1;
    var w := WriteFile(TestFile(targets[j], subPath, testDir), outcome(targets[j]).code);
    var before := PlannedWrites(targets[..n], subPath, testDir, outcome);
    var now := WriteFor(targets[n], subPath, testDir, outcome);
    PlannedWritesLast(targets, subPath, testDir, outcome);
    if j < n {
      assert w in before by {
        assert targets[..n][j] == targets[j];
        WritesAreComplete(targets[..n], subPath, testDir, outcome, j);
      }
    } else {
      assert j == n;
      WriteForSucceeds(targets[n], subPath, testDir, outcome);
    }
    assert w in before + now;
  }

  /** A target whose reply parses to non-blank code gets one write, of that code to its test file. */
  lemma WriteForSucceeds(t: Document, subPath: Path, testDir: Path, outcome: Document -> CodeParser.Parsed)
    requires IsUnder(t.source, subPath)
    requires Succeeds(outcome(t))
    ensures WriteFor(t, subPath, testDir, outcome) == [WriteFile(TestFile(t, subPath, testDir), outcome(t).code)]
  {
  }

  /** The last target's writes come after those of the targets before it. */
  lemma PlannedWritesLast(targets: seq<Document>, subPath: Path, testDir: Path, outcome: Document -> CodeParser.Parsed)
    requires targets != []
    requires forall k :: 0 <= k < |targets| ==> IsUnder(targets[k].source, subPath)
    ensures PlannedWrites(targets, subPath, testDir, outcome)
      == PlannedWrites(targets[..|targets| - 1], subPath, testDir, outcome) + WriteFor(targets[|targets| - 1], subPath, testDir, outcome)
  {
  }

  /**
   * What a written test file holds: the reply run through the three
   * normalisation steps, accepted by the syntax check and not blank.
   */
  lemma WrittenCodeParses(t: Document, respond: Path -> string, syntaxOk: string -> bool)
    requires Succeeds(Outcomes(respond, syntaxOk)(t))
    ensures Outcomes(respond, syntaxOk)(t).code == CodeParser.Normalise(respond(t.source))
    ensures syntaxOk(CodeParser.Normalise(respond(t.source)))
    ensures !IsBlank(CodeParser.Normalise(respond(t.source)))
  {
  }

  /** A second run over a test directory that already has `__init__.py` does not create it again. */
  lemma SetupIdempotent(testDir: Path, existing: set<Path>)
    ensures Setup(testDir, existing + {testDir + ["__init__.py"]}) == [CreateDir(testDir)]
  {
  }

  // ----- create_tests_for_repo -----

  /** What git, GitHub and the file system are asked to do, in order. */
  datatype Event =
    | FetchToken
    | Comment(repo: string, number: int, body: string)
    | MakeDir(dir: string)
    | Clone(url: string, dir: string, branch: string)
    | Checkout(branch: string)
    | Pull
    | CreateBranch(branch: string)
    | Generate(name: string)
    | Stage(path: string)
    | Commit(message: string)
    | SetRemoteUrl(url: string)
    | Push(source: string, target: string)
    | OpenPullRequest(repo: string, head: string, base: string)
    | RemoveTree(dir: string)

  /** An entry of the cloned repository's top directory. */
  datatype DirEntry = DirEntry(name: string, isDir: bool)

  /** Top-level directories `create_tests_for_repo` never generates tests for. */
  const SkippedDirs: seq<string> := [".git", "tests", "migrations", "__pycache__"]

  /** The URL the repository is cloned from, with the token as credentials. */
  function CloneUrl(token: string, repo: string): string
  {
    "https://" + token + "@github.com/" + repo + ".git"
  }

  /** The message of the commit for the module directory `name`. */
  function CommitMessage(name: string, date: string): string
  {
    "auto-generated tests for " + name + " on " + date
  }

  /**
   * The first of the drawn directory names that is not taken, by its
   * position among the draws, or `None` when every draw is taken.
   */
  function FirstFree(existing: set<string>, ids: seq<string>): (r: Option<nat>)
    ensures r.Some? ==> r.value < |ids| && ids[r.value] !in existing
    ensures r.Some? ==> forall k :: 0 <= k < r.value ==> ids[k] in existing
    ensures r.None? <==> forall k :: 0 <= k < |ids| ==> ids[k] in existing
  {
    if ids == [] then None
    else if ids[0] !in existing then Some(0)
    else
      match FirstFree(existing, ids[1..])
      case None => None
      case Some(k) => Some(k + 1)
  }

  /**
   * The directory-retry loop: draw names until one is not taken. The
   * random names come from `ids`.
   */
  method PickWorkDir(existing: set<string>, ids: seq<string>) returns (r: Option<nat>)
    ensures r == FirstFree(existing, ids)
  {
    var i := 0;
    while i < |ids| && ids[i] in existing
      invariant i <= |ids|
      invariant forall k :: 0 <= k < i ==> ids[k] in existing
    {
      i := i + 1;
    }
    r := if i < |ids| then Some(i) else None;
  }

  /** A top-level entry `create_tests_for_repo` generates and commits tests for. */
  predicate Eligible(e: DirEntry)
  {
    e.isDir && e.name !in SkippedDirs
  }

  /** What the loop does for one eligible directory: generate, stage its `tests`, commit. */
  function ModuleSteps(name: string, date: string): seq<Event>
  {
    [Generate(name), Stage(name + "/tests"), Commit(CommitMessage(name, date))]
  }

  /** The events of the per-module loop of `create_tests_for_repo`. */
  function CommitLoop(entries: seq<DirEntry>, date: string): seq<Event>
  {
    if entries == [] then []
    else (if Eligible(entries[0]) then ModuleSteps(entries[0].name, date) else []) + CommitLoop(entries[1..], date)
  }

  /** The names of the eligible entries, in order. */
  function EligibleNames(entries: seq<DirEntry>): (r: seq<string>)
    ensures forall n :: n in r ==> n !in SkippedDirs
  {
    if entries == [] then []
    else (if Eligible(entries[0]) then [entries[0].name] else []) + EligibleNames(entries[1..])
  }

  /** The messages of the commits in a trace, in order. */
  function Commits(trace: seq<Event>): seq<string>
  {
    if trace == [] then []
    else (if trace[0].Commit? then [trace[0].message] else []) + Commits(trace[1..])
  }

  /** The commit messages for a list of module names. */
  function Messages(names: seq<string>, date: string): (r: seq<string>)
    ensures |r| == |names|
    ensures forall k :: 0 <= k < |names| ==> r[k] == CommitMessage(names[k], date)
  {
    if names == [] then [] else [CommitMessage(names[0], date)] + Messages(names[1..], date)
  }

  lemma {:induction false} CommitsAppend(a: seq<Event>, b: seq<Event>)
    ensures Commits(a + b) == Commits(a) + Commits(b)
  {
    if a == [] {
      assert a + b == b;
    } else {
      assert (a + b)[0] == a[0] && (a + b)[1..] == a[1..] + b;
      CommitsAppend(a[1..], b);
    }
  }

  /**
   * Every eligible directory gets exactly one commit, and the commits come
   * in the order the directories are listed.
   */
  lemma {:induction false} OneCommitPerModule(entries: seq<DirEntry>, date: string)
    ensures Commits(CommitLoop(entries, date)) == Messages(EligibleNames(entries), date)
  {
    if entries != [] {
      var head := if Eligible(entries[0]) then ModuleSteps(entries[0].name, date) else [];
      CommitsAppend(head, CommitLoop(entries[1..], date));
      OneCommitPerModule(entries[1..], date);
      if Eligible(entries[0]) {
        StepsCommitOnce(entries[0].name, date);
      }
    }
  }

  /** The steps for one module hold exactly its commit. */
  lemma StepsCommitOnce(name: string, date: string)
    ensures Commits(ModuleSteps(name, date)) == [CommitMessage(name, date)]
  {
    var steps := ModuleSteps(name, date);
    assert steps[1..][1..][1..] == [];
    assert Commits(steps[1..][1..]) == [CommitMessage(name, date)];
  }

  /** The per-module loop of `create_tests_for_repo`. */
  method CommitModules(entries: seq<DirEntry>, date: string) returns (events: seq<Event>)
    ensures events == CommitLoop(entries, date)
  {
    events := [];
    for i := 0 to |entries|
      invariant CommitLoop(entries, date) == events + CommitLoop(entries[i..], date)
    {
      var rest := entries[i..];
      assert rest[0] == entries[i] && rest[1..] == entries[i + 1..];
      var step := if Eligible(entries[i]) then ModuleSteps(entries[i].name, date) else [];
      assert CommitLoop(rest, date) == step + CommitLoop(entries[i + 1..], date);
      events := events + step;
    }
  }

  /** Everything `create_tests_for_repo` does once it has its working directory `index`. */
  function RepoRun(repo: string, branch: string, token: string, cleanup: bool, index: string, entries: seq<DirEntry>, date: string): seq<Event>
    requires |Split(repo, '/')| == 2
  {
    var newBranch := "auto-tests-" + index;
    [MakeDir(index), Clone(CloneUrl(token, repo), index, branch), Checkout(branch), Pull, CreateBranch(newBranch)]
    + CommitLoop(entries, date)
    + [Push(newBranch, newBranch), OpenPullRequest(repo, Split(repo, '/')[0] + ":" + newBranch, branch)]
    + (if cleanup then [RemoveTree(index)] else [])
  }

  /**
   * `create_tests_for_repo(username, repo, branch, token, cleanup)`. A
   * repository name that is not "owner/name" fails before anything happens.
   * Otherwise the run takes the first free directory name, clones, commits
   * per module, and then pushes and opens the pull request whatever the
   * loop did.
   */
  method CreateTestsForRepo(
    repo: string, branch: string, token: string, cleanup: bool,
    existing: set<string>, ids: seq<string>, entries: seq<DirEntry>, date: string)
    returns (trace: seq<Event>, pushed: bool)
    ensures pushed <==> |Split(repo, '/')| == 2 && FirstFree(existing, ids).Some?
    ensures !pushed ==> trace == []
    ensures pushed ==> trace == RepoRun(repo, branch, token, cleanup, ids[FirstFree(existing, ids).value], entries, date)
  {
    var parts := Split(repo, '/');
    if |parts| != 2 {
      return [], false;
    }
    var picked := PickWorkDir(existing, ids);
    if picked.None? {
      return [], false;
    }
    var index := ids[picked.value];
    var newBranch := "auto-tests-" + index;
    trace := [MakeDir(index), Clone(CloneUrl(token, repo), index, branch), Checkout(branch), Pull, CreateBranch(newBranch)];
    var committed := CommitModules(entries, date);
    trace := trace + committed;
    trace := trace + [Push(newBranch, newBranch), OpenPullRequest(repo, parts[0] + ":" + newBranch, branch)];
    if cleanup {
      trace := trace + [RemoveTree(index)];
    }
    pushed := true;
  }

  /**
   * Over the whole run the commits are exactly one per eligible directory,
   * in listing order: cloning, pushing and cleaning up commit nothing.
   */
  lemma RepoRunCommits(repo: string, branch: string, token: string, cleanup: bool, index: string, entries: seq<DirEntry>, date: string)
    requires |Split(repo, '/')| == 2
    ensures Commits(RepoRun(repo, branch, token, cleanup, index, entries, date)) == Messages(EligibleNames(entries), date)
  {
    var newBranch := "auto-tests-" + index;
    var head := [MakeDir(index), Clone(CloneUrl(token, repo), index, branch), Checkout(branch), Pull, CreateBranch(newBranch)];
    var loop := CommitLoop(entries, date);
    var tail := [Push(newBranch, newBranch), OpenPullRequest(repo, Split(repo, '/')[0] + ":" + newBranch, branch)]
      + (if cleanup then [RemoveTree(index)] else []);
    assert RepoRun(repo, branch, token, cleanup, index, entries, date) == (head + loop) + tail;
    NoCommits(head);
    NoCommits(tail);
    CommitsAppend(head, loop);
    CommitsAppend(head + loop, tail);
    OneCommitPerModule(entries, date);
  }

  /** Events without a commit among them contribute no commit message. */
  lemma {:induction false} NoCommits(t: seq<Event>)
    requires forall k :: 0 <= k < |t| ==> !t[k].Commit?
    ensures Commits(t) == []
  {
    if t != [] {
      assert forall k :: 0 <= k < |t[1..]| ==> t[1..][k] == t[k + 1];
      NoCommits(t[1..]);
    }
  }

  /** The push and the pull request happen even when no directory was eligible. */
  lemma PushIsUnconditional(repo: string, branch: string, token: string, cleanup: bool, index: string, entries: seq<DirEntry>, date: string)
    requires |Split(repo, '/')| == 2
    requires forall k :: 0 <= k < |entries| ==> !Eligible(entries[k])
    ensures var newBranch := "auto-tests-" + index;
      RepoRun(repo, branch, token, cleanup, index, entries, date) ==
      [MakeDir(index), Clone(CloneUrl(token, repo), index, branch), Checkout(branch), Pull, CreateBranch(newBranch),
       Push(newBranch, newBranch), OpenPullRequest(repo, Split(repo, '/')[0] + ":" + newBranch, branch)]
      + (if cleanup then [RemoveTree(index)] else [])
  {
    NoEligibleNoEvents(entries, date);
  }

  lemma {:induction false} NoEligibleNoEvents(entries: seq<DirEntry>, date: string)
    requires forall k :: 0 <= k < |entries| ==> !Eligible(entries[k])
    ensures CommitLoop(entries, date) == []
  {
    if entries != [] {
      assert forall k :: 0 <= k < |entries[1..]| ==> entries[1..][k] == entries[k + 1];
      NoEligibleNoEvents(entries[1..], date);
    }
  }
}
