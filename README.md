# ibl-ai-github-bot: a Dafny model of the test-generation bot

The bot generates pytest files for a Django repository with a language
model and pushes them back to GitHub. This project models its core in
Dafny and proves properties of that model:

- `configuration.dfy` models `ibl_github_bot/configuration.py`. This is the
  per-repository policy (exclusions, per-module settings) and the module
  dependency graph, with its transitive closure.
  - `DependencyGraph` is a class whose methods update its fields in place.
  - Python lists are shared by reference, so the exclude list is an object
    (`ExcludeList`). The in-place `+=` on the shared default list is part of
    the model.
  - A `defaultdict(set)` is a map in which a missing key reads as the empty
    set. Indexing it inserts that empty set.
- `code_parser.dfy` models `CodeParser.parse`. This is the three-step
  clean-up of the model's reply, followed by Python's syntax check, which
  is a parameter.
- `tests_generator.dfy` models `generate_tests` and `create_tests_for_repo`.
  - From `generate_tests`: which documents are shown to the model, which
    are targets, how a test file is named, and which files are written
    with what.
  - From `create_tests_for_repo`: the retry loop for the work directory and
    the commit per module.
  - File-system, git and GitHub actions come out as a log of effects or
    events, in order.
- `server.dfy` models `handle_pull_request_event` of `server.py`. On a pull
  request whose action contains "opened", the bot:
  1. posts a thank-you comment;
  2. clones the head branch;
  3. tries one top-level directory at a time until test generation succeeds
     for one of them;
  4. commits those tests, pushes to the head branch itself, opens a pull
     request and removes the clone.

  When no directory succeeds, the handler stops without publishing and
  leaves the clone behind.
- `pystr.dfy` gives Python's `str` operations their Python meaning: `in`,
  `find`, `strip`, `splitlines`, `split`, `join` and `replace`. It also
  holds the `Option` type used for `None`.

Three behaviours of the code are worth noting:

- `get_all_dependencies` includes the start module when it lies on a cycle.
  For a -> b -> a it gives {a, b}, not {b} (`Configuration.TwoCycle`).
- `generate_tests` excludes a file only by the name of its immediate parent
  directory. Other segments of its path are not checked
  (`TestsGenerator.OnlyParentChecked`).
- `create_tests_for_repo` pushes and opens a pull request even when no
  directory was committed (`TestsGenerator.PushIsUnconditional`).

The server's exclude list comes from `DependencyGraph.get_global_settings()`.
Because of the inverted constructor guard (see Findings), that list is
always the default list.

## Model

| member | source | states |
|---|---|---|
| Configuration.DependencyGraph.constructor | ibl_github_bot/configuration.py:42-51 | As written. The global settings are the default configuration, and its exclude list is the same object, not a copy. Modules and graph are empty whatever the policy file holds, because the policy is read only when the file does not exist. |
| Configuration.DependencyGraph.Load | ibl_github_bot/configuration.py:42-51 | Corrected constructor. For a present file, every declared module is recorded, each setting falls back to its default separately, and the graph is exactly its declared edges. A non-empty declared exclude list becomes a fresh list with the hard exclusions appended, and the shared default list is unchanged. Otherwise the shared default list is used and grows by the hard exclusions in place. A missing or empty file leaves the defaults, the shared list unchanged and an empty graph. |
| Configuration.DefaultHasBaseline | ibl_github_bot/configuration.py:23-29 | The default exclude list starts with the hard-coded exclusions, in their order, followed by three more names. |
| Configuration.DependencyGraph.GetSettings | ibl_github_bot/configuration.py:64-68 | A record is returned exactly for a declared module, and it is the stored record. Any other name gives `None`. |
| Configuration.DependencyGraph.GetDependencies | ibl_github_bot/configuration.py:70-74 | Returns the module's successors; an unknown module gives the empty set, never `None`. The only change to the graph is an inserted empty entry. |
| Configuration.DependencyGraph.LoadConfig | ibl_github_bot/configuration.py:76-103 | A missing file changes nothing. An empty file fails and changes nothing. Otherwise each setting falls back to its default separately, and every declared module is recorded. A non-empty declared exclude list becomes a fresh list with the hard exclusions appended. A missing or empty one selects the shared default list, which grows by the hard exclusions in place. The hard exclusions stay in both lists. |
| Configuration.DependencyGraph.RecordModules | ibl_github_bot/configuration.py:97-103 | Every declared module is recorded, with absent `depends_on` and `exclude` read as empty lists. |
| Configuration.DependencyGraph.BuildDependencyGraph | ibl_github_bot/configuration.py:105-108 | The graph gains exactly the declared edges. A key is created only for a module that declares a dependency. |
| Configuration.DependencyGraph.AddDependencies | ibl_github_bot/configuration.py:107-108 | The inner loop adds the edge from the module to each listed dependency. |
| Configuration.BuiltStep | ibl_github_bot/configuration.py:106-108 | One more module processed adds exactly that module's declared edges. |
| Configuration.BuildFromEmpty | ibl_github_bot/configuration.py:105-108 | From an empty graph, `d` is a direct dependency of `m` if and only if `m` is declared and lists `d`. |
| Configuration.BuildIdempotent | ibl_github_bot/configuration.py:105-108 | Building the graph a second time adds no edge and no key. |
| Configuration.DependencyGraph.GetAllExcludes | ibl_github_bot/configuration.py:110-115 | As written. Returns the global exclude list object itself, after appending "module/" + e in place for each entry of a non-empty module-local list. The hard exclusions remain. |
| Configuration.LiteralModulePrefix | ibl_github_bot/configuration.py:114 | As written, a local exclusion "migrations" of module "core" becomes "module/migrations", not "core/migrations". |
| Configuration.DependencyGraph.ResolvedExcludes | ibl_github_bot/configuration.py:110-115 | Corrected. The global list unchanged, followed by each local exclusion under the module's own directory. Unknown modules get the global list, and the hard exclusions are always present. |
| Configuration.Namespaced | ibl_github_bot/configuration.py:114 | Each local exclusion gets the literal prefix "module/", in order, one for one. |
| Configuration.DependencyGraph.GetDirectDependencies | ibl_github_bot/configuration.py:117-118 | The declared successors, or empty for an unknown module, without inserting a key. |
| Configuration.DependencyGraph.GetAllDependencies | ibl_github_bot/configuration.py:120-129 | The result is exactly the set of modules reachable by one or more edges, on every graph, cycles included. The graph's edges are unchanged. |
| Configuration.DependencyGraph.Visit | ibl_github_bot/configuration.py:120-129 | One recursive call with its shared `visited` set. Everything returned is reachable. Every module it newly visits has all its successors in the result. |
| Configuration.TwoCycle | ibl_github_bot/configuration.py:120-129 | On a -> b -> a, the modules reachable from a are exactly a and b. |
| Configuration.NoEdgesNoReach | ibl_github_bot/configuration.py:124-128 | A module without direct dependencies reaches nothing. |
| CodeParser.DropFenceLine | ibl_github_bot/tests_generator.py:26-27 | A reply that does not open with "```\n" or "```python\n" is unchanged. |
| CodeParser.DropFenceLineExact | ibl_github_bot/tests_generator.py:26-27 | The opening fence line is removed and the rest comes back unchanged, when it uses "\n" line breaks and does not end with one. |
| CodeParser.StripClosingFence | ibl_github_bot/tests_generator.py:28-29 | A reply without a closing fence is unchanged. Otherwise neither end of the result is whitespace. |
| CodeParser.StripTakesCharacters | ibl_github_bot/tests_generator.py:28-29 | `strip("\n```")` removes any run of newlines and backticks at either end, from the fence or from the code itself. |
| CodeParser.CutAtInnerFence | ibl_github_bot/tests_generator.py:31-36 | The text is cut at its first fence line exactly under the two conditions of the source, stated by positions. A cut result contains no fence line. Otherwise the text is unchanged. |
| CodeParser.CutBeforeProse | ibl_github_bot/tests_generator.py:31-34 | For code without backticks, followed by a newline, a fence line and non-empty prose without backticks that does not start with "#": only the code and its newline are kept. |
| CodeParser.Parse | ibl_github_bot/tests_generator.py:25-45 | The same normalised text is returned whatever the verdict. The verdict is exactly the syntax check of that text. |
| CodeParser.WrappedResponse | ibl_github_bot/tests_generator.py:25-37 | A reply that is only fenced code comes out as exactly the code. This holds when the code is non-empty, has no backtick, uses only "\n" line breaks, and has no whitespace at either end. Otherwise the strip steps can take more, as in `StripTakesCharacters`. |
| CodeParser.TrailingProse | ibl_github_bot/tests_generator.py:25-37 | Fenced code followed by a fence line and prose comes out as the code and a newline. This holds when neither the code nor the prose has a backtick and both use only "\n" breaks. The prose must also be non-empty, must not start with "#" and must not end with "\n". |
| TestsGenerator.ParentName | ibl_github_bot/tests_generator.py:155 | `Path(p).parent.name`: the second-to-last segment, and "" for a one-segment path, as `Path("a.py").parent.name == ""`. |
| TestsGenerator.IsUnder | ibl_github_bot/tests_generator.py:195 | `Path(p).is_relative_to(base)`: the segments of `base` are a prefix of those of `p`, so every path is under the empty path and under itself. |
| TestsGenerator.RelativeName | ibl_github_bot/tests_generator.py:234 | `str(path)` of a relative path: its segments joined by "/", and "." for the empty path. |
| TestsGenerator.ContextDocuments | ibl_github_bot/tests_generator.py:152-156 | A document is kept if and only if its parent directory is not excluded. |
| TestsGenerator.TargetDocuments | ibl_github_bot/tests_generator.py:191-199 | A document is a target if and only if it is in the context, lies under the sub-path, is not blank, and its parent is neither excluded nor "tests". |
| TestsGenerator.TargetsInContext | ibl_github_bot/tests_generator.py:191-199 | Every target is a loaded context document. |
| TestsGenerator.OnlyParentChecked | ibl_github_bot/tests_generator.py:155 | A file inside a subdirectory of an excluded directory is still shown to the model. |
| TestsGenerator.MigrationsHidden | ibl_github_bot/tests_generator.py:134-156 | With the default `exclude_dirs`, a file directly inside `migrations` is neither in the context nor a target. |
| TestsGenerator.ContextDocumentsAppend | ibl_github_bot/tests_generator.py:152-156 | The context filter keeps the loader's order: filtering a concatenation concatenates the filtered parts. |
| TestsGenerator.TargetDocumentsAppend | ibl_github_bot/tests_generator.py:191-199 | The target filter keeps the context's order, which is the order the test files are written in. |
| TestsGenerator.ArtifactName | ibl_github_bot/tests_generator.py:230-237 | The test file name starts with "test_", has length 5 plus that of the relative path, and is a single segment. |
| TestsGenerator.ArtifactOfTopLevelFile | ibl_github_bot/tests_generator.py:230-237 | `test_file.py` gets `test_test_file.py`. |
| TestsGenerator.ArtifactFlattens | ibl_github_bot/tests_generator.py:233-236 | A nested source gets "test_" followed by its segments joined by "_". |
| TestsGenerator.ArtifactNamesCollide | ibl_github_bot/tests_generator.py:230-240 | `a/b.py` and `a_b.py` get the same test file. |
| TestsGenerator.Setup | ibl_github_bot/tests_generator.py:161-163 | The test directory is created first. `__init__.py` is touched if and only if it does not exist. |
| TestsGenerator.SetupIdempotent | ibl_github_bot/tests_generator.py:161-163 | With `__init__.py` already present, only the directory step remains. |
| TestsGenerator.GenerateTests | ibl_github_bot/tests_generator.py:130-240 | Without context documents nothing is done. Otherwise the log is the setup followed by, for each target in order, one write of its parsed code exactly when parsing succeeded and the code is not blank. |
| TestsGenerator.WritesAreSound | ibl_github_bot/tests_generator.py:215-240 | Every write goes to some target's test file and holds that target's successfully parsed, non-blank code. |
| TestsGenerator.WritesAreComplete | ibl_github_bot/tests_generator.py:215-240 | Every target whose reply parses to non-blank code has its test file written with that code. |
| TestsGenerator.WrittenCodeParses | ibl_github_bot/tests_generator.py:215-225 | Written code is the normalised reply, passes the syntax check and is not blank. |
| TestsGenerator.FirstFree | ibl_github_bot/tests_generator.py:263-265 | The first drawn name that is not taken, with all earlier draws taken, or `None` if and only if every draw is taken. |
| TestsGenerator.PickWorkDir | ibl_github_bot/tests_generator.py:263-265 | The retry loop stops at the first free drawn name. |
| TestsGenerator.EligibleNames | ibl_github_bot/tests_generator.py:281-287 | No skipped directory name is eligible. |
| TestsGenerator.CommitModules | ibl_github_bot/tests_generator.py:281-294 | The loop generates, stages and commits for each eligible directory, in listing order. |
| TestsGenerator.OneCommitPerModule | ibl_github_bot/tests_generator.py:281-294 | The commits are exactly one per eligible directory, in order, with the source's message. |
| TestsGenerator.StepsCommitOnce | ibl_github_bot/tests_generator.py:288-294 | One module's steps make exactly one commit. |
| TestsGenerator.NoEligibleNoEvents | ibl_github_bot/tests_generator.py:281-294 | Without eligible directories the loop does nothing. |
| TestsGenerator.CreateTestsForRepo | ibl_github_bot/tests_generator.py:243-315 | The run happens if and only if the repository name has two parts and a free directory was drawn. It clones into the first free directory, commits per module, pushes the new branch and opens the pull request, and removes the clone only when asked. |
| TestsGenerator.RepoRunCommits | ibl_github_bot/tests_generator.py:262-315 | Over the whole run, the commits are exactly one per eligible directory, in listing order, with the source's message. |
| TestsGenerator.PushIsUnconditional | ibl_github_bot/tests_generator.py:295-310 | With no eligible directory, the push and the pull request still happen. |
| Server.WorkDir | server.py:120-124 | The work directory is a drawn name not already taken. It is `None` if and only if every draw is taken. |
| Server.FirstAccepted | server.py:148-171 | The first considered directory whose generation succeeds, with none before it, or `None` if and only if none succeeds. |
| Server.CommitFirst | server.py:147-171 | The loop's events are the generation attempts up to the first success, then its staging and commit. A commit is made if and only if some directory succeeds. |
| Server.LoopTraceEvents | server.py:148-171 | The loop only generates, stages and commits. |
| Server.GeneratedDirectories | server.py:148-161 | A directory is handed to test generation if and only if it is considered and comes no later than the first success. |
| Server.ExcludedNeverGenerated | server.py:148-152 | An excluded name is never handed to generation. |
| Server.LoopCommits | server.py:148-171 | The loop commits once, for the first successful directory, or not at all. |
| Server.HandlePullRequestEvent | server.py:110-203 | The handler's events are those of the handler specification. It publishes if and only if the action contains "opened", the repository is "owner/name", a directory was free and some directory succeeds. |
| Server.NoTokenAfterCloneWithoutCommit | server.py:172-179 | Without a commit, no token is fetched after the clone: the handler returns before the second `get_token`. |
| Server.RunPublishes | server.py:172-203 | After cloning, the head branch is pushed if and only if a commit was made. Without a commit there is no push, remote reset, pull request or cleanup. With a commit the run ends, in this order: a second token is fetched, the remote URL is reset to it, the head branch is pushed to itself, a pull request is opened from "owner:head" into the head branch, and the clone is removed. |
| Server.PublishesExactly | server.py:110-203 | The handler pushes the head branch if and only if it publishes. Otherwise no publishing step happens at all. |
| Server.RunCommits | server.py:127-203 | After cloning there is exactly the first successful directory's commit, or none. |
| Server.HandlerCommits | server.py:110-203 | Over the whole handler there is at most one commit, for the first successful directory, and only when publishing. |
| Server.ReopenedIsHandled | server.py:110 | "reopened" contains "opened", so reopened pull requests are handled. |
| Server.ClosedIsIgnored | server.py:110-112 | A closed pull request only fetches the first token. |
| PyStr.StartsWith | ibl_github_bot/tests_generator.py:26 | `startswith`: by `StartsWithConcat`, true exactly when the text is the prefix followed by more text. |
| PyStr.StartsWithConcat | ibl_github_bot/tests_generator.py:26 | `s.startswith(p)` if and only if `s == p + rest` for the rest of `s`. |
| PyStr.EndsWith | ibl_github_bot/tests_generator.py:28 | `endswith`: by `EndsWithConcat`, true exactly when the text is some text followed by the suffix. |
| PyStr.EndsWithConcat | ibl_github_bot/tests_generator.py:28 | `s.endswith(t)` if and only if `s == front + t` for the front of `s`. |
| PyStr.Contains | ibl_github_bot/tests_generator.py:31 | `pat in s`: by `ContainsOccurs`, true exactly when `pat` occurs in `s` at some index. |
| PyStr.ContainsOccurs | ibl_github_bot/tests_generator.py:31 | `pat in s` if and only if there is an index where `pat` occurs. |
| PyStr.StripLeft | ibl_github_bot/tests_generator.py:29 | `lstrip(chars)`: by `StripLeftFacts`, the result is a suffix, only characters from `chars` are dropped, and it does not start with one. |
| PyStr.StripLeftFacts | ibl_github_bot/tests_generator.py:29 | `lstrip` keeps a suffix, drops only characters to strip, and stops at one to keep. |
| PyStr.StripRight | ibl_github_bot/tests_generator.py:29 | `rstrip(chars)`: by `StripRightFacts`, the result is a prefix, only characters from `chars` are dropped, and it does not end with one. |
| PyStr.StripRightFacts | ibl_github_bot/tests_generator.py:29 | `rstrip` keeps a prefix, drops only characters to strip, and stops at one to keep. |
| PyStr.Strip | ibl_github_bot/tests_generator.py:29 | `strip(chars)` with `chars` taken as a set: by `StripEnds`, `StripLeftPrefix` and `StripRightSuffix`, any run of those characters goes at both ends and no more. |
| PyStr.StripSpace | ibl_github_bot/tests_generator.py:220 | `strip()` without argument removes Python's whitespace characters: by `StripSpaceEnds`, none remains at either end. |
| PyStr.IsBlank | ibl_github_bot/tests_generator.py:196 | `s.strip() == ""`: by `StripSpaceEnds`, exactly when every character is whitespace. |
| PyStr.StripSpaceEnds | ibl_github_bot/tests_generator.py:220 | No whitespace at either end after `strip()`, and blank if and only if all whitespace. |
| PyStr.Join | ibl_github_bot/tests_generator.py:27 | `sep.join(parts)`: by `JoinCons`, the first part, the separator, then the join of the rest; `SplitLinesJoin`, `SplitOnJoin` and `SplitJoin` show it undoes the splits. |
| PyStr.JoinCons | ibl_github_bot/tests_generator.py:27 | Joining a list of two or more parts is its first part, the separator and the join of the rest. |
| PyStr.Find | ibl_github_bot/tests_generator.py:31 | The first occurrence, with none earlier, or `None` when absent. |
| PyStr.SplitLines | ibl_github_bot/tests_generator.py:27 | `splitlines` gives no lines exactly for the empty text. By `SplitLinesNoBreaks`, no line holds a line boundary. |
| PyStr.SplitLinesNoBreaks | ibl_github_bot/tests_generator.py:27 | No line that `splitlines` returns contains one of Python's line-boundary characters. |
| PyStr.SplitLinesJoin | ibl_github_bot/tests_generator.py:27 | Joining the lines with "\n" restores a text with only "\n" breaks and no trailing break. |
| PyStr.SplitOn | ibl_github_bot/tests_generator.py:32 | One piece exactly when the separator is absent. The first piece is the text before the first separator. |
| PyStr.SplitOnJoin | ibl_github_bot/tests_generator.py:32 | `sep.join(s.split(sep)) == s`. |
| PyStr.StripEnds | ibl_github_bot/tests_generator.py:29 | After `strip(chars)` neither end is in `chars`. The result is empty exactly when every character is in `chars`. |
| PyStr.StripLeftPrefix | ibl_github_bot/tests_generator.py:29 | `lstrip` removes any prefix made of the characters. |
| PyStr.StripRightSuffix | ibl_github_bot/tests_generator.py:29 | `rstrip` removes any suffix made of the characters. |
| PyStr.StripUnchanged | ibl_github_bot/tests_generator.py:29 | A text whose ends are not among the characters is unchanged. |
| PyStr.Split | server.py:120 | `split` gives at least one piece, none of which contains the separator. |
| PyStr.SplitJoin | server.py:120 | Splitting and joining with the same character restores the text. |
| PyStr.Replace | ibl_github_bot/tests_generator.py:234-236 | Same length, with each "/" replaced and every other character kept. |
| PyStr.ReplaceSeparator | ibl_github_bot/tests_generator.py:234-236 | Replacing "/" by "_" in a joined path gives the segments joined by "_". |

## Left out

- The language model, Python's `ast.parse` and the document loader are
  parameters: a reply per path, a syntax verdict per text, and a list of
  documents.
- Python's `print` output and the log are not modelled.
- git, GitHub and the file system are events or effects in a returned log.
  Their failures are not modelled; neither are `raise_if_error`, HTTP
  errors or a failing clone.
- The YAML parser is not part of this model. The policy file is given
  already parsed (missing, empty, or a document). Malformed YAML and
  mistyped fields are not modelled.
- `uuid.uuid4` draws are a finite list. The unbounded retry loop becomes
  "no free name" when the list runs out.
- Tokens, the date and the installation are parameters. `get_token` and
  `get_installation_access_token` are not modelled beyond a `FetchToken`
  event.
- The call to `generate_tests` in `server.py` passes arguments
  (`dependency_graph`, `target_files`) that the shown `generate_tests` does
  not take, and uses a result it does not return. Its success is a
  parameter per directory.
- The texts of the pull requests and the system prompt are left out, and
  so is the request sent to the model.
- `asyncio` and the aiohttp session are left out, and the handler runs
  sequentially.
- `repo_installation_added`, `main` and the web application setup in
  `server.py` are not part of this model.
- `__main__.py` is not part of this model.
- `DependencyGraph.__str__` (JSON output) is left out. `get_global_settings`
  is the `settings` field.
- The `dependencies` entry of the global settings dictionary is left out;
  it is never read.
- Dependency lists become sets in the graph, as the source's `set` does.
  The iteration order of dictionaries and sets is not modelled: the loops
  choose their next element freely.
- `create_tests_for_repo` and the server loop walk the top-level listing in
  the order given by `entries`. The file system's order is not modelled.
- CodeParser.Parse: printing the exception is left out.
- DependencyGraph.Visit: the interpreter's recursion limit is not modelled.
  `get_all_dependencies` recurses once per module along a dependency chain,
  and CPython raises `RecursionError` on a chain longer than its limit
  (1000 by default). The model always returns the set.
- Passing `None` as the configuration path, on which the source fails with
  `AttributeError`, is not modelled.

## Findings

| source | as written | input that shows it | evidently intended | confidence | as-written member | corrected member |
|---|---|---|---|---|---|---|
| ibl_github_bot/configuration.py:49-51 | `if not config_file.exists()` loads the policy only when the file is missing, and `load_config` then returns at once | a present policy file declaring module "core" with `depends_on: [lib]`: the graph stays empty | load the policy and build the graph when the file exists | not executed | Configuration.DependencyGraph.constructor | Configuration.DependencyGraph.Load |
| ibl_github_bot/configuration.py:110-115 | prefixes local exclusions with the literal "module/" and appends them in place to the global (possibly shared default) list | module "core" excluding "migrations": gives "module/migrations", and a second call adds it again | put the exclusion under the module's own directory, in a new list | not executed | Configuration.LiteralModulePrefix | Configuration.DependencyGraph.ResolvedExcludes |
