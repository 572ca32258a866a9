/**
 * `handle_pull_request_event` of `server.py`: on an opened pull request the
 * bot thanks the author, clones the head branch into a fresh directory,
 * generates tests module by module until one module's generation succeeds,
 * commits that module's tests, pushes them back to the head branch and
 * opens a pull request. GitHub, git, the file system and test generation
 * are seen through the events they are asked for; the generation outcome
 * of each module is a parameter.
 */
module Server {
  import opened Wrappers
  import opened PyStr
  import opened TestsGenerator

  /** The fields of the webhook payload the handler reads. */
  datatype PullRequestEvent = PullRequestEvent(action: string, repo: string, number: int, headRef: string)

  /** The comment posted on every pull request the handler goes on with. */
  const Greeting: string := "Thanks for the pull request!"

  /** An entry the loop tries: a directory whose name is not in the exclude list. */
  predicate Considered(e: DirEntry, exclude: seq<string>)
  {
    e.isDir && e.name !in exclude
  }

  /** An entry whose tests get committed: considered, and generation succeeded. */
  predicate Accepted(e: DirEntry, exclude: seq<string>, generate: string -> bool)
  {
    Considered(e, exclude) && generate(e.name)
  }

  /** The position of the first accepted entry, or `None` when there is none. */
  function FirstAccepted(entries: seq<DirEntry>, exclude: seq<string>, generate: string -> bool): (r: Option<nat>)
    ensures r.Some? ==> r.value < |entries| && Accepted(entries[r.value], exclude, generate)
    ensures r.Some? ==> forall k :: 0 <= k < r.value ==> !Accepted(entries[k], exclude, generate)
    ensures r.None? <==> forall k :: 0 <= k < |entries| ==> !Accepted(entries[k], exclude, generate)
  {
    if entries == [] then None
    else if Accepted(entries[0], exclude, generate) then Some(0)
    else
      match FirstAccepted(entries[1..], exclude, generate)
      case None => None
      case Some(k) => Some(k + 1)
  }

  /**
   * The events of the module loop: every considered directory is handed to
   * test generation; the first one that succeeds has its `tests` staged
   * and committed, and the loop stops there.
   */
  function LoopTrace(entries: seq<DirEntry>, exclude: seq<string>, generate: string -> bool, date: string): seq<Event>
  {
    if entries == [] then []
    else
      var e := entries[0];
      if !Considered(e, exclude) then LoopTrace(entries[1..], exclude, generate, date)
      else if generate(e.name) then ModuleSteps(e.name, date)
      else [Generate(e.name)] + LoopTrace(entries[1..], exclude, generate, date)
  }

  /** Cloning into the work directory `dir` and updating the head branch. */
  function CloneSteps(ev: PullRequestEvent, dir: string, token: string): seq<Event>
  {
    [MakeDir(dir), FetchToken, Clone(CloneUrl(token, ev.repo), dir, ev.headRef), Checkout(ev.headRef), Pull]
  }

  /** With a fresh token: push the head branch to itself, open the pull request, remove the clone. */
  function PublishSteps(ev: PullRequestEvent, owner: string, dir: string, token: string): seq<Event>
  {
    [FetchToken, SetRemoteUrl(CloneUrl(token, ev.repo)), Push(ev.headRef, ev.headRef),
     OpenPullRequest(ev.repo, owner + ":" + ev.headRef, ev.headRef), RemoveTree(dir)]
  }

  /** The name of the work directory: the first drawn name that is free. */
  function WorkDir(existing: set<string>, ids: seq<string>): (r: Option<string>)
    ensures r.Some? ==> r.value !in existing && r.value in ids
    ensures r.None? <==> forall k :: 0 <= k < |ids| ==> ids[k] in existing
  {
    match FirstFree(existing, ids)
    case None => None
    case Some(k) => Some(ids[k])
  }

  /** When the handler pushes and opens a pull request. */
  predicate Publishes(ev: PullRequestEvent, dir: Option<string>, entries: seq<DirEntry>, exclude: seq<string>, generate: string -> bool)
  {
    Contains(ev.action, "opened") && |Split(ev.repo, '/')| == 2 && dir.Some?
    && FirstAccepted(entries, exclude, generate).Some?
  }

  /** The first token and the comment thanking the author. */
  function Greet(ev: PullRequestEvent): seq<Event>
  {
    [FetchToken, Comment(ev.repo, ev.number, Greeting)]
  }

  /**
   * Cloning into `dir`, the module loop, and publishing when the loop
   * committed; without a commit the clone is left behind.
   */
  function Run(
    ev: PullRequestEvent, owner: string, dir: string, entries: seq<DirEntry>, exclude: seq<string>,
    generate: string -> bool, date: string, token1: string, token2: string): seq<Event>
  {
    var cloned := CloneSteps(ev, dir, token1) + LoopTrace(entries, exclude, generate, date);
    if FirstAccepted(entries, exclude, generate).None? then cloned
    else cloned + PublishSteps(ev, owner, dir, token2)
  }

  /**
   * Everything the handler asks for, in order. An action without "opened"
   * in it stops after the first token; a repository name that is not
   * "owner/name" or no free directory stops after the comment.
   */
  function Handled(
    ev: PullRequestEvent, dir: Option<string>, entries: seq<DirEntry>, exclude: seq<string>,
    generate: string -> bool, date: string, token1: string, token2: string): seq<Event>
  {
    if !Contains(ev.action, "opened") then [FetchToken]
    else if |Split(ev.repo, '/')| != 2 || dir.None? then Greet(ev)
    else Greet(ev) + Run(ev, Split(ev.repo, '/')[0], dir.value, entries, exclude, generate, date, token1, token2)
  }

  /**
   * The module loop of the handler, with its `break` after the first
   * commit; `created` says whether a commit was made.
   */
  method CommitFirst(entries: seq<DirEntry>, exclude: seq<string>, generate: string -> bool, date: string)
    returns (events: seq<Event>, created: bool)
    ensures events == LoopTrace(entries, exclude, generate, date)
    ensures created <==> FirstAccepted(entries, exclude, generate).Some?
  {
    events := [];
    created := false;
    var i := 0;
    while i < |entries|
      invariant i <= |entries| && !created
      invariant LoopTrace(entries, exclude, generate, date) == events + LoopTrace(entries[i..], exclude, generate, date)
      invariant forall k :: 0 <= k < i ==> !Accepted(entries[k], exclude, generate)
    {
      var e := entries[i];
      LoopTraceStep(entries, i, exclude, generate, date);
      if Considered(e, exclude) {
        if generate(e.name) {
          events := events + ModuleSteps(e.name, date);
          created := true;
          break;
        }
        AppendAssoc(events, [Generate(e.name)], LoopTrace(entries[i + 1..], exclude, generate, date));
        events := events + [Generate(e.name)];
      }
      i := i + 1;
    }
  }

  /** One more entry of the loop, unfolded. */
  lemma LoopTraceStep(entries: seq<DirEntry>, i: nat, exclude: seq<string>, generate: string -> bool, date: string)
    requires i < |entries|
    ensures var e := entries[i];
      LoopTrace(entries[i..], exclude, generate, date) ==
        if !Considered(e, exclude) then LoopTrace(entries[i + 1..], exclude, generate, date)
        else if generate(e.name) then ModuleSteps(e.name, date)
        else [Generate(e.name)] + LoopTrace(entries[i + 1..], exclude, generate, date)
  {
    assert entries[i..][0] == entries[i] && entries[i..][1..] == entries[i + 1..];
  }

  /**
   * `handle_pull_request_event(event, gh)`. `existing` are the names taken
   * in the clone directory and `ids` the names drawn for it; `entries` is
   * the listing of the clone and `exclude` the global exclude list of its
   * configuration; `token1` and `token2` are the tokens fetched before
   * cloning and before pushing.
   */
  method HandlePullRequestEvent(
    ev: PullRequestEvent, existing: set<string>, ids: seq<string>, entries: seq<DirEntry>,
    exclude: seq<string>, generate: string -> bool, date: string, token1: string, token2: string)
    returns (trace: seq<Event>, published: bool)
    ensures trace == Handled(ev, WorkDir(existing, ids), entries, exclude, generate, date, token1, token2)
    ensures published <==> Publishes(ev, WorkDir(existing, ids), entries, exclude, generate)
  {
    trace := [FetchToken];
    published := false;
    if !Contains(ev.action, "opened") {
      return;
    }
    trace := trace + [Comment(ev.repo, ev.number, Greeting)];
    var parts := Split(ev.repo, '/');
    if |parts| != 2 {
      return;
    }
    var picked := PickWorkDir(existing, ids);
    if picked.None? {
      return;
    }
    var dir := ids[picked.value];
    var run := CloneSteps(ev, dir, token1);
    var events, created := CommitFirst(entries, exclude, generate, date);
    run := run + events;
    if created {
      run := run + PublishSteps(ev, parts[0], dir, token2);
      published := true;
    }
    trace := trace + run;
  }

  // ----- Lemmas -----

  /** An event of the module loop is a generation, a staging or a commit. */
  predicate LoopEvent(e: Event)
  {
    e.Generate? || e.Stage? || e.Commit?
  }

  lemma {:induction false} LoopTraceEvents(entries: seq<DirEntry>, exclude: seq<string>, generate: string -> bool, date: string)
    ensures forall e :: e in LoopTrace(entries, exclude, generate, date) ==> LoopEvent(e)
  {
    if entries != [] {
      LoopTraceEvents(entries[1..], exclude, generate, date);
    }
  }

  /**
   * The loop hands a directory to test generation exactly when it is a
   * considered entry at or before the first accepted one: excluded names
   * and files are never tried, and nothing after the first commit is.
   */
  lemma {:induction false} GeneratedDirectories(entries: seq<DirEntry>, exclude: seq<string>, generate: string -> bool, date: string, name: string)
    ensures Generate(name) in LoopTrace(entries, exclude, generate, date) <==>
      exists k :: (0 <= k < |entries| && entries[k].name == name && Considered(entries[k], exclude)
        && (FirstAccepted(entries, exclude, generate).None? || k <= FirstAccepted(entries, exclude, generate).value))
  {
    if entries != [] {
      var rest := entries[1..];
      var e := entries[0];
      GeneratedDirectories(rest, exclude, generate, date, name);
      var first := FirstAccepted(entries, exclude, generate);
      var later := FirstAccepted(rest, exclude, generate);
      if Generate(name) in LoopTrace(entries, exclude, generate, date) {
        if Considered(e, exclude) && e.name == name {
          assert entries[0].name == name;
        } else {
          assert Generate(name) in LoopTrace(rest, exclude, generate, date) by {
            if Considered(e, exclude) {
              assert !generate(e.name);
            }
          }
          var k :| 0 <= k < |rest| && rest[k].name == name && Considered(rest[k], exclude)
            && (later.None? || k <= later.value);
          assert entries[k + 1] == rest[k];
        }
      }
      if exists k :: (0 <= k < |entries| && entries[k].name == name && Considered(entries[k], exclude)
        && (first.None? || k <= first.value))
      {
        var k :| 0 <= k < |entries| && entries[k].name == name && Considered(entries[k], exclude)
          && (first.None? || k <= first.value);
        if k == 0 {
          assert LoopTrace(entries, exclude, generate, date)[0] == Generate(name);
        } else {
          assert rest[k - 1] == entries[k];
          assert !Accepted(e, exclude, generate);
          assert Generate(name) in LoopTrace(rest, exclude, generate, date);
        }
      }
    }
  }

  /** A name on the exclude list is never handed to test generation. */
  lemma ExcludedNeverGenerated(entries: seq<DirEntry>, exclude: seq<string>, generate: string -> bool, date: string, name: string)
    requires name in exclude
    ensures Generate(name) !in LoopTrace(entries, exclude, generate, date)
  {
    GeneratedDirectories(entries, exclude, generate, date, name);
  }

  /**
   * The loop commits once, for the first accepted directory, or not at all.
   */
  lemma {:induction false} LoopCommits(entries: seq<DirEntry>, exclude: seq<string>, generate: string -> bool, date: string)
    ensures Commits(LoopTrace(entries, exclude, generate, date)) ==
      match FirstAccepted(entries, exclude, generate)
      case None => []
      case Some(k) => [CommitMessage(entries[k].name, date)]
  {
    if entries != [] {
      var rest := entries[1..];
      var e := entries[0];
      LoopCommits(rest, exclude, generate, date);
      if Considered(e, exclude) {
        if generate(e.name) {
          StepsCommitOnce(e.name, date);
        } else {
          CommitsAppend([Generate(e.name)], LoopTrace(rest, exclude, generate, date));
          NoCommits([Generate(e.name)]);
        }
      }
      match FirstAccepted(rest, exclude, generate)
      case None =>
      case Some(k) => assert rest[k] == entries[k + 1];
    }
  }

  /**
   * After cloning, the handler pushes, opens a pull request and removes its
   * clone exactly when some module's generation succeeded; otherwise none
   * of the publishing steps happens. A run that commits ends by fetching a
   * second token, pointing the remote at it, pushing the head branch to
   * itself, opening a pull request from "owner:head" into the head branch
   * and removing the clone, in that order.
   */
  lemma RunPublishes(
    ev: PullRequestEvent, owner: string, dir: string, entries: seq<DirEntry>, exclude: seq<string>,
    generate: string -> bool, date: string, token1: string, token2: string)
    ensures FirstAccepted(entries, exclude, generate).Some? <==>
      Push(ev.headRef, ev.headRef) in Run(ev, owner, dir, entries, exclude, generate, date, token1, token2)
    ensures FirstAccepted(entries, exclude, generate).None? ==>
      forall e :: e in Run(ev, owner, dir, entries, exclude, generate, date, token1, token2) ==> !Publishing(e)
    ensures FirstAccepted(entries, exclude, generate).Some? ==>
      var r := Run(ev, owner, dir, entries, exclude, generate, date, token1, token2);
      |r| >= 5 && r[|r| - 5..] ==
        [FetchToken, SetRemoteUrl(CloneUrl(token2, ev.repo)), Push(ev.headRef, ev.headRef),
         OpenPullRequest(ev.repo, owner + ":" + ev.headRef, ev.headRef), RemoveTree(dir)]
  {
    var cloned := CloneSteps(ev, dir, token1) + LoopTrace(entries, exclude, generate, date);
    LoopTraceEvents(entries, exclude, generate, date);
    forall e | e in cloned ensures !Publishing(e) {
      if e in LoopTrace(entries, exclude, generate, date) {
        assert LoopEvent(e);
      }
    }
    if FirstAccepted(entries, exclude, generate).Some? {
      assert PublishSteps(ev, owner, dir, token2)[2] == Push(ev.headRef, ev.headRef);
    }
  }

  /**
   * Without a commit the handler returns right after the loop: no token is
   * fetched once the clone is made, so the only tokens are the two fetched
   * before it.
   */
  lemma NoTokenAfterCloneWithoutCommit(
    ev: PullRequestEvent, owner: string, dir: string, entries: seq<DirEntry>, exclude: seq<string>,
    generate: string -> bool, date: string, token1: string, token2: string)
    requires FirstAccepted(entries, exclude, generate).None?
    ensures var run := Run(ev, owner, dir, entries, exclude, generate, date, token1, token2);
      forall k :: |CloneSteps(ev, dir, token1)| <= k < |run| ==> run[k] != FetchToken
  {
    var clone := CloneSteps(ev, dir, token1);
    var loop := LoopTrace(entries, exclude, generate, date);
    var run := Run(ev, owner, dir, entries, exclude, generate, date, token1, token2);
    assert run == clone + loop;
    LoopTraceEvents(entries, exclude, generate, date);
    forall k | |clone| <= k < |run| ensures run[k] != FetchToken {
      assert run[k] == loop[k - |clone|];
      assert loop[k - |clone|] in loop;
    }
  }

  /** The steps that make the bot's work public or clean it up. */
  predicate Publishing(e: Event)
  {
    e.Push? || e.OpenPullRequest? || e.SetRemoteUrl? || e.RemoveTree?
  }

  /**
   * The whole handler publishes exactly when the action contains "opened",
   * the repository name is "owner/name", a directory was free and some
   * module's generation succeeded; otherwise nothing is published.
   */
  lemma PublishesExactly(
    ev: PullRequestEvent, dir: Option<string>, entries: seq<DirEntry>, exclude: seq<string>,
    generate: string -> bool, date: string, token1: string, token2: string)
    ensures Publishes(ev, dir, entries, exclude, generate) <==>
      Push(ev.headRef, ev.headRef) in Handled(ev, dir, entries, exclude, generate, date, token1, token2)
    ensures !Publishes(ev, dir, entries, exclude, generate) ==>
      forall e :: e in Handled(ev, dir, entries, exclude, generate, date, token1, token2) ==> !Publishing(e)
  {
    if Contains(ev.action, "opened") && |Split(ev.repo, '/')| == 2 && dir.Some? {
      RunPublishes(ev, Split(ev.repo, '/')[0], dir.value, entries, exclude, generate, date, token1, token2);
    }
  }

  /** After cloning, one commit is made, for the first accepted directory, or none. */
  lemma RunCommits(
    ev: PullRequestEvent, owner: string, dir: string, entries: seq<DirEntry>, exclude: seq<string>,
    generate: string -> bool, date: string, token1: string, token2: string)
    ensures Commits(Run(ev, owner, dir, entries, exclude, generate, date, token1, token2)) ==
      match FirstAccepted(entries, exclude, generate)
      case None => []
      case Some(k) => [CommitMessage(entries[k].name, date)]
  {
    var clone := CloneSteps(ev, dir, token1);
    var loop := LoopTrace(entries, exclude, generate, date);
    FixedStepsCommitNothing(ev, owner, dir, token1, token2);
    CommitsAppend(clone, loop);
    LoopCommits(entries, exclude, generate, date);
    if FirstAccepted(entries, exclude, generate).Some? {
      CommitsAppend(clone + loop, PublishSteps(ev, owner, dir, token2));
    }
  }

  /**
   * Across the whole handler at most one commit is made: the one for the
   * first directory whose generation succeeded, and only when the handler
   * publishes.
   */
  lemma HandlerCommits(
    ev: PullRequestEvent, dir: Option<string>, entries: seq<DirEntry>, exclude: seq<string>,
    generate: string -> bool, date: string, token1: string, token2: string)
    ensures Commits(Handled(ev, dir, entries, exclude, generate, date, token1, token2)) ==
      if Publishes(ev, dir, entries, exclude, generate)
      then [CommitMessage(entries[FirstAccepted(entries, exclude, generate).value].name, date)]
      else []
  {
    FixedStepsCommitNothing(ev, "", "", "", "");
    if Contains(ev.action, "opened") && |Split(ev.repo, '/')| == 2 && dir.Some? {
      var owner := Split(ev.repo, '/')[0];
      CommitsAppend(Greet(ev), Run(ev, owner, dir.value, entries, exclude, generate, date, token1, token2));
      RunCommits(ev, owner, dir.value, entries, exclude, generate, date, token1, token2);
    } else if !Contains(ev.action, "opened") {
      NoCommits([FetchToken]);
    }
  }

  /** "reopened" contains "opened", so a reopened pull request is handled like an opened one. */
  lemma ReopenedIsHandled()
    ensures Contains("reopened", "opened")
  {
    assert "reopened"[2..8] == "opened";
    assert OccursAt("reopened", "opened", 2);
  }

  /** A closed pull request only costs a token: nothing else happens. */
  lemma ClosedIsIgnored(
    ev: PullRequestEvent, dir: Option<string>, entries: seq<DirEntry>, exclude: seq<string>,
    generate: string -> bool, date: string, token1: string, token2: string)
    requires ev.action == "closed"
    ensures Handled(ev, dir, entries, exclude, generate, date, token1, token2) == [FetchToken]
  {
    forall k: nat ensures !OccursAt("closed", "opened", k) {
      if k == 0 {
        assert "closed"[0..6][0] != "opened"[0];
      }
    }
  }

  /** Greeting, cloning and publishing commit nothing. */
  lemma FixedStepsCommitNothing(ev: PullRequestEvent, owner: string, dir: string, token1: string, token2: string)
    ensures Commits(Greet(ev)) == []
    ensures Commits(CloneSteps(ev, dir, token1)) == []
    ensures Commits(PublishSteps(ev, owner, dir, token2)) == []
  {
    NoCommits(Greet(ev));
    NoCommits(CloneSteps(ev, dir, token1));
    NoCommits(PublishSteps(ev, owner, dir, token2));
  }
}
