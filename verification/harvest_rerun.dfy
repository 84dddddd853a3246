/**
 * Running the harvester a second time over unchanged repositories, on the
 * file system the first run left and at the same instant, fetches nothing
 * that changes a cached document and leaves the index file as it is.
 */
module HarvestRerun {

  import opened Wrappers
  import opened ProjectConfig
  import opened FileStore
  import opened Harvest
  import opened Sorting

  /** No two projects share a slug. */
  predicate UniqueSlugs(ps: seq<Project>) {
    forall i, j :: 0 <= i < j < |ps| ==> ps[i].slug != ps[j].slug
  }

  /** After a completed loop every included project's cache file exists, unless its repository lacks the document. */
  lemma {:induction false} LoopCaches(env: Env, st: RunState, repos: seq<Repo>, i: nat)
    requires Loop(env, st, repos).Done?
    requires i < |repos| && Candidate(repos[i], env.now).Some?
    ensures var p := Candidate(repos[i], env.now).value;
      || ReadmePath(env.settings.readmesDir, p.slug) in Loop(env, st, repos).state.store
      || ReadRepoFile(repos[i], ReadmeSource(p)).None?
    decreases |repos|
  {
    var step := Step(env, st, repos[0]);
    assert step.Done?;
    if i == 0 {
      StepStore(env, st, repos[0]);
    } else {
      assert repos[1..][i - 1] == repos[i];
      LoopCaches(env, step.state, repos[1..], i - 1);
    }
  }

  /** A repository whose iteration cannot write: its project needs no refresh by date, and either its cache file exists or it has no document. */
  predicate Quiet(env: Env, store: Store, repo: Repo) {
    Candidate(repo, env.now).Some? ==>
      var p := Candidate(repo, env.now).value;
      && !ShouldUpdateReadme(p.slug, p, env.prior, env.parse)
      && (ReadmePath(env.settings.readmesDir, p.slug) in store || ReadRepoFile(repo, ReadmeSource(p)).None?)
  }

  /** A quiet iteration only appends the project. */
  lemma StepQuiet(env: Env, st: RunState, repo: Repo)
    requires !Malformed(repo)
    requires Quiet(env, st.store, repo)
    ensures Step(env, st, repo) == Done(st.(out := st.out + Contribution(repo, env.now)))
  {
  }

  /** A loop of quiet iterations leaves the file system and the README count alone. */
  lemma {:induction false} QuietLoop(env: Env, st: RunState, repos: seq<Repo>)
    requires forall i :: 0 <= i < |repos| ==> !Malformed(repos[i]) && Quiet(env, st.store, repos[i])
    ensures Loop(env, st, repos) == Done(st.(out := st.out + Included(repos, env.now)))
    decreases |repos|
  {
    if |repos| > 0 {
      StepQuiet(env, st, repos[0]);
      var next := st.(out := st.out + Contribution(repos[0], env.now));
      var rest := repos[1..];
      forall i | 0 <= i < |rest|
        ensures !Malformed(rest[i]) && Quiet(env, next.store, rest[i])
      {
        assert rest[i] == repos[i + 1];
      }
      QuietLoop(env, next, rest);
      assert Loop(env, st, repos) == Loop(env, next, rest);
      assert Included(repos, env.now) == Contribution(repos[0], env.now) + Included(rest, env.now);
      assert next.out + Included(rest, env.now) == st.out + Included(repos, env.now);
    }
  }

  /** The loop inside a completed run, and what the run did with its result. */
  lemma RunUnfolds(
    settings: Settings,
    repos: seq<Repo>,
    store: Store,
    parse: string -> int,
    now: string,
    serialize: seq<Project> -> string,
    deserialize: string -> Option<seq<Project>>)
    requires Run(settings, repos, store, parse, now, serialize, deserialize).Completed?
    ensures var env := Env(settings, LoadPrior(store, settings.projectsPath, deserialize), parse, now);
      var loop := Loop(env, RunState([], store, 0), repos);
      var report := Run(settings, repos, store, parse, now, serialize, deserialize).report;
      && loop.Done?
      && loop.state.out == Included(repos, now)
      && report.projects == Sort(Included(repos, now), NewerFirst(parse))
      && report.readmeCount == loop.state.readmeCount
      && report == Report(report.projects, WriteIfChanged(loop.state.store, settings.projectsPath, serialize(report.projects)).store,
                          loop.state.readmeCount, WriteIfChanged(loop.state.store, settings.projectsPath, serialize(report.projects)).changed)
  {
  }

  /** After a completed run, each included project's cache file exists unless its repository has no document. */
  lemma RunLeavesCaches(
    settings: Settings,
    repos: seq<Repo>,
    store: Store,
    parse: string -> int,
    now: string,
    serialize: seq<Project> -> string,
    deserialize: string -> Option<seq<Project>>,
    i: nat)
    requires Run(settings, repos, store, parse, now, serialize, deserialize).Completed?
    requires i < |repos| && Candidate(repos[i], now).Some?
    ensures var p := Candidate(repos[i], now).value;
      || ReadmePath(settings.readmesDir, p.slug) in Run(settings, repos, store, parse, now, serialize, deserialize).report.store
      || ReadRepoFile(repos[i], ReadmeSource(p)).None?
  {
    RunUnfolds(settings, repos, store, parse, now, serialize, deserialize);
    var env := Env(settings, LoadPrior(store, settings.projectsPath, deserialize), parse, now);
    LoopCaches(env, RunState([], store, 0), repos, i);
  }

  /** A run whose loop is all quiet lists what the repositories contribute and writes the index only. */
  lemma QuietRun(
    settings: Settings,
    repos: seq<Repo>,
    store: Store,
    parse: string -> int,
    now: string,
    serialize: seq<Project> -> string,
    deserialize: string -> Option<seq<Project>>)
    requires var env := Env(settings, LoadPrior(store, settings.projectsPath, deserialize), parse, now);
      forall i :: 0 <= i < |repos| ==> !Malformed(repos[i]) && Quiet(env, store, repos[i])
    ensures var sorted := Sort(Included(repos, now), NewerFirst(parse));
      var w := WriteIfChanged(store, settings.projectsPath, serialize(sorted));
      Run(settings, repos, store, parse, now, serialize, deserialize) == Completed(Report(sorted, w.store, 0, w.changed))
  {
    var env := Env(settings, LoadPrior(store, settings.projectsPath, deserialize), parse, now);
    var st := RunState([], store, 0);
    QuietLoop(env, st, repos);
    assert st.out + Included(repos, now) == Included(repos, now);
    assert Loop(env, st, repos) == Done(RunState(Included(repos, now), store, 0));
  }

  /** With unique slugs, the index holds every listed project under its own slug. */
  lemma UniqueIndex(ps: seq<Project>, p: Project)
    requires UniqueSlugs(ps)
    requires p in ps
    ensures p.slug in IndexBySlug(ps) && IndexBySlug(ps)[p.slug] == p
  {
    var k :| 0 <= k < |ps| && ps[k] == p;
    IndexBySlugLastWins(ps, k);
  }

  /** In the second run every repository is quiet: its project was cached by the first. */
  lemma RerunQuietAt(
    settings: Settings,
    repos: seq<Repo>,
    store: Store,
    parse: string -> int,
    now: string,
    serialize: seq<Project> -> string,
    deserialize: string -> Option<seq<Project>>,
    i: nat)
    requires Run(settings, repos, store, parse, now, serialize, deserialize).Completed?
    requires UniqueSlugs(Run(settings, repos, store, parse, now, serialize, deserialize).report.projects)
    requires var ps := Run(settings, repos, store, parse, now, serialize, deserialize).report.projects;
      deserialize(serialize(ps)) == Some(ps)
    requires i < |repos|
    ensures var first := Run(settings, repos, store, parse, now, serialize, deserialize).report;
      var env2 := Env(settings, LoadPrior(first.store, settings.projectsPath, deserialize), parse, now);
      !Malformed(repos[i]) && Quiet(env2, first.store, repos[i])
  {
    var first := Run(settings, repos, store, parse, now, serialize, deserialize).report;
    var prior2 := LoadPrior(first.store, settings.projectsPath, deserialize);
    assert prior2 == IndexBySlug(first.projects);
    if Candidate(repos[i], now).Some? {
      var p := Candidate(repos[i], now).value;
      RunLeavesCaches(settings, repos, store, parse, now, serialize, deserialize, i);
      RunMembers(settings, repos, store, parse, now, serialize, deserialize, p);
      UniqueIndex(first.projects, p);
      assert prior2[p.slug] == p;
    }
  }

  /**
   * The second of two identical runs: with unique slugs and an index file
   * that reads back as what was written, it produces the same list, updates
   * no README, and leaves every file, the index included, unchanged.
   */
  lemma {:induction false} RerunChangesNothing(
    settings: Settings,
    repos: seq<Repo>,
    store: Store,
    parse: string -> int,
    now: string,
    serialize: seq<Project> -> string,
    deserialize: string -> Option<seq<Project>>)
    requires Run(settings, repos, store, parse, now, serialize, deserialize).Completed?
    requires UniqueSlugs(Run(settings, repos, store, parse, now, serialize, deserialize).report.projects)
    requires var ps := Run(settings, repos, store, parse, now, serialize, deserialize).report.projects;
      deserialize(serialize(ps)) == Some(ps)
    ensures var first := Run(settings, repos, store, parse, now, serialize, deserialize).report;
      var second := Run(settings, repos, first.store, parse, now, serialize, deserialize);
      && second.Completed?
      && second.report.projects == first.projects
      && second.report.readmeCount == 0
      && !second.report.indexChanged
      && second.report.store == first.store
  {
    var first := Run(settings, repos, store, parse, now, serialize, deserialize).report;
    var env2 := Env(settings, LoadPrior(first.store, settings.projectsPath, deserialize), parse, now);
    forall i | 0 <= i < |repos|
      ensures !Malformed(repos[i]) && Quiet(env2, first.store, repos[i])
    {
      RerunQuietAt(settings, repos, store, parse, now, serialize, deserialize, i);
    }
    QuietRun(settings, repos, first.store, parse, now, serialize, deserialize);
    RunUnfolds(settings, repos, store, parse, now, serialize, deserialize);
    assert first.store[settings.projectsPath] == serialize(first.projects);
  }
}
