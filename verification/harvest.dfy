/**
 * The repository harvester with its GitHub and file-system calls taken out:
 * the listing of repositories is a sequence of `Repo` records (each carrying
 * its already-loaded configuration, or `None` when the host answered 404),
 * the file system is a `Store`, the clock is a `now` parameter and
 * `Date.parse` is the `parse` parameter.
 */
module Harvest {

  import opened Wrappers
  import opened JsValue
  import opened ProjectConfig
  import opened FileStore
  import opened LineEndings
  import opened Sorting

  /** One repository as listed by the host, with the files the harvester may read from it. */
  datatype Repo = Repo(
    fullName: string,
    name: string,
    isPrivate: bool,
    fork: bool,
    stargazersCount: Option<int>,
    forksCount: Option<int>,
    language: Option<string>,
    pushedAt: Option<string>,
    updatedAt: Option<string>,
    createdAt: Option<string>,
    /** `.portfolio/config.yml` as loaded by the YAML library; `None` when it is not there. */
    config: Option<Value>,
    /** The repository's other files, by path. */
    files: map<string, string>)

  /** Where the index file and the cached descriptive documents live. */
  datatype Settings = Settings(projectsPath: string, readmesDir: string)

  /** A text is given: neither missing, `null` nor empty. */
  predicate Given(t: Option<string>) {
    t.Some? && t.value != ""
  }

  /** A timestamp as a number: `t ? Date.parse(t) : 0`. */
  function Time(parse: string -> int, t: Option<string>): int {
    if Given(t) then parse(t.value) else 0
  }

  /** `a || b` over optional texts. */
  function OrElse(a: Option<string>, b: Option<string>): Option<string> {
    if Given(a) then a else b
  }

  /** `toLowerCase` on one character (ASCII letters only). */
  function LowerChar(c: char): char {
    if 'A' <= c <= 'Z' then (c as int + 32) as char else c
  }

  const Upper := "ABCDEFGHIJKLMNOPQRSTUVWXYZ"
  const LowerLetters := "abcdefghijklmnopqrstuvwxyz"

  /** `toLowerCase`: each capital letter becomes the small letter at its place in the alphabet. */
  function Lower(s: string): (r: string)
    ensures |r| == |s|
    ensures forall i, k :: 0 <= i < |s| && 0 <= k < 26 && s[i] == Upper[k] ==> r[i] == LowerLetters[k]
    ensures forall i :: 0 <= i < |s| && s[i] !in Upper ==> r[i] == s[i]
  {
    seq(|s|, i requires 0 <= i < |s| => LowerChar(s[i]))
  }

  /** Lower-casing leaves no upper-case ASCII letter and is idempotent. */
  lemma LowerIsLower(s: string)
    ensures forall i :: 0 <= i < |s| ==> !('A' <= Lower(s)[i] <= 'Z')
    ensures Lower(Lower(s)) == Lower(s)
  {
  }

  /** `shouldInclude`: public, not a fork, and not switched off by `is_active`. */
  predicate ShouldInclude(p: Project, repo: Repo) {
    !repo.isPrivate && !repo.fork && p.isActive
  }

  /**
   * Read together with `parseConfig`: a mapping is included from a public,
   * non-fork repository unless it holds a defined, falsy `is_active`; a list
   * always is.
   */
  lemma ShouldIncludeRule(data: Value, repo: Repo)
    requires data.Obj? || data.Arr?
    ensures data.Obj? ==> (ShouldInclude(ParseConfig(data).value, repo) <==>
      !repo.isPrivate && !repo.fork &&
      ("is_active" !in data.fields || data.fields["is_active"] == Undefined || Truthy(data.fields["is_active"])))
    ensures data.Arr? ==> (ShouldInclude(ParseConfig(data).value, repo) <==> !repo.isPrivate && !repo.fork)
  {
    if data.Obj? && "is_active" in data.fields {
      assert Get(data, "is_active") == data.fields["is_active"];
    }
  }

  /**
   * Completes a configured project from repository metadata: counters default
   * to 0, `updated_at` and `created_at` fall back through the metadata
   * timestamps to `now`, and the slug falls back to the lower-cased name.
   */
  function Backfill(p: Project, repo: Repo, now: string): (r: Project)
    ensures r.stars == Some(repo.stargazersCount.GetOr(0))
    ensures r.forks == Some(repo.forksCount.GetOr(0))
    ensures r.language == (if Given(repo.language) then repo.language else None)
    ensures Given(p.updatedAt) ==> r.updatedAt == p.updatedAt
    ensures !Given(p.updatedAt) && Given(repo.pushedAt) ==> r.updatedAt == repo.pushedAt
    ensures !Given(p.updatedAt) && !Given(repo.pushedAt) && Given(repo.updatedAt) ==>
      r.updatedAt == repo.updatedAt
    ensures !Given(p.updatedAt) && !Given(repo.pushedAt) && !Given(repo.updatedAt) && Given(repo.createdAt) ==>
      r.updatedAt == repo.createdAt
    ensures !Given(p.updatedAt) && !Given(repo.pushedAt) && !Given(repo.updatedAt) && !Given(repo.createdAt) ==>
      r.updatedAt == Some(now)
    ensures Given(p.createdAt) ==> r.createdAt == p.createdAt
    ensures !Given(p.createdAt) && Given(repo.createdAt) ==> r.createdAt == repo.createdAt
    ensures !Given(p.createdAt) && !Given(repo.createdAt) ==> r.createdAt == Some(now)
    ensures p.slug != "" ==> r.slug == p.slug
    ensures p.slug == "" ==> r.slug == Lower(repo.name)
    ensures r.(stars := p.stars, forks := p.forks, language := p.language,
               updatedAt := p.updatedAt, createdAt := p.createdAt, slug := p.slug) == p
  {
    p.(stars := Some(repo.stargazersCount.GetOr(0)),
       forks := Some(repo.forksCount.GetOr(0)),
       language := if Given(repo.language) then repo.language else None,
       updatedAt := OrElse(p.updatedAt, OrElse(repo.pushedAt, OrElse(repo.updatedAt, OrElse(repo.createdAt, Some(now))))),
       createdAt := OrElse(p.createdAt, OrElse(repo.createdAt, Some(now))),
       slug := if p.slug != "" then p.slug else Lower(repo.name))
  }

  /** A configuration without a slug, in a repository named `MyRepo`, yields the slug `myrepo`. */
  lemma SlugFromRepositoryName(p: Project, repo: Repo, now: string)
    requires p.slug == "" && repo.name == "MyRepo"
    ensures Backfill(p, repo, now).slug == "myrepo"
  {
    var s := Lower(repo.name);
    assert s[0] == 'm' && s[1] == 'y' && s[2] == 'r' && s[3] == 'e' && s[4] == 'p' && s[5] == 'o';
  }

  /** The prior index: project by slug, a later entry replacing an earlier one with the same slug. */
  function IndexBySlug(ps: seq<Project>): (m: map<string, Project>)
    ensures m.Keys == set p | p in ps :: p.slug
    ensures forall k :: k in m ==> m[k] in ps && m[k].slug == k
  {
    if |ps| == 0 then map[]
    else
      var last := ps[|ps| - 1];
      assert ps == ps[..|ps| - 1] + [last];
      IndexBySlug(ps[..|ps| - 1])[last.slug := last]
  }

  /** When no later entry shares its slug, an entry is what the index holds for that slug. */
  lemma {:induction false} IndexBySlugLastWins(ps: seq<Project>, i: nat)
    requires i < |ps|
    requires forall j :: i < j < |ps| ==> ps[j].slug != ps[i].slug
    ensures IndexBySlug(ps)[ps[i].slug] == ps[i]
  {
    if i < |ps| - 1 {
      IndexBySlugLastWins(ps[..|ps| - 1], i);
    }
  }

  /** `loadPriorProjects`: a missing or unreadable index file gives an empty index. */
  function LoadPrior(store: Store, path: string, deserialize: string -> Option<seq<Project>>): (m: map<string, Project>)
    ensures path !in store ==> m == map[]
    ensures path in store && deserialize(store[path]).None? ==> m == map[]
    ensures path in store && deserialize(store[path]).Some? ==> m == IndexBySlug(deserialize(store[path]).value)
  {
    if path !in store then map[]
    else match deserialize(store[path])
      case None => map[]
      case Some(ps) => IndexBySlug(ps)
  }

  /** The cache file of a project's descriptive document. */
  function ReadmePath(dir: string, slug: string): string {
    dir + "/" + slug + ".md"
  }

  /** `shouldUpdateReadme`: a new slug, or a strictly newer `updated_at` than last run's. */
  predicate ShouldUpdateReadme(slug: string, p: Project, prior: map<string, Project>, parse: string -> int) {
    slug !in prior || Time(parse, p.updatedAt) > Time(parse, prior[slug].updatedAt)
  }

  /**
   * The README decision by cases: a new slug always refreshes; a missing
   * timestamp counts as 0 on either side; an unchanged timestamp never
   * refreshes by date.
   */
  lemma ReadmeDecisionCases(slug: string, p: Project, prior: map<string, Project>, parse: string -> int)
    ensures slug !in prior ==> ShouldUpdateReadme(slug, p, prior, parse)
    ensures slug in prior && !Given(prior[slug].updatedAt) && !Given(p.updatedAt) ==>
      !ShouldUpdateReadme(slug, p, prior, parse)
    ensures slug in prior && !Given(prior[slug].updatedAt) && Given(p.updatedAt) ==>
      (ShouldUpdateReadme(slug, p, prior, parse) <==> parse(p.updatedAt.value) > 0)
    ensures slug in prior && Given(prior[slug].updatedAt) && !Given(p.updatedAt) ==>
      (ShouldUpdateReadme(slug, p, prior, parse) <==> parse(prior[slug].updatedAt.value) < 0)
    ensures slug in prior && Given(prior[slug].updatedAt) && Given(p.updatedAt) ==>
      (ShouldUpdateReadme(slug, p, prior, parse) <==> parse(p.updatedAt.value) > parse(prior[slug].updatedAt.value))
    ensures slug in prior && prior[slug].updatedAt == p.updatedAt ==> !ShouldUpdateReadme(slug, p, prior, parse)
  {
  }

  /** `readRepoFile` for a file other than the configuration: `None` when the host answers 404. */
  function ReadRepoFile(repo: Repo, path: string): (r: Option<string>)
    ensures r.None? <==> path !in repo.files
    ensures r.Some? ==> r.value == repo.files[path]
  {
    if path in repo.files then Some(repo.files[path]) else None
  }

  /** Everything one run works with besides the repositories and the file system. */
  datatype Env = Env(settings: Settings, prior: map<string, Project>, parse: string -> int, now: string)

  /** What the loop has built so far: the output list, the file system and the README-update count. */
  datatype RunState = RunState(out: seq<Project>, store: Store, readmeCount: nat)

  /** The loop either finishes or is aborted by a configuration `parseConfig` throws on. */
  datatype LoopOutcome = Done(state: RunState) | Aborted(error: string, store: Store)

  /** The repository has a configuration file that `parseConfig` rejects. */
  predicate Malformed(repo: Repo) {
    repo.config.Some? && ParseConfig(repo.config.value).Failure?
  }

  /** The project a repository contributes to the output, if any. */
  function Candidate(repo: Repo, now: string): (r: Option<Project>)
    ensures r.Some? <==>
      && repo.config.Some?
      && (repo.config.value.Obj? || repo.config.value.Arr?)
      && !repo.isPrivate
      && !repo.fork
      && ParseConfig(repo.config.value).value.isActive
    ensures r.Some? ==> r.value == Backfill(ParseConfig(repo.config.value).value, repo, now)
  {
    if repo.config.None? then None
    else match ParseConfig(repo.config.value)
      case Failure(_) => None
      case Success(parsed) =>
        if ShouldInclude(parsed, repo) then Some(Backfill(parsed, repo, now)) else None
  }

  /** The candidate as a list of zero or one project. */
  function Contribution(repo: Repo, now: string): seq<Project> {
    match Candidate(repo, now)
    case Some(p) => [p]
    case None => []
  }

  /** The projects the repositories contribute, in listing order. */
  function Included(repos: seq<Repo>, now: string): seq<Project> {
    if |repos| == 0 then [] else Contribution(repos[0], now) + Included(repos[1..], now)
  }

  /** Some repository in the list contributes `p`. */
  predicate SomeContributes(repos: seq<Repo>, now: string, p: Project) {
    exists i :: 0 <= i < |repos| && Candidate(repos[i], now) == Some(p)
  }

  /** Some repository in the list contributes `p` when the first one does or one of the rest does. */
  lemma SomeContributesSplit(repos: seq<Repo>, now: string, p: Project)
    requires |repos| > 0
    ensures SomeContributes(repos, now, p) <==> Candidate(repos[0], now) == Some(p) || SomeContributes(repos[1..], now, p)
  {
    if SomeContributes(repos, now, p) {
      var i :| 0 <= i < |repos| && Candidate(repos[i], now) == Some(p);
      if i > 0 {
        assert repos[1..][i - 1] == repos[i];
      }
    }
    if SomeContributes(repos[1..], now, p) {
      var i :| 0 <= i < |repos| - 1 && Candidate(repos[1..][i], now) == Some(p);
      assert repos[i + 1] == repos[1..][i];
    }
  }

  /** A project is included exactly when some repository contributes it. */
  lemma {:induction false} IncludedMembers(repos: seq<Repo>, now: string, p: Project)
    ensures p in Included(repos, now) <==> exists i :: 0 <= i < |repos| && Candidate(repos[i], now) == Some(p)
  {
    if |repos| > 0 {
      IncludedMembers(repos[1..], now, p);
      SomeContributesSplit(repos, now, p);
      assert p in Contribution(repos[0], now) <==> Candidate(repos[0], now) == Some(p);
    }
    assert SomeContributes(repos, now, p) <==> exists i :: 0 <= i < |repos| && Candidate(repos[i], now) == Some(p);
  }

  /** The paths of the cached documents of the included projects. */
  function ReadmePaths(dir: string, ps: seq<Project>): set<string> {
    set p | p in ps :: ReadmePath(dir, p.slug)
  }

  /** A README refresh is needed for a new slug, a newer `updated_at`, or a missing cache file. */
  predicate NeedsReadme(env: Env, store: Store, p: Project) {
    ShouldUpdateReadme(p.slug, p, env.prior, env.parse) || ReadmePath(env.settings.readmesDir, p.slug) !in store
  }

  /** The repository path of a project's descriptive document. */
  function ReadmeSource(p: Project): string {
    if p.readmePath != "" then p.readmePath else DefaultReadme
  }

  /** Fetches the document, normalises its line endings and writes it only when it differs. */
  function RefreshReadme(env: Env, st: RunState, repo: Repo, p: Project): (r: RunState)
    ensures r.out == st.out
    ensures var path := ReadmePath(env.settings.readmesDir, p.slug);
      match ReadRepoFile(repo, ReadmeSource(p))
      case None => r == st
      case Some(text) =>
        && path in r.store && r.store[path] == Normalize(text)
        && r.store.Keys == st.store.Keys + {path}
        && (forall q :: q in st.store && q != path ==> r.store[q] == st.store[q])
        && (r.readmeCount == st.readmeCount + 1 <==> !(path in st.store && st.store[path] == Normalize(text)))
        && (r.readmeCount == st.readmeCount <==> path in st.store && st.store[path] == Normalize(text))
  {
    match ReadRepoFile(repo, ReadmeSource(p))
    case None => st
    case Some(text) =>
      var w := WriteIfChanged(st.store, ReadmePath(env.settings.readmesDir, p.slug), Normalize(text));
      RunState(st.out, w.store, if w.changed then st.readmeCount + 1 else st.readmeCount)
  }

  /**
   * A refresh that found the document leaves its cache file in place, so
   * afterwards only a newer date or a new slug calls for the document again.
   */
  lemma RefreshFillsCache(env: Env, st: RunState, repo: Repo, p: Project)
    requires ReadRepoFile(repo, ReadmeSource(p)).Some?
    ensures NeedsReadme(env, RefreshReadme(env, st, repo, p).store, p) <==>
      ShouldUpdateReadme(p.slug, p, env.prior, env.parse)
  {
  }

  /** One iteration of the main loop. */
  function Step(env: Env, st: RunState, repo: Repo): (r: LoopOutcome)
    ensures r.Aborted? <==> Malformed(repo)
    ensures r.Aborted? ==> r.store == st.store && r.error == InvalidFormat
    ensures r.Done? ==> r.state.out == st.out + Contribution(repo, env.now)
    ensures r.Done? ==> st.readmeCount <= r.state.readmeCount <= st.readmeCount + |Contribution(repo, env.now)|
    ensures r.Done? ==> r.state.store.Keys >= st.store.Keys
  {
    if repo.config.None? then Done(st)
    else match ParseConfig(repo.config.value)
      case Failure(e) => Aborted(e, st.store)
      case Success(parsed) =>
        if !ShouldInclude(parsed, repo) then Done(st)
        else
          var p := Backfill(parsed, repo, env.now);
          var st' := if NeedsReadme(env, st.store, p) then RefreshReadme(env, st, repo, p) else st;
          Done(st'.(out := st'.out + [p]))
  }

  /**
   * What one iteration does to the file system: nothing for a skipped
   * repository; for an included one, at most the project's cache file
   * changes, nothing at all when no refresh is needed or the document is
   * missing, the normalised document when a refresh is needed, and
   * afterwards the cache file exists unless the repository has no document.
   */
  lemma StepStore(env: Env, st: RunState, repo: Repo)
    requires Step(env, st, repo).Done?
    ensures Candidate(repo, env.now).None? ==> Step(env, st, repo).state == st
    ensures Candidate(repo, env.now).Some? ==>
      var r := Step(env, st, repo).state;
      var p := Candidate(repo, env.now).value;
      var path := ReadmePath(env.settings.readmesDir, p.slug);
      && r.store.Keys <= st.store.Keys + {path}
      && (forall q :: q in st.store && q != path ==> r.store[q] == st.store[q])
      && (path in r.store || ReadRepoFile(repo, ReadmeSource(p)).None?)
      && (!NeedsReadme(env, st.store, p) ==> r.store == st.store && r.readmeCount == st.readmeCount)
      && (NeedsReadme(env, st.store, p) && ReadRepoFile(repo, ReadmeSource(p)).Some? ==>
            r.store[path] == Normalize(ReadRepoFile(repo, ReadmeSource(p)).value))
      && (NeedsReadme(env, st.store, p) && ReadRepoFile(repo, ReadmeSource(p)).None? ==>
            r.store == st.store && r.readmeCount == st.readmeCount)
  {
  }

  /** Some repository in the list has a configuration `parseConfig` rejects. */
  predicate SomeMalformed(repos: seq<Repo>) {
    exists i :: 0 <= i < |repos| && Malformed(repos[i])
  }

  /** Some repository is malformed when the first one is or one of the rest is. */
  lemma SomeMalformedSplit(repos: seq<Repo>)
    requires |repos| > 0
    ensures SomeMalformed(repos) <==> Malformed(repos[0]) || SomeMalformed(repos[1..])
  {
    if SomeMalformed(repos) {
      var i :| 0 <= i < |repos| && Malformed(repos[i]);
      if i > 0 {
        assert repos[1..][i - 1] == repos[i];
      }
    }
    if SomeMalformed(repos[1..]) {
      var i :| 0 <= i < |repos| - 1 && Malformed(repos[1..][i]);
      assert repos[i + 1] == repos[1..][i];
    }
  }

  /** The listed projects are the first repository's contribution followed by the rest's. */
  lemma IncludedUnfold(repos: seq<Repo>, now: string)
    requires |repos| > 0
    ensures Included(repos, now) == Contribution(repos[0], now) + Included(repos[1..], now)
  {
  }

  /** The loop's output after the first iteration, extended by the rest, is the whole list's. */
  lemma LoopStepOut(before: seq<Project>, c: seq<Project>, rest: seq<Project>, out: seq<Project>)
    requires out == (before + c) + rest
    ensures out == before + (c + rest)
  {
  }

  /** The README count bound after the first iteration, extended by the rest, bounds the whole list. */
  lemma LoopStepCount(n0: nat, n1: nat, n2: nat, c: seq<Project>, rest: seq<Project>)
    requires n0 <= n1 <= n0 + |c|
    requires n1 <= n2 <= n1 + |rest|
    ensures n0 <= n2 <= n0 + |c + rest|
  {
  }

  /** The main loop as a fold over the listed repositories. */
  function Loop(env: Env, st: RunState, repos: seq<Repo>): (r: LoopOutcome)
    ensures r.Aborted? <==> exists i :: 0 <= i < |repos| && Malformed(repos[i])
    ensures r.Done? ==> r.state.out == st.out + Included(repos, env.now)
    ensures r.Done? ==> st.readmeCount <= r.state.readmeCount <= st.readmeCount + |Included(repos, env.now)|
    ensures r.Done? ==> r.state.store.Keys >= st.store.Keys
    decreases |repos|
  {
    if |repos| == 0 then Done(st)
    else
      match Step(env, st, repos[0])
      case Aborted(e, store) => Aborted(e, store)
      case Done(next) =>
        var r := Loop(env, next, repos[1..]);
        SomeMalformedSplit(repos);
        IncludedUnfold(repos, env.now);
        if r.Done? then
          LoopStepOut(st.out, Contribution(repos[0], env.now), Included(repos[1..], env.now), r.state.out);
          LoopStepCount(st.readmeCount, next.readmeCount, r.state.readmeCount,
                        Contribution(repos[0], env.now), Included(repos[1..], env.now));
          r
        else
          r
  }

  /** The main loop touches no file other than the cache files of the included projects, even when it aborts. */
  lemma {:induction false} LoopFrame(env: Env, st: RunState, repos: seq<Repo>, q: string)
    requires q !in ReadmePaths(env.settings.readmesDir, Included(repos, env.now))
    ensures match Loop(env, st, repos)
      case Done(s) => (q in s.store <==> q in st.store) && (q in st.store ==> s.store[q] == st.store[q])
      case Aborted(_, store) => (q in store <==> q in st.store) && (q in st.store ==> store[q] == st.store[q])
    decreases |repos|
  {
    if |repos| > 0 {
      var step := Step(env, st, repos[0]);
      if step.Done? {
        StepStore(env, st, repos[0]);
        var c := Contribution(repos[0], env.now);
        assert Included(repos, env.now) == c + Included(repos[1..], env.now);
        if Candidate(repos[0], env.now).Some? {
          var p := Candidate(repos[0], env.now).value;
          assert p in Included(repos, env.now);
          assert q != ReadmePath(env.settings.readmesDir, p.slug);
        }
        forall p | p in Included(repos[1..], env.now)
          ensures p in Included(repos, env.now)
        {
        }
        LoopFrame(env, step.state, repos[1..], q);
      }
    }
  }

  /** What a run reports: the sorted projects, the file system after it, the README count, whether the index changed. */
  datatype Report = Report(projects: seq<Project>, store: Store, readmeCount: nat, indexChanged: bool)

  /** A run completes, or is aborted with the file system as the aborted loop left it. */
  datatype RunOutcome = Completed(report: Report) | Failed(error: string, store: Store)

  /** The final ordering's comparator: `b` may not come before `a` when `a` is at least as recent. */
  function NewerFirst(parse: string -> int): (Project, Project) -> bool {
    (a: Project, b: Project) => Time(parse, a.updatedAt) >= Time(parse, b.updatedAt)
  }

  lemma NewerFirstIsPreorder(parse: string -> int)
    ensures TotalPreorder(NewerFirst(parse))
  {
  }

  /**
   * One harvester run: load the prior index, run the loop from an empty
   * output list, sort by descending `updated_at`, and write the serialised
   * list to the index file when it differs. `serialize` and `deserialize`
   * stand for `JSON.stringify(_, null, 2)` and the reading side of
   * `loadPriorProjects`.
   */
  function Run(
    settings: Settings,
    repos: seq<Repo>,
    store: Store,
    parse: string -> int,
    now: string,
    serialize: seq<Project> -> string,
    deserialize: string -> Option<seq<Project>>): (r: RunOutcome)
    ensures r.Failed? <==> exists i :: 0 <= i < |repos| && Malformed(repos[i])
    ensures r.Completed? ==> multiset(r.report.projects) == multiset(Included(repos, now))
    ensures r.Completed? ==> forall i :: 0 <= i < |r.report.projects| - 1 ==>
      Time(parse, r.report.projects[i].updatedAt) >= Time(parse, r.report.projects[i + 1].updatedAt)
    ensures r.Completed? ==>
      settings.projectsPath in r.report.store && r.report.store[settings.projectsPath] == serialize(r.report.projects)
    ensures r.Completed? ==> r.report.readmeCount <= |r.report.projects|
  {
    var prior := LoadPrior(store, settings.projectsPath, deserialize);
    var env := Env(settings, prior, parse, now);
    match Loop(env, RunState([], store, 0), repos)
    case Aborted(e, s) => Failed(e, s)
    case Done(st) =>
      var le := NewerFirst(parse);
      NewerFirstIsPreorder(parse);
      SortSorted(st.out, le);
      var sorted := Sort(st.out, le);
      var w := WriteIfChanged(st.store, settings.projectsPath, serialize(sorted));
      Completed(Report(sorted, w.store, st.readmeCount, w.changed))
  }

  /** An aborted run leaves the previous index file as it was (the index is written only at the end). */
  lemma RunFailedKeepsIndex(
    settings: Settings,
    repos: seq<Repo>,
    store: Store,
    parse: string -> int,
    now: string,
    serialize: seq<Project> -> string,
    deserialize: string -> Option<seq<Project>>)
    requires settings.projectsPath !in ReadmePaths(settings.readmesDir, Included(repos, now))
    ensures var r := Run(settings, repos, store, parse, now, serialize, deserialize);
      r.Failed? ==>
        && (settings.projectsPath in r.store <==> settings.projectsPath in store)
        && (settings.projectsPath in store ==> r.store[settings.projectsPath] == store[settings.projectsPath])
  {
    var prior := LoadPrior(store, settings.projectsPath, deserialize);
    var env := Env(settings, prior, parse, now);
    LoopFrame(env, RunState([], store, 0), repos, settings.projectsPath);
  }

  /**
   * A run, whether it completes or aborts, changes no file other than the
   * cache files of the included projects and the index file.
   */
  lemma RunFrame(
    settings: Settings,
    repos: seq<Repo>,
    store: Store,
    parse: string -> int,
    now: string,
    serialize: seq<Project> -> string,
    deserialize: string -> Option<seq<Project>>,
    q: string)
    requires q != settings.projectsPath
    requires q !in ReadmePaths(settings.readmesDir, Included(repos, now))
    ensures var r := Run(settings, repos, store, parse, now, serialize, deserialize);
      var after := if r.Completed? then r.report.store else r.store;
      && (q in after <==> q in store)
      && (q in store ==> after[q] == store[q])
  {
    var prior := LoadPrior(store, settings.projectsPath, deserialize);
    var env := Env(settings, prior, parse, now);
    LoopFrame(env, RunState([], store, 0), repos, q);
  }

  /** A project is in the output exactly when a listed repository contributes it. */
  lemma RunMembers(
    settings: Settings,
    repos: seq<Repo>,
    store: Store,
    parse: string -> int,
    now: string,
    serialize: seq<Project> -> string,
    deserialize: string -> Option<seq<Project>>,
    p: Project)
    requires Run(settings, repos, store, parse, now, serialize, deserialize).Completed?
    ensures p in Run(settings, repos, store, parse, now, serialize, deserialize).report.projects <==>
      exists i :: 0 <= i < |repos| && Candidate(repos[i], now) == Some(p)
  {
    var ps := Run(settings, repos, store, parse, now, serialize, deserialize).report.projects;
    assert p in ps <==> p in multiset(ps);
    IncludedMembers(repos, now, p);
  }
}
