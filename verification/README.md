# Portfolio site: project harvester and front-end helpers, in Dafny

This project models the logic of a personal portfolio site. The main part is the
project harvester (`scripts/scrape_github.ts`). It lists a GitHub account's
repositories and reads each one's `.portfolio/config.yml`. From the config it
builds a `Project` record, filling in defaults. It keeps only public, non-fork,
active repositories and backfills the missing fields from repository metadata.
When needed, it refreshes the cached README (`<slug>.md`), writing it only when
the content changed. Finally it writes the project list, sorted newest first,
to `projects.json`, again only when the content changed.

The model also covers the small pure helpers of the front-end:

- the project modal's cyclic prev/next navigation and key handling;
- the Fisher–Yates shuffle and icon lookup of the Tools page;
- the sort-a-copy and icon lookup of the Skills page;
- the sidebar's initials, first name, title and active-link rules.

Some inputs are passed in as parameters instead of being modelled:

- **GitHub:** the repository listing is a sequence of `Harvest.Repo` records. Each record carries its already-loaded config (`None` means the host answered 404) and a map of its other files.
- **File system:** a `FileStore.Store`, which maps each path to its text.
- **Clock:** `new Date().toISOString()` is the `now` parameter.
- **Date parsing:** `Date.parse` is the `parse` parameter.
- **JSON:** reading and writing `projects.json` are the `serialize` and `deserialize` parameters.
- **Randomness:** the `Math.random()` results are the `draws` of the shuffle.
- **String comparison:** `localeCompare` is an abstract comparator `cmp`.

Modules: `Wrappers` (Option/Result), `JsValue` (loaded YAML values, truthiness,
`typeof`), `ProjectConfig` (`parseConfig`), `FileStore` (`writeFileIfChanged`),
`LineEndings` (`normalizeLineEndings`), `Sorting` (stable sort of a copy),
`Harvest` (eligibility, backfill, prior index, README decision, main loop, final
sort and write), `HarvestRerun` (a second identical run writes nothing), `Modal`,
`Icons`, `Tools`, `Skills`, `Layout`, and `SeqFacts` (a string fact the proofs share).

Three facts about the code that the model keeps:

- A config that `parseConfig` rejects aborts the whole run. The exception leaves `main`, so any README files written before that point stay on disk and `projects.json` is not written. `Harvest.Loop` and `Harvest.Run` model that abort.
- The code does not enforce unique slugs: two repositories with the same configured slug both appear in the output. `HarvestRerun.RerunChangesNothing` therefore takes slug uniqueness as a hypothesis.
- A project gets `now` as its `updated_at` when neither the config nor the repository gives one (scripts/scrape_github.ts:169), and as its `created_at` when neither gives a `created_at` (line 170). The index stays unchanged only if such projects see the same `now`; when every project has both timestamps, the clock is never used. The rerun lemma uses one `now` for both runs.

## Model

| member | source | states |
|---|---|---|
| ProjectConfig.ParseConfig | scripts/scrape_github.ts:97-120 | rejects exactly the documents that are neither a mapping nor a list (falsy or not `typeof 'object'`), with "Invalid configuration format"; a list yields all defaults; metadata fields stay unset |
| ProjectConfig.ParseConfigDefaults | scripts/scrape_github.ts:105-119 | each key missing from a mapping takes its default: `''`, `null`, `[]`, `"README.md"`, `featured` false, `is_active` true |
| ProjectConfig.StringFieldsRule | scripts/scrape_github.ts:106-116 | a non-empty string under `name`, `slug`, `description`, `repo_url` or `readme_path` is the field's value, and anything else gives `''` (`"README.md"` for `readme_path`); a non-empty string under `live_url`, `thumbnail`, `created_at` or `updated_at` is kept, and anything else gives `null` |
| ProjectConfig.FalsyStringTakesDefault | scripts/scrape_github.ts:106-116 | a string key that is present with a falsy value (`''`, `null`, `false`, `0`) takes the same default as a missing one |
| ProjectConfig.IsActiveRule | scripts/scrape_github.ts:118 | `is_active` is true when the key is absent, otherwise its truthiness, so an explicit `null` gives false |
| ProjectConfig.FeaturedRule | scripts/scrape_github.ts:117 | `featured` holds iff the key is present with a truthy value |
| ProjectConfig.ListFieldsRule | scripts/scrape_github.ts:109-110 | `tech_stack` and `tags` are kept when they are lists and are `[]` otherwise |
| FileStore.WriteIfChanged | scripts/scrape_github.ts:134-144 | afterwards the path holds the content and no other path changes; it reports a change iff the old file was missing or different, and an unchanged write leaves the store as it was |
| FileStore.WriteIfChangedTwice | scripts/scrape_github.ts:134-144 | a second identical write reports no change and leaves the store alone |
| LineEndings.NormalizeLength | scripts/scrape_github.ts:214 | the output is shorter than the input by the number of CR LF pairs matched left to right |
| LineEndings.NormalizeKeepsClean | scripts/scrape_github.ts:214 | a text with no CR LF pair comes back unchanged |
| LineEndings.NormalizeUnits | scripts/scrape_github.ts:214 | CR LF becomes LF, and any single character stays as it is |
| LineEndings.NormalizeAppend | scripts/scrape_github.ts:214 | normalising two texts joined where no CR LF straddles the join is normalising each and joining the results, so every character stays in place |
| LineEndings.CrlfBecomesLf | scripts/scrape_github.ts:214 | a CR LF pair between any two texts becomes one LF in the same place, and the texts on either side are normalised on their own |
| LineEndings.NormalizeFixpoint | scripts/scrape_github.ts:214 | a string is unchanged iff it contains no CR LF pair (both directions) |
| LineEndings.NormalizeDeletesOneCrPerPair | scripts/scrape_github.ts:214 | the input's characters are the output's plus exactly one CR per matched pair: nothing else is lost or added |
| LineEndings.NormalizeNotIdempotent | scripts/scrape_github.ts:214 | CR CR LF becomes CR LF, and a second pass gives LF, so the pass is not idempotent |
| Sorting.Sort | scripts/scrape_github.ts:193-197 | the sorted copy has the input's elements, each as often as in the input |
| Sorting.SortSorted | scripts/scrape_github.ts:193-197 | for any total, transitive comparator, the insertion sort's output is in comparator order (its contract already gives a permutation) |
| Harvest.Backfill | scripts/scrape_github.ts:166-171 | stars and forks default to 0; `updated_at` is the first given of config, `pushed_at`, repo `updated_at`, repo `created_at`, now; `created_at` is the first given of config, repo `created_at`, now; the slug is the configured one or the lower-cased repo name; nothing else changes |
| Harvest.Lower | scripts/scrape_github.ts:171 | each capital ASCII letter becomes the small letter at the same place in the alphabet; every other character is kept |
| Harvest.LowerIsLower | scripts/scrape_github.ts:171 | the lower-cased name has no upper-case ASCII letter, and lower-casing is idempotent |
| Harvest.ShouldIncludeRule | scripts/scrape_github.ts:122-124 | with `parseConfig` applied first, a mapping is included iff the repository is public, not a fork, and `is_active` is missing, undefined or truthy; a list is included iff the repository is public and not a fork |
| Harvest.SlugFromRepositoryName | scripts/scrape_github.ts:171 | a config without a slug in repository `MyRepo` gets the slug `myrepo` |
| Harvest.IndexBySlug | scripts/scrape_github.ts:78 | the prior index has one key per slug in the list, and each key maps to a listed project with that slug |
| Harvest.IndexBySlugLastWins | scripts/scrape_github.ts:78 | an entry that no later entry shares a slug with is what the index holds for its slug |
| Harvest.LoadPrior | scripts/scrape_github.ts:75-82 | a missing or unparsable index file gives the empty index; otherwise the index of the stored list |
| Harvest.ReadmeDecisionCases | scripts/scrape_github.ts:126-132 | `shouldUpdateReadme` by cases: a new slug refreshes; with both timestamps given it refreshes iff the new one parses strictly later; a missing timestamp counts as 0 on either side; an equal timestamp does not refresh by date |
| Harvest.ReadRepoFile | scripts/scrape_github.ts:84-95 | a file the repository does not have (a 404) reads as `null`; otherwise its text |
| Harvest.RefreshFillsCache | scripts/scrape_github.ts:172 | once a refresh has found the document, its cache file exists, so the refresh test reduces to `shouldUpdateReadme` |
| Harvest.Candidate | scripts/scrape_github.ts:122-124 | a repository contributes a project iff it has a config that is a mapping or list, is not private, is not a fork, and the config keeps `is_active`; the project is the backfilled config |
| Harvest.IncludedMembers | scripts/scrape_github.ts:155-192 | a project is collected iff some listed repository contributes it |
| Harvest.RefreshReadme | scripts/scrape_github.ts:174-187 | a missing README changes nothing; otherwise the cache file holds the normalised README and only that path changes; the count goes up iff the cached text differed |
| Harvest.Step | scripts/scrape_github.ts:155-192 | one iteration aborts iff the config is malformed, and then the store is unchanged; otherwise it appends the repository's contribution and the count rises by at most one |
| Harvest.StepStore | scripts/scrape_github.ts:172-190 | a skipped repository changes nothing; an included one touches only its cache file; with no refresh needed or no README nothing changes; when a refresh is needed the file holds the normalised README |
| Harvest.Loop | scripts/scrape_github.ts:155-192 | the loop aborts iff some listed repository has a malformed config; otherwise the output is the contributed projects in listing order, and the README count is at most their number |
| Harvest.LoopFrame | scripts/scrape_github.ts:155-192 | even when it aborts, the loop changes no file except the cache files of included projects |
| Harvest.NewerFirstIsPreorder | scripts/scrape_github.ts:193-197 | the final comparator (missing timestamp = 0) is total and transitive |
| Harvest.Run | scripts/scrape_github.ts:146-202 | a run fails iff a config is malformed; otherwise the output is a permutation of the contributed projects with non-increasing `updated_at` times, the index file holds its serialisation, and the README count is at most the number of projects |
| Harvest.RunFailedKeepsIndex | scripts/scrape_github.ts:198-199 | a failed run leaves the previous index file as it was |
| Harvest.RunFrame | scripts/scrape_github.ts:146-202 | a run, completed or aborted, changes no file except the included projects' cache files and the index file |
| Harvest.RunMembers | scripts/scrape_github.ts:155-192 | a project is in the final list iff some repository contributes it |
| HarvestRerun.LoopCaches | scripts/scrape_github.ts:172-187 | after a completed loop, every included project's cache file exists unless its repository has no README |
| HarvestRerun.StepQuiet | scripts/scrape_github.ts:172-191 | an iteration that needs no refresh by date, with its cache present or no README, only appends the project |
| HarvestRerun.QuietLoop | scripts/scrape_github.ts:155-192 | a loop of such iterations leaves the file system and the README count unchanged |
| HarvestRerun.RunLeavesCaches | scripts/scrape_github.ts:172-187 | after a completed run, every included project's cache file exists unless its repository has no README |
| HarvestRerun.QuietRun | scripts/scrape_github.ts:146-202 | a run whose every iteration is quiet lists what the repositories contribute, updates no README and writes only the index |
| HarvestRerun.RerunQuietAt | scripts/scrape_github.ts:126-132 | in a second run, each repository's project is found in the prior index under its slug with the same date, and its cache is present or it has no README |
| HarvestRerun.RerunChangesNothing | scripts/scrape_github.ts:146-202 | a second run at the same instant over unchanged repositories, with unique slugs and a readable index, yields the same list, updates no README and leaves every file unchanged |
| Modal.Next | src/components/ProjectDetailModal.tsx:71 | the next index is in range: it is `i + 1`, except that the last index wraps to 0 |
| Modal.Prev | src/components/ProjectDetailModal.tsx:67 | the previous index is in range: it is `i - 1`, except that 0 wraps to `n - 1` |
| Modal.NextPrevInverse | src/components/ProjectDetailModal.tsx:115-132 | next and previous undo each other |
| Modal.NavigationMovesIffArrowsShown | src/components/ProjectDetailModal.tsx:102-103 | navigation changes the index iff there is more than one project, which is exactly when the arrows are shown; with one project both keys map 0 to 0 |
| Modal.HandleKey | src/components/ProjectDetailModal.tsx:59-74 | only while open: Escape closes, ArrowLeft goes to the previous index, ArrowRight to the next, any other key does nothing |
| Modal.LeftThenRight | src/components/ProjectDetailModal.tsx:62-73 | a left key press followed by a right one returns to the starting project |
| Modal.Shown | src/components/ProjectDetailModal.tsx:263 | a counter is displayed as its stored value when defined and 0 otherwise |
| Icons.IconOr | src/pages/Tools.tsx:40 | the mapped path when the key is mapped (to a non-empty path), the default `js.svg` icon otherwise |
| Icons.IconOrIsIconPath | src/pages/Tools.tsx:40 | when every mapped path is an SVG path under the icon directory, every lookup is too |
| Tools.ToolIcon | src/pages/Tools.tsx:5-15 | a tool's icon is its mapped path or the default; for every name other than an inherited property name, that is an SVG under the icon directory |
| Tools.SwapIndex | src/pages/Tools.tsx:21 | for a draw in [0, 1), `floor(r * (i + 1))` lies in [0, i] |
| Tools.Swap | src/pages/Tools.tsx:22 | the destructuring swap exchanges the two positions and leaves every other position as it was |
| Tools.Choices | src/pages/Tools.tsx:20-21 | the `k`-th draw is scaled by the counter `n - 1 - k`, so every partner is at most the counter it is swapped with |
| Tools.IterationsPermute | src/pages/Tools.tsx:20-23 | after any number of the loop's iterations the list holds the same multiset of elements as the input |
| Tools.ShuffleArray | src/pages/Tools.tsx:18-25 | the shuffle of a copy returns a permutation of the input; a list of at most one element comes back unchanged; the result is the loop's swaps applied from the last index down to 1 |
| Skills.SkillIcon | src/pages/Skills.tsx:66 | a skill's icon is its mapped path when it is a key, the default icon otherwise |
| Skills.SortAlphabetically | src/pages/Skills.tsx:43-46 | the sorted copy is a permutation of the input |
| Skills.SortAlphabeticallyOrdered | src/pages/Skills.tsx:45 | with a consistent comparator, neighbouring results satisfy `cmp(key(a), key(b)) <= 0` |
| Layout.SplitSound | src/components/Layout.tsx:36 | the pieces contain no separator and join back to the input; the first piece is the text before the first separator |
| Layout.SplitJoin | src/components/Layout.tsx:36 | splitting the join of separator-free pieces (`SepFree`) gives back the pieces |
| Layout.Initials | src/components/Layout.tsx:36 | the initials are exactly the non-space characters at the start of the name or right after a space, in order; empty words contribute nothing |
| Layout.FirstName | src/components/Layout.tsx:39 | the first name is the prefix of the name before its first space, or the whole name when there is no space |
| Layout.Trim | src/components/Layout.tsx:40 | the trimmed text neither starts nor ends with white space |
| Layout.TrimCutsSpace | src/components/Layout.tsx:40 | trimming removes white space, and only white space, from both ends |
| Layout.SidebarTitle | src/components/Layout.tsx:40 | the title contains no bar and neither starts nor ends with white space |
| Layout.SidebarTitleIsTrimmedPrefix | src/components/Layout.tsx:40 | the title is the trimmed text before the first bar |
| Layout.ActiveFlags | src/components/Layout.tsx:49 | an entry is active iff its path equals the current location |
| Layout.AtMostOneActive | src/components/Layout.tsx:8-16 | the entries' paths are distinct, so at most one entry is active, and exactly one when the location is one of them |

## Left out

- Octokit calls are inputs, not modelled: repository listing and pagination, `getContent`, base64 decoding, the `sha` field, and the check that a path is a file.
- The process environment is not modelled: the `GITHUB_TOKEN`/`SCRAPE_GH_USERNAME` checks, `process.exit`, and console logging. The output paths are the `Settings` parameter.
- YAML parsing is done by a library. The model starts from the loaded value, so YAML syntax errors are not modelled.
- JSON formatting is the opaque `serialize` parameter.
- Unparsable timestamps are assumed away. `Date.parse` yields NaN for them, which this model does not represent.
- The clock is one `now` per run. The source reads it afresh for each repository, and separately for `updated_at` and `created_at`.
- Directory creation (`ensureDir`), `path.join` normalisation, and read or write failures other than a missing file are not modelled. The cache path is `dir + "/" + slug + ".md"`.
- Harvest.ReadRepoFile: the source returns `null` only for a 404 and rethrows every other host error (scripts/scrape_github.ts:93). That error leaves `main` and the run aborts through `process.exit(1)` without writing `projects.json`, just as for a malformed config. The model's inputs (a loaded config or `None`, and a map of files) cannot express such an error, so the "fails iff a config is malformed" contracts of `Harvest.Step`, `Harvest.Loop` and `Harvest.Run` cover only runs where the host answers every request with a file or a 404.
- Icons.IconOr: the source's lookups are reads of a plain object, so a key such as `constructor` or `toString` yields a truthy member inherited from `Object.prototype`, which the source uses as the image source. The model's tables are plain maps and give the default icon for such a key.
- Tools.ToolIcon: for a tool whose `icon` is an inherited property name such as `constructor`, the source shows that inherited member rather than an SVG; the model gives the default icon, so its "always an SVG" holds only for other names.
- Skills.SkillIcon: the same inherited-property case as `Icons.IconOr` for a skill named, for example, `toString`.
- A slug such as `toString` would hit an inherited property of `Object` in the prior-index lookup. The model's index is a plain map, so this does not happen.
- ProjectConfig.ParseConfig, ProjectConfig.StringFieldsRule: a string-declared key that holds a truthy non-string value is treated as absent. Examples are a number, a list, or a date that YAML loads as a `Date`. The source carries such a value through unchanged. The same goes for a non-string in `live_url`, `thumbnail`, `created_at` and `updated_at`. Numbers are integers, so NaN is not modelled. A whole document that the loader returns as some other object, such as a bare timestamp (a `Date`) or `!!binary` data (a `Uint8Array`), cannot be expressed as a `Value`; the source accepts such a document, since it is truthy and of type `object`, and gives it all defaults.
- Harvest.Lower: only ASCII letters are lower-cased. JavaScript's full Unicode case mapping is not modelled.
- Sorting.Sort: the sort is stable by construction, as `Array.prototype.sort` is, but no lemma states stability.
- Tools.SwapIndex: the product `r * (i + 1)` is an exact real, not a double.
- Layout.Initials: the model works on Unicode scalar values. JavaScript's `n[0]` takes the first UTF-16 code unit, so a character outside the basic plane may be split.
- All rendering is out of scope: JSX, routing, styles, portals, and the modal's README fetch and scroll lock.
- `preventDefault` on arrow keys and closing on a backdrop click are not modelled.
- The modal's language row is not modelled.
- The other pages, `App`, `vite.config` and the type-only files hold no further logic.
