# CODEOWNERS-Health, modelled in Dafny

CODEOWNERS-Health audits the private, non-archived repositories of one
GitHub organization. It looks for two problems. First, a repository that
has no `CODEOWNERS` file. Second, a `CODEOWNERS` entry `@<org>/<team>`
whose team has no access to the repository, neither directly nor through
an ancestor team that has access. Results go into two lists, which are
sorted case-insensitively and appended to two text files.

This project models that logic, with the GitHub client replaced by plain
data:

- a repository is a record: name, private and archived flags, the names of
  the teams with direct access, and the outcome of reading `CODEOWNERS`
  (`Contents`, `NotFound`, `RateLimited`, or any other failure);
- the team directory is a map from team identifier to optional parent. A
  team missing from the map stands for a lookup that raises;
- acyclicity of the parent relation is witnessed by a ghost `rank` map
  (`Types.RankedBy`): each parent ranks below its child. The ancestor walk
  is proved to terminate under it.

Modules, one per component of `main.py`:

- `Types`: the records, the directory, `RankedBy`.
- `RepoList`: the repository filter.
- `Extract`: a hand-written scanner that replaces the extraction regex.
- `Reconcile`: the ancestor chain, per-team verdicts, the reconciler loop
  as a specification function, and the `while True` walk as a method.
- `Output`: the stable case-insensitive sort and the line format.
- `Audit`: the `Results` class with the two lists, the per-repository task,
  and one whole run.

Three behaviours of `main.py` that the model keeps:

- A failed team lookup ends the whole repository, not only that team: the
  `try` at main.py:48 wraps the loop over the referenced teams
  (main.py:48-74). Lines already recorded are kept.
- A team on the access list is never looked up (main.py:54-55).
- A repository that the name lookup cannot find raises an unknown-object
  error, which lands in the same handler as a missing file (main.py:36-42).
  The model therefore lists such a repository as missing its CODEOWNERS
  file.

`main.py` iterates over a Python `set`, which has no fixed order. So the
reconciler's loop picks each next team nondeterministically.
`Reconcile.ReconciledAs` says the recorded lines are those of *some*
enumeration order. The lemmas show which facts do not depend on that
order.

## Model

| member | source | states |
|---|---|---|
| `RepoList.ListRepos` | main.py:25-30 | the returned list is exactly the names of the private, non-archived repositories, in enumeration order (`Selected`) |
| `RepoList.SelectedAppend` | main.py:27-29 | the filter distributes over concatenation, so enumeration order is preserved |
| `RepoList.SelectedMembers` | main.py:28-29 | a name is listed iff some repository with that name is private and not archived |
| `Extract.Scan` | main.py:14 | the `findall` over the text from a position: at each `@<org>/` it takes the maximal run of letters and hyphens and resumes after it; elsewhere it moves on by one character (its meaning is `ScanFindsReferences`) |
| `Extract.Extracted` | main.py:52 | `set(re.findall(...))` over the whole CODEOWNERS text: the scan from position 0 (its meaning is `ScanFindsReferences`, `ExtractedSound`, `ExtractedComplete`) |
| `Extract.RunEnd` | main.py:14 | the capture group is the longest run of ASCII letters and `-` at the position: every character in it is one, and the character after it is not |
| `Extract.ScanFindsReferences` | main.py:14 | for an org name without `@`, the left-to-right scanner, which resumes after each match, finds exactly the slugs after every `@<org>/` occurrence |
| `Extract.ExtractedSound` | main.py:52 | every extracted slug is the one captured at some occurrence of `@<org>/` |
| `Extract.ExtractedShape` | main.py:14 | every extracted slug holds only letters and hyphens (it may be empty), directly follows an `@<org>/`, and cannot be extended |
| `Extract.TeamAfterIsSlug` | main.py:14 | the slug captured at a marker occurrence follows the marker directly, holds only letters and hyphens, and is followed by neither |
| `Extract.ExtractedComplete` | main.py:52 | every occurrence of `@<org>/` contributes its slug to the set |
| `Extract.DigitCutsScenario` | main.py:14 | in `* @acme/web-team2` the digit ends the slug: the set is `{web-team}` |
| `Reconcile.ChainFrom` | main.py:60-68 | when the walk succeeds, it yields the team, then each parent in turn, ending at a root, all known to the directory |
| `Reconcile.ChainFromExact` | main.py:60-68 | the walk succeeds with `c` iff `c` is the team's ancestor chain; it fails iff no such chain exists |
| `Reconcile.ChainDistinct` | main.py:62-68 | ranks strictly decrease along the chain, so no team is visited twice |
| `Reconcile.AnyIn` | main.py:69 | `any(x in nested for x in access_list)` holds iff the access list and the chain share a team |
| `Reconcile.TeamVerdict` | main.py:54-71 | a team on the access list is satisfied without a lookup; otherwise a failed walk is a lookup failure, and a complete chain gives a conflict iff it misses the access list (proved in `ConflictIffChainMissesAcl`, `LookupFailedIffNoChain`) |
| `Reconcile.ConflictIffChainMissesAcl` | main.py:53-71 | a team with an ancestor chain is never a lookup failure, and it is a conflict iff no member of its chain is on the access list; a team on the list is never one, and neither is a team whose ancestor has access |
| `Reconcile.LookupFailedIffNoChain` | main.py:53-74 | processing stops at a team iff it is not on the access list and it has no complete ancestor chain |
| `Reconcile.GrandparentAccessScenario` | main.py:60-71 | access granted to a grandparent (not the immediate parent) satisfies the grandchild |
| `Reconcile.ConflictLineInjective` | main.py:58 | for one repository, a `repo,team` line determines its team |
| `Reconcile.ReconcileInOrder` | main.py:48-74 | the `for team` loop under the `try`, for one visit order: conflicts add `repo,team`, satisfied teams add nothing, the first failed lookup ends the loop keeping earlier lines (proved in `ReconcileSound`, `ReconcileComplete`, `ReconcileDistinct`) |
| `Reconcile.ReconcileAppend` | main.py:53-74 | looping over `a` and then `b` equals looping over `a + b`; after a failure in `a`, `b` is never looked at |
| `Reconcile.ReconcileSound` | main.py:53-71 | every recorded line is `repo,team` for a visited team that is not on the access list and has no access path |
| `Reconcile.ReconcileComplete` | main.py:53-74 | processing fails iff some visited team fails its lookup; otherwise every visited team without an access path gets its line |
| `Reconcile.ReconcileDistinct` | main.py:52-53 | each team of a duplicate-free order contributes at most one line |
| `Reconcile.ReconciledAsCharacterized` | main.py:52-74 | whatever order the set is visited in: the recorded lines are distinct; each is a conflict of a referenced team; with no failed lookup they are all such conflicts |
| `Reconcile.StopWitness` | main.py:73-74 | after a failed lookup, the teams not yet visited do not change what was recorded, whatever their order |
| `Reconcile.CollectNested` | main.py:59-68 | the `while True` walk from a team with a parent returns that team's chain, root included, or None when a lookup raises (`ChainFrom`); it terminates because ranks decrease |
| `Output.Lower` | main.py:84 | the `str.lower` sort key, on ASCII capitals: same length, each capital replaced by its lower-case letter |
| `Output.SortByLower` | main.py:84 | `sorted(..., key=str.lower)` as a stable insertion sort (proved in `SortByLowerCorrect`) |
| `Output.SortByLowerCorrect` | main.py:84 | `sorted(key=str.lower)` is ordered by the lowered key and is a permutation; equal-key entries keep their insertion order (stable) |
| `Output.SortedPairwise` | main.py:88 | in the sorted list, every earlier entry's key is at most every later entry's key |
| `Output.SplitLinesOfLines` | main.py:85 | appending each entry plus `"\n"` gives text whose lines are the entries again, provided no entry contains a newline |
| `Output.Lines` | main.py:85 | one `"%s\n"` per entry, in list order (read back by `SplitLinesOfLines`) |
| `Output.Render` | main.py:82-89 | the text appended to an output file: nothing for an empty list, else `Lines` of the sorted list (proved in `RenderReadsBack`) |
| `Output.RenderReadsBack` | main.py:81-89 | the appended text is empty iff the list is empty; otherwise its lines are the stably sorted entries |
| `Output.Emit` | main.py:82-89 | the write loop produces exactly `Render(entries)`: nothing for an empty list, else the sorted entries, each followed by `"\n"` |
| `Audit.FetchOf` | main.py:36-42 | what the task reads for a name: the repository's `CODEOWNERS` outcome, or `NotFound` when no listed repository has the name |
| `Audit.MissingNames` | main.py:36-42 | the missing list after the tasks for the names, in task order: each name whose fetch is `NotFound` (proved in `MissingNamesMembers`) |
| `Audit.TaskConflicts` | main.py:36-47 | what one task adds to the conflicts list: nothing unless `CODEOWNERS` was read, otherwise what the reconciler records over some order of the extracted teams |
| `Audit.FindRepo` | main.py:36 | the repository lookup by name returns a listed repository with that name, and fails iff there is none |
| `Audit.MissingNamesMembers` | main.py:40-42 | a name is on the missing list iff its task ran and its CODEOWNERS was not found |
| `Audit.RunConflictsSound` | main.py:92-98 | every line of the conflicts list names a listed repository whose CODEOWNERS was read, plus a referenced team that is not on its access list and has no access path |
| `Audit.RunConflictsComplete` | main.py:92-98 | if every lookup for a repository succeeds, each referenced team without an access path has its line in the conflicts list |
| `Audit.Results.constructor` | main.py:16-17 | both result lists start empty |
| `Audit.Results.CheckAcl` | main.py:47-74 | the missing list is unchanged; the conflicts list is extended, never rewritten, by what the reconciler records over some order of the extracted set |
| `Audit.Results.CheckForCodeowners` | main.py:33-44 | a missing file appends the name to the missing list and skips reconciliation; a rate limit or another failure changes neither list; read contents are reconciled |
| `Audit.Results.WriteResults` | main.py:81-89 | the two texts appended are `Render` of the two lists |
| `Audit.RunAudit` | main.py:92-102 | a rate limit during listing appends nothing; otherwise the missing text renders exactly the listed names whose file was not found, in task order, and the conflicts text renders a list that meets `RunConflicts` |

## Left out

- Reading `GITHUB_TOKEN` and `GITHUB_ORG` and exiting when they are unset (main.py:10-11, main.py:20-22): configuration I/O.
- All PyGithub calls (main.py:18, main.py:27, main.py:36-37, main.py:50, main.py:78): a foreign library. They are replaced by the records and the directory map above.
- The thread pool, `MAX_WORKERS`, the random start delay and the `len(repos) / 5` window (main.py:35, main.py:92-98): concurrency, randomness and floating point. Tasks run one after another. With threads, the insertion order of the two lists, and so the relative order of entries that compare equal when lowercased, is not fixed.
- Opening the output files in append mode, the writes themselves, and every `print`: I/O. Only the appended text is modelled.
- Full Python `re` semantics: the extractor is a dedicated scanner.
- Extract.ScanFindsReferences: proved only for organization names without `@`, which holds for every GitHub organization name.
- Organization name in the pattern: the name is treated as a literal, while main.py splices it into the regex unescaped; GitHub organization names contain no regex metacharacters.
- Unicode `str.lower`: the sort key lowers only ASCII capitals. Entries with non-ASCII letters may sort differently from Python.
- Failures of `get_teams` and of decoding the file content (main.py:50-52): the access list and the text are given as plain values. The code would handle such a failure like a failed team lookup, so nothing would be recorded for the repository.
- Team names versus slugs: main.py keeps access lists by `team.name`, compares them with CODEOWNERS slugs, and looks parents up by `parent.name` through `get_team_by_slug`. The model uses one identifier for all of these. That is exact when each team's name equals its slug.
- A cyclic parent relation: main.py would loop forever on one. Every reconciliation member requires a `rank` witness of acyclicity.
- Transient lookup failures: one `Directory` serves the whole run, so a team lookup that fails, fails for every repository that reaches that team. In main.py any exception of a by-slug call (main.py:55, main.py:63, main.py:78), a per-call rate limit included, lands in the handler at main.py:73, so the same team can fail for one repository and succeed for the next. Only persistent lookup failures are modelled. The soundness lemmas hold either way; the completeness lemmas assume the failures are persistent.
