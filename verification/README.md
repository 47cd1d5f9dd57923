# Socially-aware truck factor: a Dafny model

The repository estimates the *truck factor* of a software project: the
smallest set of contributors whose departure would leave most of the project
without anyone who knows it. It collects a project's commits (from `git log`),
issues and pull requests, narrows them to an analysis window, merges the
identities a contributor appears under, and runs five estimators over the
result:

- **Avelino**: file authorship by Degree of Authorship (DoA), then a greedy
  removal of the authors of the most files until at most half of the files
  keep an author.
- **Cosentino**: per-file Degree of Knowledge (DoK) under one of four
  knowledge metrics (M1 to M4), file experts by a mean-based threshold, then
  project experts by file coverage.
- **Haratian**: Avelino's file authors, ranked and covered by the importance
  of their files in an import graph built from the sources.
- **Extended DoK**: DoA plus a Degree of Interest (DoI) counting the PRs and
  issues a candidate opened or commented on, with Avelino's greedy loop.
- **Social graph**: a weighted "who talks to whom" network over issues and
  PRs, whose most central contributors form the truck factor.

This project models that core as pure Dafny functions, with a few methods for
the greedy loops, and proves properties about them. The modules follow the
source files:

| module | models |
|---|---|
| `Records` | the commit, issue, PR, user and change-statistic records |
| `AnalysisWindow`, `AnalysisTarget` | windows over history, `from_repo_data`, the file groupings and lookups |
| `ContributorStore`, `AuthorKeys` | the identity-merging store and the author keys the estimators use |
| `Authorship`, `Avelino` | candidate authors, DoA, normalisation, file authors |
| `Greedy` | author-map inversion, popping, both coverage measures, the greedy selection loop |
| `Cosentino` | M1–M4, primary and file experts, project experts |
| `HaratianPaths`, `ImportGraph`, `Haratian` | import-path extraction and resolution, the import graph, the importance-ranked estimator |
| `GraphMeasures` | weighted directed graphs and the three weighted degree centralities |
| `ExtendedDok` | engagement counters, DoI, DoK |
| `SocialGraph` | the social network and the threshold cut |
| `GitLog` | parsing the raw `git log` output |
| `PostProcessing` | the manual clean-up of estimator results |
| `EvalMetrics` | NMAE, precision, recall and F1 of an evaluation |

The remaining modules are shared helpers:

- `Wrappers`: the `Option` type.
- `Seqs`, `Strings`: sequences and strings.
- `Dicts`: insertion-ordered dictionaries with Python semantics.
- `Ranking`: a stable descending sort, like `sorted(..., reverse=True)`.
- `Scores`: score tables.

Modelling conventions:

- A Python exception (`IndexError`, `KeyError`, `ZeroDivisionError`, `ValueError`, a `TypeError` on `None`) is modelled as a `None` result. Where an item can also be skipped, `Option<Option<T>>` separates the crash from the skip.
- Floating-point numbers are modelled as exact `real`s.
- Several foreign pieces are parameters, not code:
  - the graph library's PageRank and betweenness centrality;
  - `math.log`, `round`, ISO date parsing and regular-expression `findall`;
  - `fuzz.partial_ratio`, the third-party-file matcher and the bot pattern.
- Python dicts are insertion-ordered `Dicts.Dict`s, so iteration order and tie-breaking follow the source.

## Model

| member | source | states |
|---|---|---|
| AnalysisWindow.MakePoint | shared_models/analysis_window.py:19-23 | A point in time is built exactly when at least one of date, issue number and commit hash is given; otherwise validation fails. |
| AnalysisWindow.FromDates | shared_models/analysis_window.py:36-43 | Each bound is present exactly when its date is given, and it carries that date and nothing else. |
| AnalysisWindow.FromIssueNumbers | shared_models/analysis_window.py:46-53 | Each bound is present exactly when its issue number is given, and it carries only that number. |
| AnalysisWindow.FromCommitHashes | shared_models/analysis_window.py:56-63 | Each bound is present exactly when its commit hash is given, and it carries only that hash. |
| AnalysisTarget.FromRepoData | shared_models/analysis_target.py:29-164 | A window with no bounds, a start date after the end date, or a start issue after the end issue all give the full, unnamed history. |
| AnalysisTarget.FromRepoDataBetween | shared_models/analysis_target.py:111-162 | With two ordered dates, commits, issues and PRs each keep exactly the items strictly between them, in order. |
| AnalysisTarget.FromRepoDataAfter | shared_models/analysis_target.py:117-158 | With only a start date, each newest-first list keeps its leading run of items newer than the start; the scan stops at the first older item. |
| AnalysisTarget.FromRepoDataBefore | shared_models/analysis_target.py:123-162 | With only an end date, each list keeps exactly the items older than it. |
| AnalysisTarget.IssueWindowKeepsNothing | shared_models/analysis_target.py:38-53 | As written, a window bounded by two issue numbers sets no presence flag, so neither number becomes a date and all three lists come out empty. |
| AnalysisTarget.HashWindowKeepsNothing | shared_models/analysis_target.py:38-53 | The same as written for a window bounded by two commit hashes. |
| AnalysisTarget.FromRepoDataCorrected | shared_models/analysis_target.py:44-53 | The window with presence flags read from both bounds; it agrees with the original on windows without issue or hash bounds. |
| AnalysisTarget.CorrectedIssueWindow | shared_models/analysis_target.py:84-91 | Corrected, two resolvable issue numbers keep exactly the items created strictly between the two issues' creation times. |
| AnalysisTarget.CorrectedHashWindow | shared_models/analysis_target.py:92-98 | Corrected, two resolvable commit hashes keep exactly the items strictly between the two commits' committer dates. |
| AnalysisTarget.IssueDate | shared_models/analysis_target.py:84-90 | An issue-number bound has a date exactly when some issue or PR has that number; otherwise indexing the failed lookup crashes. The date is the creation time of the first issue with the number, or, when no issue has it, of the first PR with it. |
| AnalysisTarget.IssuesNumberedHead | shared_models/analysis_target.py:342-344 | The first issue selected for a number is the first issue in the list carrying it. |
| AnalysisTarget.PrsNumberedHead | shared_models/analysis_target.py:345-347 | The first PR selected for a number is the first PR in the list carrying it. |
| AnalysisTarget.CommitDate | shared_models/analysis_target.py:92-98 | A hash bound has a date exactly when some commit has that hash, and the date is the committer date of the first commit with it. |
| AnalysisTarget.CommitsWithHashHead | shared_models/analysis_target.py:357-361 | The first commit matched for a single hash is the first commit in the list with that hash. |
| AnalysisTarget.GroupCommitsByFileSpec | shared_models/analysis_target.py:243-258 | A file is a key exactly when some commit changes it, and a hash is listed under it exactly when that commit changes the file, once per change, in commit order. |
| AnalysisTarget.GroupPrsByFileSpec | shared_models/analysis_target.py:260-276 | A PR number is listed under a file exactly when one of the PR's commits changes that file. |
| AnalysisTarget.GroupIssuesByFileSpec | shared_models/analysis_target.py:278-324 | An issue is listed under a known file exactly when its title, body or a comment mentions that file. It is listed under the catch-all key exactly when it mentions none. The keys are the catch-all key plus exactly the files some issue is filed under. Lists are duplicate-free. |
| AnalysisTarget.FilePathInKnownFiles | shared_models/analysis_target.py:383-388 | The result is a known file containing the path, and no earlier known file contains it; it is absent exactly when no known file does. |
| AnalysisTarget.KnownFiles | shared_models/analysis_target.py:365-381 | A file is known exactly when it is a key of one of the PR, commit or issue groupings that exist. |
| AnalysisTarget.GetIssuesOrPrs | shared_models/analysis_target.py:328-350 | The result is the requested issues in list order followed by the requested PRs in list order. It is absent when no numbers are given, and otherwise absent exactly when no issue or PR carries a requested number. |
| AnalysisTarget.IssuesNumberedAppend | shared_models/analysis_target.py:342-344 | Selecting requested issues from two lists one after the other is selecting from each in turn: the selection keeps list order and every occurrence. |
| AnalysisTarget.PrsNumberedAppend | shared_models/analysis_target.py:345-347 | The same for pull requests. |
| AnalysisTarget.GetCommits | shared_models/analysis_target.py:353-363 | The result is present exactly when some hash is asked for and at least as many commits match as hashes were asked for; then it is the first that many matches. A partial match or an empty request gives nothing. |
| AnalysisTarget.NewerRun | shared_models/analysis_target.py:117-122 | The kept items are a prefix, all newer than the start, and the first item left out is not newer. |
| ContributorStore.Merge | shared_models/contributor_store.py:21-34 | Identical records merge to the left one. Otherwise the name and the email each come from the left operand when it has a non-empty one and from the right operand otherwise. Aliases and the five activity sets are the exact unions. The extras hold both operands' keys, with the right operand's value winning on a shared key. |
| ContributorStore.MergeAbsorbs | shared_models/contributor_store.py:24-34 | Merging the same right operand a second time changes nothing. |
| ContributorStore.MergedKeyStable | shared_models/contributor_store.py:21-42 | A record with a non-empty name and email keeps its key whatever is merged into it. |
| ContributorStore.MergeSelfIsCombine | shared_models/contributor_store.py:22-23 | The shortcut for identical operands changes nothing: combining a record with itself gives it back. |
| ContributorStore.MergeActivitySymmetric | shared_models/contributor_store.py:27-32 | The merged activity and alias sets do not depend on operand order. |
| ContributorStore.MergeNotCommutative | shared_models/contributor_store.py:25-26 | The merged identity does depend on order: the left operand's name wins. |
| ContributorStore.GetKey | shared_models/contributor_store.py:36-42 | The key is exactly `lower(name)-lower(email)`, `lower(name)-UNKNOWN` or `UNKNOWN-lower(email)`, depending on which parts are present. It is absent exactly when both parts are missing. |
| ContributorStore.Normalised | shared_models/contributor_store.py:50-51 | An email without "@" is discarded before storing; every other field is kept. |
| ContributorStore.FindMatchPrecedence | shared_models/contributor_store.py:74-129 | The match is the first stored key, in store order, accepted by some rule, and every earlier rule accepts no stored key. The rules run in order: exact key, email, name prefix, whitespace-tolerant name, email user. |
| ContributorStore.FindMatchNone | shared_models/contributor_store.py:128-129 | There is no match exactly when no rule accepts any stored key. |
| ContributorStore.SpacedAcceptsPlain | shared_models/contributor_store.py:107-114 | The whitespace-tolerant name rule accepts everything the plain name-prefix rule accepts. |
| ContributorStore.OwnKeyMatches | shared_models/contributor_store.py:85-87 | A contributor whose own key is stored is accepted by the email rule or by the name-prefix rule, so the lookup finds a match. |
| ContributorStore.AddOrUpdateNew | shared_models/contributor_store.py:52-54 | A contributor matching nothing is appended under its own key, and no other record changes. |
| ContributorStore.Updated | shared_models/contributor_store.py:56-58 | The record an update stores is the merge of the matched record with the observation, except that the observation's key joins the aliases. It has an identity and covers both records' activity. |
| ContributorStore.AddOrUpdateMerges | shared_models/contributor_store.py:55-60 | An update removes the matched key and stores the merged record `u` under `Key(u)`. Every other record is unchanged. The matched key leaves the key order, and `Key(u)` is appended unless another record already holds it. |
| ContributorStore.AddOrUpdateInvariant | shared_models/contributor_store.py:49-60 | Adding keeps every record stored under its own key. |
| ContributorStore.AddTwice | shared_models/contributor_store.py:49-60 | Adding a new identity twice leaves a single record under the same key and in the same place, holding the observation plus its own alias. |
| ContributorStore.AddTwiceSwitchesRecord | shared_models/contributor_store.py:53-60 | When two stored records are both accepted by the observation's email, an add merges into the first, which moves to the end. A second add of the same observation then merges into the other record. The store order ends as it began, and both records carry the observation's key as an alias. |
| ContributorStore.TwinSwitches | shared_models/contributor_store.py:89-98 | Such a store exists: `ann` and `zed` sharing `e@x`, each under its own key, with a nameless observation of `e@x`. |
| ContributorStore.OnlyKeyAccepted | shared_models/contributor_store.py:74-129 | When exactly one stored key is accepted by any rule, that key is the match. |
| ContributorStore.UpdateCanOverwriteOther | shared_models/contributor_store.py:59-60 | An update that moves a record to its merged key silently overwrites another record already stored there. |
| ContributorStore.Get | shared_models/contributor_store.py:66-72 | Without a name and an email there is no record; otherwise the result is the matched record, absent exactly when nothing matches. |
| ContributorStore.Drop | shared_models/contributor_store.py:62-64 | Dropping removes exactly the matched key and keeps every other record; with no match it fails with a `KeyError`. |
| AuthorKeys.KeyOf | analysis/estimators/avelino.py:83-88 | Over a store that keeps every record under its own key, the author key is the stored key the store matches for the name and the valid email. It is absent when the lookup or the key fails. |
| AuthorKeys.CommitKeys | analysis/estimators/avelino.py:82-88 | One key per commit in order, present exactly when every commit's author can be keyed. |
| Authorship.RelevantCommits | analysis/estimators/avelino.py:44 | A file's commits, oldest first: the reversed lookup result, absent exactly when the lookup fails. |
| Authorship.CandidatesStep | analysis/estimators/avelino.py:94-100 | One more commit creates its author's entry or adds its churn to that entry, and leaves every other entry unchanged. |
| Authorship.CandidateVolume | analysis/estimators/avelino.py:89-96 | A candidate's change volume is the total churn of the commits keyed to it. |
| Authorship.CandidateFirst | analysis/estimators/avelino.py:97-100 | A candidate is first author exactly when its first commit equals the oldest commit, as `index(commit) == 0` tests it. |
| Authorship.FirstAuthorIsOldest | analysis/estimators/avelino.py:97-100 | When equal commits carry equal keys, exactly the author of the oldest commit holds the first-author flag. |
| Authorship.OthersAndOwn | analysis/estimators/avelino.py:105-110 | The others' change count is the total over all candidates minus the candidate's own. |
| Authorship.DoaValuesOthers | analysis/estimators/avelino.py:103-118 | Each DoA is `base + first·w1 + own·w2 − ln(1 + others)·w3`, with others counted as total minus own. |
| Authorship.DoaMonotone | analysis/estimators/avelino.py:112-116 | With non-negative weights and a non-decreasing log, DoA rises with first authorship and own volume and falls with others' volume. |
| Authorship.DoaDominance | analysis/estimators/avelino.py:103-118 | A candidate with at least another's volume and first-authorship has at least that candidate's DoA. |
| Authorship.Normalise | analysis/estimators/avelino.py:50-51 | Every value is divided by the largest. The result is absent exactly on no candidates (`max` of nothing) or a zero maximum. |
| Authorship.NormaliseRange | analysis/estimators/avelino.py:50-51 | Some top author normalises to exactly 1, and with a positive maximum no author exceeds 1. |
| Authorship.FindAuthors | analysis/estimators/avelino.py:120-125 | An author is kept exactly when the normalised DoA is strictly above the normalised threshold and the DoA reaches the absolute threshold; no author is kept twice. |
| Authorship.TopAuthorAccepted | analysis/estimators/avelino.py:120-125 | A file has an author whenever its top author reaches the absolute threshold and the normalised threshold is below 1. |
| Authorship.FirstParty | analysis/estimators/avelino.py:41-43 | The kept files are exactly those the third-party matcher rejects, and they stay distinct when the input is. |
| Avelino.FileDoas | analysis/estimators/avelino.py:44-48 | The DoA table holds every commit author of the file, and is absent exactly when the commit lookup or an author key fails. |
| Avelino.FileAuthors | analysis/estimators/avelino.py:44-53 | A file's authors are exactly the candidates passing both thresholds on the normalised DoA, with no duplicates. |
| Avelino.AuthorMap | analysis/estimators/avelino.py:40-53 | The map has exactly the first-party files in order, each with its own authors, and is absent exactly when some file fails. |
| Avelino.AuthorMapContents | analysis/estimators/avelino.py:40-53 | A file is in the map exactly when it has commits and is not third-party, and then it maps to its own file authors. |
| Avelino.Estimate | analysis/estimators/avelino.py:34-69 | The truck factor is the number of distinct authors popped, each authoring some file. They are the first authors of the file-count ranking, and coverage was above the threshold before each was popped and is at most the threshold after the last. A non-empty map with a non-negative threshold never runs out of authors. |
| Greedy.InvertContents | analysis/estimators/avelino.py:134-142 | Inverting lists each author under exactly the files naming it, in file order, and lists every author that occurs. |
| Greedy.FilesOfMember | analysis/estimators/avelino.py:134-142 | An author's inverted list holds only files of the map that name that author. |
| Greedy.RankByFileCountOrder | analysis/estimators/avelino.py:57-61 | An author with more files is ranked before one with fewer. |
| Greedy.SortedKeys | analysis/estimators/avelino.py:57-61 | Sorting by file count permutes the authors without losing or repeating any. |
| Greedy.PopEffect | analysis/estimators/avelino.py:145-148 | Popping removes the author from every list and leaves the other authors and files in place. |
| Greedy.PopAllEffect | analysis/estimators/avelino.py:63-68 | After popping a sequence of authors, each list holds exactly its authors not among them. |
| Greedy.FileCoverage | analysis/estimators/avelino.py:128-131 | Coverage lies in [0, 1] and is absent (division by zero) exactly on an empty map; the share times the file count is the number of files with an author. |
| Greedy.WeightedCoverage | analysis/estimators/haratian.py:525-536 | Coverage is the importance share of files with an author, falling back to the file share when the total importance is 0. Absent when an orphan has no score or the map is empty under the fallback. |
| Greedy.CoverageOrder | analysis/estimators/haratian.py:525-536 | More orphaned importance never gives more weighted coverage. |
| Greedy.PopCoverage | analysis/estimators/avelino.py:63-68 | Popping an author never raises either coverage measure. |
| Greedy.OrphansGrow | analysis/estimators/avelino.py:130 | Files without an author stay without one after a pop. |
| Greedy.ScoresPermutation | analysis/estimators/haratian.py:535 | Summing file importance does not depend on the order of the files. |
| Greedy.AllPoppedCoverage | analysis/estimators/avelino.py:63-68 | Once every author is popped nothing is covered, so the loop stops by then. |
| Greedy.Select | analysis/estimators/avelino.py:62-68 | The loop pops a prefix of the ranking while coverage exceeds the threshold and stops with coverage at most the threshold. It fails only at a point where the ranking runs out or coverage cannot be computed, and never with a non-negative threshold and a ranking that names every author. |
| Greedy.PopWhileAbove | analysis/estimators/avelino.py:62-68 | The loop alone: every popped prefix had coverage above the threshold; it stops with coverage undefined or at most the threshold, or reports that the ranking ran out while coverage was still above it. |
| Greedy.FileCountRankingComplete | analysis/estimators/avelino.py:56-61 | The file-count ranking names every author of the map, so it covers every author the loop can need. |
| Greedy.FileCountEstimate | analysis/estimators/extended_dok.py:101-115 | The greedy loop shared by Avelino and extended DoK pops a prefix of the file-count ranking. Coverage was above the threshold before each pop and is at most the threshold after the last. The popped authors are distinct and come from the map. An empty map crashes; a non-empty one with a non-negative threshold always gives a result. |
| Cosentino.LastChangeDoks | analysis/estimators/cosentino.py:83-87 | M1 gives the newest commit's author a DoK of 1 and nobody else anything; no commits is the `IndexError`. |
| Cosentino.EqualChangesValue | analysis/estimators/cosentino.py:89-102 | M2 gives each author their number of commits over the number of commits. |
| Cosentino.Runs | analysis/estimators/cosentino.py:110-118 | The run sequence never holds the same author twice in a row and never opens with the previous author. It names only authors of the history, and every author other than the previous one. |
| Cosentino.RunsCover | analysis/estimators/cosentino.py:109-118 | Every non-empty author of the history heads some run. |
| Cosentino.NonConsecutiveValue | analysis/estimators/cosentino.py:104-121 | M3 gives each author their number of runs over the number of runs. |
| Cosentino.PositionsSum | analysis/estimators/cosentino.py:137-141 | The position weights 1..n sum to n(n+1)/2. |
| Cosentino.WeightedNonConsecutiveValue | analysis/estimators/cosentino.py:123-144 | M4 gives each author the summed positions of their runs over the sum of all positions. |
| Cosentino.DoksSumToOne | analysis/estimators/cosentino.py:89-144 | Under M2, M3 and M4 the DoKs of a file with at least one commit sum to 1. |
| Cosentino.NormaliseSumsToOne | analysis/estimators/cosentino.py:101-102 | Dividing by the sum of positive values gives shares summing to 1. |
| Cosentino.NonConsecutiveExampleSpread | analysis/estimators/cosentino.py:104-121 | For authors A, B, A, C, M3 gives A two of four runs. |
| Cosentino.NonConsecutiveExampleRun | analysis/estimators/cosentino.py:104-121 | For authors A, A, B, M3 collapses the repeat: one run each, 1/2 each. |
| Cosentino.WeightedExampleRun | analysis/estimators/cosentino.py:123-144 | For authors A, A, B, M4 gives the later run twice the weight: A gets 1/3 and B 2/3. |
| Cosentino.WeightedPairRun | analysis/estimators/cosentino.py:123-144 | For any two distinct non-empty authors a, b, the history a, a, b gives a 1/3 and b 2/3 under M4. |
| Cosentino.PrimaryExperts | analysis/estimators/cosentino.py:155-165 | Primary experts are the longest head of the DoK ranking whose DoKs are at least 1/N; no authors is the division by zero. |
| Cosentino.PrimaryExpertsHaveTop | analysis/estimators/cosentino.py:155-165 | When the DoKs sum to 1, the top-ranked author is always a primary expert. |
| Cosentino.FileExperts | analysis/estimators/cosentino.py:66-77 | File experts are the longest head of the ranking reaching the bus threshold: the mean primary DoK times the factor, or 1/N times the factor without primaries. |
| Cosentino.FileExpertsHaveTop | analysis/estimators/cosentino.py:66-77 | With a factor of at most 1, the top-ranked author is always a file expert. |
| Cosentino.PrimaryExpertNotFileExpert | analysis/estimators/cosentino.py:68-77 | A primary expert need not be a file expert: with factor 0.8, shares 0.6, 0.35, 0.05 make two primaries but one file expert. |
| Cosentino.Coverage | analysis/estimators/cosentino.py:169-179 | Each expert's coverage is `round` of the share of files naming them, keyed in first-credit order. |
| Cosentino.ProjectExperts | analysis/estimators/cosentino.py:167-193 | Absent exactly when no file has an expert (division by zero). Otherwise, the head of the coverage ranking reaching the mean coverage times the factor. |
| Cosentino.ProjectExpertsShape | analysis/estimators/cosentino.py:180-192 | The project experts are a prefix of the coverage ranking, each at or above the threshold. The next expert, if any, is below it, and the early-exit loop loses nobody at or above it. |
| Cosentino.ProjectExpertsHaveTop | analysis/estimators/cosentino.py:184-192 | With a factor of at most 1 and non-negative coverages, the best-covering expert is kept, so the truck factor is at least 1. |
| Cosentino.DokKeys | analysis/estimators/cosentino.py:83-87 | M1 keys only the newest commit's author (`commits[-1]` of the oldest-first list), failing exactly when that author has no key; the other metrics key every commit. |
| Cosentino.ExpertsOfFile | analysis/estimators/cosentino.py:57-77 | A file's experts are the file experts of the DoKs that the metric computes from the keys it reads, with the commits looked up by hash and put oldest first. The file fails when the lookup, a key the metric reads, or the DoKs fail. |
| Cosentino.LastChangeNewestOnly | analysis/estimators/cosentino.py:57-77 | Under M1 a file succeeds exactly when its commits are found and the newest commit's author has a key, whatever the older authors are. Its experts are the file experts of that author holding DoK 1. |
| Cosentino.LastChangeKeysAgree | analysis/estimators/cosentino.py:83-87 | When every commit has a key, keying only the newest commit gives M1 the same DoK table as keying all of them. |
| Cosentino.ExpertsOfFiles | analysis/estimators/cosentino.py:56-77 | The expert map lists every file in order, each entry being that file's own experts. It fails exactly when some file fails. |
| Cosentino.Estimate | analysis/estimators/cosentino.py:52-81 | The named contributors are exactly the project experts of the per-file expert map, and the truck factor is their number. The estimate fails exactly when some file or the project step fails, and a project without files fails (no expert exists). |
| Cosentino.EstimateHasExpert | analysis/estimators/cosentino.py:180-193 | With a factor of at most 1 and a rounding that keeps shares non-negative, a successful estimate has a truck factor of at least 1. |
| Ranking.SortDescSorted | analysis/estimators/cosentino.py:61-63 | `sorted(..., reverse=True)` by score yields a descending ranking of the same entries. |
| Ranking.SortDescStable | analysis/estimators/cosentino.py:61-63 | Entries with equal scores keep their input order. |
| Ranking.PrefixAtLeastIsFilter | analysis/estimators/cosentino.py:73-77 | On a descending ranking, the loop that stops at the first entry below the threshold keeps exactly the entries at or above it. |
| ImportGraph.Targets | analysis/estimators/haratian.py:189-193 | A known file is a target exactly when some import resolves to it, and there are no more targets than imports. The result is absent exactly when some resolution crashes. |
| ImportGraph.CountTargets | analysis/estimators/haratian.py:188-198 | Exactly the targets are keys, and each is counted as many times as it occurs. |
| ImportGraph.CountTargetsTotal | analysis/estimators/haratian.py:189-198 | The counts add up to the number of resolved imports. |
| ImportGraph.SetEdges | analysis/estimators/haratian.py:200-202 | Every counted target gets an edge from the importer weighing its count, replacing any previous weight; other edges stay. |
| ImportGraph.ParseFile | analysis/estimators/haratian.py:168-198 | A file without a language extension adds nothing. A file adds edges only from the known file its own path resolves to, and only towards known files. |
| ImportGraph.ResolvedAreKnown | analysis/estimators/haratian.py:189-198 | Every import target is a known file. |
| ImportGraph.FileEdges | analysis/estimators/haratian.py:199-202 | A file's edges weigh exactly the number of its imports resolving to each target, and no other edge changes. |
| ImportGraph.SelfLoopKept | analysis/estimators/haratian.py:184-202 | A file importing itself gets a self-loop; nothing filters them. |
| ImportGraph.Walk | analysis/estimators/haratian.py:165-203 | The walk fails exactly when some file fails to parse, and it never changes the node set. |
| ImportGraph.WalkWf | analysis/estimators/haratian.py:165-203 | The walk keeps the graph well formed, and every edge weighs at least 1. |
| ImportGraph.BuildGraph | analysis/estimators/haratian.py:149-203 | The graph's nodes are the known files; it is well formed with every edge weighing at least 1. It fails exactly when some walked file fails. |
| HaratianPaths.Name | analysis/estimators/haratian.py:400 | `PurePath.name` holds no "/" and is a tail of the path, preceded by "/" whenever it is shorter than the path. |
| HaratianPaths.Suffix | analysis/estimators/haratian.py:400 | `PurePath.suffix` is empty or starts at the name's last dot, neither its first nor its last character. |
| HaratianPaths.JoinPath | analysis/estimators/haratian.py:405 | Joining keeps an absolute path as it is, ignores "." and an empty path, and otherwise puts the path under the base. |
| HaratianPaths.RelativeToRepo | analysis/estimators/haratian.py:391-394 | A path containing the repository path is its repository-relative rest ("." for the repository itself), or fails when it does not start with it; other paths stay as they are. |
| HaratianPaths.RelativeOfJoined | analysis/estimators/haratian.py:391-394 | A relative path joined onto the repository comes back unchanged. |
| HaratianPaths.FirstKnown | analysis/estimators/haratian.py:396-423 | The result is the first exact-match attempt that is a known file, absent when none is. |
| HaratianPaths.ArgMax | analysis/estimators/haratian.py:427 | `np.argmax` gives the first position of the largest score. |
| HaratianPaths.FuzzyMatch | analysis/estimators/haratian.py:425-432 | The best-scoring known file (the first on a tie) is accepted exactly when its stem occurs in the path. |
| HaratianPaths.MapToKnown | analysis/estimators/haratian.py:389-432 | The result is a known file or nothing. An exact attempt wins over the fuzzy search. The result fails exactly on a failed `relative_to`, or on `argmax` of no known files. |
| HaratianPaths.ExactHit | analysis/estimators/haratian.py:396-397 | A path that already is a known file maps to itself. |
| HaratianPaths.FallsBackToFuzzy | analysis/estimators/haratian.py:425-432 | When no exact attempt hits, the fuzzy match decides. |
| HaratianPaths.Rewrite | analysis/estimators/haratian.py:327-341 | Rewriting a relative target (5 levels for C++, 2 for JavaScript) fails only when the target opens with more "../" than the importer has directories. |
| HaratianPaths.RewriteUp | analysis/estimators/haratian.py:328-337 | A target opening with exactly k copies of "../" has them replaced by the importer's k-th parent. It crashes when the importer is not k directories deep. |
| HaratianPaths.RewriteDot | analysis/estimators/haratian.py:338-339 | A target opening with "./" is placed in the importer's directory. |
| HaratianPaths.RewritePlain | analysis/estimators/haratian.py:340-341 | Any other target is kept as it is. |
| HaratianPaths.RewriteSkips | analysis/estimators/haratian.py:328-337 | A level whose run the target does not start with is skipped. |
| HaratianPaths.QuotedInclude | analysis/estimators/haratian.py:320-322 | `#include "t"` yields `t`. |
| HaratianPaths.AngleInclude | analysis/estimators/haratian.py:323-325 | `#include <t>` yields `t` when no double quote occurs. |
| HaratianPaths.CppRelativeInclude | analysis/estimators/haratian.py:317-335 | `#include "../../x.h"` from a file two directories deep names `x.h` in the importer's second parent. |
| HaratianPaths.StripChar | analysis/estimators/haratian.py:312 | `s.strip(c)` gives text no longer than the input that neither starts nor ends with `c`. |
| HaratianPaths.StripCharFramed | analysis/estimators/haratian.py:312 | Stripping removes only copies of `c`, and only from the two ends: the result sits in the input with nothing but `c` around it. |
| HaratianPaths.ModulePath | analysis/estimators/haratian.py:304-370 | Python and PHP nodes always name a path, Python ending in ".py" and Java in ".java". A Java node crashes exactly when it has no name field and no second word. A Ruby node names nothing exactly when its first word is not one of the three require forms, and a JavaScript node exactly when it does not start with `require`. C++ crashes exactly when the include reaches above the root. |
| HaratianPaths.PythonModulePath | analysis/estimators/haratian.py:306-308 | A Python import names its module with every dot replaced by the importer's directory and a slash, then ".py". |
| HaratianPaths.PythonDottedModule | analysis/estimators/haratian.py:306-308 | For `a.b` that is `a`, the importer's directory, `/b.py`: the dot does not become a plain directory separator. |
| HaratianPaths.JavaModulePath | analysis/estimators/haratian.py:309-316 | A Java import names its `name` field, or else the second word without semicolons, with dots as slashes and ".java" appended. |
| HaratianPaths.JavaDottedImport | analysis/estimators/haratian.py:309-316 | For `a.b` that is `a/b.java`. |
| HaratianPaths.RubyModulePath | analysis/estimators/haratian.py:342-352 | `require` names its unquoted argument. `require_relative` names it under the importer's directory. `include` names it with `::` as `/`. |
| HaratianPaths.JsModulePath | analysis/estimators/haratian.py:353-364 | A `require(...)` names its unquoted argument, rewritten against the importer's directories. It crashes without "(" or when the argument climbs above the root. |
| HaratianPaths.PhpModulePath | analysis/estimators/haratian.py:365-368 | A PHP include names its second child without parentheses or quotes. |
| HaratianPaths.ModulePaths | analysis/estimators/haratian.py:304-370 | The module paths of a file's nodes in order, skipping nodes naming none, failing when any node crashes. |
| HaratianPaths.LocalImports | analysis/estimators/haratian.py:371-386 | Which module paths are local, by language: a project-name mention, a C++ source or header name, a `.js` name or project-name mention, or a PHP path outside `vendor`. |
| HaratianPaths.ExtractPaths | analysis/estimators/haratian.py:298-387 | The local import paths of one file fail exactly when a node crashes. For C++ they are exactly the source and header paths some node names. |
| HaratianPaths.ExtractPathsProject | analysis/estimators/haratian.py:371-372 | For Python, Java and Ruby they are exactly the clone joined with each named path that mentions the project. |
| HaratianPaths.ExtractPathsJs | analysis/estimators/haratian.py:378-382 | For JavaScript they are exactly the named paths ending in ".js" or mentioning the project in any case. |
| HaratianPaths.ExtractPathsPhp | analysis/estimators/haratian.py:383-386 | For PHP they are exactly the clone joined with each named path outside "vendor". |
| Haratian.Restrict | analysis/estimators/haratian.py:127-130 | Only files in the author map keep their importance score, unchanged. |
| Haratian.ImportanceTotals | analysis/estimators/haratian.py:133-136 | Each author's total is the summed importance of their files, in author order. Absent exactly when a file has no score. |
| Haratian.RankByImportanceOrder | analysis/estimators/haratian.py:137 | An author with more total importance is ranked first. |
| Haratian.RankByImportanceStable | analysis/estimators/haratian.py:137 | Authors of equal total importance keep the order of the inverted map. |
| Haratian.RankingDefined | analysis/estimators/haratian.py:133-136 | Once every file of the map has a score, every author's total is defined. |
| Haratian.Estimate | analysis/estimators/haratian.py:106-147 | No graph gives (0, []). Otherwise the popped authors are distinct authors of the map. They are the first authors of the importance ranking, with importance coverage above the threshold before each pop and at most the threshold after the last. A non-empty fully scored map never runs out. |
| Haratian.EstimateOn | analysis/estimators/haratian.py:122-147 | Over a built map and scores, the popped authors are the first authors of the importance ranking. Coverage was above the threshold before each pop and is at most the threshold after the last. |
| Haratian.Run | analysis/estimators/haratian.py:106-161 | An unsupported language gives (0, []), and a crash building the graph is a crash. Otherwise the popped authors are the first authors of the ranking by the graph centralities, with coverage at most the threshold after them. |
| GraphMeasures.Centrality | analysis/shared_utils/graph_measures.py:6-21 | Every node's weighted in-, out- or total degree over the node count, keyed in node order; an empty graph gives an empty map. |
| GraphMeasures.Importance | analysis/estimators/haratian.py:434-437 | Every degree metric scores exactly the graph's nodes, by the matching centrality; PageRank and betweenness are the graph library's. |
| GraphMeasures.IsolatedScoresZero | analysis/shared_utils/graph_measures.py:6-21 | A node no edge touches scores 0 under every degree centrality. |
| GraphMeasures.BothIsInPlusOut | analysis/shared_utils/graph_measures.py:18-21 | Total-degree centrality is in-centrality plus out-centrality; a self-loop counts twice. |
| GraphMeasures.OutCentralitySum | analysis/shared_utils/graph_measures.py:12-15 | The out-centralities sum to the total edge weight over the node count. |
| GraphMeasures.InCentralitySum | analysis/shared_utils/graph_measures.py:6-9 | The in-centralities sum to the same total: every edge is counted once at its target. |
| ExtendedDok.Record | analysis/estimators/extended_dok.py:174-177 | An engagement event adds one to the key's counter. A new key starts with no first authorship and no changes, and nothing else moves. |
| ExtendedDok.CommentKey | analysis/estimators/extended_dok.py:179-196 | A comment without an author is skipped, and a keyed author is recorded under their key. An unkeyable issue commenter is skipped, but an unkeyable PR commenter crashes. |
| ExtendedDok.AddCommentsCount | analysis/estimators/extended_dok.py:179-196 | Each comment adds one to its author's counter; skipped comments add nothing, and no other counter moves. |
| ExtendedDok.AddCommentsFails | analysis/estimators/extended_dok.py:179-196 | Recording comments fails exactly when some comment's author cannot be keyed and is not skipped. |
| ExtendedDok.IssueCommentsNeverFail | analysis/estimators/extended_dok.py:215-233 | Over a store keeping its invariant, issue comments never crash: an unknown commenter is skipped. |
| ExtendedDok.AddPrCounts | analysis/estimators/extended_dok.py:162-196 | A PR adds one to its creator's `prs_created` and one to each commenter's `prs_cmntd_on`; nothing else moves. |
| ExtendedDok.IssueCreatorCounts | analysis/estimators/extended_dok.py:209-214 | An issue creator who is already a candidate is credited with a PR, not an issue; only a new creator gets `issues_created = 1`. |
| ExtendedDok.IssueCommentCounts | analysis/estimators/extended_dok.py:215-233 | An issue adds one to each keyed commenter's `issues_cmntd_on`. |
| ExtendedDok.AddPrsCounts | analysis/estimators/extended_dok.py:162-196 | Over all PRs, `prs_created` grows by the PRs a contributor opened and `prs_cmntd_on` by their comments; the issue counters stay. |
| ExtendedDok.AddIssuesFails | analysis/estimators/extended_dok.py:199-214 | Over a store keeping its invariant, the issue loop fails exactly when some issue's creator cannot be keyed. |
| ExtendedDok.FileCandidates | analysis/estimators/extended_dok.py:126-235 | The candidates extend the commit candidates: existing ones keep their first-author flag and volume, and new ones have neither. |
| ExtendedDok.CommitFactsKept | analysis/estimators/extended_dok.py:140-159 | A candidate's first-author flag and change volume come from the commits alone, exactly as in Avelino. Engagement-only candidates have neither. |
| ExtendedDok.DokSplits | analysis/estimators/extended_dok.py:237-263 | Each DoK is the Avelino DoA of the same candidate plus the weighted engagement counts. |
| ExtendedDok.DokAtLeastDoa | analysis/estimators/extended_dok.py:254-262 | With non-negative engagement weights, DoK is at least DoA. |
| ExtendedDok.DokIgnoresMixWeights | analysis/estimators/extended_dok.py:47-48 | `doa_weight` and `doi_weight` play no part in the score. |
| ExtendedDok.NumbersFor | analysis/estimators/extended_dok.py:77-85 | An absent grouping and a file missing from it both give no numbers; otherwise the file's own numbers. |
| ExtendedDok.FilePrs | analysis/estimators/extended_dok.py:88 | Every PR used for a file is one of the target's PRs whose number is grouped under the file. |
| ExtendedDok.FileIssues | analysis/estimators/extended_dok.py:89 | Every issue used for a file is one of the target's issues whose number is grouped under the file. |
| ExtendedDok.FileDoks | analysis/estimators/extended_dok.py:87-94 | The DoK table exists exactly when the commit lookup and candidate extraction succeed, and holds every commit author. |
| ExtendedDok.FileAuthors | analysis/estimators/extended_dok.py:94-99 | A file's authors are exactly the candidates whose normalised DoK is above the normalised threshold and whose DoK reaches the absolute one. |
| ExtendedDok.AuthorMap | analysis/estimators/extended_dok.py:72-99 | The map has exactly the first-party files in order, each with its own authors, absent exactly when a file fails. |
| ExtendedDok.AuthorMapContents | analysis/estimators/extended_dok.py:72-99 | A file is in the map exactly when it has commits and is not third-party, and it maps to its own authors. |
| ExtendedDok.Estimate | analysis/estimators/extended_dok.py:67-115 | The truck factor is the number of distinct popped authors, each authoring a file. They are the first authors of the file-count ranking, with coverage above the threshold before each pop and at most the threshold after the last. A non-empty map never runs out. |
| SocialGraph.AddEdge | analysis/estimators/social_graph.py:154-175 | Self-references, deleted users and bots are ignored. Otherwise the edge gains the fresh weight, starting from 0 when new, and both ends become nodes. |
| SocialGraph.AddEdgeOthers | analysis/estimators/social_graph.py:167-175 | Adding an interaction changes no other edge. |
| SocialGraph.AddEdgeWf | analysis/estimators/social_graph.py:154-175 | Adding keeps nodes distinct and every edge between nodes. |
| SocialGraph.EdgePresence | analysis/estimators/social_graph.py:115-147 | From the empty network, exactly the accepted pairs that occur get an edge. |
| SocialGraph.EdgeWeightCounts | analysis/estimators/social_graph.py:167-174 | An edge weighs the fresh weight times the number of occurrences of its pair: repeated interactions accumulate. |
| SocialGraph.AddTwice | analysis/estimators/social_graph.py:167-171 | Adding the same accepted interaction twice counts it twice. |
| SocialGraph.ReviewAuthors | analysis/estimators/social_graph.py:130-134 | A name is a review author exactly when some review with an author is by them; reviews without an author are skipped. |
| SocialGraph.CommentAuthors | analysis/estimators/social_graph.py:142-144 | The comment authors in order; a comment without an author is the unguarded crash. |
| SocialGraph.Interactions | analysis/estimators/social_graph.py:123-145 | Interactions exist exactly when every comment has an author. An issue gives creator→assignee edges, one per assignee, then commenter→creator edges, one per comment. |
| SocialGraph.PrInteractionsOrder | analysis/estimators/social_graph.py:123-145 | A PR gives, in this order, creator→requested reviewer, review author→creator, creator→assignee and commenter→creator edges, one per person listed. |
| SocialGraph.InteractionsTouchCreator | analysis/estimators/social_graph.py:123-145 | Every interaction of an item involves its creator. |
| SocialGraph.Chronological | analysis/estimators/social_graph.py:118-120 | PRs and issues come out as a permutation of the input sorted oldest first. |
| SocialGraph.SortedKeysAscending | analysis/estimators/social_graph.py:118-120 | The sorted items are listed oldest first. |
| SocialGraph.ChronologicalStable | analysis/estimators/social_graph.py:118-120 | Items sharing a sort key (the same creation time) keep their relative order through the sort. |
| SocialGraph.BuildNetwork | analysis/estimators/social_graph.py:98-147 | The network exists exactly when no comment lacks an author, and it is well formed. |
| SocialGraph.SliceTo | analysis/estimators/social_graph.py:92 | `s[:n]` is a prefix: the first n items, all of them past the end, and a negative n counts from the end. |
| SocialGraph.Cut | analysis/estimators/social_graph.py:87-93 | The cut is a prefix of the ranking, every kept score strictly above the threshold. In absolute mode it is every contributor above the threshold. In percentage mode it is the first `round(pct × count)` of those above the threshold, with Python slice semantics for a negative or oversized count. |
| SocialGraph.CutAbsolute | analysis/estimators/social_graph.py:87-89 | In absolute mode a contributor is kept exactly when their score is above the threshold. |
| SocialGraph.Estimate | analysis/estimators/social_graph.py:66-96 | The contributors are exactly the names of the cut, in ranking order, and the truck factor is their number. The estimate fails exactly when building the network does. |
| GitLog.Chunks | data_collection/main.py:97-99 | The log is split on the commit delimiter and the empty pieces are dropped: a chunk is exactly a non-empty piece, and there are as many chunks as non-empty pieces. |
| GitLog.ChunksInOrder | data_collection/main.py:97-99 | The `i`-th chunk is the non-empty piece with exactly `i` non-empty pieces before it, so order and repeats are kept. |
| GitLog.Strided | data_collection/main.py:110 | `lines[start::step]` holds the lines at positions start, start+step, and so on. |
| GitLog.ParseChange | data_collection/main.py:117-122 | A change line is additions, deletions and path split on tabs. `-` reads as 0; too few fields or a non-number is an error. |
| GitLog.ChangeRoundTrip | data_collection/main.py:117-122 | A change line built from two counts and a tab-free path reads back as those counts and that path. |
| GitLog.ParseChanges | data_collection/main.py:114-123 | Reading the change lines fails exactly when some non-empty line is malformed, and yields at most one change per line. |
| GitLog.ParseChangesAll | data_collection/main.py:114-123 | When every line is a well-formed change, the result is exactly those changes in order. |
| GitLog.ParseDate | data_collection/main.py:126-134 | The whole string is parsed as ISO 8601, retried on its first 19 characters when rejected. |
| GitLog.ParseLines | data_collection/main.py:103-148 | A record is read as its fixed fields, strided body and changes. It succeeds exactly when the body delimiter is present and not on line 0, the fixed lines are there, every change line parses and both dates are readable. |
| GitLog.ParseLog | data_collection/main.py:96-151 | One commit per non-empty chunk, in order, failing when any chunk fails. |
| GitLog.OneLineBodyRoundTrip | data_collection/main.py:96-151 | A record with a one-line body and at most eight change lines reads back as written. |
| GitLog.OneLineBody | data_collection/main.py:109-111 | With one body line and at most eight change lines, the stride reaches no line past the body, so the body is that line. |
| GitLog.NinthChangeJoinsBody | data_collection/main.py:109-111 | As written, a one-line body followed by nine to eighteen change lines takes the ninth change line into the body. |
| GitLog.SecondBodyLineDropped | data_collection/main.py:109-111 | As written, a two-line body loses its second line. |
| GitLog.CorrectedBodyRoundTrip | data_collection/main.py:109-111 | Taking every line between the fixed fields and the delimiter gives exactly the body lines, for any number of body and change lines. |
| PostProcessing.NoSpaces | post_processing/main.py:64 | No space remains, and every other character of the input still occurs. |
| PostProcessing.AtMost | post_processing/main.py:68 | A value is kept exactly when it is in the input and at most the largest index. |
| PostProcessing.AtMostAppend | post_processing/main.py:68 | Filtering a concatenation is filtering each part and concatenating: the kept values stay in input order, with their repetitions. |
| PostProcessing.AtMostSingle | post_processing/main.py:68 | A single value is kept exactly when it is at most the largest index. |
| PostProcessing.ParseInts | post_processing/main.py:68 | Every piece is read as an integer, in order, failing (`ValueError`) exactly when some piece is not a signed decimal numeral. |
| Strings.ParseInt | post_processing/main.py:68 | A text is read as an integer exactly when it is an optional `+` or `-` followed by one or more decimal digits; a `-` gives a value at most 0, otherwise the value is at least 0. |
| PostProcessing.ParseInput | post_processing/main.py:59-70 | An empty answer or one not starting with a digit drops nothing. Otherwise the result is the in-range values of the comma-separated pieces in the order typed, repetitions kept, and a non-numeric piece is a `ValueError`. |
| PostProcessing.ParseInputRoundTrip | post_processing/main.py:59-70 | Positions typed as a comma-separated list, all in range, read back as exactly those positions in that order. |
| PostProcessing.FilterContribs | post_processing/main.py:73-75 | Exactly the contributors whose positions are not listed remain, in order. |
| PostProcessing.FilterNothing | post_processing/main.py:73-75 | Dropping no position in range keeps every contributor. |
| PostProcessing.DropOne | post_processing/main.py:73-75 | Dropping one position in range removes exactly that contributor. |
| PostProcessing.ProcessRow | post_processing/main.py:25-49 | A row with at most one contributor passes through. Otherwise a cached listing reuses its answer, and a new listing consumes the next answer and caches it. |
| PostProcessing.ProcessFiles | post_processing/main.py:16-56 | Every file keeps its number of rows. Each multi-contributor row carries the answer that the one cache, shared across all files, holds for its listing; other rows are unchanged. |
| PostProcessing.SameContributorsSameResult | post_processing/main.py:33-42 | Two rows anywhere in the run with the same two or more contributors come out identical. |
| PostProcessing.ChangedRowsCount | post_processing/main.py:45-49 | A changed row's truck factor is the number of its remaining contributors, the originals minus the dropped positions. |
| PostProcessing.ListingCollision | post_processing/main.py:33-36 | The cache is keyed by the printed listing, so a name containing a line break can print the same listing as a longer list. |
| EvalMetrics.F1 | indepth_eval/models.py:57-60 | F1 is 2pr/(p+r) when both are positive, else 0. |
| EvalMetrics.F1Between | indepth_eval/models.py:57-60 | F1 lies between precision and recall. |
| EvalMetrics.Score | indepth_eval/models.py:47-60 | Scores are set from the counts when there is a true positive or both kinds of error, and left unchanged otherwise. |
| EvalMetrics.ScoresAreFractions | indepth_eval/models.py:52-56 | Scored precision and recall lie in [0, 1]. |
| EvalMetrics.F1FromCounts | indepth_eval/models.py:52-60 | With a true positive, F1 is 2tp/(2tp + fp + fn). |
| EvalMetrics.NoTruePositives | indepth_eval/models.py:52-60 | With no true positive but both kinds of error, precision, recall and F1 are 0. |
| EvalMetrics.ScoreIdempotent | indepth_eval/models.py:39-60 | Scoring twice is scoring once. |
| EvalMetrics.UnscoredStaysZero | indepth_eval/models.py:18-25 | A comparison that is not scored keeps its 0.0 defaults. |
| EvalMetrics.ScorePerformance | indepth_eval/models.py:40-60 | The mean error is the error sum over the project count, and every breakdown is scored. Absent exactly when there are no projects. |
| EvalMetrics.NmaeBounded | indepth_eval/models.py:42-43 | The mean error lies between the smallest and largest project error. |
| EvalMetrics.CalcMetrics | indepth_eval/models.py:39-60 | Every estimator is scored; the result is absent exactly when some estimator has no projects. |
| EvalMetrics.Get | indepth_eval/models.py:132-133 | The estimator's performance, absent exactly for an unknown key. |

## Left out

- Process, network and files are not modelled:
  - the GitHub API client and cloning repositories;
  - running `git log`, `os.walk` and reading files;
  - the GML caches of both graphs and CSV/JSON input and output;
  - logging, plotting and the interactive `input()` (its answers are a parameter).
- `identify_unique_contributors` in shared_models/analysis_target.py is not part of this model. The store is an input, built by `ContributorStore.AddOrUpdate`.
- The Tree-sitter parsing and `_find_import_nodes` are not modelled. An import node is given as its text and the named children the extractor reads.
- Language detection is not modelled. The detected language is an `Option`, and `None` stands for an unsupported language.
- PageRank, betweenness centrality, `fuzz.partial_ratio`, `math.log` and `round` are function parameters, since they come from foreign libraries:
  - only their results' shape is assumed;
  - `round` is not pinned to banker's rounding.
- The third-party path matcher (linguist patterns), the bot regex, and the file-path regex of `group_issues_by_file` are predicate or function parameters.
- The regular expressions of `_find_match` are modelled as literal tests: prefix, suffix and substring. These agree with the source's patterns only while the name and email hold no regex metacharacters beyond the three the source escapes in names (`?`, `*`, `+`). The `re.error` branch is not modelled.
- ContributorStore.FindMatchPrecedence: the email rule and the email-user rule test the email literally. The source builds both patterns from the unescaped email (`.*-{email}` and `.*-{user}.*`), where `.` matches any character and `+` repeats the character before it. So a plus-addressed email such as `123+bob@x.io` (the shape of GitHub no-reply addresses) never matches a stored key through those rules in the source, while the model matches it. A `.` can also let the source match a key the model rejects, and other metacharacters (`(`, `[`, `|`, `\`, ...) can make the pattern fail to compile, which the source reports as no match.
- ContributorStore.FindMatchNone: "no rule accepts" is stated with the literal email rules, so for an email holding regex metacharacters it can report a match where the source finds none, or the reverse, as described for `ContributorStore.FindMatchPrecedence`.
- ContributorStore.Get: inherits the literal email rules. For a plus-addressed email that a stored key contains, the model returns that record while the source's `get` returns `None`. For the same reason `ContributorStore.AddOrUpdate` merges where the source appends, and `AuthorKeys.KeyOf` finds a key where the source crashes.
- Time zones and `utc.localize` are not modelled: dates are integers, so a time-zone-less date equals its UTC reading.
- `known_files` is a cached property. The model gives its contents, but not the set iteration order or when the snapshot is taken; functions that depend on the order take the listing as a parameter.
- `group_issues_by_file` de-duplicates through `set`, whose order is left open. The model keeps first-occurrence order, and its property is stated as membership.
- Pydantic coercion of change counts is modelled as decimal parsing with an optional leading `+` or `-`. Underscores, surrounding whitespace and non-ASCII digits are not modelled.
- Strings.ParseInt: reads an optional sign and ASCII decimal digits only. Python's `int()` also accepts surrounding whitespace, single underscores between digits and non-ASCII decimal digits, so `"\t2"`, `"1_0"` or Arabic-Indic digits are a failure here.
- PostProcessing.ParseInput: an answer holding a tab, a line break, an underscore or a non-ASCII digit in a piece is a `ValueError` here, while the source's `int(val)` reads it and drops the position. A non-ASCII digit at the start, which the source's `\d` accepts, makes the model drop nothing. Only spaces are removed before parsing, as in the source.
- PostProcessing.ParseInts: the same restriction as `Strings.ParseInt`, piece by piece.
- Floating-point rounding is not modelled: every score is an exact real.
- Path normalisation is not modelled: `Path` and `os.path` would collapse doubled or trailing slashes and `.` segments, while the model joins path strings as they are.
- ContributorStore.AddTwice: proved only for an identity that no stored key matches. For an identity that two stored records both match, the second add can merge into the other record (`ContributorStore.AddTwiceSwitchesRecord`, `ContributorStore.TwinSwitches`), so the general statement does not hold.
- Strings.Lower: lower-cases ASCII `A`-`Z` only. Python's `str.lower` also maps the other Unicode upper-case letters, so names that differ only in non-ASCII case get different keys here.
- Strings.IsSpace: counts the ASCII and Latin-1 whitespace only. U+1680, U+2000-U+200A, U+2028, U+2029, U+202F, U+205F and U+3000 are not treated as spaces.
- Strings.SplitLines: breaks lines at `\n` only. Python's `splitlines` also breaks at `\r`, `\r\n`, `\v`, `\f`, `\x1c`-`\x1e`, `\x85`, U+2028 and U+2029. `git log` output here is `\n`-separated.
- ContributorStore.AddOrUpdate: requires that the observation has a name or a valid email. The source would store a nameless, emailless contributor under the key `None`, but no caller in the core passes one.
- Cosentino.FileExpertsHaveTop: states that the top author is a file expert. The claim that every primary expert is a file expert when the factor is at most 1 is false (`Cosentino.PrimaryExpertNotFileExpert`), so it is not stated.
- Avelino.FileDoas: the change volume of a commit is the churn of the whole commit across all files, as the source computes it, not the churn of the file alone.
- SocialGraph.CommentAuthors: a comment without an author is a crash (`None`) because the source does not guard it; the review loop's guard is modelled as a skip.
- ExtendedDok.CommentKey: an issue commenter whose record cannot be keyed is treated as a failure; Python would file it under the key `None`. Under the store invariant this case cannot occur (`ExtendedDok.IssueCommentsNeverFail`).

## Findings

| source | as written | input that shows it | evidently intended | confidence | as-written member | corrected member |
|---|---|---|---|---|---|---|
| shared_models/analysis_target.py:38-53 | With both bounds set, only the "both dates" and "both issues" flags are computed. `issue_nums_present` and `commit_hashes_present` stay false, so issue-number or hash bounds are never turned into dates and every list is filtered to nothing. | `AnalysisWindow.from_issue_numbers(10, 20)` or `from_commit_hashes(h1, h2)` over any history | Resolve both bounds to dates and keep the items strictly between them | high (not executed) | AnalysisTarget.IssueWindowKeepsNothing | AnalysisTarget.CorrectedIssueWindow |
| data_collection/main.py:109-111 | The body is built from `lines[9::body_delim_index]`: a stride, not the slice `lines[9:body_delim_index]`. | For a record whose body delimiter sits at index d, the stride takes the lines at 9, 9+d, 9+2d, ... into the body. With enough change lines, the one at 9+d (a change line) joins the body; with two or more lines between the fixed fields and the delimiter, those after the first are dropped. `GitLog.NinthChangeJoinsBody` and `GitLog.SecondBodyLineDropped` take the lines between the fixed fields and the delimiter as input, whatever blank lines `%b%n` prints among them. | The body is the lines between the subject and the delimiter | high (not executed) | GitLog.NinthChangeJoinsBody | GitLog.CorrectedBodyRoundTrip |

The rest of the model uses the code as written; the corrected definitions
(`AnalysisTarget.FromRepoDataCorrected`, `GitLog.CorrectedBody`) stand beside
it. The contributor store's `merge` is not commutative: the left operand's
name and email win (`ContributorStore.MergeNotCommutative`). The model
follows the code in that.
