# mlops-mentor repository-metrics pipeline, modelled in Dafny

mlops-mentor collects statistics about the GitHub repositories of student groups
in an MLOps course. This project models the core of that pipeline and proves
properties of the model:

- **Group list.** `load_groups` turns CSV rows into group records. The model
  works on rows already split into cells.
- **Group reference.** The `GroupInfo` record:
  - its paging loops over pull requests and commits (`prs`, `commits`);
  - the memoised accessibility probe, which moves to the `Location` of one
    redirect and probes that URL without following further redirects;
  - the memoised default branch;
  - `group_size`, `repo_api` and the contributor list.
- **File-tree inspector.** `RepoContent` and `Report`:
  - the cached file tree and the file-count and file-presence properties over it;
  - the repository size;
  - the "all workflow runs on the latest commit passed" check;
  - the README word count;
  - the `file_written` flag of the report download;
  - the count of `WARNING` lines in the report checker's output.
- **Per-group statistics of `scrape`.**
  - The merge of merged-PR commits into the commit and message lists.
  - Crediting each PR commit to the first matching contributor.
  - The two average message lengths.
  - The commit activity matrix (`create_activity_matrix`): a day × hour grid
    of commit counts.
  - The "all statistics `None`" record of an inaccessible group.
- **`clone` names.** The group and repository directory names built by `clone`.
- **Score combination.** The response models of the LLM judge and
  `TACodeResponse.from_sub_agents`, which combines three sub-agent scores.
  Integer arithmetic stands in for floats.
- **Leaderboard.** The text sparkline and the boolean-to-emoji helpers of the
  leaderboard page.

Every HTTP response the pipeline reads is a parameter:

- page functions for the paginated listings;
- a probe function for `requests.head`;
- functions for the branch name and the tree;
- plain values for the README text, the workflow runs, the report response and
  the checker's stderr. The checker runs with `stderr=PIPE`, so its stderr is
  always a string, possibly empty.

A Python exception that aborts the caller is an `Err` carrying the exception's
name.

Modules, one per source file, plus three of shared helpers:

| module | file | models |
|---|---|---|
| `Wrappers` | wrappers.dfy | `Option` and `Result` types |
| `Strings` | strings.dfy | the Python `str` operations the code uses (`in`, `startswith`, `endswith`, `split`, `replace`, `lower`, `strip`); whitespace is the set of characters for which `str.isspace` holds |
| `Arithmetic` | arithmetic.dfy | facts about multiplication and floor division |
| `GitHubApi` | github_api.dfy | the fields of the GitHub JSON responses that the code reads |
| `GroupModels` | group_models.dfy | `common/models.py` |
| `Data` | data.dfy | `common/data.py` |
| `ScraperModels` | scraper_models.dfy | `scraper/models.py` |
| `ActivityMatrix` | activity_matrix.dfy | `create_activity_matrix` in `scraper/main.py` |
| `Scrape` | scraper_main.dfy | the rest of `scrape`, and `clone`'s names, in `scraper/main.py` |
| `JudgeModels` | judge_models.dfy | `llm_judge/models.py` |
| `Leaderboard` | leaderboard.dfy | `leaderboard/app.py` |

The loops of the code are modelled as methods with loop invariants:

- `create_activity_matrix` fills a zero matrix in place. `FillMatrix` fills a
  fresh `array2`.
- The merge loop of `scrape` extends lists and bumps `commits_pr` counters.
  `MergePrCommits`, `CreditCommits` and `CreditCommit` do this.
- `GroupInfo.prs` and `GroupInfo.commits` are `while True` paging loops.
  `Paginate` models both.
- `load_groups` appends one record per data row. `LoadGroups` does this.
- `actions_passing` scans the workflow runs and stops at the first failing run
  of the latest commit. `ActionsPassing` does this.

Some source objects set their own fields, and these are classes whose methods
modify them:

- `GroupInfo`: `repo_url`, and the memo fields `_repo_accessible` and
  `_default_branch`;
- `RepoContent`: the cached `_file_tree`;
- `Report`: `file_written`.

Each of these methods is specified against pure functions, and the lemmas are
about those functions.

## Behaviour of the code worth knowing

- With `min_delta=1` and `max_delta=3` the activity matrix has between 8 and 22
  rows, because the day count includes the last day.
- `scrape` has no `try`/`except` around a group. A `ZeroDivisionError` (a main
  branch with no commits), an `IndexError` (a URL without `/`) or a `KeyError`
  (a report response without `content`) aborts the run. `ScrapeGroup` returns
  these as `Err`.
- A report that is found but has no `content` raises `KeyError` in
  `download_report`, so `check_answers` can raise.
- `common/data.py:4` imports `RepoInfo` from `common/models.py`, which does not
  define it. `load_groups` passes `repo_info=RepoInfo(repo_url=...)`, while
  `GroupInfo` declares a `repo_url` field. The record keeps the URL from
  column 6 as `repoUrl`.
- `common/models.py:6` imports `Contributor` from `scraper/models.py`, which does
  not define it either. The model's `Contributor` holds the fields that `scrape`
  reads and writes.
- `RepoStats` declares no `group_number` and no `group_size`, so the two
  arguments that `scrape` passes for them are dropped. The model's record has
  neither field.

## Model

| member | source | states |
|---|---|---|
| ActivityMatrix.Insert | src/mlops_mentor/scraper/main.py:28 | inserting into a sorted sequence keeps it sorted and adds exactly one occurrence of the element |
| ActivityMatrix.Sort | src/mlops_mentor/scraper/main.py:28 | `commit_times.sort()` yields a sorted permutation of the times |
| ActivityMatrix.Min | src/mlops_mentor/scraper/main.py:30 | the earliest time is one of the times and no later than any |
| ActivityMatrix.Max | src/mlops_mentor/scraper/main.py:33 | the latest time is one of the times and no earlier than any |
| ActivityMatrix.SortedEnds | src/mlops_mentor/scraper/main.py:28-33 | after sorting, `commit_times[0]` is the earliest and `commit_times[-1]` the latest time |
| ActivityMatrix.MinMaxPermutation | src/mlops_mentor/scraper/main.py:24-33 | start and latest time depend only on the multiset of times |
| ActivityMatrix.WindowEnd | src/mlops_mentor/scraper/main.py:31-34 | `end >= start + min_delta` weeks; `end <= start + max_delta` weeks when `min_delta <= max_delta`; `end` is the latest commit when that commit lies in the band, and the nearer band edge otherwise; when `min_delta > max_delta` it is `start + min_delta` weeks |
| ActivityMatrix.InWindowLandsInGrid | src/mlops_mentor/scraper/main.py:40-44 | every commit with `start <= t <= end` lands at a day index below the row count and an hour index below 24 |
| ActivityMatrix.NumDays | src/mlops_mentor/scraper/main.py:36 | the row count is the number of whole days from start to end, rounded down, plus one, so at least 1 when `start <= end` |
| ActivityMatrix.DayOf | src/mlops_mentor/scraper/main.py:42 | the day index is the number of whole days since the start, never negative for a commit at or after the start |
| ActivityMatrix.HourOf | src/mlops_mentor/scraper/main.py:43 | the hour index is in 0..23 and is the hour of the UTC time of day |
| ActivityMatrix.Count | src/mlops_mentor/scraper/main.py:40-41 | the number of counted commits never exceeds the number of commits |
| ActivityMatrix.CountSnoc | src/mlops_mentor/scraper/main.py:40-41 | one more commit adds one to the count exactly when it satisfies the test |
| ActivityMatrix.CountAppend | src/mlops_mentor/scraper/main.py:40-41 | counting over a concatenation is the sum of the counts |
| ActivityMatrix.CountPermutation | src/mlops_mentor/scraper/main.py:28-41 | counts depend only on the multiset of times |
| ActivityMatrix.CommitTimes | src/mlops_mentor/scraper/main.py:24-27 | one time per commit, in listing order, taken from the committer date |
| ActivityMatrix.ActivityMatrixOf | src/mlops_mentor/scraper/main.py:18-46 | a result exists iff there is a commit and not both deltas are negative; no commits raises `IndexError`; the matrix has `(end-start).days + 1` rows of 24 cells |
| ActivityMatrix.ActivityMatrixPermutation | src/mlops_mentor/scraper/main.py:24-28 | the matrix is the same for any order of the commits |
| ActivityMatrix.CellsWithinWindow | src/mlops_mentor/scraper/main.py:40-44 | a cell never counts more commits than the window holds |
| ActivityMatrix.RowSums | src/mlops_mentor/scraper/main.py:38 | one row total per matrix row |
| ActivityMatrix.SumBump | src/mlops_mentor/scraper/main.py:44 | incrementing one cell of a row raises the row total by one |
| ActivityMatrix.RowStep | src/mlops_mentor/scraper/main.py:40-44 | one more commit raises a row total by one exactly when it is in the window on that day |
| ActivityMatrix.GridStep | src/mlops_mentor/scraper/main.py:40-44 | one more commit raises the matrix total by one exactly when it is in the window |
| ActivityMatrix.GridTotal | src/mlops_mentor/scraper/main.py:38-44 | the matrix total equals the number of commits inside the window; commits outside are dropped |
| ActivityMatrix.AllZeroSum | src/mlops_mentor/scraper/main.py:38 | a zero-filled row sums to zero |
| ActivityMatrix.ActivityMatrixTotal | src/mlops_mentor/scraper/main.py:36-46 | the returned matrix's total is the number of in-window commits, at most the number of commits |
| ActivityMatrix.ThreeCommitExample | src/mlops_mentor/scraper/main.py:18-46 | three commits on 2024-01-01 and 2024-01-03 with weeks 1..5 give 8 rows, 2 in row 0 hour 10, 1 in row 2 hour 23, total 3 |
| ActivityMatrix.CallSiteRows | src/mlops_mentor/scraper/main.py:31-36 | with the call-site arguments `max_delta=3, min_delta=1` any non-empty commit list gives a matrix of 8 to 22 rows |
| ActivityMatrix.FillMatrix | src/mlops_mentor/scraper/main.py:38-44 | the fresh `num_days × 24` matrix holds in each cell the number of in-window commits at that day and hour |
| ActivityMatrix.CreateActivityMatrix | src/mlops_mentor/scraper/main.py:18-46 | the method's result (matrix or exception) is `ActivityMatrixOf` of the commit times |
| Data.DropUnderscores | src/mlops_mentor/common/data.py:16 | dropping the underscores of a digits-and-underscores string leaves only digits, and a digit string unchanged |
| Data.ParseInt | src/mlops_mentor/common/data.py:16 | `int(row[0])`: blank text raises `ValueError` (`None`); a non-empty digit string gives its decimal value |
| Data.ParseLiteral | src/mlops_mentor/common/data.py:16 | an integer literal is non-empty; a literal starting with `-` has a value at most 0, any other a value at least 0 |
| Data.NatRoundTrip | src/mlops_mentor/common/data.py:16 | `int` of the decimal digits of a natural number gives the number back |
| Data.ParseNegative | src/mlops_mentor/common/data.py:16 | `int` of a minus sign followed by a digit string of value `v` is `-v` |
| Data.ParseOfStripped | src/mlops_mentor/common/data.py:16 | text without surrounding whitespace parses exactly as the literal it is |
| Data.NegativeLiteral | src/mlops_mentor/common/data.py:16 | a literal made of a minus sign and valid digits has the negated value of the digits |
| Data.SignedUnstripped | src/mlops_mentor/common/data.py:16 | a minus sign followed by digits has no whitespace to strip |
| Data.DigitStringValid | src/mlops_mentor/common/data.py:16 | a non-empty string of digits is a valid literal with no underscores and no whitespace to strip |
| Data.NegativeRoundTrip | src/mlops_mentor/common/data.py:16 | `int` of a minus sign followed by the digits of a natural number gives its negation |
| Data.IntRoundTrip | src/mlops_mentor/common/data.py:16 | `int` of the decimal rendering of any integer gives the integer back |
| Data.StudentCell | src/mlops_mentor/common/data.py:17-21 | an empty cell becomes `None`; any other cell is kept verbatim |
| Data.RowToGroup | src/mlops_mentor/common/data.py:15-23 | a record exists iff the row has 7 cells and cell 0 parses as an integer; the group number is that integer, the students are cells 1..5, the URL is cell 6; otherwise the exception Python raises first |
| Data.RowToGroupError | src/mlops_mentor/common/data.py:15-23 | an empty row, or a short row whose cell 0 is an integer, raises `IndexError`; a cell 0 that is not an integer raises `ValueError`, because `int(row[0])` is evaluated before cells 1 to 6 are read |
| Data.CellsTruthy | src/mlops_mentor/common/data.py:17-21 | the students kept from a row are exactly its non-empty cells |
| Data.LoadedGroupSize | src/mlops_mentor/common/data.py:17-21 | a loaded group's size is the number of non-empty student cells of its row |
| Data.LoadGroups | src/mlops_mentor/common/data.py:7-25 | the header row is skipped; one record per further row, in row order; the first row that cannot be converted gives the result's exception |
| Data.ConvertsThrough | src/mlops_mentor/common/data.py:12-24 | the rows converted so far grow by one row when the next row converts |
| GroupModels.CountTruthy | src/mlops_mentor/common/models.py:51-64 | `filter(None, ...)` keeps the truthy students; the count is the number of indices holding one |
| GroupModels.GroupSize | src/mlops_mentor/common/models.py:48-64 | the group size is the number of non-empty student fields, between 0 and 5 |
| GroupModels.RepoApi | src/mlops_mentor/common/models.py:66-70 | an API URL exists iff the repository URL contains `/` (otherwise `split[-2]` raises) |
| GroupModels.RepoApiShape | src/mlops_mentor/common/models.py:66-70 | the API URL is the API root followed by the URL's last two `/`-segments joined by `/` |
| GroupModels.Contributors | src/mlops_mentor/common/models.py:82-93 | one contributor per listing entry, in order, with its login and contributions and zero PR commits |
| GroupModels.FirstEmptyBelow | src/mlops_mentor/common/models.py:107-108 | if some page is empty there is a first empty page |
| GroupModels.StopPage | src/mlops_mentor/common/models.py:100-108 | the page at which paging stops is empty and all pages before it are non-empty |
| GroupModels.Paginate | src/mlops_mentor/common/models.py:95-129 | pages 1, 2, 3, … are requested in order up to and including the first empty page, and the result is the concatenation of the non-empty pages before it |
| GroupModels.PagesBeforeLength | src/mlops_mentor/common/models.py:107-110 | `n` non-empty pages give at least `n` items |
| GroupModels.PagesBeforeFirst | src/mlops_mentor/common/models.py:110 | the listing begins with exactly the first page's items, in order: they are its prefix of that length |
| GroupModels.ListingEmpty | src/mlops_mentor/common/models.py:107-111 | the listing is empty iff the first page is empty |
| GroupModels.AfterRedirect | src/mlops_mentor/common/models.py:31-36 | the URL changes only to the non-empty `Location` of a 3xx response, and such a response always changes it to that location |
| GroupModels.ProbeAnswer | src/mlops_mentor/common/models.py:26-41 | a raising first probe gives `False`; without a redirect the answer is whether the URL answers 200; a `True` answer means the URL or its redirect target answered 200 |
| GroupModels.GroupInfo.constructor | src/mlops_mentor/common/models.py:9-18 | a fresh group holds the record's fields and no memoised values |
| GroupModels.GroupInfo.RepoAccessible | src/mlops_mentor/common/models.py:20-46 | a memoised answer is returned without probing; a raising probe gives `False`; a 3xx first response with a `Location` replaces the URL before the second probe; neither probe follows redirects; the answer is whether the second probe returns 200, on a fresh group `ProbeAnswer` of the stored URL; the answer is memoised |
| GroupModels.GroupInfo.DefaultBranch | src/mlops_mentor/common/models.py:72-80 | a memoised branch is returned without fetching; otherwise the branch is fetched from the API URL and memoised |
| GroupModels.AccessibilityProbedOnce | src/mlops_mentor/common/models.py:23-24 | a second accessibility query makes no probe and gives the same answer |
| GroupModels.DefaultBranchFetchedOnce | src/mlops_mentor/common/models.py:75-76 | a second default-branch query makes no request and gives the same branch |
| ScraperModels.CountPaths | src/mlops_mentor/scraper/models.py:119-145 | the file counts are the number of tree entries whose path passes the test, at most the tree size, and zero iff no path passes |
| ScraperModels.NumDockerFiles | src/mlops_mentor/scraper/models.py:119-128 | the number of tree entries whose path contains `Dockerfile` or `.dockerfile`, at most the tree size |
| ScraperModels.NumPythonFiles | src/mlops_mentor/scraper/models.py:130-133 | the number of tree entries whose path contains `.py`, at most the tree size |
| ScraperModels.NumWorkflowFiles | src/mlops_mentor/scraper/models.py:135-145 | the number of tree entries under `.github/workflows/` ending in `.yml` or `.yaml`, at most the tree size |
| ScraperModels.HasRequirementsFile | src/mlops_mentor/scraper/models.py:147-150 | true iff some path contains `requirements.txt`, i.e. iff the count of such paths is positive |
| ScraperModels.HasCloudbuild | src/mlops_mentor/scraper/models.py:152-157 | true iff some path has the basename `cloudbuild.yaml`, i.e. iff the count of such paths is positive |
| ScraperModels.UsingDvc | src/mlops_mentor/scraper/models.py:159-162 | true iff some path contains `.dvc`, i.e. iff the count of such paths is positive |
| ScraperModels.CloudbuildBasename | src/mlops_mentor/scraper/models.py:152-157 | the basename test accepts exactly `cloudbuild.yaml` and paths ending in `/cloudbuild.yaml` |
| ScraperModels.BasenameIs | src/mlops_mentor/scraper/models.py:156 | the basename is a given name without `/` iff the path is that name or ends in `/` followed by it |
| ScraperModels.BasenameShape | src/mlops_mentor/scraper/models.py:156 | a path whose basename is `name` is `name` or ends in `/name` |
| ScraperModels.BasenameOf | src/mlops_mentor/scraper/models.py:156 | a path equal to `name` or ending in `/name` has basename `name` |
| ScraperModels.RepoSizeAppend | src/mlops_mentor/scraper/models.py:164-168 | the byte total over a concatenation is the sum of the byte totals |
| ScraperModels.RepoSizeBytes | src/mlops_mentor/scraper/models.py:164-168 | the byte total is at least the size of every sized entry, and 0 when no entry has a size |
| ScraperModels.Sized | src/mlops_mentor/scraper/models.py:167 | keeps exactly the entries that carry a size: every kept entry has one and comes from the tree, and every sized entry of the tree is kept |
| ScraperModels.SizedAppend | src/mlops_mentor/scraper/models.py:167 | the filter keeps tree order across a concatenation |
| ScraperModels.SizedSingle | src/mlops_mentor/scraper/models.py:167 | one entry is kept iff it has a size |
| ScraperModels.RepoSizeSkipsUnsized | src/mlops_mentor/scraper/models.py:167 | entries without a size contribute nothing |
| ScraperModels.ActionsPassing | src/mlops_mentor/scraper/models.py:197-204 | true iff every run on the latest commit is completed with success, so true when there is no such run |
| ScraperModels.RunPasses | src/mlops_mentor/scraper/models.py:200-201 | a passing run has status `completed` and a conclusion; a run whose conclusion is not `success` never passes |
| ScraperModels.WordCount | src/mlops_mentor/scraper/models.py:179 | the number of words is zero iff the text is all whitespace |
| ScraperModels.WordCountConcat | src/mlops_mentor/scraper/models.py:179 | texts joined by a space have the sum of their word counts |
| ScraperModels.ReadmeLength | src/mlops_mentor/scraper/models.py:170-180 | no `content` gives 0; otherwise the word count, zero iff the text is blank |
| ScraperModels.RepoContent.constructor | src/mlops_mentor/scraper/models.py:100-104 | a fresh inspector has no cached tree |
| ScraperModels.RepoContent.FileTree | src/mlops_mentor/scraper/models.py:106-117 | a cached tree is returned without fetching; otherwise the tree of the default branch is fetched and cached |
| ScraperModels.FileTreeFetchedOnce | src/mlops_mentor/scraper/models.py:109-110 | two accesses give the same tree at the cost of at most one fetch |
| ScraperModels.CountContaining | src/mlops_mentor/scraper/models.py:95-96 | the warning count never exceeds the number of lines |
| ScraperModels.ReportFound | src/mlops_mentor/scraper/models.py:66 | a response without `message` and `status` is found; a `Not Found` message or a `404` status is not |
| ScraperModels.WarningCount | src/mlops_mentor/scraper/models.py:93-96 | the warning count is at most the number of stderr lines, and 0 for an empty stderr |
| ScraperModels.CountContainingAppend | src/mlops_mentor/scraper/models.py:95-96 | counting over concatenated line lists adds up |
| ScraperModels.WarningCountConcat | src/mlops_mentor/scraper/models.py:94-96 | outputs joined by a newline have the sum of their warning counts; the count is at most one more than the number of newlines |
| ScraperModels.Report.constructor | src/mlops_mentor/scraper/models.py:43-48 | a fresh report has `file_written` false |
| ScraperModels.Report.DownloadReport | src/mlops_mentor/scraper/models.py:61-76 | nothing happens once written; otherwise the file is written iff the response is found and has content, and a found response without content raises |
| ScraperModels.Report.CheckAnswers | src/mlops_mentor/scraper/models.py:78-97 | a warning count exists iff the report got written, and then it is the number of stderr lines containing `WARNING` (0 for an empty stderr); `KeyError` when the report is found without `content` |
| Scrape.FirstMatch | src/mlops_mentor/scraper/main.py:89-120 | the credited index is the first contributor whose login matches one of the four identity fields of the commit, or past the end when none does |
| Scrape.IdentityMatches | src/mlops_mentor/scraper/main.py:97-116 | an author or committer account login equal to the contributor's login matches, as does a non-empty author or committer name equal to it up to case; nothing else matches |
| Scrape.FirstMatchByLogins | src/mlops_mentor/scraper/main.py:97-116 | the match depends only on the contributors' logins, so earlier credits do not change later matches |
| Scrape.Credit | src/mlops_mentor/scraper/main.py:118-120 | one PR commit raises `commits_pr` of the first matching contributor by one, and changes nothing else |
| Scrape.CreditAll | src/mlops_mentor/scraper/main.py:88-120 | crediting a list of PR commits keeps the number of contributors |
| Scrape.CreditAllSnoc | src/mlops_mentor/scraper/main.py:88-120 | the PR commits are credited one after the other |
| Scrape.CreditAllKeepsLogins | src/mlops_mentor/scraper/main.py:88-120 | crediting changes no login and no contribution count |
| Scrape.CreditedToSnoc | src/mlops_mentor/scraper/main.py:88-120 | one more commit adds its index to the set credited to a contributor exactly when that contributor is its first match |
| Scrape.CreditAllCounts | src/mlops_mentor/scraper/main.py:88-120 | each contributor's `commits_pr` grows by the number of PR commits whose first match it is |
| Scrape.UnmatchedCreditsNobody | src/mlops_mentor/scraper/main.py:97-120 | a PR commit matching nobody changes no counter |
| Scrape.TotalPrCredit | src/mlops_mentor/scraper/main.py:118-120 | one PR commit raises the sum of `commits_pr` by one iff some contributor matches it |
| Scrape.TotalPrBump | src/mlops_mentor/scraper/main.py:119 | raising one counter raises the sum of counters by one |
| Scrape.MatchedSnoc | src/mlops_mentor/scraper/main.py:88-120 | one more commit joins the matched set exactly when some contributor matches it |
| Scrape.CreditAllTotal | src/mlops_mentor/scraper/main.py:88-120 | the sum of `commits_pr` grows by the number of PR commits that match somebody, at most the number of PR commits: each commit credits at most one contributor |
| Scrape.MergedNumbers | src/mlops_mentor/scraper/main.py:80 | at most one number per PR; no merged PR gives no numbers |
| Scrape.MergedNumbersAppend | src/mlops_mentor/scraper/main.py:80 | the filter keeps PR order across a concatenation |
| Scrape.AllMergedKept | src/mlops_mentor/scraper/main.py:80 | when every PR is merged every PR number is kept, in order |
| Scrape.PrCommitsOfSnoc | src/mlops_mentor/scraper/main.py:81-121 | the commits of one more merged PR are appended after the earlier ones |
| Scrape.PrCommitsOf | src/mlops_mentor/scraper/main.py:81-121 | the merged PRs' commits concatenated; empty when every listed PR has no commits |
| Scrape.PrCommitsOfContains | src/mlops_mentor/scraper/main.py:81-121 | every commit of every listed PR occurs in the concatenation, at least as often as in its PR |
| Scrape.PrCommitsOfAppend | src/mlops_mentor/scraper/main.py:81-121 | the commits of concatenated PR lists are the concatenated commits, without de-duplication |
| Scrape.Messages | src/mlops_mentor/scraper/main.py:74 | one message per commit, in order |
| Scrape.MessagesAppend | src/mlops_mentor/scraper/main.py:87 | the messages of concatenated commit lists are the concatenated messages |
| Scrape.CreditAllAppend | src/mlops_mentor/scraper/main.py:81-121 | crediting two commit lists one after the other is crediting their concatenation |
| Scrape.CreditCommit | src/mlops_mentor/scraper/main.py:89-120 | the inner contributor loop with `break` credits exactly as `Credit` |
| Scrape.CreditCommits | src/mlops_mentor/scraper/main.py:88-120 | the loop over one PR's commits credits exactly as `CreditAll` |
| Scrape.MergeStep | src/mlops_mentor/scraper/main.py:87-121 | processing one more PR keeps commits, messages and counters equal to the pre-merge values followed by all PR commits so far |
| Scrape.CommitsStep | src/mlops_mentor/scraper/main.py:121 | `commits += pr_commits` keeps commits equal to main commits followed by the PR commits so far |
| Scrape.MessagesStep | src/mlops_mentor/scraper/main.py:87 | `commit_messages += ...` keeps messages equal to main messages followed by the PR messages so far |
| Scrape.MergePrCommits | src/mlops_mentor/scraper/main.py:80-121 | the commits and messages are the main-branch ones followed by those of the merged PRs' commits in PR order, and the counters are credited over those commits |
| Scrape.TotalLengthAppend | src/mlops_mentor/scraper/main.py:75-77 | summed message lengths add up over a concatenation |
| Scrape.TotalLength | src/mlops_mentor/scraper/main.py:75-77 | the summed message length is at least each message's length |
| Scrape.TotalLengthZero | src/mlops_mentor/scraper/main.py:75-77 | the summed message length is 0 iff every message is empty |
| Scrape.AverageLength | src/mlops_mentor/scraper/main.py:75-77 | undefined (division by zero) iff there is no message; otherwise average times count is the total length |
| Scrape.AverageOfConcat | src/mlops_mentor/scraper/main.py:125-127 | the average over main and PR messages is the count-weighted combination of the two averages |
| Scrape.AverageBounded | src/mlops_mentor/scraper/main.py:75-77 | the average lies between 0 and any bound on the message lengths |
| Scrape.TotalLengthBounded | src/mlops_mentor/scraper/main.py:75-77 | the total length is at most count times any bound on the lengths |
| Scrape.InaccessibleStats | src/mlops_mentor/scraper/main.py:153-175 | an inaccessible group has every derived statistic `None` |
| Scrape.CommitHistory | src/mlops_mentor/scraper/main.py:66-130 | no main-branch commit raises `ZeroDivisionError`, and only that; otherwise the result is `HistoryOf` the responses: the counts, the latest commit date, the average before and after the merge, the per-contributor totals and the activity matrix of the paged listings and the merged PR commits |
| Scrape.HistoryOf | src/mlops_mentor/scraper/main.py:66-130 | the history of a repository with main-branch commits counts at least one such commit and has one `total_commits` per contributor |
| Scrape.HistoryShape | src/mlops_mentor/scraper/main.py:66-130 | with a main-branch commit the history counts at least one commit, has one total per contributor, and its matrix has 8 to 22 rows of 24 cells holding at most as many commits as the main and PR commits together |
| Scrape.HistoryAverages | src/mlops_mentor/scraper/main.py:74-127 | both averages lie between 0 and any bound on the message lengths |
| Scrape.InspectTree | src/mlops_mentor/scraper/main.py:132-143 | a fresh `RepoContent` per group: the seven tree statistics are the counts, flags and size of the one tree it fetches, and only the first property read sends the request |
| Scrape.ReportWarnings | src/mlops_mentor/scraper/main.py:147-152 | a fresh `Report` per group: `check_answers` raises `KeyError` exactly when the report exists but its response has no `content`; the warning count is present exactly when the report was found with content, and it is then the number of `WARNING` lines of the checker's stderr |
| Scrape.StatsOfOutcome | src/mlops_mentor/scraper/main.py:65-175 | the statistics of an accessible group exist iff the main branch has a commit and the report is not found without `content`; that report case raises `KeyError`; existing statistics have every field but `num_warnings`, which is present iff the report was found |
| Scrape.AssembledStats | src/mlops_mentor/scraper/main.py:65-175 | the record assembled from the history, the tree statistics, the README length, the actions check and the warning count is `StatsOf` the responses |
| Scrape.AccessibleStats | src/mlops_mentor/scraper/main.py:66-152 | a URL without `/` raises `IndexError` and no main-branch commit `ZeroDivisionError`; otherwise the default branch is memoised, fetched only when not yet known, and the result is `StatsOf` the responses for that branch: the history of `CommitHistory`, the tree counts and size, README length, actions check and warning count, or `KeyError` |
| Scrape.StatsOf | src/mlops_mentor/scraper/main.py:65-152 | the only exceptions are `ZeroDivisionError` and `KeyError`; a record has every statistic, and `num_warnings` iff the report was found |
| Scrape.ScrapeGroup | src/mlops_mentor/scraper/main.py:65-175 | the accessibility answer is the memo, or `ProbeAnswer` of the URL on a fresh group, and is memoised; the URL afterwards is the redirect target of a fresh probe that answered, and otherwise unchanged; an inaccessible group gets the all-`None` record; an accessible one raises `IndexError` or `ZeroDivisionError` as `AccessibleStats` does, and otherwise memoises the default branch and gets `StatsOf` its responses for the new URL, populated when it exists |
| Scrape.JoinedBasename | src/mlops_mentor/scraper/main.py:256 | `os.path.join(a, b)` ends in the segment `b` |
| Scrape.PathJoin | src/mlops_mentor/scraper/main.py:256 | `os.path.join(a, b)` is `b` for an absolute `b`, and otherwise starts with `a`, ends with `b` and adds at most one `/` |
| Scrape.RepoName | src/mlops_mentor/scraper/main.py:253 | the repository name contains no `/` and is no longer than the URL |
| Scrape.RepoNameOfPath | src/mlops_mentor/scraper/main.py:253 | the repository name is the last `/`-segment of the URL with every `.git` removed |
| Scrape.LastSplitPiece | src/mlops_mentor/scraper/main.py:253 | `split("/")[-1]` is the text after the last `/` |
| Scrape.SegmentOfSuffix | src/mlops_mentor/scraper/main.py:253 | the last segment is found in the part of the string after its last separator |
| Scrape.RepoDir | src/mlops_mentor/scraper/main.py:256 | the repository directory ends in the repository name |
| Scrape.GroupDirName | src/mlops_mentor/scraper/main.py:248 | the group directory ends in `group_` followed by the group number |
| Scrape.GroupDir | src/mlops_mentor/scraper/main.py:248 | the group directory lies under the base directory |
| Strings.LastSegment | src/mlops_mentor/common/models.py:69-70 | the last segment contains no separator, ends the string, and follows a separator or is the whole string |
| Strings.Lower | src/mlops_mentor/scraper/main.py:104-105 | `.lower()` maps every character to its lower-case form and keeps the length |
| Strings.Strip | src/mlops_mentor/common/data.py:16 | `int` ignores surrounding whitespace: the stripped text is no longer, and neither starts nor ends with whitespace |
| Strings.StripUnchanged | src/mlops_mentor/common/data.py:16 | text without any whitespace is left unchanged |
| Strings.StripKeeps | src/mlops_mentor/common/data.py:16 | text whose first and last characters are not whitespace is left unchanged |
| Strings.PrintableNotSpace | src/mlops_mentor/common/data.py:16 | no printable ASCII character other than the blank is whitespace |
| Strings.StripIsSlice | src/mlops_mentor/common/data.py:16 | the stripped text is a slice of the text with only whitespace before and after it |
| Strings.StrippedAfterFront | src/mlops_mentor/common/data.py:16 | a leading whitespace character moves the stripped slice one place right |
| Strings.StrippedAfterBack | src/mlops_mentor/common/data.py:16 | a trailing whitespace character leaves the stripped slice in place |
| Strings.SplitConcat | src/mlops_mentor/scraper/main.py:253 | splitting at a separator between two strings splits each part separately |
| Strings.SegmentAfterSep | src/mlops_mentor/scraper/main.py:253 | the text after the last separator is the last segment |
| Strings.NoSepIsOwnSegment | src/mlops_mentor/scraper/main.py:253 | a string without separator is its own last segment |
| Strings.SplitLength | src/mlops_mentor/common/models.py:69 | `split` gives one more piece than there are separators |
| Strings.JoinSplit | src/mlops_mentor/common/models.py:69 | joining the pieces of a split with the separator gives the string back |
| Strings.RemoveAllAbsent | src/mlops_mentor/scraper/main.py:253 | `replace(".git", "")` leaves a string without `.git` unchanged |
| JudgeModels.NewSubAgentResponse | src/mlops_mentor/llm_judge/models.py:54-99 | a sub-agent response exists iff its score is in 1..5 and its confidence in 1..10; otherwise `ValidationError` |
| JudgeModels.NewTACodeResponse | src/mlops_mentor/llm_judge/models.py:102-128 | a code response exists iff the three scores are in 1..5 and the overall score and confidence in 1..10 |
| JudgeModels.NewTAReportResponse | src/mlops_mentor/llm_judge/models.py:176-209 | a report response exists iff the checklist is in 0..52, the six section scores in 1..5 and the overall score and confidence in 1..10; it then holds every argument in its own field; otherwise `ValidationError` |
| JudgeModels.Round | src/mlops_mentor/llm_judge/models.py:139-157 | `round(n / d)` is within one half of `n / d` |
| JudgeModels.RoundOdd | src/mlops_mentor/llm_judge/models.py:139-157 | with an odd denominator `round(n / d)` is the unique integer strictly within one half: no tie can occur |
| JudgeModels.Clamp | src/mlops_mentor/llm_judge/models.py:147 | `max(1, min(10, x))` lies in 1..10 and is `x` itself when `x` does |
| JudgeModels.WeightedIsElevenths | src/mlops_mentor/llm_judge/models.py:139-146 | `(2a + 2b + 1.5c) / 1.1` equals `(20a + 20b + 15c) / 11` |
| JudgeModels.FromSubAgents | src/mlops_mentor/llm_judge/models.py:130-173 | the scores are copied, the overall score is the clamped rounded weighted value, the confidence is the rounded mean, the summary is the three labelled parts; the result is valid |
| JudgeModels.FromValidSubAgents | src/mlops_mentor/llm_judge/models.py:139-157 | valid sub-agent responses always combine, with an overall score in 5..10 and a confidence in 1..10 |
| JudgeModels.FromSubAgentsNearest | src/mlops_mentor/llm_judge/models.py:139-157 | the overall score before clamping and the confidence are the integers strictly nearest to the exact weighted value and the exact mean |
| JudgeModels.SummaryLayout | src/mlops_mentor/llm_judge/models.py:160-164 | the summary starts with the labelled code-quality part, holds the unit-testing part after it and ends with the CI/CD part |
| Leaderboard.BlocksAscend | src/mlops_mentor/leaderboard/app.py:54 | the eight glyphs are the consecutive code points U+2581..U+2588, in ascending order |
| Leaderboard.MaxOf | src/mlops_mentor/leaderboard/app.py:53 | `max(contributions)` is one of the values and no smaller than any |
| Leaderboard.BlockIndex | src/mlops_mentor/leaderboard/app.py:58 | the glyph index is clamped to the last glyph |
| Leaderboard.BlockIndexEnds | src/mlops_mentor/leaderboard/app.py:58 | only the maximum reaches the full block, and exactly the values below a seventh of the maximum get the lowest one |
| Leaderboard.BlockIndexMonotone | src/mlops_mentor/leaderboard/app.py:58 | a larger value never gets a lower glyph index |
| Leaderboard.Sparkline | src/mlops_mentor/leaderboard/app.py:45-63 | a missing or empty list gives `""`; an all-zero list divides by zero; otherwise one glyph per value, the glyph `Blocks[BlockIndex(v, max)]` of each value `v` |
| Leaderboard.SparklineExtremes | src/mlops_mentor/leaderboard/app.py:53-58 | a value is drawn as the full block iff it is the maximum; zero is drawn as the lowest block |
| Leaderboard.SparklineMonotone | src/mlops_mentor/leaderboard/app.py:56-61 | glyph heights follow the order of the values |
| Leaderboard.FormatBoolean | src/mlops_mentor/leaderboard/app.py:66-70 | missing gives the question mark, true the check mark, false the cross, and each only then |
| Leaderboard.FormatBooleanInjective | src/mlops_mentor/leaderboard/app.py:66-70 | different cells are rendered differently |

## Left out

- HTTP requests, headers, timeouts, JSON decoding, base64 and markdown decoding: each response is a parameter.
- `download_checker` and the report checker subprocess (`Popen`): the checker's stderr is a string parameter. Because the subprocess is started with `stderr=PIPE`, the `p.stderr is None` branch of `check_answers` (scraper/models.py:91-92) cannot be taken and has no counterpart in the model.
- The loop over all groups in `scrape`, and the JSON files, the Hugging Face upload and the file clean-up after it. `ScrapeGroup` models one iteration of the loop.
- `clone`'s `os.makedirs` and `git clone` subprocess: only the directory names are modelled.
- The timestamp parsing of `create_activity_matrix` (`fromisoformat` with a trailing `Z` stripped): commit times are integer UTC seconds. Python's `datetime` range limits are not modelled.
- Floating point: averages and the repository size are exact reals; the judge's score arithmetic is exact rational arithmetic with Python's round-half-to-even.
- ScraperModels.RepoSizeMb: real division of the byte total by 1048576 (2 to the power 20). Float rounding of the quotient is not modelled.
- Leaderboard.BlockIndex: the index is `min(floor(7·v/max), 7)` over non-negative integers. The float product `(v / max) * 7` could round differently near an exact multiple, and negative contributions are not modelled.
- Leaderboard.Sparkline: a cell that is not a list (`None`, NaN) is `None`.
- Leaderboard.FormatBoolean: only booleans and a missing value are modelled, not Python truthiness of other values.
- `Contributor.total_commits` is not part of this model: it is a function parameter of the snapshot.
- The contributor list is a sequence of values reassigned by the merge, not Python objects updated through aliases.
- `commit_times.sort()`, an in-place list sort, is a pure insertion sort on a sequence.
- Strings.Lower: ASCII letters only; Python's full Unicode case mapping is not modelled.
- Strings.IsDigit: ASCII digits only; `int` also accepts other Unicode decimal digits, which are not modelled.
- GroupModels.Paginate: requires that some page is empty. Without an empty page the source loops forever.
- `RepoInfo` is not defined by the code that imports it; the group record keeps the URL directly.
- GroupModels.ProbeAnswer: `head` is a function of the URL and `allow_redirects`, so without a redirect the second probe gives the same answer as the first; the code sends two independent requests, whose answers could differ.
- The `RepoMix` configuration, `TADependency` and the `request_usage` field of the judge models are plain data with no logic and are not modelled.
- The three sub-agent response classes share one datatype. They have the same fields and bounds.
- The LLM agents of the judge and the UI code of the leaderboard (matplotlib, pandas, Gradio) are not part of this model.
