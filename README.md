# GitHub organization audit scripts, modelled in Dafny

The scripts audit and configure a GitHub organization over its REST API:
- list its teams and each team's repositories;
- fill in and apply branch protection;
- collect the organization's label names;
- report, each month, on the repositories created in the last 30 days.

This project models the logic those scripts run once the network answers are
known. Each HTTP GET is a `Response(status, body)` input. A paginated listing
is a finite sequence of such responses, and a request past its end gets
`(200, [])`. Python exceptions become `Result` values. A table written by the
csv writer or read by `csv.reader` is a `seq<seq<string>>`. A table read by
`csv.DictReader` is a sequence of rows, each a sequence of (column name, cell)
pairs.

Modules, one per script plus three shared ones:

- `Api` (api.dfy): the entities (`Team`, `Repo`, `Event`, `Commit`,
  `Property`, `Ruleset`, `Label`), plus `Option`, `Result` and `Response`.
- `Text` (text.dfy): Python's `str.strip` with the `str.isspace` characters,
  `str.upper` on ASCII, the `"TRUE"` flag test, and Python's string order.
- `Pagination` (pagination.dfy): the page loop every script repeats. Pages go
  1, 2, 3, …, and the loop stops at the first empty page. It has two error
  policies:
  - raise and keep nothing (`Gathered`, with the `FetchAll` loop);
  - stop and keep the pages accepted so far (`Items`).
- `MonthlyAudit` (monthly_audit.dfy): scripts/monthlyauditscan.py.
- `ApplyBranchProtection` (apply_branch_protection.dfy):
  scripts/apply_branchprotection.py.
- `Teams` (teams.dfy): scripts/get_teams.py. The details script has a
  word-for-word copy of its `fetch_teams` and team table, so they are
  modelled once, here. The copies are at
  scripts/get_teams_repos_defaultbranch_details.py:6-26 and 28-33.
- `TeamRepos` (team_repos.dfy): the rest of
  scripts/get_teams_repos_defaultbranch_details.py.
- `Labels` (labels.dfy): scripts/fetch_labels.py.

Each loop of a source file is a `method` with a `while` loop. It is proved
equal to a specification function, and lemmas state what that function
means.

The details script reads its team slugs from the file the team listing
writes. When the organization has no teams, no file is written, and the
script reads whatever team file was already on disk. That file is the
`previous` input of `TeamRepos.DetailsOutcome`.

## Model

| member | source | states |
|---|---|---|
| Pagination.PageAt | scripts/get_teams.py:15 | the answer to page `p` is the `p`-th response, and `(200, [])` past the end |
| Pagination.Stop | scripts/get_teams.py:14-21 | the number of accepted pages: each page before it is 200 and non-empty, and the page at it (if any) is not |
| Pagination.Continues | scripts/get_teams.py:16-21 | a page after which the loop requests the next one: status 200 and a non-empty body |
| Pagination.Failed | scripts/get_teams.py:16-17 | the loop ends on a non-200 page rather than on an empty one or past the end |
| Pagination.Concat | scripts/get_teams.py:23 | the bodies of a sequence of pages, concatenated in page order |
| Pagination.Items | scripts/monthlyauditscan.py:21-33 | what a loop that keeps its partial list returns: the bodies of the accepted pages, in page order |
| Pagination.Gathered | scripts/get_teams.py:12-25 | what a loop that raises returns: the status of the first non-200 page when the loop ends on one, else the accepted pages' items |
| Pagination.Upto | scripts/get_teams.py:14-24 | the page numbers 1, 2, ..., n in request order |
| Pagination.FetchAll | scripts/get_teams.py:12-25 | the raising loop returns `Gathered(pages)` (the error of the first non-200 page, else every page before the first empty one), and it requests exactly pages 1 .. Stop+1, in order |
| Pagination.ConcatSnoc | scripts/get_teams.py:23 | one more accepted page extends the list by that page's body |
| Pagination.ConcatSize | scripts/get_teams.py:23 | the number of items collected is the sum of the page sizes |
| Pagination.ConcatElements | scripts/get_teams.py:23 | an item is collected iff it lies on one of the pages |
| Pagination.ConcatAppend | scripts/get_teams.py:23-24 | pages are concatenated in page order |
| Pagination.GatheredFails | scripts/get_teams.py:16-17 | the raising loop fails iff some non-200 page comes before every empty page, and it reports that page's status |
| Pagination.PoliciesAgree | scripts/fetch_labels.py:14-15 | the raising loop succeeds iff the loop did not end on a non-200 page, and then it returns exactly the partial-keeping loop's list, whose length is the sum of the accepted page sizes |
| Pagination.StopPrefix | scripts/get_teams.py:14-21 | pages after the one that stops the loop are never consulted: two listings that agree up to it give the same result |
| Pagination.PastEnd | scripts/get_teams.py:20-21 | an empty page ends the listing: whatever follows it changes nothing |
| Pagination.GatheredStopAt | scripts/get_teams.py:14-21 | the loop stops at the first page that is not 200 or is empty |
| Pagination.ItemsStopAt | scripts/monthlyauditscan.py:27-33 | a stopping page `k` after `k` continuing pages leaves exactly the items of those `k` pages |
| MonthlyAudit.FirstWhere | scripts/monthlyauditscan.py:69-71 | the index of the first element satisfying the test, or the length when none does |
| MonthlyAudit.RepoCreator | scripts/monthlyauditscan.py:62-72 | "Unknown" on a non-200 answer; otherwise the actor login of the first `CreateEvent`, or "Unknown" when there is none |
| MonthlyAudit.GetRepoCreator | scripts/monthlyauditscan.py:62-72 | the early-return search loop computes `RepoCreator` |
| MonthlyAudit.LastUpdatedBy | scripts/monthlyauditscan.py:74-83 | the first commit's author name on a 200 answer with some commit, and "Unknown" in every other case |
| MonthlyAudit.FileExists | scripts/monthlyauditscan.py:85-93 | the pre-commit and gitleaks checks hold iff the status is exactly 200 |
| MonthlyAudit.RepoType | scripts/monthlyauditscan.py:95-106 | "Unknown" on non-200; on 200, the value of the first `Repo_Type` property, or "Repo_Type not found" when there is none |
| MonthlyAudit.GetRepoCustomProperties | scripts/monthlyauditscan.py:95-106 | the early-return search loop computes `RepoType` |
| MonthlyAudit.BranchProtection | scripts/monthlyauditscan.py:108-117 | True iff 200, False iff 404, "Unknown" iff any other status |
| MonthlyAudit.Rulesets | scripts/monthlyauditscan.py:119-129 | True iff 200 with a non-empty list; False iff 200 with an empty list or 404; "Unknown" iff any other status |
| MonthlyAudit.ChecksAgreeOnUnknown | scripts/monthlyauditscan.py:111-129 | both tri-state checks are "Unknown" on exactly the same statuses, and a 404 is False for both, never an error |
| MonthlyAudit.InWindow | scripts/monthlyauditscan.py:15-37 | the closed window test: today-30 <= day <= today |
| MonthlyAudit.Audit | scripts/monthlyauditscan.py:38-56 | the record of one repository, each field from its own endpoint's classifier |
| MonthlyAudit.AuditAll | scripts/monthlyauditscan.py:35-56 | the records of the repositories in the window, in list order |
| MonthlyAudit.Audited | scripts/monthlyauditscan.py:7-60 | the scan's result: the records of the accepted pages' repositories in the window |
| MonthlyAudit.AuditAllAppend | scripts/monthlyauditscan.py:35-46 | the records of two repository lists one after the other are the records of their concatenation |
| MonthlyAudit.AuditAllMembers | scripts/monthlyauditscan.py:15-37 | a record is reported iff it belongs to a repository whose creation day lies in the closed window [today-30, today] |
| MonthlyAudit.AuditedByPage | scripts/monthlyauditscan.py:31-35 | the records come in page order, then in order within the page |
| MonthlyAudit.AuditedPartial | scripts/monthlyauditscan.py:27-29 | a non-200 page ends the scan without error, and the records of the earlier pages are returned |
| MonthlyAudit.AuditAllSnoc | scripts/monthlyauditscan.py:37-56 | one more repository adds its record iff it is in the window |
| MonthlyAudit.AuditPage | scripts/monthlyauditscan.py:35-56 | the loop over one page's repositories appends exactly the records of those in the window, in page order |
| MonthlyAudit.ReposCreatedLast30Days | scripts/monthlyauditscan.py:7-60 | the page loop with the window test computes `Audited`: the records of the repositories in the window, among the pages accepted before the first empty or non-200 page; it requests exactly pages 1 .. Stop+1, in order |
| Text.TrimLeftMeaning | scripts/apply_branchprotection.py:28 | the left strip drops a run of whitespace and keeps a suffix that starts with non-whitespace |
| Text.TrimRightMeaning | scripts/apply_branchprotection.py:28 | the right strip drops a run of whitespace and keeps a prefix that ends with non-whitespace |
| Text.StripStripped | scripts/apply_branchprotection.py:28 | a stripped string neither starts nor ends with whitespace |
| Text.StripMeaning | scripts/apply_branchprotection.py:28 | the strip is a contiguous slice with only whitespace on either side of it |
| Text.StripFixed | scripts/apply_branchprotection.py:28 | stripping a string that has no whitespace at either end leaves it unchanged |
| Text.StripIdempotent | scripts/apply_branchprotection.py:28 | a property of `strip`: stripping twice is stripping once, so a stripped cell is a fixed point |
| Text.StripEmpty | scripts/apply_branchprotection.py:28 | the strip is empty iff the string is all whitespace |
| Text.Strip | scripts/apply_branchprotection.py:28 | `str.strip`: the string without its leading and trailing `str.isspace` characters |
| Text.Upper | scripts/apply_branchprotection.py:43-44 | `str.upper`: each ASCII lower-case letter upper-cased, every other character kept |
| Text.IsTrueFlag | scripts/apply_branchprotection.py:43-44 | the flag test: the upper-cased field equals "TRUE" |
| Text.Below | scripts/fetch_labels.py:77 | Python's `<` on strings: lexicographic by code point, a proper prefix first |
| Text.TrueFlagSpellings | scripts/apply_branchprotection.py:43-44 | upper-cased, a field equals "TRUE" iff it is one of the sixteen case spellings of "true" |
| Text.BelowIrreflexive | scripts/fetch_labels.py:77 | no string sorts before itself |
| Text.BelowTransitive | scripts/fetch_labels.py:77 | string order is transitive |
| Text.BelowTotal | scripts/fetch_labels.py:77 | of two different strings, one sorts before the other |
| Text.BelowAsymmetric | scripts/fetch_labels.py:77 | two strings never sort before each other |
| ApplyBranchProtection.StripCells | scripts/apply_branchprotection.py:28 | each column name and each cell of a row is stripped, in column order |
| ApplyBranchProtection.ToMap | scripts/apply_branchprotection.py:28 | a dict built from pairs in order, a later pair overwriting an earlier one with the same key |
| ApplyBranchProtection.Normalize | scripts/apply_branchprotection.py:28-40 | the dict comprehension of line 28 and 40: stripped column names to stripped cells, a later column overwriting an earlier one |
| ApplyBranchProtection.ToMapKeys | scripts/apply_branchprotection.py:28 | the dict comprehension has exactly the keys of its pairs |
| ApplyBranchProtection.ToMapLast | scripts/apply_branchprotection.py:28 | the value of a key comes from the last pair with that key |
| ApplyBranchProtection.ToMapFrom | scripts/apply_branchprotection.py:28 | every key-value entry of the comprehension comes from one of its pairs |
| ApplyBranchProtection.NormalizeKeys | scripts/apply_branchprotection.py:28-40 | a normalized row's keys are exactly its stripped column names |
| ApplyBranchProtection.NormalizeStripped | scripts/apply_branchprotection.py:28-40 | every key and every value of a normalized row is whitespace-stripped |
| ApplyBranchProtection.NormalizeLast | scripts/apply_branchprotection.py:28-40 | a key's value is the stripped cell of the last column whose name strips to it |
| ApplyBranchProtection.Put | scripts/apply_branchprotection.py:30-44 | a dict assignment sets the value; an existing key keeps its place in insertion order, and a new key goes last |
| ApplyBranchProtection.Cell | scripts/apply_branchprotection.py:29-44 | the normalized cell of a column, or "" for a column the row lacks |
| ApplyBranchProtection.Key | scripts/apply_branchprotection.py:29-41 | `f"{row['Repository']}"`: the normalized Repository cell a row is keyed by |
| ApplyBranchProtection.RepoEntry | scripts/apply_branchprotection.py:30-34 | the value the first loop stores: the row's team slug, repository and default branch, with both flags unset |
| ApplyBranchProtection.AddRepoRow | scripts/apply_branchprotection.py:28-34 | one pass of the first loop: a KeyError for a missing "Repository", "Team Slug" or "Default Branch" (in that order), else the dict assignment of the row's entry |
| ApplyBranchProtection.AddRepoRows | scripts/apply_branchprotection.py:24-34 | the first loop over the repositories table: passes in row order, the first KeyError ending it |
| ApplyBranchProtection.SetFlags | scripts/apply_branchprotection.py:41-44 | one protection row changes no key and no key order |
| ApplyBranchProtection.SetAllFlags | scripts/apply_branchprotection.py:39-44 | the second loop changes no key and no key order |
| ApplyBranchProtection.AddRepoRowsErr | scripts/apply_branchprotection.py:29-33 | a row missing a column raises, and the rows after it are not read |
| ApplyBranchProtection.SetAllFlagsErr | scripts/apply_branchprotection.py:41-44 | a protection row that raises ends the second loop |
| ApplyBranchProtection.LoadRepos | scripts/apply_branchprotection.py:24-34 | the first loop computes `AddRepoRows` |
| ApplyBranchProtection.LoadFlags | scripts/apply_branchprotection.py:37-44 | the second loop computes `SetAllFlags` |
| ApplyBranchProtection.SetAllFlagsStep | scripts/apply_branchprotection.py:39-44 | one more protection row is one more pass |
| ApplyBranchProtection.Keys | scripts/apply_branchprotection.py:29-41 | the Repository key of each row, in row order |
| ApplyBranchProtection.IndexOf | scripts/apply_branchprotection.py:30 | the position of a key's first occurrence |
| ApplyBranchProtection.FirstOccurrencesMeaning | scripts/apply_branchprotection.py:30-45 | insertion order lists each distinct key once, exactly the keys that occur, ordered by first occurrence |
| ApplyBranchProtection.IndexOfUnique | scripts/apply_branchprotection.py:30 | a position holding `x`, with no `x` before it, is the first occurrence |
| ApplyBranchProtection.IndexOfPrefix | scripts/apply_branchprotection.py:30 | later rows do not move a key's first occurrence |
| ApplyBranchProtection.AddRepoRowsSnoc | scripts/apply_branchprotection.py:29-34 | one more repository row is one more dict assignment |
| ApplyBranchProtection.RepoRowsOrder | scripts/apply_branchprotection.py:29-45 | the joined dict has one entry per distinct Repository, in first-appearance order |
| ApplyBranchProtection.RepoRowsLast | scripts/apply_branchprotection.py:30-34 | a repository's team and branch come from the last row naming it: duplicates overwrite |
| ApplyBranchProtection.RepoRowsKeyed | scripts/apply_branchprotection.py:29-32 | every entry is stored under its own repository name |
| ApplyBranchProtection.SetAllFlagsSnoc | scripts/apply_branchprotection.py:39-44 | one more protection row is one more pass of `SetFlags` |
| ApplyBranchProtection.SetFlagsEntry | scripts/apply_branchprotection.py:42-44 | a protection row changes only the flags, and only those of the repository it names |
| ApplyBranchProtection.ProtectionRowsKeep | scripts/apply_branchprotection.py:42-44 | the second loop never changes a team, repository or branch |
| ApplyBranchProtection.ProtectionRowsUnnamed | scripts/apply_branchprotection.py:42 | a repository that no protection row names keeps its entry unchanged, its flags unset |
| ApplyBranchProtection.ProtectionRowsLast | scripts/apply_branchprotection.py:41-44 | a repository's two flags come from the last protection row naming it, each true iff the upper-cased field is "TRUE" |
| ApplyBranchProtection.AddRepoRowsValid | scripts/apply_branchprotection.py:29-34 | the first loop builds a well-formed dict: each key listed once, exactly the stored keys |
| ApplyBranchProtection.SetAllFlagsValid | scripts/apply_branchprotection.py:39-44 | the second loop keeps the dict well formed |
| ApplyBranchProtection.Values | scripts/apply_branchprotection.py:45 | `list(repos.values())`: one entry per key, in insertion order |
| ApplyBranchProtection.Joined | scripts/apply_branchprotection.py:22-45 | `read_repo_data`: the first loop, then the second loop on its dict, then the values list, or the first KeyError |
| ApplyBranchProtection.ReadRepoData | scripts/apply_branchprotection.py:22-45 | the two loops and the values list compute `Joined` |
| ApplyBranchProtection.JoinedOrder | scripts/apply_branchprotection.py:29-45 | the joined list has one entry per distinct Repository of the repositories table, in first-appearance order |
| ApplyBranchProtection.Flag | scripts/apply_branchprotection.py:72-73 | a flag is true iff a protection row set it true; a missing flag is false |
| ApplyBranchProtection.Decide | scripts/apply_branchprotection.py:76-85 | exactly one of the four branches is taken, and the PUT branch iff both flags are false |
| ApplyBranchProtection.EnableBranchProtection | scripts/apply_branchprotection.py:63 | the PUT succeeded iff its status is 200 or 201 |
| ApplyBranchProtection.StatusFor | scripts/apply_branchprotection.py:72-85 | the status string of an item: one of the three "already" texts from the flags, or the PUT's verdict |
| ApplyBranchProtection.NeedsPut | scripts/apply_branchprotection.py:72-84 | the item reaches the `else` branch that issues the PUT: neither flag is true |
| ApplyBranchProtection.ResultRow | scripts/apply_branchprotection.py:87 | `[team, repo, branch, status]` for an item |
| ApplyBranchProtection.StatusMeaning | scripts/apply_branchprotection.py:76-85 | each of the five status strings is written iff its case holds: "enabled via API" iff neither flag is on and the PUT answered 200 or 201, and "Failed" iff neither is on and it did not |
| ApplyBranchProtection.ProcessRepos | scripts/apply_branchprotection.py:65-93 | the header, then one `[team, repo, branch, status]` row per item, in item order; the PUT is issued, in item order, for exactly the items with neither flag on |
| Teams.TeamRows | scripts/get_teams.py:31-32 | one `[name, slug, description]` row per team, in order |
| Teams.DescriptionCell | scripts/get_teams.py:32 | `team.get("description", "N/A")` as the writer writes it: "N/A" for a missing key, an empty cell for JSON null, else the text |
| Teams.TeamRow | scripts/get_teams.py:32 | `[name, slug, description]` for a team |
| Teams.TeamTable | scripts/get_teams.py:30-32 | the team file: the header `[Team Name, Slug, Description]`, then one row per team, in order |
| Teams.TeamTableShape | scripts/get_teams.py:30-32 | the team file is the header `[Team Name, Slug, Description]`, then three-field rows, one per team in order; the Slug column holds each slug, and a missing description is "N/A" |
| Teams.FetchTeams | scripts/get_teams.py:5-25 | `fetch_teams` returns the teams on every page before the first empty one; a non-200 page raises and drops the teams collected so far; it requests pages 1 .. Stop+1 |
| Teams.SaveToCsv | scripts/get_teams.py:27-32 | the writing loop produces the team file |
| Teams.TeamsOutcome | scripts/get_teams.py:35-49 | what the script leaves: the error of a failing page, no file for no teams, else the team file |
| Teams.TeamsOutcomeMeaning | scripts/get_teams.py:42-49 | the script ends with the error iff a page fails; no file is written iff no team is listed; otherwise the file holds exactly the listed teams |
| Teams.EmptyFirstPage | scripts/get_teams.py:20-49 | an empty first page yields no teams and no file |
| Teams.RunGetTeams | scripts/get_teams.py:35-49 | `main` computes `TeamsOutcome` |
| TeamRepos.RepoRowsMeaning | scripts/get_teams_repos_defaultbranch_details.py:54-55 | row `i` is `[team_slug, name, default_branch]` of repository `i` |
| TeamRepos.RepoRow | scripts/get_teams_repos_defaultbranch_details.py:55 | `[team_slug, repo["name"], repo["default_branch"]]` |
| TeamRepos.RepoRows | scripts/get_teams_repos_defaultbranch_details.py:54-55 | one such row per repository, in order |
| TeamRepos.TeamRepoRows | scripts/get_teams_repos_defaultbranch_details.py:36-57 | what `fetch_repos_for_team` returns: the error of a failing page, else the rows of the accepted pages' repositories |
| TeamRepos.RepoRowsAppend | scripts/get_teams_repos_defaultbranch_details.py:54-56 | rows are produced in page order, then item order |
| TeamRepos.AppendRows | scripts/get_teams_repos_defaultbranch_details.py:54-55 | the inner loop appends one page's rows after the rows so far |
| TeamRepos.TeamRepoRowsMeaning | scripts/get_teams_repos_defaultbranch_details.py:36-57 | a team's rows are its repositories from the accepted pages, in order, unless a page before the first empty one is not 200, which raises and keeps nothing |
| TeamRepos.FetchReposForTeam | scripts/get_teams_repos_defaultbranch_details.py:36-57 | the page loop computes `TeamRepoRows`, and it requests exactly pages 1 .. Stop+1, in order |
| TeamRepos.SlugsAfterHeaderMeaning | scripts/get_teams_repos_defaultbranch_details.py:64-65 | the slugs are field 1 of every row, in order; a row with fewer than two fields raises |
| TeamRepos.SlugsMeaning | scripts/get_teams_repos_defaultbranch_details.py:59-66 | the header row is skipped (an empty file raises), and then field 1 of every later row is taken, in order |
| TeamRepos.TeamFileRoundTrip | scripts/get_teams_repos_defaultbranch_details.py:28-66 | reading back the team file gives the teams' slugs, in order |
| TeamRepos.ReadTeamSlugs | scripts/get_teams_repos_defaultbranch_details.py:59-66 | the reading loop computes `Slugs` |
| TeamRepos.Slugs | scripts/get_teams_repos_defaultbranch_details.py:59-66 | what `read_team_slugs_from_csv` returns: an error for an empty file or a short row, else field 1 of each row after the header |
| TeamRepos.SlugsAfterHeader | scripts/get_teams_repos_defaultbranch_details.py:64-65 | field 1 of each row, in order, or an error for the first row with fewer than two fields |
| TeamRepos.SlugsErr | scripts/get_teams_repos_defaultbranch_details.py:64-65 | a short row ends the reading: later rows are not looked at |
| TeamRepos.ContributionMeaning | scripts/get_teams_repos_defaultbranch_details.py:94-98 | a failing team contributes nothing; any other team contributes its rows |
| TeamRepos.Contribution | scripts/get_teams_repos_defaultbranch_details.py:94-98 | what one team adds to `all_repos`: its rows, or nothing when its listing raises |
| TeamRepos.Contributions | scripts/get_teams_repos_defaultbranch_details.py:93-98 | each team's contribution, as a function of its slug |
| TeamRepos.AllRepos | scripts/get_teams_repos_defaultbranch_details.py:92-98 | `all_repos` after the loop: the contributions of the slugs, concatenated in slug order |
| TeamRepos.AllReposAppend | scripts/get_teams_repos_defaultbranch_details.py:93-96 | the teams' rows follow each other in slug order |
| TeamRepos.FailingTeamSkipped | scripts/get_teams_repos_defaultbranch_details.py:97-98 | a failing team contributes nothing and does not stop the teams after it |
| TeamRepos.AllReposMembers | scripts/get_teams_repos_defaultbranch_details.py:92-98 | a row is collected iff some team contributes it |
| TeamRepos.CollectRepos | scripts/get_teams_repos_defaultbranch_details.py:92-98 | the loop computes `AllRepos` over every team's contribution |
| TeamRepos.RepoFile | scripts/get_teams_repos_defaultbranch_details.py:90-102 | the repository file: none when the team file is missing or unreadable or no team contributes a row, else the header and every contributed row |
| TeamRepos.SlugSource | scripts/get_teams_repos_defaultbranch_details.py:83-91 | the team file the slugs are read from: the one just written when there are teams, else whatever file was already there |
| TeamRepos.DetailsOutcome | scripts/get_teams_repos_defaultbranch_details.py:83-102 | the two files `main` leaves behind |
| TeamRepos.DetailsOutcomeMeaning | scripts/get_teams_repos_defaultbranch_details.py:83-102 | the team file is written iff the listing succeeds with some team, and then holds those teams; a failing listing writes nothing; the repository file is written only with a row below its header, and after a fresh team file it holds exactly those teams' rows |
| TeamRepos.SaveTeamRepos | scripts/get_teams_repos_defaultbranch_details.py:90-102 | the second `try` block computes `RepoFile` |
| TeamRepos.RunDetails | scripts/get_teams_repos_defaultbranch_details.py:75-102 | `main` computes `DetailsOutcome` |
| Labels.GetAllRepos | scripts/fetch_labels.py:8-21 | the repositories on every page before the first empty one; any non-200 page raises; it requests exactly pages 1 .. Stop+1, in order |
| Labels.Names | scripts/fetch_labels.py:34 | `[label["name"] for label in data]`: a KeyError when some label has no name |
| Labels.LabelNames | scripts/fetch_labels.py:23-36 | what `get_labels` returns: the names of the accepted pages' labels |
| Labels.NamesMeaning | scripts/fetch_labels.py:34 | the projection raises iff some label has no name; otherwise it lists every label's name in order |
| Labels.NamesAppend | scripts/fetch_labels.py:34 | projecting page after page is projecting their concatenation |
| Labels.LabelNamesMeaning | scripts/fetch_labels.py:23-36 | `get_labels` raises iff an accepted page holds a nameless label; otherwise it returns the names of the accepted pages' labels, in order |
| Labels.StopsQuietly | scripts/fetch_labels.py:29-30 | a non-200 page ends the listing with the names of the earlier pages, not an error |
| Labels.NamesPrefixErr | scripts/fetch_labels.py:34 | a nameless label on an accepted page makes the whole listing raise |
| Labels.GetLabels | scripts/fetch_labels.py:23-36 | the page loop computes `LabelNames`; it requests pages 1 .. Stop+1 in order, or, when a nameless label raises, pages 1 .. n with n <= Stop, where page n holds a nameless label and the pages before it project cleanly |
| Labels.FetchLabelsThreadsafe | scripts/fetch_labels.py:38-42 | `[]` when `get_labels` raises, its names unchanged otherwise |
| Labels.ThreadsafeNamesFromPages | scripts/fetch_labels.py:38-42 | every name returned is the name of a label on an accepted page |
| Labels.UnionMembers | scripts/fetch_labels.py:59-71 | a name is in the set iff it is the strip of a label of some repository |
| Labels.UnionOrderFree | scripts/fetch_labels.py:69-71 | the set is the same for every order in which the repositories complete |
| Labels.UnionStripped | scripts/fetch_labels.py:71 | every name in the set is stripped |
| Labels.Union | scripts/fetch_labels.py:59-71 | `unique_labels` after every repository's update: the set of the stripped names |
| Labels.Stripped | scripts/fetch_labels.py:71 | the set of the strips of one repository's labels |
| Labels.PerRepoLabels | scripts/fetch_labels.py:63-70 | each repository's `fetch_labels_threadsafe` result, one list per repository |
| Labels.UniqueLabels | scripts/fetch_labels.py:59-71 | `unique_labels` at the end of the loop: the union of the stripped names over all repositories |
| Labels.CollectUniqueLabels | scripts/fetch_labels.py:59-71 | the update loop computes the union |
| Labels.Least | scripts/fetch_labels.py:77 | the least name of a non-empty set |
| Labels.SortLabels | scripts/fetch_labels.py:77 | `sorted` lists each member of the set exactly once, in strictly ascending order |
| Labels.AscendingUnique | scripts/fetch_labels.py:77 | only one ascending list has a given set of members, so the sorted output is determined by the set |
| Labels.Column | scripts/fetch_labels.py:77-78 | one `[label]` row per name, in order |
| Labels.RunFetchLabels | scripts/fetch_labels.py:44-78 | the script fails iff `get_all_repos` raises; otherwise the file is the header "Label Name", then each distinct stripped label of the organization's repositories, once, in ascending order |

## Left out

- Network, headers, tokens and JSON decoding: every answer is an input
  (`Response`, or a function from URL parts to `Response`).
- Exceptions raised by `requests` itself (connection errors, timeouts) and
  JSON decoding errors are not modelled. Only HTTP status codes and the
  KeyErrors named below are.
- CSV files: opening, `csv.reader`/`DictReader`/`writer` quoting, and file
  names, including the monthly report's timestamped name. A read table is
  its rows, and a written table is the rows the writer is given.
  `TeamRepos.TeamFileRoundTrip` assumes the reader returns what the writer
  wrote.
- The monthly audit's `main` (its CSV writer and the "no repositories"
  message) is not modelled. The result of `get_repos_created_last_30_days`
  is.
- `save_repos_to_csv` is modelled as the table it writes: header and rows.
- `DictReader` rows are (column name, cell) pairs in column order, so the
  following are not modelled:
  - raw column names repeated in a header;
  - rows whose length differs from the header's;
  - the `None` keys and values that such rows would make `.strip()` crash
    on.
- ApplyBranchProtection.Cell: a column missing from a row gives "" here. It
  is only used where the column is known to be present, because the loops
  raise the KeyError first (`AddRepoRow`, `SetFlags`).
- KeyErrors: modelled for a label's `name` and for the "Repository",
  "Team Slug", "Default Branch", "Branch Protection" and "Rulesets Enabled"
  columns. A missing `name`, `slug`, `full_name`, `default_branch`,
  `created_at`, `type`, `actor.login` or commit author in a JSON object is
  not modelled; those fields are always present in the entity datatypes.
- A label whose name is JSON `null` is not modelled: `strip()` would raise on
  it outside the thread-safe wrapper.
- Text.Upper: only ASCII letters are upper-cased. No other character
  upper-cases to a letter of "TRUE", so the flag test is unaffected.
- `ThreadPoolExecutor`, `as_completed` and `max_threads = 20`: the label
  fold is sequential. `Labels.UnionOrderFree` shows that the order of
  completion does not matter.
- `datetime.date.today()` and `strptime` are not modelled. Today and each
  repository's creation day are integer day numbers, given as inputs.
- The `protection_data` payload, argparse, and every `print` are not
  modelled. The debugging `response.json()` in `enable_branch_protection`
  is left out as well.
- The errors of the raising listings keep only the HTTP status
  (`HttpError(status)`), not the response text the exception message
  carries; that text only reaches the traceback, or is discarded by the
  details script's bare `except`.
- The PUT of `enable_branch_protection` is the function
  `put(repo, branch)`. Its status code is an input.
