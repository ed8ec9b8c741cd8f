/** scripts/get_teams_repos_defaultbranch_details.py: list the teams, write
    the team file, read the slugs back from it, then list every team's
    repositories with their default branch, skipping teams whose listing
    fails. */
module TeamRepos {
  import opened Api
  import opened Pagination
  import opened Teams

  const RepoHeader: seq<string> := ["Team Slug", "Repository", "Default Branch"]

  /** `[team_slug, repo["name"], repo["default_branch"]]`. */
  function RepoRow(slug: string, repo: Repo): seq<string> {
    [slug, repo.name, repo.defaultBranch]
  }

  /** One row per repository, in order. */
  function RepoRows(slug: string, repos: seq<Repo>): Table {
    if repos == [] then [] else RepoRows(slug, repos[..|repos| - 1]) + [RepoRow(slug, repos[|repos| - 1])]
  }

  /** Row `i` is repository `i`'s. */
  lemma {:induction false} RepoRowsMeaning(slug: string, repos: seq<Repo>)
    ensures |RepoRows(slug, repos)| == |repos|
    ensures forall i :: 0 <= i < |repos| ==> RepoRows(slug, repos)[i] == RepoRow(slug, repos[i])
  {
    if repos != [] {
      RepoRowsMeaning(slug, repos[..|repos| - 1]);
    }
  }

  lemma {:induction false} RepoRowsAppend(slug: string, a: seq<Repo>, b: seq<Repo>)
    ensures RepoRows(slug, a + b) == RepoRows(slug, a) + RepoRows(slug, b)
    decreases |b|
  {
    if b == [] {
      assert a + b == a;
    } else {
      var b' := b[..|b| - 1];
      assert (a + b)[..|a + b| - 1] == a + b';
      RepoRowsAppend(slug, a, b');
    }
  }

  /** What `fetch_repos_for_team` returns for a team whose repository
      listing is `pages`. */
  function TeamRepoRows(slug: string, pages: seq<Response<Repo>>): Result<Table> {
    match Gathered(pages)
    case Err(e) => Err(e)
    case Ok(repos) => Ok(RepoRows(slug, repos))
  }

  /** The team's rows are its repositories from the accepted pages, in page
      and item order, unless some page before the first empty one is not
      200, which raises. */
  lemma TeamRepoRowsMeaning(slug: string, pages: seq<Response<Repo>>)
    ensures TeamRepoRows(slug, pages).Err? <==> Failed(pages)
    ensures TeamRepoRows(slug, pages).Ok? ==>
      var rows := TeamRepoRows(slug, pages).value;
      && |rows| == |Items(pages)|
      && forall i :: 0 <= i < |rows| ==> rows[i] == RepoRow(slug, Items(pages)[i])
  {
    PoliciesAgree(pages);
    RepoRowsMeaning(slug, Items(pages));
  }

  /** `fetch_repos_for_team`: the page loop, appending one row per
      repository. `requested` records the page numbers asked for, in
      order. */
  method FetchReposForTeam(slug: string, pages: seq<Response<Repo>>) returns (r: Result<Table>, ghost requested: seq<int>)
    ensures r == TeamRepoRows(slug, pages)
    ensures requested == Upto(Stop(pages) + 1)
  {
    var repos: Table := [];
    var page := 1;
    requested := [];
    while true
      invariant 1 <= page <= Stop(pages) + 1
      invariant repos == RepoRows(slug, Concat(pages[..page - 1]))
      invariant requested == Upto(page - 1)
      decreases |pages| + 1 - page
    {
      var resp := PageAt(pages, page);
      requested := requested + [page];
      if resp.status != 200 {
        assert page - 1 == Stop(pages);
        return Err(HttpError(resp.status)), requested;
      }
      var repoData := resp.body;
      if repoData == [] {
        break;
      }
      repos := AppendRows(repos, slug, repoData);
      RepoRowsAppend(slug, Concat(pages[..page - 1]), repoData);
      ConcatSnoc(pages, page - 1);
      page := page + 1;
    }
    assert page - 1 == Stop(pages);
    r := Ok(repos);
  }

  /** `for repo in repo_data: repos.append([team_slug, ...])`: one page's
      rows after the rows so far. */
  method AppendRows(repos: Table, slug: string, repoData: seq<Repo>) returns (extended: Table)
    ensures extended == repos + RepoRows(slug, repoData)
  {
    extended := repos;
    var i := 0;
    while i < |repoData|
      invariant 0 <= i <= |repoData|
      invariant extended == repos + RepoRows(slug, repoData[..i])
    {
      assert repoData[..i + 1][..i] == repoData[..i];
      extended := extended + [RepoRow(slug, repoData[i])];
      i := i + 1;
    }
    assert repoData[..i] == repoData;
  }

  /** What `read_team_slugs_from_csv` returns for a file's rows: the header
      is skipped (an empty file raises), and every later row gives its
      second field (a row with fewer fields raises). */
  function Slugs(rows: Table): Result<seq<string>> {
    if rows == [] then Err(NoHeader) else SlugsAfterHeader(rows[1..])
  }

  function SlugsAfterHeader(rows: Table): Result<seq<string>> {
    if rows == [] then Ok([])
    else
      match SlugsAfterHeader(rows[..|rows| - 1])
      case Err(e) => Err(e)
      case Ok(slugs) =>
        if |rows[|rows| - 1]| < 2 then Err(MissingColumn(1)) else Ok(slugs + [rows[|rows| - 1][1]])
  }

  /** The slugs are column 1 of every row after the first, in order; reading
      fails iff the file is empty or some such row has fewer than two
      fields. */
  lemma {:induction false} SlugsAfterHeaderMeaning(rows: Table)
    ensures SlugsAfterHeader(rows).Err? <==> exists i :: 0 <= i < |rows| && |rows[i]| < 2
    ensures SlugsAfterHeader(rows).Err? ==> SlugsAfterHeader(rows).error == MissingColumn(1)
    ensures SlugsAfterHeader(rows).Ok? ==>
      && |SlugsAfterHeader(rows).value| == |rows|
      && forall i :: 0 <= i < |rows| ==> SlugsAfterHeader(rows).value[i] == rows[i][1]
  {
    if rows != [] {
      var front := rows[..|rows| - 1];
      SlugsAfterHeaderMeaning(front);
      assert forall i :: 0 <= i < |front| ==> front[i] == rows[i];
    }
  }

  lemma SlugsMeaning(rows: Table)
    ensures Slugs(rows).Err? <==> rows == [] || exists i :: 1 <= i < |rows| && |rows[i]| < 2
    ensures rows == [] ==> Slugs(rows) == Err(NoHeader)
    ensures Slugs(rows).Ok? ==>
      && |Slugs(rows).value| == |rows| - 1
      && forall i :: 1 <= i < |rows| ==> Slugs(rows).value[i - 1] == rows[i][1]
  {
    if rows != [] {
      SlugsAfterHeaderMeaning(rows[1..]);
      if exists i :: 1 <= i < |rows| && |rows[i]| < 2 {
        var i :| 1 <= i < |rows| && |rows[i]| < 2;
        assert rows[1..][i - 1] == rows[i];
      }
    }
  }

  /** Reading back the team file written from `teams` gives their slugs in
      order, provided the csv module returns the rows it wrote. */
  lemma TeamFileRoundTrip(teams: seq<Team>)
    ensures Slugs(TeamTable(teams)).Ok?
    ensures |Slugs(TeamTable(teams)).value| == |teams|
    ensures forall i :: 0 <= i < |teams| ==> Slugs(TeamTable(teams)).value[i] == teams[i].slug
  {
    TeamTableShape(teams);
    SlugsMeaning(TeamTable(teams));
  }

  /** `read_team_slugs_from_csv`: skip the header, collect `row[1]`. */
  method ReadTeamSlugs(rows: Table) returns (r: Result<seq<string>>)
    ensures r == Slugs(rows)
  {
    if rows == [] {
      return Err(NoHeader);
    }
    var body := rows[1..];
    var slugs: seq<string> := [];
    var i := 0;
    while i < |body|
      invariant 0 <= i <= |body|
      invariant SlugsAfterHeader(body[..i]) == Ok(slugs)
    {
      assert body[..i + 1][..i] == body[..i];
      if |body[i]| < 2 {
        SlugsErr(body, i + 1);
        return Err(MissingColumn(1));
      }
      slugs := slugs + [body[i][1]];
      i := i + 1;
    }
    assert body[..i] == body;
    r := Ok(slugs);
  }

  /** A short row ends the reading: later rows are not looked at. */
  lemma {:induction false} SlugsErr(rows: Table, n: nat)
    requires n <= |rows| && SlugsAfterHeader(rows[..n]).Err?
    ensures SlugsAfterHeader(rows) == SlugsAfterHeader(rows[..n])
    decreases |rows| - n
  {
    if n < |rows| {
      assert rows[..n + 1][..n] == rows[..n];
      SlugsErr(rows, n + 1);
    } else {
      assert rows[..n] == rows;
    }
  }

  /** The rows a team contributes to `all_repos`: its rows when its listing
      succeeds, none when it raises. */
  function Contribution(slug: string, reposFor: string -> seq<Response<Repo>>): Table {
    match TeamRepoRows(slug, reposFor(slug))
    case Ok(rows) => rows
    case Err(_) => []
  }

  /** A failing team contributes nothing; any other team contributes one row
      per repository of its accepted pages. */
  lemma ContributionMeaning(slug: string, reposFor: string -> seq<Response<Repo>>)
    ensures Failed(reposFor(slug)) ==> Contribution(slug, reposFor) == []
    ensures !Failed(reposFor(slug)) ==> Contribution(slug, reposFor) == RepoRows(slug, Items(reposFor(slug)))
  {
    PoliciesAgree(reposFor(slug));
  }

  /** Each team's contribution, as the loop in `main` gathers it. */
  function Contributions(reposFor: string -> seq<Response<Repo>>): string -> Table {
    slug => Contribution(slug, reposFor)
  }

  /** `all_repos` after the loop over `slugs`, each team adding
      `contribution(slug)`. */
  function AllRepos(slugs: seq<string>, contribution: string -> Table): Table {
    if slugs == [] then []
    else AllRepos(slugs[..|slugs| - 1], contribution) + contribution(slugs[|slugs| - 1])
  }

  /** The teams' contributions follow each other in slug order. */
  lemma {:induction false} AllReposAppend(a: seq<string>, b: seq<string>, contribution: string -> Table)
    ensures AllRepos(a + b, contribution) == AllRepos(a, contribution) + AllRepos(b, contribution)
    decreases |b|
  {
    if b == [] {
      assert a + b == a;
    } else {
      var b' := b[..|b| - 1];
      assert (a + b)[..|a + b| - 1] == a + b';
      AllReposAppend(a, b', contribution);
    }
  }

  /** A team whose listing raises contributes nothing and does not stop the
      teams after it. */
  lemma FailingTeamSkipped(a: seq<string>, slug: string, b: seq<string>, reposFor: string -> seq<Response<Repo>>)
    requires Failed(reposFor(slug))
    ensures AllRepos(a + [slug] + b, Contributions(reposFor)) == AllRepos(a + b, Contributions(reposFor))
  {
    var c := Contributions(reposFor);
    ContributionMeaning(slug, reposFor);
    assert c(slug) == [];
    AllReposAppend(a + [slug], b, c);
    AllReposAppend(a, [slug], c);
    AllReposAppend(a, b, c);
    assert AllRepos([slug], c) == AllRepos([], c) + c(slug) by {
      assert [slug][..0] == [];
    }
  }

  /** A row is collected iff it is a row contributed by one of the teams. */
  lemma {:induction false} AllReposMembers(slugs: seq<string>, contribution: string -> Table, row: seq<string>)
    ensures row in AllRepos(slugs, contribution) <==>
      exists i :: 0 <= i < |slugs| && row in contribution(slugs[i])
  {
    if slugs != [] {
      var front := slugs[..|slugs| - 1];
      var last := |slugs| - 1;
      AllReposMembers(front, contribution, row);
      if exists i :: 0 <= i < |slugs| && row in contribution(slugs[i]) {
        var i :| 0 <= i < |slugs| && row in contribution(slugs[i]);
        if i < last {
          assert front[i] == slugs[i];
        }
      }
      if exists i :: 0 <= i < |front| && row in contribution(front[i]) {
        var i :| 0 <= i < |front| && row in contribution(front[i]);
        assert front[i] == slugs[i];
      }
    }
  }

  /** The loop in `main`: extend `all_repos` with every team's rows, and
      skip a team whose listing raises. */
  method CollectRepos(slugs: seq<string>, reposFor: string -> seq<Response<Repo>>) returns (allRepos: Table)
    ensures allRepos == AllRepos(slugs, Contributions(reposFor))
  {
    allRepos := [];
    var i := 0;
    while i < |slugs|
      invariant 0 <= i <= |slugs|
      invariant allRepos == AllRepos(slugs[..i], Contributions(reposFor))
    {
      assert slugs[..i + 1][..i] == slugs[..i];
      ghost var requested;
      var repos;
      repos, requested := FetchReposForTeam(slugs[i], reposFor(slugs[i]));
      if repos.Ok? {
        allRepos := allRepos + repos.value;
      }
      i := i + 1;
    }
    assert slugs[..i] == slugs;
  }

  /** The two files the script leaves: `teamFile` is the team file it
      writes, `repoFile` the repository file. */
  datatype Outcome = Outcome(teamFile: Option<Table>, repoFile: Option<Table>)

  /** The team file the slugs are read from: the one just written, or
      else the one already on disk (`previous`; None when there is none,
      which makes reading raise). */
  function SlugSource(teams: seq<Team>, previous: Option<Table>): Option<Table> {
    if teams != [] then Some(TeamTable(teams)) else previous
  }

  /** The repository file the second half of `main` writes from the team
      file `source`: none when the file is missing or unreadable, or when
      no team contributes a row. */
  function RepoFile(source: Option<Table>, reposFor: string -> seq<Response<Repo>>): Option<Table> {
    match source
    case None => None
    case Some(rows) =>
      match Slugs(rows)
      case Err(_) => None
      case Ok(slugs) =>
        var all := AllRepos(slugs, Contributions(reposFor));
        if all != [] then Some([RepoHeader] + all) else None
  }

  /** What `main` leaves behind. A failing team listing ends it before any
      file is written; a failing read of the team file, after the team
      file; each file is written only when it has a row below its header. */
  function DetailsOutcome(teamPages: seq<Response<Team>>, previous: Option<Table>,
                          reposFor: string -> seq<Response<Repo>>): Outcome {
    match Gathered(teamPages)
    case Err(_) => Outcome(None, None)
    case Ok(teams) =>
      Outcome(if teams != [] then Some(TeamTable(teams)) else None,
              RepoFile(SlugSource(teams, previous), reposFor))
  }

  /** The team file is written iff the team listing succeeds with some
      team; the repository file is written only with at least one row, and
      when the teams were just listed its rows are those of these teams. */
  lemma DetailsOutcomeMeaning(teamPages: seq<Response<Team>>, previous: Option<Table>,
                              reposFor: string -> seq<Response<Repo>>)
    ensures DetailsOutcome(teamPages, previous, reposFor).teamFile.Some? <==>
              !Failed(teamPages) && Items(teamPages) != []
    ensures DetailsOutcome(teamPages, previous, reposFor).teamFile.Some? ==>
              DetailsOutcome(teamPages, previous, reposFor).teamFile.value == TeamTable(Items(teamPages))
    ensures Failed(teamPages) ==> DetailsOutcome(teamPages, previous, reposFor).repoFile.None?
    ensures DetailsOutcome(teamPages, previous, reposFor).repoFile.Some? ==>
              var file := DetailsOutcome(teamPages, previous, reposFor).repoFile.value;
              |file| > 1 && file[0] == RepoHeader
    ensures !Failed(teamPages) && Items(teamPages) != [] ==>
              var teams := Items(teamPages);
              var slugs := seq(|teams|, i requires 0 <= i < |teams| => teams[i].slug);
              var all := AllRepos(slugs, Contributions(reposFor));
              DetailsOutcome(teamPages, previous, reposFor).repoFile == (if all != [] then Some([RepoHeader] + all) else None)
  {
    PoliciesAgree(teamPages);
    if !Failed(teamPages) && Items(teamPages) != [] {
      var teams := Items(teamPages);
      TeamFileRoundTrip(teams);
      var slugs := seq(|teams|, i requires 0 <= i < |teams| => teams[i].slug);
      assert Slugs(TeamTable(teams)).value == slugs;
    }
  }

  /** The second `try` block of `main`: read the slugs, gather every
      team's rows, save them when there are any. */
  method SaveTeamRepos(source: Option<Table>, reposFor: string -> seq<Response<Repo>>) returns (repoFile: Option<Table>)
    ensures repoFile == RepoFile(source, reposFor)
  {
    if source.None? {
      return None;
    }
    var slugs := ReadTeamSlugs(source.value);
    if slugs.Err? {
      return None;
    }
    var allRepos := CollectRepos(slugs.value, reposFor);
    if allRepos != [] {
      repoFile := Some([RepoHeader] + allRepos);
    } else {
      repoFile := None;
    }
  }

  /** `main`. */
  method RunDetails(teamPages: seq<Response<Team>>, previous: Option<Table>,
                    reposFor: string -> seq<Response<Repo>>) returns (outcome: Outcome)
    ensures outcome == DetailsOutcome(teamPages, previous, reposFor)
  {
    var teams, _ := FetchTeams(teamPages);
    if teams.Err? {
      return Outcome(None, None);
    }
    var teamFile: Option<Table> := None;
    if teams.value != [] {
      var table := SaveToCsv(teams.value);
      teamFile := Some(table);
    }
    var repoFile := SaveTeamRepos(if teamFile.Some? then teamFile else previous, reposFor);
    outcome := Outcome(teamFile, repoFile);
  }
}
