/** scripts/get_teams.py: list an organization's teams and, when there are
    any, write them to a three-column table. The details script defines the
    same `fetch_teams` and the same team table (`save_teams_to_csv`); both
    are modelled here once. */
module Teams {
  import opened Api
  import opened Pagination

  const TeamHeader: seq<string> := ["Team Name", "Slug", "Description"]

  /** `team.get("description", "N/A")` as the csv writer writes it: a
      missing key gives "N/A", JSON null an empty cell. */
  function DescriptionCell(d: Description): string {
    match d
    case Absent => "N/A"
    case Null => ""
    case Text(s) => s
  }

  /** `[team["name"], team["slug"], team.get("description", "N/A")]`. */
  function TeamRow(team: Team): seq<string> {
    [team.name, team.slug, DescriptionCell(team.description)]
  }

  /** The rows below the header, one per team. */
  function TeamRows(teams: seq<Team>): (rows: Table)
    ensures |rows| == |teams|
    ensures forall i :: 0 <= i < |teams| ==> rows[i] == TeamRow(teams[i])
  {
    if teams == [] then [] else TeamRows(teams[..|teams| - 1]) + [TeamRow(teams[|teams| - 1])]
  }

  /** The whole team file. */
  function TeamTable(teams: seq<Team>): Table {
    [TeamHeader] + TeamRows(teams)
  }

  /** The file has the header, then one row per team in order, and its
      Slug column is each team's slug. */
  lemma TeamTableShape(teams: seq<Team>)
    ensures |TeamTable(teams)| == |teams| + 1 && TeamTable(teams)[0] == TeamHeader
    ensures forall i :: 0 <= i < |teams| ==>
              && TeamTable(teams)[i + 1] == TeamRow(teams[i])
              && |TeamTable(teams)[i + 1]| == 3
              && TeamTable(teams)[i + 1][1] == teams[i].slug
    ensures forall i :: 0 <= i < |teams| ==>
              (teams[i].description == Absent ==> TeamTable(teams)[i + 1][2] == "N/A")
  {
  }

  /** `fetch_teams`: every page before the first empty one, or the error of
      the first non-200 page (the teams gathered so far are dropped). */
  method FetchTeams(pages: seq<Response<Team>>) returns (r: Result<seq<Team>>, ghost requested: seq<int>)
    ensures r == Gathered(pages)
    ensures r.Ok? <==> !Failed(pages)
    ensures r.Ok? ==> r.value == Items(pages)
    ensures requested == Upto(Stop(pages) + 1)
  {
    r, requested := FetchAll(pages);
    PoliciesAgree(pages);
  }

  /** `save_to_csv`: the header, then one row per team. */
  method SaveToCsv(teams: seq<Team>) returns (table: Table)
    ensures table == TeamTable(teams)
  {
    table := [TeamHeader];
    var i := 0;
    while i < |teams|
      invariant 0 <= i <= |teams|
      invariant table == [TeamHeader] + TeamRows(teams[..i])
    {
      assert teams[..i + 1][..i] == teams[..i];
      table := table + [TeamRow(teams[i])];
      i := i + 1;
    }
    assert teams[..i] == teams;
  }

  /** What get_teams.py leaves behind: an error when a page is not 200 (the
      script ends with the exception and writes nothing), no file when the
      organization has no teams, and otherwise the team file. */
  function TeamsOutcome(pages: seq<Response<Team>>): Result<Option<Table>> {
    match Gathered(pages)
    case Err(e) => Err(e)
    case Ok(teams) => if teams == [] then Ok(None) else Ok(Some(TeamTable(teams)))
  }

  /** The file is written iff every page up to the first empty one is 200
      and some team was listed; it then holds exactly those teams. */
  lemma TeamsOutcomeMeaning(pages: seq<Response<Team>>)
    ensures TeamsOutcome(pages).Err? <==> Failed(pages)
    ensures TeamsOutcome(pages) == Ok(None) <==> !Failed(pages) && Items(pages) == []
    ensures TeamsOutcome(pages).Ok? && TeamsOutcome(pages).value.Some? ==>
              Items(pages) != [] && TeamsOutcome(pages).value.value == TeamTable(Items(pages))
  {
    PoliciesAgree(pages);
  }

  /** An empty first page means no teams and no file. */
  lemma EmptyFirstPage(pages: seq<Response<Team>>)
    requires pages == [] || pages[0] == Response(200, [])
    ensures Stop(pages) == 0 && Items(pages) == []
    ensures TeamsOutcome(pages) == Ok(None)
  {
  }

  /** `main`: fetch, then save only a non-empty list. */
  method RunGetTeams(pages: seq<Response<Team>>) returns (outcome: Result<Option<Table>>)
    ensures outcome == TeamsOutcome(pages)
  {
    var teams, _ := FetchTeams(pages);
    if teams.Err? {
      return Err(teams.error);
    }
    if teams.value != [] {
      var table := SaveToCsv(teams.value);
      outcome := Ok(Some(table));
    } else {
      outcome := Ok(None);
    }
  }
}
