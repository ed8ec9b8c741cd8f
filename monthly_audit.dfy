/** scripts/monthlyauditscan.py: list the organization's repositories created
    in the last 30 days and, for each, ask six further endpoints about its
    creator, last committer, two workflow files, its `Repo_Type` custom
    property, branch protection and rulesets. */
module MonthlyAudit {
  import opened Api
  import opened Pagination

  /** Python's `True`, `False` or the string "Unknown". */
  datatype TriState = Yes | No | Unknown

  /** One row of the audit report. */
  datatype AuditRecord = AuditRecord(
    name: string,
    createdAt: string,
    creator: string,
    lastUpdatedBy: string,
    hasPreCommitConfig: bool,
    hasGitleaksWorkflow: bool,
    repoType: string,
    branchProtectionEnabled: TriState,
    rulesetsEnabled: TriState)

  /** The organization as the audit sees it: its paginated repository list
      and, per repository, the answer of each endpoint the audit asks. The
      endpoints are keyed as their URLs are: by full name, by full name and
      branch, by organization and repository name. */
  datatype Org = Org(
    name: string,
    repoPages: seq<Response<Repo>>,
    events: string -> Response<Event>,
    commits: string -> Response<Commit>,
    preCommitConfig: string -> int,
    gitleaksWorkflow: string -> int,
    properties: string -> Response<Property>,
    protection: (string, string) -> int,
    rulesets: (string, string) -> Response<Ruleset>)

  const UnknownText: string := "Unknown"
  const RepoTypeMissing: string := "Repo_Type not found"

  // ---------- first-match searches ----------

  /** The index of the first element satisfying `p`, or `|s|` when none does. */
  function FirstWhere<T>(s: seq<T>, p: T -> bool): (k: nat)
    ensures k <= |s|
    ensures forall i :: 0 <= i < k ==> !p(s[i])
    ensures k < |s| ==> p(s[k])
  {
    if s == [] || p(s[0]) then 0 else 1 + FirstWhere(s[1..], p)
  }

  predicate IsCreateEvent(e: Event) {
    e.kind == "CreateEvent"
  }

  predicate IsRepoType(prop: Property) {
    prop.propertyName == "Repo_Type"
  }

  /** `get_repo_creator`: the actor of the first `CreateEvent`; "Unknown" on a
      non-200 answer or when there is no such event. */
  function RepoCreator(resp: Response<Event>): (creator: string)
    ensures resp.status != 200 ==> creator == UnknownText
    ensures resp.status == 200 ==>
      || (exists k :: 0 <= k < |resp.body| && IsCreateEvent(resp.body[k])
            && (forall i :: 0 <= i < k ==> !IsCreateEvent(resp.body[i]))
            && creator == resp.body[k].actorLogin)
      || ((forall i :: 0 <= i < |resp.body| ==> !IsCreateEvent(resp.body[i]))
            && creator == UnknownText)
  {
    if resp.status != 200 then UnknownText
    else
      var k := FirstWhere(resp.body, IsCreateEvent);
      if k < |resp.body| then resp.body[k].actorLogin else UnknownText
  }

  /** The search loop of `get_repo_creator`, with its early returns. */
  method GetRepoCreator(resp: Response<Event>) returns (creator: string)
    ensures creator == RepoCreator(resp)
  {
    if resp.status != 200 {
      return UnknownText;
    }
    var events := resp.body;
    var i := 0;
    while i < |events|
      invariant 0 <= i <= |events|
      invariant forall j :: 0 <= j < i ==> !IsCreateEvent(events[j])
    {
      if events[i].kind == "CreateEvent" {
        assert FirstWhere(events, IsCreateEvent) == i;
        return events[i].actorLogin;
      }
      i := i + 1;
    }
    return UnknownText;
  }

  /** `get_repo_custom_properties`: the value of the first `Repo_Type`
      property; "Repo_Type not found" on a 200 answer without one; "Unknown"
      on any other status. */
  function RepoType(resp: Response<Property>): (repoType: string)
    ensures resp.status != 200 ==> repoType == UnknownText
    ensures resp.status == 200 ==>
      || (exists k :: 0 <= k < |resp.body| && IsRepoType(resp.body[k])
            && (forall i :: 0 <= i < k ==> !IsRepoType(resp.body[i]))
            && repoType == resp.body[k].value)
      || ((forall i :: 0 <= i < |resp.body| ==> !IsRepoType(resp.body[i]))
            && repoType == RepoTypeMissing)
  {
    if resp.status != 200 then UnknownText
    else
      var k := FirstWhere(resp.body, IsRepoType);
      if k < |resp.body| then resp.body[k].value else RepoTypeMissing
  }

  /** The search loop of `get_repo_custom_properties`. */
  method GetRepoCustomProperties(resp: Response<Property>) returns (repoType: string)
    ensures repoType == RepoType(resp)
  {
    if resp.status == 200 {
      var props := resp.body;
      var i := 0;
      while i < |props|
        invariant 0 <= i <= |props|
        invariant forall j :: 0 <= j < i ==> !IsRepoType(props[j])
      {
        if props[i].propertyName == "Repo_Type" {
          assert FirstWhere(props, IsRepoType) == i;
          return props[i].value;
        }
        i := i + 1;
      }
      return RepoTypeMissing;
    } else {
      return UnknownText;
    }
  }

  // ---------- status classifiers ----------

  /** `get_last_updated_by` (asked with `per_page=1`): the author name of the
      first commit listed; "Unknown" on a non-200 answer or an empty list. */
  function LastUpdatedBy(resp: Response<Commit>): (author: string)
    ensures author != UnknownText ==> resp.status == 200 && resp.body != []
    ensures resp.status == 200 && resp.body != [] ==> author == resp.body[0].authorName
  {
    if resp.status == 200 && resp.body != [] then resp.body[0].authorName else UnknownText
  }

  /** `check_pre_commit_config` and `check_gitleaks_workflow`: the file
      exists iff its contents URL answers exactly 200. */
  function FileExists(status: int): (present: bool)
    ensures present <==> status == 200
  {
    status == 200
  }

  /** `check_branch_protection`: True on 200, False on 404, "Unknown"
      otherwise. */
  function BranchProtection(status: int): (state: TriState)
    ensures state == Yes <==> status == 200
    ensures state == No <==> status == 404
    ensures state == Unknown <==> status != 200 && status != 404
  {
    if status == 200 then Yes else if status == 404 then No else Unknown
  }

  /** `check_rulesets`: on 200 whether the ruleset list is non-empty, False on
      404, "Unknown" otherwise. */
  function Rulesets(resp: Response<Ruleset>): (state: TriState)
    ensures state == Yes <==> resp.status == 200 && resp.body != []
    ensures state == No <==> (resp.status == 200 && resp.body == []) || resp.status == 404
    ensures state == Unknown <==> resp.status != 200 && resp.status != 404
  {
    if resp.status == 200 then (if |resp.body| > 0 then Yes else No)
    else if resp.status == 404 then No
    else Unknown
  }

  /** The two tri-state checks agree on when they cannot tell: exactly the
      statuses other than 200 and 404. A 404 is "not enabled", never an
      error. */
  lemma ChecksAgreeOnUnknown(status: int, rulesets: seq<Ruleset>)
    ensures BranchProtection(status) == Unknown <==> Rulesets(Response(status, rulesets)) == Unknown
    ensures status == 404 ==> BranchProtection(status) == No && Rulesets(Response(status, rulesets)) == No
    ensures Rulesets(Response(status, rulesets)) == Yes ==> BranchProtection(status) == Yes
  {
  }

  // ---------- the 30-day scan ----------

  /** `thirty_days_ago <= created_at <= today`: the closed window of 31 days. */
  predicate InWindow(today: int, day: int) {
    today - 30 <= day <= today
  }

  /** The record the scan builds for one repository in the window. */
  function Audit(org: Org, repo: Repo): AuditRecord {
    AuditRecord(
      repo.name,
      repo.createdAt,
      RepoCreator(org.events(repo.fullName)),
      LastUpdatedBy(org.commits(repo.fullName)),
      FileExists(org.preCommitConfig(repo.fullName)),
      FileExists(org.gitleaksWorkflow(repo.fullName)),
      RepoType(org.properties(repo.fullName)),
      BranchProtection(org.protection(repo.fullName, repo.defaultBranch)),
      Rulesets(org.rulesets(org.name, repo.name)))
  }

  /** The records of the repositories of `repos` that lie in the window, in
      the order of `repos`. */
  function AuditAll(org: Org, today: int, repos: seq<Repo>): seq<AuditRecord> {
    if repos == [] then []
    else
      var last := repos[|repos| - 1];
      AuditAll(org, today, repos[..|repos| - 1])
        + (if InWindow(today, last.createdDay) then [Audit(org, last)] else [])
  }

  /** What `get_repos_created_last_30_days` returns: the records of the
      repositories in the window among the pages accepted before the first
      empty or non-200 page. */
  function Audited(org: Org, today: int): seq<AuditRecord> {
    AuditAll(org, today, Items(org.repoPages))
  }

  lemma {:induction false} AuditAllAppend(org: Org, today: int, a: seq<Repo>, b: seq<Repo>)
    ensures AuditAll(org, today, a + b) == AuditAll(org, today, a) + AuditAll(org, today, b)
    decreases |b|
  {
    if b == [] {
      assert a + b == a;
    } else {
      var b' := b[..|b| - 1];
      assert (a + b)[..|a + b| - 1] == a + b';
      AuditAllAppend(org, today, a, b');
    }
  }

  /** A record is reported iff it is the record of a repository whose
      creation day lies in the window. */
  lemma {:induction false} AuditAllMembers(org: Org, today: int, repos: seq<Repo>, r: AuditRecord)
    ensures r in AuditAll(org, today, repos) <==>
      exists i :: 0 <= i < |repos| && InWindow(today, repos[i].createdDay) && r == Audit(org, repos[i])
  {
    if repos != [] {
      var front := repos[..|repos| - 1];
      AuditAllMembers(org, today, front, r);
      if r in AuditAll(org, today, front) {
        var i :| 0 <= i < |front| && InWindow(today, front[i].createdDay) && r == Audit(org, front[i]);
        assert repos[i] == front[i];
      }
      if exists i :: 0 <= i < |repos| && InWindow(today, repos[i].createdDay) && r == Audit(org, repos[i]) {
        var i :| 0 <= i < |repos| && InWindow(today, repos[i].createdDay) && r == Audit(org, repos[i]);
        if i < |front| {
          assert front[i] == repos[i];
        }
      }
    }
  }

  /** The scan's result is page order, then position within the page, and a
      non-200 page keeps what the earlier pages gave. */
  lemma AuditedByPage(org: Org, today: int, k: nat)
    requires k < Stop(org.repoPages)
    ensures AuditAll(org, today, Concat(org.repoPages[..k + 1]))
         == AuditAll(org, today, Concat(org.repoPages[..k])) + AuditAll(org, today, org.repoPages[k].body)
  {
    ConcatSnoc(org.repoPages, k);
    AuditAllAppend(org, today, Concat(org.repoPages[..k]), org.repoPages[k].body);
  }

  /** A non-200 page `k` ends the scan without error: the records of the
      `k` pages before it are returned. */
  lemma AuditedPartial(org: Org, today: int, k: nat)
    requires k < |org.repoPages| && org.repoPages[k].status != 200 && AllContinue(org.repoPages[..k])
    ensures Audited(org, today) == AuditAll(org, today, Concat(org.repoPages[..k]))
  {
    ItemsStopAt(org.repoPages, k);
  }

  /** One more repository adds its record iff it is in the window. */
  lemma AuditAllSnoc(org: Org, today: int, repos: seq<Repo>, repo: Repo)
    ensures AuditAll(org, today, repos + [repo])
         == AuditAll(org, today, repos) + (if InWindow(today, repo.createdDay) then [Audit(org, repo)] else [])
  {
    assert (repos + [repo])[..|repos|] == repos;
  }

  /** `for repo in repos`: the window test and enrichment of one page's
      repositories, appending a record for each one in the window. */
  method AuditPage(repoList: seq<AuditRecord>, org: Org, today: int, repos: seq<Repo>)
    returns (extended: seq<AuditRecord>)
    ensures extended == repoList + AuditAll(org, today, repos)
  {
    var thirtyDaysAgo := today - 30;
    extended := repoList;
    var i := 0;
    while i < |repos|
      invariant 0 <= i <= |repos|
      invariant extended == repoList + AuditAll(org, today, repos[..i])
    {
      var repo := repos[i];
      assert repos[..i + 1] == repos[..i] + [repo];
      AuditAllSnoc(org, today, repos[..i], repo);
      if thirtyDaysAgo <= repo.createdDay <= today {
        var creator := GetRepoCreator(org.events(repo.fullName));
        var lastUpdatedBy := LastUpdatedBy(org.commits(repo.fullName));
        var hasPreCommitConfig := FileExists(org.preCommitConfig(repo.fullName));
        var hasGitleaksWorkflow := FileExists(org.gitleaksWorkflow(repo.fullName));
        var customProperties := GetRepoCustomProperties(org.properties(repo.fullName));
        var branchProtectionEnabled := BranchProtection(org.protection(repo.fullName, repo.defaultBranch));
        var rulesetsEnabled := Rulesets(org.rulesets(org.name, repo.name));
        extended := extended + [AuditRecord(repo.name, repo.createdAt, creator, lastUpdatedBy,
                                            hasPreCommitConfig, hasGitleaksWorkflow, customProperties,
                                            branchProtectionEnabled, rulesetsEnabled)];
      }
      i := i + 1;
    }
    assert repos[..i] == repos;
  }

  /** `get_repos_created_last_30_days`: the page loop, which stops without
      error on the first non-200 or empty page and hands each accepted
      page to `AuditPage`. `requested` records the page numbers
      asked for, in order. */
  method ReposCreatedLast30Days(org: Org, today: int) returns (repoList: seq<AuditRecord>, ghost requested: seq<int>)
    ensures repoList == Audited(org, today)
    ensures requested == Upto(Stop(org.repoPages) + 1)
  {
    repoList := [];
    var page := 1;
    requested := [];
    while true
      invariant 1 <= page <= Stop(org.repoPages) + 1
      invariant repoList == AuditAll(org, today, Concat(org.repoPages[..page - 1]))
      invariant requested == Upto(page - 1)
      decreases |org.repoPages| + 1 - page
    {
      var resp := PageAt(org.repoPages, page);
      requested := requested + [page];
      if resp.status != 200 {
        break;
      }
      var repos := resp.body;
      if repos == [] {
        break;
      }
      repoList := AuditPage(repoList, org, today, repos);
      AuditAllAppend(org, today, Concat(org.repoPages[..page - 1]), repos);
      ConcatSnoc(org.repoPages, page - 1);
      page := page + 1;
    }
    assert page - 1 == Stop(org.repoPages);
  }
}
