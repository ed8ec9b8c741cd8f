/** scripts/apply_branchprotection.py: join a table of team repositories with
    a table of their current protection state, then, per repository, either
    report that protection or rulesets are already on or issue the
    branch-protection PUT and report how it went. */
module ApplyBranchProtection {
  import opened Api
  import opened Text

  // ---------- reading the two tables ----------

  /** One `csv.DictReader` row: its (column name, cell) pairs in column order. */
  type Row = seq<(string, string)>

  /** `{k.strip(): v.strip() for k, v in row.items()}`: stripped names to
      stripped cells; of two columns whose names strip alike, the later wins. */
  function Normalize(row: Row): map<string, string> {
    ToMap(StripCells(row))
  }

  /** Each column name and each cell, stripped. */
  function StripCells(row: Row): (stripped: Row)
    ensures |stripped| == |row|
    ensures forall i :: 0 <= i < |row| ==> stripped[i] == (Strip(row[i].0), Strip(row[i].1))
  {
    if row == [] then [] else [(Strip(row[0].0), Strip(row[0].1))] + StripCells(row[1..])
  }

  /** A dict comprehension over pairs: a later pair overwrites an earlier one. */
  function ToMap<K(==), V>(pairs: seq<(K, V)>): map<K, V> {
    if pairs == [] then map[]
    else ToMap(pairs[..|pairs| - 1])[pairs[|pairs| - 1].0 := pairs[|pairs| - 1].1]
  }

  /** No pair after pair `i` has the same key. */
  predicate LastWithKey<K(==), V>(pairs: seq<(K, V)>, i: int)
    requires 0 <= i < |pairs|
  {
    forall j :: i < j < |pairs| ==> pairs[j].0 != pairs[i].0
  }

  /** The map has exactly the keys of the pairs. */
  lemma {:induction false} ToMapKeys<K, V>(pairs: seq<(K, V)>, k: K)
    ensures k in ToMap(pairs) <==> exists i :: 0 <= i < |pairs| && pairs[i].0 == k
  {
    if pairs != [] {
      var front := pairs[..|pairs| - 1];
      ToMapKeys(front, k);
      if exists i :: 0 <= i < |pairs| && pairs[i].0 == k {
        var i :| 0 <= i < |pairs| && pairs[i].0 == k;
        if i < |front| {
          assert front[i] == pairs[i];
        }
      }
      if exists i :: 0 <= i < |front| && front[i].0 == k {
        var i :| 0 <= i < |front| && front[i].0 == k;
        assert front[i] == pairs[i];
      }
    }
  }

  /** A key's value comes from the last pair with that key. */
  lemma {:induction false} ToMapLast<K, V>(pairs: seq<(K, V)>, i: nat)
    requires i < |pairs| && LastWithKey(pairs, i)
    ensures pairs[i].0 in ToMap(pairs) && ToMap(pairs)[pairs[i].0] == pairs[i].1
  {
    var front := pairs[..|pairs| - 1];
    if i < |front| {
      assert front[i] == pairs[i];
      assert LastWithKey(front, i) by {
        forall j | i < j < |front| ensures front[j].0 != front[i].0 {
          assert front[j] == pairs[j];
        }
      }
      ToMapLast(front, i);
    }
  }

  /** Every key and every value of the map comes from some pair. */
  lemma {:induction false} ToMapFrom<K, V>(pairs: seq<(K, V)>, k: K)
    requires k in ToMap(pairs)
    ensures exists i :: 0 <= i < |pairs| && pairs[i] == (k, ToMap(pairs)[k])
  {
    var front := pairs[..|pairs| - 1];
    if pairs[|pairs| - 1].0 != k {
      ToMapFrom(front, k);
      var i :| 0 <= i < |front| && front[i] == (k, ToMap(front)[k]);
      assert pairs[i] == front[i];
    }
  }

  /** The keys of a normalized row are its stripped column names. */
  lemma NormalizeKeys(row: Row, k: string)
    ensures k in Normalize(row) <==> exists i :: 0 <= i < |row| && Strip(row[i].0) == k
  {
    var pairs := StripCells(row);
    ToMapKeys(pairs, k);
    if exists i :: 0 <= i < |row| && Strip(row[i].0) == k {
      var i :| 0 <= i < |row| && Strip(row[i].0) == k;
      assert pairs[i].0 == k;
    }
  }

  /** Every key and every value of a normalized row is stripped. */
  lemma NormalizeStripped(row: Row, k: string)
    requires k in Normalize(row)
    ensures IsStripped(k) && IsStripped(Normalize(row)[k])
  {
    var pairs := StripCells(row);
    ToMapFrom(pairs, k);
    var i :| 0 <= i < |pairs| && pairs[i] == (k, ToMap(pairs)[k]);
    assert k == Strip(row[i].0) && Normalize(row)[k] == Strip(row[i].1);
    StripStripped(row[i].0);
    StripStripped(row[i].1);
  }

  /** A key's value is the stripped cell of the last column whose name
      strips to it. */
  lemma NormalizeLast(row: Row, i: nat)
    requires i < |row|
    requires forall j :: i < j < |row| ==> Strip(row[j].0) != Strip(row[i].0)
    ensures Strip(row[i].0) in Normalize(row)
    ensures Normalize(row)[Strip(row[i].0)] == Strip(row[i].1)
  {
    var pairs := StripCells(row);
    assert LastWithKey(pairs, i);
    ToMapLast(pairs, i);
  }

  /** A joined repository: as `repos[key]` holds it, the two flags present
      only once a protection row has set them. */
  datatype Entry = Entry(teamSlug: string, repo: string, branch: string,
                         protection: Option<bool>, rulesets: Option<bool>)

  /** The `repos` dict: its keys in insertion order and its values. */
  datatype Repos = Repos(order: seq<string>, entries: map<string, Entry>)

  predicate NoDuplicates(s: seq<string>) {
    forall i, j :: 0 <= i < j < |s| ==> s[i] != s[j]
  }

  /** A dict's keys are listed once each, in one order. */
  ghost predicate Valid(repos: Repos) {
    && NoDuplicates(repos.order)
    && forall k :: k in repos.entries <==> k in repos.order
  }

  /** `repos[key] = value`: a new key goes last; an existing one keeps its place. */
  function Put(repos: Repos, key: string, e: Entry): (r: Repos)
    ensures r.entries == repos.entries[key := e]
    ensures key in repos.entries ==> r.order == repos.order
    ensures key !in repos.entries ==> r.order == repos.order + [key]
  {
    Repos(if key in repos.entries then repos.order else repos.order + [key], repos.entries[key := e])
  }

  const RepositoryColumn: string := "Repository"
  const TeamSlugColumn: string := "Team Slug"
  const BranchColumn: string := "Default Branch"
  const ProtectionColumn: string := "Branch Protection"
  const RulesetsColumn: string := "Rulesets Enabled"

  /** The cell of `column`, or "" when the row has no such column. */
  function Cell(row: Row, column: string): string {
    var m := Normalize(row);
    if column in m then m[column] else ""
  }

  /** `f"{row['Repository']}"`: the dict key a row addresses. */
  function Key(row: Row): string {
    Cell(row, RepositoryColumn)
  }

  /** The value the first loop stores for a row of the repositories table. */
  function RepoEntry(row: Row): Entry {
    Entry(Cell(row, TeamSlugColumn), Cell(row, RepositoryColumn), Cell(row, BranchColumn), None, None)
  }

  /** One pass of the first loop; the dict literal reads "Team Slug",
      "Repository" and "Default Branch" after the key's "Repository". */
  function AddRepoRow(repos: Repos, row: Row): Result<Repos> {
    var m := Normalize(row);
    if RepositoryColumn !in m then Err(MissingKey(RepositoryColumn))
    else if TeamSlugColumn !in m then Err(MissingKey(TeamSlugColumn))
    else if BranchColumn !in m then Err(MissingKey(BranchColumn))
    else Ok(Put(repos, m[RepositoryColumn], RepoEntry(row)))
  }

  /** The first loop over the repositories table. */
  function AddRepoRows(rows: seq<Row>): Result<Repos> {
    if rows == [] then Ok(Repos([], map[]))
    else
      match AddRepoRows(rows[..|rows| - 1])
      case Err(e) => Err(e)
      case Ok(repos) => AddRepoRow(repos, rows[|rows| - 1])
  }

  /** One pass of the second loop: rows for unknown repositories are skipped. */
  function SetFlags(repos: Repos, row: Row): (r: Result<Repos>)
    ensures r.Ok? ==> r.value.order == repos.order && r.value.entries.Keys == repos.entries.Keys
  {
    var m := Normalize(row);
    if RepositoryColumn !in m then Err(MissingKey(RepositoryColumn))
    else
      var key := m[RepositoryColumn];
      if key !in repos.entries then Ok(repos)
      else if ProtectionColumn !in m then Err(MissingKey(ProtectionColumn))
      else if RulesetsColumn !in m then Err(MissingKey(RulesetsColumn))
      else
        var e := repos.entries[key].(protection := Some(IsTrueFlag(m[ProtectionColumn])),
                                     rulesets := Some(IsTrueFlag(m[RulesetsColumn])));
        Ok(Put(repos, key, e))
  }

  /** The second loop over the protection table. */
  function SetAllFlags(repos: Repos, rows: seq<Row>): (r: Result<Repos>)
    ensures r.Ok? ==> r.value.order == repos.order && r.value.entries.Keys == repos.entries.Keys
  {
    if rows == [] then Ok(repos)
    else
      match SetAllFlags(repos, rows[..|rows| - 1])
      case Err(e) => Err(e)
      case Ok(flagged) => SetFlags(flagged, rows[|rows| - 1])
  }

  /** A row that raises ends the first loop: later rows are not read. */
  lemma {:induction false} AddRepoRowsErr(rows: seq<Row>, n: nat)
    requires n <= |rows| && AddRepoRows(rows[..n]).Err?
    ensures AddRepoRows(rows) == AddRepoRows(rows[..n])
    decreases |rows| - n
  {
    if n < |rows| {
      var next := rows[..n + 1];
      assert next[..n] == rows[..n];
      AddRepoRowsErr(rows, n + 1);
    } else {
      assert rows[..n] == rows;
    }
  }

  /** A row that raises ends the second loop. */
  lemma {:induction false} SetAllFlagsErr(repos: Repos, rows: seq<Row>, n: nat)
    requires n <= |rows| && SetAllFlags(repos, rows[..n]).Err?
    ensures SetAllFlags(repos, rows) == SetAllFlags(repos, rows[..n])
    decreases |rows| - n
  {
    if n < |rows| {
      var next := rows[..n + 1];
      assert next[..n] == rows[..n];
      SetAllFlagsErr(repos, rows, n + 1);
    } else {
      assert rows[..n] == rows;
    }
  }

  /** The first loop of `read_repo_data`: fill `repos` from the
      repositories table, a later row overwriting an earlier one. */
  method LoadRepos(rows: seq<Row>) returns (r: Result<Repos>)
    ensures r == AddRepoRows(rows)
  {
    var repos := Repos([], map[]);
    var i := 0;
    while i < |rows|
      invariant 0 <= i <= |rows|
      invariant AddRepoRows(rows[..i]) == Ok(repos)
    {
      assert rows[..i + 1][..i] == rows[..i];
      assert AddRepoRows(rows[..i + 1]) == AddRepoRow(repos, rows[i]);
      var row := Normalize(rows[i]);
      if RepositoryColumn !in row || TeamSlugColumn !in row || BranchColumn !in row {
        AddRepoRowsErr(rows, i + 1);
        if RepositoryColumn !in row {
          return Err(MissingKey(RepositoryColumn));
        } else if TeamSlugColumn !in row {
          return Err(MissingKey(TeamSlugColumn));
        } else {
          return Err(MissingKey(BranchColumn));
        }
      }
      var key := row[RepositoryColumn];
      repos := Put(repos, key, Entry(row[TeamSlugColumn], row[RepositoryColumn], row[BranchColumn], None, None));
      i := i + 1;
    }
    assert rows[..i] == rows;
    r := Ok(repos);
  }

  /** The second loop of `read_repo_data`: set both flags of every known
      repository named in the protection table. */
  method LoadFlags(repos: Repos, rows: seq<Row>) returns (r: Result<Repos>)
    ensures r == SetAllFlags(repos, rows)
  {
    var current := repos;
    var j := 0;
    while j < |rows|
      invariant 0 <= j <= |rows|
      invariant SetAllFlags(repos, rows[..j]) == Ok(current)
    {
      SetAllFlagsStep(repos, rows, j, current);
      var row := Normalize(rows[j]);
      if RepositoryColumn !in row {
        SetAllFlagsErr(repos, rows, j + 1);
        return Err(MissingKey(RepositoryColumn));
      }
      var key := row[RepositoryColumn];
      if key in current.entries {
        if ProtectionColumn !in row || RulesetsColumn !in row {
          SetAllFlagsErr(repos, rows, j + 1);
          if ProtectionColumn !in row {
            return Err(MissingKey(ProtectionColumn));
          } else {
            return Err(MissingKey(RulesetsColumn));
          }
        }
        var e := current.entries[key].(protection := Some(IsTrueFlag(row[ProtectionColumn])),
                                       rulesets := Some(IsTrueFlag(row[RulesetsColumn])));
        current := Put(current, key, e);
      }
      j := j + 1;
    }
    assert rows[..j] == rows;
    r := Ok(current);
  }

  /** One more protection row extends the second loop by one pass. */
  lemma SetAllFlagsStep(repos: Repos, rows: seq<Row>, j: nat, current: Repos)
    requires j < |rows|
    requires SetAllFlags(repos, rows[..j]) == Ok(current)
    ensures SetAllFlags(repos, rows[..j + 1]) == SetFlags(current, rows[j])
  {
    assert rows[..j + 1][..j] == rows[..j];
  }

  // ---------- what the join computes ----------

  /** The key of every row, in row order. */
  function Keys(rows: seq<Row>): (keys: seq<string>)
    ensures |keys| == |rows|
    ensures forall i :: 0 <= i < |rows| ==> keys[i] == Key(rows[i])
  {
    if rows == [] then [] else Keys(rows[..|rows| - 1]) + [Key(rows[|rows| - 1])]
  }

  /** The position of the first occurrence of `x` in `s`. */
  function IndexOf(s: seq<string>, x: string): (k: nat)
    requires x in s
    ensures k < |s| && s[k] == x && x !in s[..k]
  {
    if s[0] == x then 0 else 1 + IndexOf(s[1..], x)
  }

  /** Each distinct element of `s` once, at the place of its first occurrence. */
  function FirstOccurrences(s: seq<string>): seq<string> {
    if s == [] then []
    else
      var front := s[..|s| - 1];
      FirstOccurrences(front) + (if s[|s| - 1] in front then [] else [s[|s| - 1]])
  }

  /** The first occurrences of `s` list each of its elements exactly once,
      ordered by where each first occurs in `s`. */
  lemma {:induction false} FirstOccurrencesMeaning(s: seq<string>)
    ensures NoDuplicates(FirstOccurrences(s))
    ensures forall x :: x in FirstOccurrences(s) <==> x in s
    ensures forall p, q :: 0 <= p < q < |FirstOccurrences(s)| ==>
              IndexOf(s, FirstOccurrences(s)[p]) < IndexOf(s, FirstOccurrences(s)[q])
  {
    if s != [] {
      var front := s[..|s| - 1];
      var x := s[|s| - 1];
      FirstOccurrencesMeaning(front);
      var f := FirstOccurrences(front);
      assert s == front + [x];
      forall y | y in front ensures IndexOf(s, y) == IndexOf(front, y) {
        IndexOfPrefix(front, [x], y);
      }
      if x !in front {
        assert IndexOf(s, x) == |front| by {
          assert s[|front|] == x;
          assert x !in s[..|front|];
          IndexOfUnique(s, x, |front|);
        }
      }
    }
  }

  lemma IndexOfUnique(s: seq<string>, x: string, k: nat)
    requires k < |s| && s[k] == x && x !in s[..k]
    ensures IndexOf(s, x) == k
  {
    var j := IndexOf(s, x);
    if j < k {
      assert false;
    } else if k < j {
      assert false;
    }
  }

  lemma IndexOfPrefix(a: seq<string>, b: seq<string>, x: string)
    requires x in a
    ensures IndexOf(a + b, x) == IndexOf(a, x)
  {
    var k := IndexOf(a, x);
    assert (a + b)[..k] == a[..k];
    IndexOfUnique(a + b, x, k);
  }

  /** No row after row `i` addresses the same repository. */
  predicate LastRowFor(rows: seq<Row>, i: int)
    requires 0 <= i < |rows|
  {
    forall j :: i < j < |rows| ==> Key(rows[j]) != Key(rows[i])
  }

  /** One more row of the repositories table is one more `Put`. */
  lemma AddRepoRowsSnoc(rows: seq<Row>)
    requires rows != [] && AddRepoRows(rows).Ok?
    ensures AddRepoRows(rows[..|rows| - 1]).Ok?
    ensures AddRepoRows(rows).value ==
              Put(AddRepoRows(rows[..|rows| - 1]).value, Key(rows[|rows| - 1]), RepoEntry(rows[|rows| - 1]))
  {
  }

  /** The first loop keeps one entry per distinct Repository, listed in the
      order of first appearance. */
  lemma {:induction false} RepoRowsOrder(rows: seq<Row>)
    requires AddRepoRows(rows).Ok?
    ensures AddRepoRows(rows).value.order == FirstOccurrences(Keys(rows))
    ensures forall k :: k in AddRepoRows(rows).value.entries <==> k in Keys(rows)
  {
    if rows != [] {
      var front := rows[..|rows| - 1];
      AddRepoRowsSnoc(rows);
      RepoRowsOrder(front);
      assert Keys(rows) == Keys(front) + [Key(rows[|rows| - 1])];
    }
  }

  /** Each entry holds the team and branch of the last row naming its
      repository. */
  lemma {:induction false} RepoRowsLast(rows: seq<Row>, i: nat)
    requires AddRepoRows(rows).Ok? && i < |rows| && LastRowFor(rows, i)
    ensures Key(rows[i]) in AddRepoRows(rows).value.entries
    ensures AddRepoRows(rows).value.entries[Key(rows[i])] == RepoEntry(rows[i])
  {
    var front := rows[..|rows| - 1];
    AddRepoRowsSnoc(rows);
    if i < |front| {
      assert front[i] == rows[i];
      assert LastRowFor(front, i) by {
        forall j | i < j < |front| ensures Key(front[j]) != Key(front[i]) {
          assert front[j] == rows[j];
        }
      }
      RepoRowsLast(front, i);
    }
  }

  /** One more protection row is one more pass of `SetFlags`. */
  lemma SetAllFlagsSnoc(repos: Repos, rows: seq<Row>)
    requires rows != [] && SetAllFlags(repos, rows).Ok?
    ensures SetAllFlags(repos, rows[..|rows| - 1]).Ok?
    ensures SetAllFlags(repos, rows) == SetFlags(SetAllFlags(repos, rows[..|rows| - 1]).value, rows[|rows| - 1])
  {
  }

  /** A pass touches only the entry its row names, and there only the flags. */
  lemma SetFlagsEntry(repos: Repos, row: Row, key: string)
    requires key in repos.entries && SetFlags(repos, row).Ok?
    ensures key in SetFlags(repos, row).value.entries
    ensures var e := SetFlags(repos, row).value.entries[key];
      && (Key(row) != key ==> e == repos.entries[key])
      && (Key(row) == key ==>
            e == repos.entries[key].(protection := Some(IsTrueFlag(Cell(row, ProtectionColumn))),
                                     rulesets := Some(IsTrueFlag(Cell(row, RulesetsColumn)))))
  {
  }

  /** The second loop changes only flags. */
  lemma {:induction false} ProtectionRowsKeep(repos: Repos, rows: seq<Row>, key: string)
    requires key in repos.entries && SetAllFlags(repos, rows).Ok?
    ensures key in SetAllFlags(repos, rows).value.entries
    ensures var e := SetAllFlags(repos, rows).value.entries[key];
      && e.teamSlug == repos.entries[key].teamSlug
      && e.repo == repos.entries[key].repo
      && e.branch == repos.entries[key].branch
  {
    if rows != [] {
      var front := rows[..|rows| - 1];
      SetAllFlagsSnoc(repos, rows);
      ProtectionRowsKeep(repos, front, key);
      SetFlagsEntry(SetAllFlags(repos, front).value, rows[|rows| - 1], key);
    }
  }

  /** A repository that no protection row names keeps its entry: its flags
      stay unset. */
  lemma {:induction false} ProtectionRowsUnnamed(repos: Repos, rows: seq<Row>, key: string)
    requires key in repos.entries && SetAllFlags(repos, rows).Ok?
    requires key !in Keys(rows)
    ensures key in SetAllFlags(repos, rows).value.entries
    ensures SetAllFlags(repos, rows).value.entries[key] == repos.entries[key]
  {
    if rows != [] {
      var front := rows[..|rows| - 1];
      SetAllFlagsSnoc(repos, rows);
      assert Keys(rows) == Keys(front) + [Key(rows[|rows| - 1])];
      ProtectionRowsUnnamed(repos, front, key);
      SetFlagsEntry(SetAllFlags(repos, front).value, rows[|rows| - 1], key);
    }
  }

  /** A repository that protection rows name gets both flags from the last
      of them, each true iff its cell, uppercased, is "TRUE". */
  lemma {:induction false} ProtectionRowsLast(repos: Repos, rows: seq<Row>, key: string, i: nat)
    requires key in repos.entries && SetAllFlags(repos, rows).Ok?
    requires i < |rows| && Key(rows[i]) == key && LastRowFor(rows, i)
    ensures key in SetAllFlags(repos, rows).value.entries
    ensures SetAllFlags(repos, rows).value.entries[key].protection == Some(IsTrueFlag(Cell(rows[i], ProtectionColumn)))
    ensures SetAllFlags(repos, rows).value.entries[key].rulesets == Some(IsTrueFlag(Cell(rows[i], RulesetsColumn)))
  {
    var front := rows[..|rows| - 1];
    SetAllFlagsSnoc(repos, rows);
    ProtectionRowsKeep(repos, front, key);
    SetFlagsEntry(SetAllFlags(repos, front).value, rows[|rows| - 1], key);
    if i < |front| {
      assert front[i] == rows[i];
      assert LastRowFor(front, i) by {
        forall j | i < j < |front| ensures Key(front[j]) != Key(front[i]) {
          assert front[j] == rows[j];
        }
      }
      ProtectionRowsLast(repos, front, key, i);
    }
  }

  /** Every entry of the first loop is stored under its own repository. */
  lemma {:induction false} RepoRowsKeyed(rows: seq<Row>, k: string)
    requires AddRepoRows(rows).Ok? && k in AddRepoRows(rows).value.entries
    ensures AddRepoRows(rows).value.entries[k].repo == k
  {
    AddRepoRowsSnoc(rows);
    if k != Key(rows[|rows| - 1]) {
      RepoRowsKeyed(rows[..|rows| - 1], k);
    }
  }

  /** The first loop's dict is well formed. */
  lemma AddRepoRowsValid(rows: seq<Row>)
    requires AddRepoRows(rows).Ok?
    ensures Valid(AddRepoRows(rows).value)
  {
    RepoRowsOrder(rows);
    FirstOccurrencesMeaning(Keys(rows));
  }

  /** The second loop keeps the dict well formed. */
  lemma SetAllFlagsValid(repos: Repos, rows: seq<Row>)
    requires Valid(repos) && SetAllFlags(repos, rows).Ok?
    ensures Valid(SetAllFlags(repos, rows).value)
  {
  }

  // ---------- read_repo_data ----------

  /** `list(repos.values())`. */
  function Values(repos: Repos): (items: seq<Entry>)
    requires Valid(repos)
    ensures |items| == |repos.order|
    ensures forall i :: 0 <= i < |items| ==> items[i] == repos.entries[repos.order[i]]
  {
    seq(|repos.order|, i requires 0 <= i < |repos.order| => repos.entries[repos.order[i]])
  }

  /** What `read_repo_data` returns for the two tables' rows. */
  function Joined(repoRows: seq<Row>, protectionRows: seq<Row>): Result<seq<Entry>> {
    match AddRepoRows(repoRows)
    case Err(e) => Err(e)
    case Ok(repos) =>
      AddRepoRowsValid(repoRows);
      match SetAllFlags(repos, protectionRows)
      case Err(e) => Err(e)
      case Ok(flagged) =>
        SetAllFlagsValid(repos, protectionRows);
        Ok(Values(flagged))
  }

  /** `read_repo_data`: the joined list, or the first KeyError. */
  method ReadRepoData(repoRows: seq<Row>, protectionRows: seq<Row>) returns (r: Result<seq<Entry>>)
    ensures r == Joined(repoRows, protectionRows)
  {
    var repos := LoadRepos(repoRows);
    if repos.Err? {
      return Err(repos.error);
    }
    var flagged := LoadFlags(repos.value, protectionRows);
    if flagged.Err? {
      return Err(flagged.error);
    }
    AddRepoRowsValid(repoRows);
    SetAllFlagsValid(repos.value, protectionRows);
    r := Ok(Values(flagged.value));
  }

  // ---------- process_repos ----------

  /** The four branches of the status decision. */
  datatype Action = AlreadyProtected | AlreadyRulesets | BothEnabled | EnableViaApi

  /** `item.get(..., False)`: a flag no protection row has set is false. */
  function Flag(flag: Option<bool>): (b: bool)
    ensures b <==> flag == Some(true)
  {
    flag.Some? && flag.value
  }

  /** The decision on the two flags: the PUT is issued only when neither
      branch protection nor rulesets are on. */
  function Decide(protection: bool, rulesets: bool): (a: Action)
    ensures a == EnableViaApi <==> !protection && !rulesets
    ensures a == BothEnabled <==> protection && rulesets
    ensures a == AlreadyProtected <==> protection && !rulesets
    ensures a == AlreadyRulesets <==> !protection && rulesets
  {
    if protection && !rulesets then AlreadyProtected
    else if !protection && rulesets then AlreadyRulesets
    else if protection && rulesets then BothEnabled
    else EnableViaApi
  }

  /** `enable_branch_protection`'s verdict on the PUT's status code. */
  function EnableBranchProtection(status: int): (success: bool)
    ensures success <==> status == 200 || status == 201
  {
    status in [200, 201]
  }

  const AlreadyProtectedText: string := "Branch protection already enabled"
  const AlreadyRulesetsText: string := "Rulesets already enabled"
  const BothEnabledText: string := "Branch protection & rulesets are enabled"
  const EnabledText: string := "Branch protection enabled via API"
  const FailedText: string := "Failed to enable branch protection"

  const OutputHeader: seq<string> := ["Team Slug", "Repository", "Default Branch", "Status"]

  /** The item's flags call for the PUT. */
  predicate NeedsPut(item: Entry) {
    Decide(Flag(item.protection), Flag(item.rulesets)) == EnableViaApi
  }

  /** The status written for `item`; `put(repo, branch)` is the status code
      the protection PUT for that branch gets. */
  function StatusFor(item: Entry, put: (string, string) -> int): string {
    match Decide(Flag(item.protection), Flag(item.rulesets))
    case AlreadyProtected => AlreadyProtectedText
    case AlreadyRulesets => AlreadyRulesetsText
    case BothEnabled => BothEnabledText
    case EnableViaApi =>
      if EnableBranchProtection(put(item.repo, item.branch)) then EnabledText else FailedText
  }

  /** The output row for `item`. */
  function ResultRow(item: Entry, put: (string, string) -> int): seq<string> {
    [item.teamSlug, item.repo, item.branch, StatusFor(item, put)]
  }

  /** Each status names exactly one case of the decision, and the PUT's
      outcome only shows for a repository with neither flag on. */
  lemma StatusMeaning(item: Entry, put: (string, string) -> int)
    ensures var p, r, st := Flag(item.protection), Flag(item.rulesets), StatusFor(item, put);
      && (st == AlreadyProtectedText <==> p && !r)
      && (st == AlreadyRulesetsText <==> !p && r)
      && (st == BothEnabledText <==> p && r)
      && (st == EnabledText <==> !p && !r && put(item.repo, item.branch) in {200, 201})
      && (st == FailedText <==> !p && !r && put(item.repo, item.branch) !in {200, 201})
  {
  }

  /** `process_repos`: one output row per joined repository, in order,
      under the header; `issued` lists, in order, the items whose PUT was
      sent. */
  method ProcessRepos(items: seq<Entry>, put: (string, string) -> int) returns (table: Table, ghost issued: seq<nat>)
    ensures |table| == |items| + 1 && table[0] == OutputHeader
    ensures forall i :: 0 <= i < |items| ==> table[i + 1] == ResultRow(items[i], put)
    ensures forall n: nat :: n in issued <==> n < |items| && NeedsPut(items[n])
    ensures forall a, b :: 0 <= a < b < |issued| ==> issued[a] < issued[b]
  {
    var results: Table := [];
    issued := [];
    var i := 0;
    while i < |items|
      invariant 0 <= i <= |items| && |results| == i
      invariant forall k :: 0 <= k < i ==> results[k] == ResultRow(items[k], put)
      invariant forall n: nat :: n in issued <==> n < i && NeedsPut(items[n])
      invariant forall a, b :: 0 <= a < b < |issued| ==> issued[a] < issued[b]
      invariant forall k :: 0 <= k < |issued| ==> issued[k] < i
    {
      var item := items[i];
      var protection := Flag(item.protection);
      var rulesets := Flag(item.rulesets);
      var status;
      if protection && !rulesets {
        status := AlreadyProtectedText;
      } else if !protection && rulesets {
        status := AlreadyRulesetsText;
      } else if protection && rulesets {
        status := BothEnabledText;
      } else {
        var success := EnableBranchProtection(put(item.repo, item.branch));
        issued := issued + [i];
        status := if success then EnabledText else FailedText;
      }
      results := results + [[item.teamSlug, item.repo, item.branch, status]];
      i := i + 1;
    }
    table := [OutputHeader] + results;
  }

  /** `read_repo_data` returns one entry per distinct Repository of the
      repositories table, in the order of first appearance. */
  lemma JoinedOrder(repoRows: seq<Row>, protectionRows: seq<Row>)
    requires Joined(repoRows, protectionRows).Ok?
    ensures var items := Joined(repoRows, protectionRows).value;
      && |items| == |FirstOccurrences(Keys(repoRows))|
      && forall p :: 0 <= p < |items| ==> items[p].repo == FirstOccurrences(Keys(repoRows))[p]
  {
    var repos := AddRepoRows(repoRows).value;
    RepoRowsOrder(repoRows);
    AddRepoRowsValid(repoRows);
    SetAllFlagsValid(repos, protectionRows);
    var flagged := SetAllFlags(repos, protectionRows).value;
    var items := Values(flagged);
    forall p | 0 <= p < |items|
      ensures items[p].repo == FirstOccurrences(Keys(repoRows))[p]
    {
      var k := repos.order[p];
      RepoRowsKeyed(repoRows, k);
      ProtectionRowsKeep(repos, protectionRows, k);
    }
  }
}
