/** scripts/fetch_labels.py: list an organization's repositories, list each
    repository's labels, and write the set of distinct stripped label names
    in ascending order under a one-column header. */
module Labels {
  import opened Api
  import opened Text
  import opened Pagination

  const NameKey: string := "name"
  const LabelHeader: seq<string> := ["Label Name"]

  /** `get_all_repos`: every page before the first empty one, or the error
      of the first non-200 page; `requested` records the page numbers asked
      for, in order. */
  method GetAllRepos(pages: seq<Response<Repo>>) returns (r: Result<seq<Repo>>, ghost requested: seq<int>)
    ensures r == Gathered(pages)
    ensures r.Ok? <==> !Failed(pages)
    ensures r.Ok? ==> r.value == Items(pages)
    ensures requested == Upto(Stop(pages) + 1)
  {
    r, requested := FetchAll(pages);
    PoliciesAgree(pages);
  }

  // ---------- get_labels ----------

  /** `[label["name"] for label in data]`: a KeyError when some label has no
      name. */
  function Names(labels: seq<Label>): Result<seq<string>> {
    if labels == [] then Ok([])
    else
      var last := labels[|labels| - 1];
      match Names(labels[..|labels| - 1])
      case Err(e) => Err(e)
      case Ok(names) => if last.name.None? then Err(MissingKey(NameKey)) else Ok(names + [last.name.value])
  }

  /** The projection fails iff some label has no name; otherwise it lists
      each label's name in order. */
  lemma {:induction false} NamesMeaning(labels: seq<Label>)
    ensures Names(labels).Err? <==> exists i :: 0 <= i < |labels| && labels[i].name.None?
    ensures Names(labels).Err? ==> Names(labels).error == MissingKey(NameKey)
    ensures Names(labels).Ok? ==>
      && |Names(labels).value| == |labels|
      && forall i :: 0 <= i < |labels| ==> labels[i].name == Some(Names(labels).value[i])
  {
    if labels != [] {
      var front := labels[..|labels| - 1];
      NamesMeaning(front);
      assert forall i :: 0 <= i < |front| ==> front[i] == labels[i];
    }
  }

  /** Projecting two lists one after the other projects their concatenation. */
  lemma {:induction false} NamesAppend(a: seq<Label>, b: seq<Label>)
    ensures Names(a + b) ==
      if Names(a).Err? || Names(b).Err? then Err(MissingKey(NameKey))
      else Ok(Names(a).value + Names(b).value)
    decreases |b|
  {
    NamesMeaning(a);
    NamesMeaning(b);
    if b == [] {
      assert a + b == a;
      assert Names(a).Ok? ==> Names(a).value + [] == Names(a).value;
    } else {
      var b' := b[..|b| - 1];
      assert (a + b)[..|a + b| - 1] == a + b';
      assert (a + b)[|a + b| - 1] == b[|b| - 1];
      NamesMeaning(b');
      NamesAppend(a, b');
      if Names(a).Ok? && Names(b').Ok? && b[|b| - 1].name.Some? {
        assert Names(a + b) == Ok(Names(a).value + Names(b').value + [b[|b| - 1].name.value]);
        assert Names(b) == Ok(Names(b').value + [b[|b| - 1].name.value]);
        assert Names(a).value + Names(b').value + [b[|b| - 1].name.value]
            == Names(a).value + (Names(b').value + [b[|b| - 1].name.value]);
      }
    }
  }

  /** What `get_labels` returns for a repository whose label listing is
      `pages`: the names on the accepted pages. */
  function LabelNames(pages: seq<Response<Label>>): Result<seq<string>> {
    Names(Items(pages))
  }

  /** `get_labels` raises only on a nameless label on an accepted page; a
      non-200 page ends the listing quietly with the names of the pages
      before it. */
  lemma LabelNamesMeaning(pages: seq<Response<Label>>)
    ensures LabelNames(pages).Err? <==>
      exists i :: 0 <= i < |Items(pages)| && Items(pages)[i].name.None?
    ensures LabelNames(pages).Ok? ==>
      && |LabelNames(pages).value| == |Items(pages)|
      && forall i :: 0 <= i < |Items(pages)| ==> Items(pages)[i].name == Some(LabelNames(pages).value[i])
  {
    NamesMeaning(Items(pages));
  }

  /** A non-200 page `k` after `k` accepted pages gives the names of those
      pages, not an error of its own. */
  lemma StopsQuietly(pages: seq<Response<Label>>, k: nat)
    requires k < |pages| && pages[k].status != 200 && AllContinue(pages[..k])
    ensures LabelNames(pages) == Names(Concat(pages[..k]))
  {
    ItemsStopAt(pages, k);
  }

  /** A nameless label on an accepted page makes the whole listing raise. */
  lemma {:induction false} NamesPrefixErr(pages: seq<Response<Label>>, n: nat)
    requires n <= Stop(pages) && Names(Concat(pages[..n])).Err?
    ensures LabelNames(pages).Err?
  {
    var k := Stop(pages);
    assert pages[..k] == pages[..n] + pages[n..k];
    ConcatAppend(pages[..n], pages[n..k]);
    NamesAppend(Concat(pages[..n]), Concat(pages[n..k]));
  }

  /** `get_labels`: the page loop, which breaks on the first non-200 or empty
      page and projects each page's names. `requested` records the page
      numbers asked for, in order: pages 1 .. Stop+1, or fewer when a
      nameless label raises on an accepted page. */
  method GetLabels(pages: seq<Response<Label>>) returns (r: Result<seq<string>>, ghost requested: seq<int>)
    ensures r == LabelNames(pages)
    ensures r.Ok? ==> requested == Upto(Stop(pages) + 1)
    ensures r.Err? ==> 1 <= |requested| <= Stop(pages) && requested == Upto(|requested|)
    ensures r.Err? ==>
      && Names(pages[|requested| - 1].body).Err?
      && Names(Concat(pages[..|requested| - 1])).Ok?
  {
    var labels: seq<string> := [];
    var page := 1;
    requested := [];
    while true
      invariant 1 <= page <= Stop(pages) + 1
      invariant Names(Concat(pages[..page - 1])) == Ok(labels)
      invariant requested == Upto(page - 1)
      decreases |pages| + 1 - page
    {
      var resp := PageAt(pages, page);
      requested := requested + [page];
      if resp.status != 200 {
        break;
      }
      var data := resp.body;
      if data == [] {
        break;
      }
      ConcatSnoc(pages, page - 1);
      NamesAppend(Concat(pages[..page - 1]), data);
      var names := Names(data);
      if names.Err? {
        NamesPrefixErr(pages, page);
        NamesMeaning(Items(pages));
        return Err(MissingKey(NameKey)), requested;
      }
      labels := labels + names.value;
      page := page + 1;
    }
    assert page - 1 == Stop(pages);
    r := Ok(labels);
  }

  /** `fetch_labels_threadsafe`: the listing's names, or none when it
      raises. */
  function FetchLabelsThreadsafe(pages: seq<Response<Label>>): (labels: seq<string>)
    ensures LabelNames(pages).Err? ==> labels == []
    ensures LabelNames(pages).Ok? ==> labels == LabelNames(pages).value
  {
    match LabelNames(pages)
    case Ok(names) => names
    case Err(_) => []
  }

  /** Every name it returns is the name of a label on an accepted page. */
  lemma ThreadsafeNamesFromPages(pages: seq<Response<Label>>, x: string)
    requires x in FetchLabelsThreadsafe(pages)
    ensures exists i :: 0 <= i < |Items(pages)| && Items(pages)[i].name == Some(x)
  {
    LabelNamesMeaning(pages);
    var names := LabelNames(pages).value;
    var j :| 0 <= j < |names| && names[j] == x;
    assert Items(pages)[j].name == Some(x);
  }

  // ---------- the union of labels ----------

  /** `label.strip() for label in repo_labels`, as a set. */
  function Stripped(labels: seq<string>): set<string> {
    set l | l in labels :: Strip(l)
  }

  /** `unique_labels` after updating it with each repository's labels. */
  function Union(perRepo: seq<seq<string>>): set<string> {
    if perRepo == [] then {} else Union(perRepo[..|perRepo| - 1]) + Stripped(perRepo[|perRepo| - 1])
  }

  /** A name is in the union iff it is the strip of a label of some
      repository. */
  lemma {:induction false} UnionMembers(perRepo: seq<seq<string>>, x: string)
    ensures x in Union(perRepo) <==> exists labels :: labels in perRepo && x in Stripped(labels)
  {
    if perRepo != [] {
      var front := perRepo[..|perRepo| - 1];
      var last := perRepo[|perRepo| - 1];
      UnionMembers(front, x);
      assert perRepo == front + [last];
      if exists labels :: labels in perRepo && x in Stripped(labels) {
        var labels :| labels in perRepo && x in Stripped(labels);
        assert labels in front || labels == last;
      }
    }
  }

  /** The union does not depend on the order the repositories complete in. */
  lemma UnionOrderFree(a: seq<seq<string>>, b: seq<seq<string>>)
    requires multiset(a) == multiset(b)
    ensures Union(a) == Union(b)
  {
    forall x ensures x in Union(a) <==> x in Union(b) {
      UnionMembers(a, x);
      UnionMembers(b, x);
      assert forall labels :: labels in a <==> labels in multiset(a);
      assert forall labels :: labels in b <==> labels in multiset(b);
    }
  }

  /** Every name in the union has been stripped. */
  lemma UnionStripped(perRepo: seq<seq<string>>, x: string)
    requires x in Union(perRepo)
    ensures IsStripped(x)
  {
    UnionMembers(perRepo, x);
    var labels :| labels in perRepo && x in Stripped(labels);
    var l :| l in labels && Strip(l) == x;
    StripStripped(l);
  }

  /** The update loop of `main`, taking the repositories in the order their
      label listings complete. */
  method CollectUniqueLabels(perRepo: seq<seq<string>>) returns (unique: set<string>)
    ensures unique == Union(perRepo)
  {
    unique := {};
    var i := 0;
    while i < |perRepo|
      invariant 0 <= i <= |perRepo|
      invariant unique == Union(perRepo[..i])
    {
      assert perRepo[..i + 1][..i] == perRepo[..i];
      unique := unique + (set l | l in perRepo[i] :: Strip(l));
      i := i + 1;
    }
    assert perRepo[..i] == perRepo;
  }

  // ---------- sorted(unique_labels) ----------

  /** Strictly ascending in Python's string order. */
  predicate Ascending(s: seq<string>) {
    forall i, j :: 0 <= i < j < |s| ==> Below(s[i], s[j])
  }

  /** The least element of a non-empty set of names. */
  method Least(s: set<string>) returns (m: string)
    requires s != {}
    ensures m in s
    ensures forall x :: x in s && x != m ==> Below(m, x)
  {
    m :| m in s;
    var rest := s - {m};
    while rest != {}
      invariant m in s && rest <= s
      invariant forall x :: x in s && x !in rest && x != m ==> Below(m, x)
      decreases |rest|
    {
      var x :| x in rest;
      if x != m && Below(x, m) {
        forall y | y in s && y !in rest && y != x
          ensures Below(x, y)
        {
          if y != m {
            BelowTransitive(x, m, y);
          }
        }
        m := x;
      } else if x != m {
        BelowTotal(x, m);
      }
      rest := rest - {x};
    }
  }

  /** `sorted(unique_labels)`: each name once, ascending. */
  method SortLabels(s: set<string>) returns (out: seq<string>)
    ensures Ascending(out)
    ensures forall x :: x in out <==> x in s
    ensures |out| == |s|
  {
    out := [];
    var rest := s;
    while rest != {}
      invariant rest <= s
      invariant Ascending(out)
      invariant forall x :: x in out <==> x in s && x !in rest
      invariant forall i, y :: 0 <= i < |out| && y in rest ==> Below(out[i], y)
      invariant |out| + |rest| == |s|
      decreases |rest|
    {
      var m := Least(rest);
      forall i | 0 <= i < |out| ensures out[i] != m {
        BelowIrreflexive(m);
      }
      out := out + [m];
      rest := rest - {m};
    }
  }

  /** Only one ascending list has a given set of elements: the sorted
      output is determined by the set of labels. */
  lemma {:induction false} AscendingUnique(a: seq<string>, b: seq<string>)
    requires Ascending(a) && Ascending(b)
    requires forall x :: x in a <==> x in b
    ensures a == b
  {
    if a != [] {
      assert a[0] in b;
    }
    if b != [] {
      assert b[0] in a;
    }
    if a != [] && b != [] {
      var k :| 0 <= k < |b| && b[k] == a[0];
      var m :| 0 <= m < |a| && a[m] == b[0];
      assert b[0] == a[0] by {
        if b[0] != a[0] {
          assert k > 0 && m > 0;
          assert Below(b[0], a[0]) && Below(a[0], b[0]);
          BelowAsymmetric(b[0], a[0]);
        }
      }
      forall x ensures x in a[1..] <==> x in b[1..] {
        if x in a[1..] {
          var i :| 1 <= i < |a| && a[i] == x;
          BelowIrreflexive(a[0]);
          assert x in a;
          var j :| 0 <= j < |b| && b[j] == x;
          assert j != 0;
          assert b[1..][j - 1] == x;
        }
        if x in b[1..] {
          var j :| 1 <= j < |b| && b[j] == x;
          BelowIrreflexive(b[0]);
          assert x in b;
          var i :| 0 <= i < |a| && a[i] == x;
          assert i != 0;
          assert a[1..][i - 1] == x;
        }
      }
      AscendingUnique(a[1..], b[1..]);
    }
  }

  // ---------- main ----------

  /** One `[label]` row per name. */
  function Column(labels: seq<string>): (rows: Table)
    ensures |rows| == |labels|
    ensures forall i :: 0 <= i < |labels| ==> rows[i] == [labels[i]]
  {
    if labels == [] then [] else Column(labels[..|labels| - 1]) + [[labels[|labels| - 1]]]
  }

  /** Each repository's names, as the futures return them. */
  function PerRepoLabels(repos: seq<Repo>, labelPages: string -> seq<Response<Label>>): seq<seq<string>> {
    seq(|repos|, i requires 0 <= i < |repos| => FetchLabelsThreadsafe(labelPages(repos[i].fullName)))
  }

  /** The distinct stripped names over the organization's repositories;
      `labelPages(full_name)` is that repository's label listing. */
  function UniqueLabels(repos: seq<Repo>, labelPages: string -> seq<Response<Label>>): set<string> {
    Union(PerRepoLabels(repos, labelPages))
  }

  /** `main`: the error of `get_all_repos` ends the script before anything
      is written; otherwise the file is the header and then every distinct
      stripped label, once each, ascending. `labels` is the sorted column. */
  method RunFetchLabels(repoPages: seq<Response<Repo>>, labelPages: string -> seq<Response<Label>>)
    returns (r: Result<Table>, ghost labels: seq<string>)
    ensures r.Err? <==> Failed(repoPages)
    ensures r.Ok? ==>
      && r.value == [LabelHeader] + Column(labels)
      && Ascending(labels)
      && (forall x :: x in labels <==> x in UniqueLabels(Items(repoPages), labelPages))
  {
    labels := [];
    ghost var requested;
    var repos;
    repos, requested := GetAllRepos(repoPages);
    if repos.Err? {
      return Err(repos.error), labels;
    }
    var perRepo := seq(|repos.value|, i requires 0 <= i < |repos.value| =>
                         FetchLabelsThreadsafe(labelPages(repos.value[i].fullName)));
    var unique := CollectUniqueLabels(perRepo);
    var sorted := SortLabels(unique);
    var rows: Table := [LabelHeader];
    var i := 0;
    while i < |sorted|
      invariant 0 <= i <= |sorted|
      invariant rows == [LabelHeader] + Column(sorted[..i])
    {
      assert sorted[..i + 1][..i] == sorted[..i];
      rows := rows + [[sorted[i]]];
      i := i + 1;
    }
    assert sorted[..i] == sorted;
    r, labels := Ok(rows), sorted;
  }
}
