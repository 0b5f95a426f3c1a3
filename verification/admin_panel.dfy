/** The admin dashboard of AdminPanel.tsx: loading projects from the database
    with a merge of locally saved submissions and a fallback, the search and
    status filters, the status/notes update, and the per-status counts. The
    database and local storage are parameters: the outcome of the query and
    the saved list. */
module AdminPanel {
  import opened Text
  import opened Domain
  import opened Seqs

  // ---------------------------------------------------------------- ids

  /** The ids of a project list, in order. */
  function Ids(ps: seq<Project>): (r: seq<string>)
    ensures |r| == |ps|
    ensures forall i :: 0 <= i < |ps| ==> r[i] == ps[i].id
  {
    seq(|ps|, i requires 0 <= i < |ps| => ps[i].id)
  }

  /** No id occurs twice. */
  predicate DistinctIds(ps: seq<Project>) {
    forall i, j :: 0 <= i < j < |ps| ==> ps[i].id != ps[j].id
  }

  // ---------------------------------------------------------------- loading

  /** The merge step of `loadProjects`: each saved project is appended unless
      a project with its id is already in the list (including one appended
      earlier in the same pass). */
  function Merge(all: seq<Project>, saved: seq<Project>): (r: seq<Project>)
    ensures |all| <= |r| <= |all| + |saved|
    ensures r[..|all|] == all
    decreases |saved|
  {
    if saved == [] then all
    else if saved[0].id in Ids(all) then Merge(all, saved[1..])
    else
      var r := Merge(all + [saved[0]], saved[1..]);
      assert r[..|all|] == r[..|all| + 1][..|all|];
      r
  }

  /** Appending a project appends its id. */
  lemma IdsSnoc(all: seq<Project>, p: Project)
    ensures Ids(all + [p]) == Ids(all) + [p.id]
  {
  }

  /** The ids of a prefix occur in the longer list. */
  lemma IdsOfPrefix(a: seq<Project>, b: seq<Project>, id: string)
    requires |a| <= |b| && b[..|a|] == a
    requires id in Ids(a)
    ensures id in Ids(b)
  {
    var i :| 0 <= i < |a| && Ids(a)[i] == id;
    assert Ids(b)[i] == id;
  }

  /** One step of the merge, from position `i` of the saved list. */
  lemma MergeStep(all: seq<Project>, saved: seq<Project>, i: int)
    requires 0 <= i < |saved|
    ensures Merge(all, saved[i..]) ==
      if saved[i].id in Ids(all) then Merge(all, saved[i + 1..]) else Merge(all + [saved[i]], saved[i + 1..])
  {
    assert saved[i..][1..] == saved[i + 1..];
  }

  /** After the merge every saved project's id is present. */
  lemma {:induction false} MergeCoversSaved(all: seq<Project>, saved: seq<Project>)
    ensures forall i :: 0 <= i < |saved| ==> saved[i].id in Ids(Merge(all, saved))
    decreases |saved|
  {
    if saved != [] {
      var all' := if saved[0].id in Ids(all) then all else all + [saved[0]];
      IdsSnoc(all, saved[0]);
      assert saved[0].id in Ids(all');
      MergeCoversSaved(all', saved[1..]);
      var r := Merge(all, saved);
      assert r == Merge(all', saved[1..]);
      IdsOfPrefix(all', r, saved[0].id);
      forall i | 1 <= i < |saved|
        ensures saved[i].id in Ids(r)
      {
        assert saved[i] == saved[1..][i - 1];
      }
    }
  }

  /** Every entry after the original list is a saved project whose id the
      original list did not have. */
  lemma {:induction false} MergeAppendsNew(all: seq<Project>, saved: seq<Project>)
    ensures var r := Merge(all, saved);
      forall k :: |all| <= k < |r| ==> r[k] in saved && r[k].id !in Ids(all)
    decreases |saved|
  {
    if saved != [] {
      var all' := if saved[0].id in Ids(all) then all else all + [saved[0]];
      IdsSnoc(all, saved[0]);
      MergeAppendsNew(all', saved[1..]);
      var r := Merge(all, saved);
      assert r == Merge(all', saved[1..]);
      forall k | |all| <= k < |r|
        ensures r[k] in saved && r[k].id !in Ids(all)
      {
        if k < |all'| {
          assert r[k] == all'[k] == saved[0];
        } else {
          assert r[k] in saved[1..];
          assert r[k].id !in Ids(all');
          assert forall id :: id in Ids(all) ==> id in Ids(all');
        }
      }
    }
  }

  /** The merge keeps ids distinct. */
  lemma {:induction false} MergeKeepsDistinct(all: seq<Project>, saved: seq<Project>)
    requires DistinctIds(all)
    ensures DistinctIds(Merge(all, saved))
    decreases |saved|
  {
    if saved != [] {
      if saved[0].id in Ids(all) {
        MergeKeepsDistinct(all, saved[1..]);
      } else {
        var all' := all + [saved[0]];
        assert forall i :: 0 <= i < |all| ==> all[i].id == Ids(all)[i];
        assert DistinctIds(all');
        MergeKeepsDistinct(all', saved[1..]);
      }
    }
  }

  /** A saved project whose id is new — neither in the list nor on an earlier
      saved project — is appended unchanged. */
  lemma {:induction false} MergeKeepsNew(all: seq<Project>, saved: seq<Project>, i: nat)
    requires i < |saved|
    requires saved[i].id !in Ids(all)
    requires forall j :: 0 <= j < i ==> saved[j].id != saved[i].id
    ensures saved[i] in Merge(all, saved)
    decreases |saved|
  {
    if i == 0 {
      var all' := all + [saved[0]];
      assert all'[|all|] == saved[0];
      assert Merge(all, saved) == Merge(all', saved[1..]);
      assert Merge(all', saved[1..])[..|all'|] == all';
    } else {
      var all' := if saved[0].id in Ids(all) then all else all + [saved[0]];
      IdsSnoc(all, saved[0]);
      assert saved[1..][i - 1] == saved[i];
      assert Merge(all, saved) == Merge(all', saved[1..]);
      MergeKeepsNew(all', saved[1..], i - 1);
    }
  }

  /** `allProjects.find(p => p.id === id)`, as a test. */
  method FindId(ps: seq<Project>, id: string) returns (found: bool)
    ensures found <==> id in Ids(ps)
  {
    found := false;
    var j := 0;
    while j < |ps|
      invariant 0 <= j <= |ps|
      invariant found <==> id in Ids(ps)[..j]
    {
      if ps[j].id == id {
        found := true;
      }
      assert Ids(ps)[..j + 1] == Ids(ps)[..j] + [ps[j].id];
      j := j + 1;
    }
    assert Ids(ps)[..j] == Ids(ps);
  }

  /** The `forEach` loop of `loadProjects`. */
  method MergeSaved(converted: seq<Project>, saved: seq<Project>) returns (allProjects: seq<Project>)
    ensures allProjects == Merge(converted, saved)
  {
    allProjects := converted;
    var i := 0;
    while i < |saved|
      invariant 0 <= i <= |saved|
      invariant Merge(allProjects, saved[i..]) == Merge(converted, saved)
      decreases |saved| - i
    {
      MergeStep(allProjects, saved, i);
      var found := FindId(allProjects, saved[i].id);
      if !found {
        allProjects := allProjects + [saved[i]];
      }
      i := i + 1;
    }
    assert saved[i..] == [];
  }

  /** What the project query produced. */
  datatype LoadOutcome =
    | Rows(rows: seq<DbRow>)   // an array of rows
    | NotAnArray               // a value that is not an array
    | Failed                   // the query threw

  /** `loadProjects`: converted rows followed by the saved projects whose ids
      are new; otherwise the mock projects followed by all saved ones. An
      absent saved list reads as empty. */
  function LoadProjects(outcome: LoadOutcome, saved: Option<seq<Project>>, mock: seq<Project>): (r: seq<Project>)
    ensures outcome.Rows? ==> |r| >= |outcome.rows| && forall k :: 0 <= k < |outcome.rows| ==> r[k] == FromRow(outcome.rows[k])
    ensures !outcome.Rows? ==> |r| == |mock| + |saved.GetOr([])| && r[..|mock|] == mock && r[|mock|..] == saved.GetOr([])
    ensures forall i :: 0 <= i < |saved.GetOr([])| ==> saved.GetOr([])[i].id in Ids(r)
  {
    var savedProjects := saved.GetOr([]);
    match outcome
    case Rows(rows) =>
      MergeCoversSaved(FromRows(rows), savedProjects);
      Merge(FromRows(rows), savedProjects)
    case _ =>
      var r := mock + savedProjects;
      assert forall i :: 0 <= i < |savedProjects| ==> r[|mock| + i] == savedProjects[i];
      r
  }

  /** With distinct row ids the loaded list has distinct ids too: a saved
      submission already in the database is not shown twice. */
  lemma LoadedIdsDistinct(rows: seq<DbRow>, saved: Option<seq<Project>>, mock: seq<Project>)
    requires forall i, j :: 0 <= i < j < |rows| ==> rows[i].id != rows[j].id
    ensures DistinctIds(LoadProjects(Rows(rows), saved, mock))
  {
    MergeKeepsDistinct(FromRows(rows), saved.GetOr([]));
  }

  /** A saved project missing from the database rows is shown unchanged,
      unless an earlier saved project has its id. */
  lemma SavedOnlyProjectShown(rows: seq<DbRow>, saved: seq<Project>, mock: seq<Project>, i: nat)
    requires i < |saved|
    requires forall k :: 0 <= k < |rows| ==> rows[k].id != saved[i].id
    requires forall j :: 0 <= j < i ==> saved[j].id != saved[i].id
    ensures saved[i] in LoadProjects(Rows(rows), Some(saved), mock)
  {
    MergeKeepsNew(FromRows(rows), saved, i);
  }

  // ---------------------------------------------------------------- filtering

  /** The search box: the lower-cased term occurs in the lower-cased company,
      e-mail, id or project type. */
  predicate MatchesSearch(p: Project, term: string) {
    var t := Lower(term);
    || Contains(Lower(p.companyName), t)
    || Contains(Lower(p.contactEmail), t)
    || Contains(Lower(p.id), t)
    || Contains(Lower(p.projectType), t)
  }

  /** The status select: "all", or the exact stored status. */
  predicate MatchesStatus(p: Project, statusFilter: string) {
    statusFilter == "all" || p.status == statusFilter
  }

  /** The filter effect: the search filter when the term is non-empty, then
      the status filter unless it is "all". */
  function FilterProjects(projects: seq<Project>, term: string, statusFilter: string): (r: seq<Project>)
    ensures forall i :: 0 <= i < |r| ==> r[i] in projects
    ensures forall i :: 0 <= i < |r| ==> (term == "" || MatchesSearch(r[i], term)) && MatchesStatus(r[i], statusFilter)
    ensures forall i :: 0 <= i < |projects| && (term == "" || MatchesSearch(projects[i], term)) && MatchesStatus(projects[i], statusFilter)
              ==> projects[i] in r
  {
    var bySearch := if term != "" then Filter(projects, (p: Project) => MatchesSearch(p, term)) else projects;
    if statusFilter != "all" then Filter(bySearch, (p: Project) => p.status == statusFilter) else bySearch
  }

  /** Both filters, as one filter by the conjunction of the two tests. */
  predicate Shown(p: Project, term: string, statusFilter: string) {
    (term == "" || MatchesSearch(p, term)) && MatchesStatus(p, statusFilter)
  }

  /** The two filters amount to one filter by `Shown`, so the shown projects
      keep the list's order. */
  lemma FilterProjectsIsOneFilter(projects: seq<Project>, term: string, statusFilter: string)
    ensures FilterProjects(projects, term, statusFilter) == Filter(projects, (p: Project) => Shown(p, term, statusFilter))
    ensures IsSubsequence(FilterProjects(projects, term, statusFilter), projects)
  {
    var search := (p: Project) => term == "" || MatchesSearch(p, term);
    var status := (p: Project) => MatchesStatus(p, statusFilter);
    var shown := (p: Project) => Shown(p, term, statusFilter);
    if term != "" {
      FilterExt(projects, (p: Project) => MatchesSearch(p, term), search);
    } else {
      FilterKeepsAll(projects, search);
    }
    var bySearch := Filter(projects, search);
    if statusFilter != "all" {
      FilterExt(bySearch, (p: Project) => p.status == statusFilter, status);
    } else {
      FilterKeepsAll(bySearch, status);
    }
    FilterTwice(projects, search, status, shown);
  }

  /** Filters by two predicates that agree everywhere are equal. */
  lemma {:induction false} FilterExt(s: seq<Project>, p: Project -> bool, q: Project -> bool)
    requires forall x :: p(x) == q(x)
    ensures Filter(s, p) == Filter(s, q)
    decreases |s|
  {
    if s != [] {
      FilterExt(s[1..], p, q);
    }
  }

  /** The search ignores the case of the term. */
  lemma SearchIgnoresCase(p: Project, term: string)
    ensures MatchesSearch(p, term) == MatchesSearch(p, Lower(term))
  {
    LowerIdempotent(term);
  }

  /** With no term and "all" selected every project is shown, in order. */
  lemma NoFilterShowsAll(projects: seq<Project>)
    ensures FilterProjects(projects, "", "all") == projects
  {
  }

  // ---------------------------------------------------------------- status update

  /** What the database update returned. */
  datatype UpdateOutcome =
    | UpdatedRow   // the updated row
    | NoRow        // null
    | UpdateThrew  // the call threw

  /** The project with the edited status and notes, stamped `now`. */
  function Edited(p: Project, status: string, notes: string, now: int): (q: Project)
    ensures q.id == p.id && q.status == status && q.adminNotes == Some(notes) && q.lastUpdated == now
    ensures q.(status := p.status, adminNotes := p.adminNotes, lastUpdated := p.lastUpdated) == p
  {
    p.(status := status, adminNotes := Some(notes), lastUpdated := now)
  }

  /** The `prevProjects.map` of `handleStatusUpdate`: every project with the
      given id is edited, every other one kept. */
  function ApplyEdit(projects: seq<Project>, id: string, status: string, notes: string, now: int): (r: seq<Project>)
    ensures |r| == |projects|
    ensures forall i :: 0 <= i < |projects| && projects[i].id == id ==> r[i] == Edited(projects[i], status, notes, now)
    ensures forall i :: 0 <= i < |projects| && projects[i].id != id ==> r[i] == projects[i]
  {
    seq(|projects|, i requires 0 <= i < |projects| =>
      if projects[i].id == id then Edited(projects[i], status, notes, now) else projects[i])
  }

  /** The dashboard state `handleStatusUpdate` reads and writes. */
  datatype Dashboard = Dashboard(
    projects: seq<Project>,
    selected: Option<Project>,
    isEditing: bool,
    editingStatus: string,
    adminNotes: string)

  /** `handleStatusUpdate`: with no selected project nothing happens; on an
      updated row the selection and the list carry the edit; on a null row or
      a thrown error nothing but the edit mode changes. */
  function HandleStatusUpdate(d: Dashboard, outcome: UpdateOutcome, now: int): (r: Dashboard)
    ensures d.selected.None? ==> r == d
    ensures d.selected.Some? ==> !r.isEditing
    ensures d.selected.Some? && outcome.UpdatedRow? ==>
      && r.selected == Some(Edited(d.selected.value, d.editingStatus, d.adminNotes, now))
      && r.projects == ApplyEdit(d.projects, d.selected.value.id, d.editingStatus, d.adminNotes, now)
    ensures d.selected.Some? && !outcome.UpdatedRow? ==> r == d.(isEditing := false)
    ensures r.editingStatus == d.editingStatus && r.adminNotes == d.adminNotes
  {
    match d.selected
    case None => d
    case Some(sel) =>
      if outcome.UpdatedRow? then
        d.(selected := Some(Edited(sel, d.editingStatus, d.adminNotes, now)),
           projects := ApplyEdit(d.projects, sel.id, d.editingStatus, d.adminNotes, now),
           isEditing := false)
      else d.(isEditing := false)
  }

  /** Editing keeps the ids, and so the order and the distinctness, of the
      list. */
  lemma ApplyEditKeepsIds(projects: seq<Project>, id: string, status: string, notes: string, now: int)
    ensures Ids(ApplyEdit(projects, id, status, notes, now)) == Ids(projects)
  {
  }

  /** Saving the same edit twice is the same as saving it once. */
  lemma ApplyEditIdempotent(projects: seq<Project>, id: string, status: string, notes: string, now: int)
    ensures var once := ApplyEdit(projects, id, status, notes, now);
      ApplyEdit(once, id, status, notes, now) == once
  {
  }

  /** An id not in the list leaves the list unchanged. */
  lemma ApplyEditAbsentId(projects: seq<Project>, id: string, status: string, notes: string, now: int)
    requires id !in Ids(projects)
    ensures ApplyEdit(projects, id, status, notes, now) == projects
  {
  }

  // ---------------------------------------------------------------- statistics

  /** How many projects have exactly the stored status `status`. */
  function StatusCount(projects: seq<Project>, status: string): (n: nat)
    ensures n <= |projects|
  {
    |Filter(projects, (p: Project) => p.status == status)|
  }

  /** `getStatusStats`: one count per status, in the order of
      `projectStatuses`. */
  function StatusStats(projects: seq<Project>): (r: seq<(ProjectStatus, nat)>)
    ensures |r| == |ProjectStatuses|
    ensures forall i :: 0 <= i < |r| ==> r[i].0 == ProjectStatuses[i] && r[i].1 == StatusCount(projects, StatusLabel(r[i].0))
  {
    seq(|ProjectStatuses|, i requires 0 <= i < |ProjectStatuses| =>
      (ProjectStatuses[i], StatusCount(projects, StatusLabel(ProjectStatuses[i]))))
  }

  /** The number of projects whose stored status is one of the five. */
  function KnownStatusCount(projects: seq<Project>): nat
    decreases |projects|
  {
    if projects == [] then 0
    else (if ParseStatus(projects[0].status).Some? then 1 else 0) + KnownStatusCount(projects[1..])
  }

  /** The sum of the five counts. */
  function StatsTotal(stats: seq<(ProjectStatus, nat)>): nat
    decreases |stats|
  {
    if stats == [] then 0 else stats[0].1 + StatsTotal(stats[1..])
  }

  /** Sum of the five per-status counts, unfolded. */
  function FiveCounts(projects: seq<Project>): nat {
    StatusCount(projects, StatusLabel(Submitted)) + StatusCount(projects, StatusLabel(UnderReview))
      + StatusCount(projects, StatusLabel(InProgress)) + StatusCount(projects, StatusLabel(PendingClientFeedback))
      + StatusCount(projects, StatusLabel(Completed))
  }

  /** One project more adds one to its own status' count only. */
  lemma StatusCountStep(projects: seq<Project>, status: string)
    requires projects != []
    ensures StatusCount(projects, status) == (if projects[0].status == status then 1 else 0) + StatusCount(projects[1..], status)
  {
  }

  /** 1 when the text is the label, else 0. */
  function Hit(text: string, s: ProjectStatus): nat {
    if text == StatusLabel(s) then 1 else 0
  }

  /** A stored status matches exactly one label when it is one of the five,
      and none otherwise. */
  lemma OneLabelMatches(text: string)
    ensures Hit(text, Submitted) + Hit(text, UnderReview) + Hit(text, InProgress)
      + Hit(text, PendingClientFeedback) + Hit(text, Completed)
      == if ParseStatus(text).Some? then 1 else 0
  {
    var r := ParseStatus(text);
    if r.Some? {
      assert StatusLabel(r.value) == text;
      assert forall s: ProjectStatus :: StatusLabel(s) == text ==> s == r.value;
    } else {
      assert forall s: ProjectStatus :: StatusLabel(s) != text;
    }
  }

  /** Each project is counted under at most one status, and exactly once
      when its status is one of the five. */
  lemma {:induction false} FiveCountsAreKnown(projects: seq<Project>)
    ensures FiveCounts(projects) == KnownStatusCount(projects)
    decreases |projects|
  {
    if projects != [] {
      var x := projects[0].status;
      StatusCountStep(projects, StatusLabel(Submitted));
      StatusCountStep(projects, StatusLabel(UnderReview));
      StatusCountStep(projects, StatusLabel(InProgress));
      StatusCountStep(projects, StatusLabel(PendingClientFeedback));
      StatusCountStep(projects, StatusLabel(Completed));
      OneLabelMatches(x);
      FiveCountsAreKnown(projects[1..]);
    }
  }

  /** The sum of a five-entry table, unfolded. */
  lemma TotalOfFive(stats: seq<(ProjectStatus, nat)>)
    requires |stats| == 5
    ensures StatsTotal(stats) == stats[0].1 + stats[1].1 + stats[2].1 + stats[3].1 + stats[4].1
  {
    assert stats[1..][1..] == stats[2..];
    assert stats[2..][1..] == stats[3..];
    assert stats[3..][1..] == stats[4..];
    assert stats[4..][1..] == [];
    assert StatsTotal(stats[4..]) == stats[4].1;
    assert StatsTotal(stats[3..]) == stats[3].1 + StatsTotal(stats[4..]);
    assert StatsTotal(stats[2..]) == stats[2].1 + StatsTotal(stats[3..]);
    assert StatsTotal(stats[1..]) == stats[1].1 + StatsTotal(stats[2..]);
  }

  /** The counts on the dashboard add up to the number of projects with a
      known status; a project with any other stored status is in none. */
  lemma StatsAddUp(projects: seq<Project>)
    ensures StatsTotal(StatusStats(projects)) == KnownStatusCount(projects)
  {
    var s := StatusStats(projects);
    TotalOfFive(s);
    assert s[0].1 + s[1].1 + s[2].1 + s[3].1 + s[4].1 == FiveCounts(projects);
    FiveCountsAreKnown(projects);
  }
}
