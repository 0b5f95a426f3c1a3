/** The client's project tracker of StatusTracker.tsx: loading the signed-in
    client's projects (the query is a parameter) and the search filter. */
module StatusTracker {
  import opened Text
  import opened Domain
  import opened Seqs
  import opened ClientAuth
  import AdminPanel

  /** What the project query produced: an error object, data (possibly
      null), or a thrown exception. */
  datatype QueryResult = QueryError | QueryData(data: Option<seq<DbRow>>) | QueryThrew

  /** Whether `loadProjects` issues the query at all. */
  predicate HasUserId(user: Option<ClientUser>) {
    user.Some? && user.value.id != ""
  }

  /** `loadProjects`: no user or no id, an error or an exception all give the
      empty list; data gives the converted rows, in query order, and null
      data reads as no rows. */
  function LoadTracked(user: Option<ClientUser>, query: QueryResult): (r: seq<Project>)
    ensures !HasUserId(user) ==> r == []
    ensures !query.QueryData? ==> r == []
    ensures HasUserId(user) && query.QueryData? ==>
      && |r| == |query.data.GetOr([])|
      && forall i :: 0 <= i < |r| ==> r[i] == FromRow(query.data.GetOr([])[i])
    ensures forall i :: 0 <= i < |r| ==> r[i].files == []
  {
    if !HasUserId(user) then []
    else match query
      case QueryData(data) => FromRows(data.GetOr([]))
      case _ => []
  }

  /** `filteredProjects`' test: the lower-cased term in the lower-cased
      company or e-mail, or the raw term in the id, case-sensitively. */
  predicate Tracked(p: Project, term: string) {
    || Contains(Lower(p.companyName), Lower(term))
    || Contains(Lower(p.contactEmail), Lower(term))
    || Contains(p.id, term)
  }

  /** `filteredProjects`. */
  function FilterTracked(projects: seq<Project>, term: string): (r: seq<Project>)
    ensures IsSubsequence(r, projects)
    ensures forall i :: 0 <= i < |r| ==> Tracked(r[i], term)
    ensures forall i :: 0 <= i < |projects| && Tracked(projects[i], term) ==> projects[i] in r
  {
    Filter(projects, (p: Project) => Tracked(p, term))
  }

  /** Every string contains the empty string. */
  lemma ContainsEmpty(s: string)
    ensures Contains(s, "")
  {
    assert StartsWith(s, "");
  }

  /** An empty search keeps every project, in order. */
  lemma EmptySearchKeepsAll(projects: seq<Project>)
    ensures FilterTracked(projects, "") == projects
  {
    forall i | 0 <= i < |projects|
      ensures Tracked(projects[i], "")
    {
      ContainsEmpty(projects[i].id);
    }
    FilterKeepsAll(projects, (p: Project) => Tracked(p, ""));
  }

  /** Whatever the tracker's search finds, the admin dashboard's search finds
      too: it matches the id case-insensitively instead. */
  lemma TrackedImpliesAdminMatch(p: Project, term: string)
    requires Tracked(p, term)
    ensures AdminPanel.MatchesSearch(p, term)
  {
    if Contains(p.id, term) {
      LowerKeepsContains(p.id, term);
    }
  }
}
