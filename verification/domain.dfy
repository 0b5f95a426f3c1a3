/** The portal's records and enumerations (src/types/index.ts, the option
    lists of src/data/mockData.ts) and the database-row conversion shared by
    the admin dashboard and the client tracker. */
module Domain {

  datatype Option<T> = None | Some(value: T) {
    function GetOr(default: T): T {
      match this
      case Some(v) => v
      case None => default
    }
  }

  // ---------------------------------------------------------------- enumerations

  datatype ProjectStatus = Submitted | UnderReview | InProgress | PendingClientFeedback | Completed

  function StatusLabel(s: ProjectStatus): string {
    match s
    case Submitted => "Submitted"
    case UnderReview => "Under Review"
    case InProgress => "In Progress"
    case PendingClientFeedback => "Pending Client Feedback"
    case Completed => "Completed"
  }

  /** `projectStatuses`, the order the dashboard lists them in. */
  const ProjectStatuses: seq<ProjectStatus> :=
    [Submitted, UnderReview, InProgress, PendingClientFeedback, Completed]

  /** Reads a stored status string back as a status, if it is one of the five. */
  function ParseStatus(text: string): (r: Option<ProjectStatus>)
    ensures r.Some? ==> StatusLabel(r.value) == text
    ensures forall s: ProjectStatus :: StatusLabel(s) == text ==> r == Some(s)
  {
    if text == "Submitted" then Some(Submitted)
    else if text == "Under Review" then Some(UnderReview)
    else if text == "In Progress" then Some(InProgress)
    else if text == "Pending Client Feedback" then Some(PendingClientFeedback)
    else if text == "Completed" then Some(Completed)
    else None
  }

  datatype ProjectType = WebsiteDevelopment | DataIntegration | SustainabilityDashboard | CustomSolution

  function ProjectTypeLabel(t: ProjectType): string {
    match t
    case WebsiteDevelopment => "Website Development"
    case DataIntegration => "Data Integration"
    case SustainabilityDashboard => "Sustainability Dashboard"
    case CustomSolution => "Custom Solution"
  }

  /** `projectTypes`, the options of the project-type select. */
  const ProjectTypes: seq<ProjectType> :=
    [WebsiteDevelopment, DataIntegration, SustainabilityDashboard, CustomSolution]

  datatype Currency = PHP | USD

  /** `budgetRanges`: the peso budget bands. */
  const BudgetRanges: seq<string> := [
    "Under ₱50,000",
    "₱50,000 - ₱150,000",
    "₱150,000 - ₱300,000",
    "₱300,000 - ₱500,000",
    "Over ₱500,000"
  ]

  // ---------------------------------------------------------------- records

  /** A file held in a draft; `uploadedAt` is a millisecond timestamp. */
  datatype Attachment = Attachment(
    id: string,
    name: string,
    size: int,
    mimeType: string,
    content: string,
    uploadedAt: int)

  /** The submission form. `projectType` and `budgetRange` hold the selected
      option's label, or "" when nothing is selected. */
  datatype FormData = FormData(
    companyName: string,
    contactEmail: string,
    contactPhone: string,
    projectType: string,
    description: string,
    timeline: string,
    budgetRange: string,
    files: seq<Attachment>)

  const EmptyForm: FormData := FormData("", "", "", "", "", "", "", [])

  /** The keys of `FormErrors`. */
  datatype Field = CompanyName | ContactEmail | ContactPhone | ProjectType | Description | Timeline | BudgetRange | Files

  /** A project as the dashboards show it. `status` is the stored string,
      which a database row may set to anything; timestamps are milliseconds. */
  datatype Project = Project(
    id: string,
    companyName: string,
    contactEmail: string,
    contactPhone: Option<string>,
    projectType: string,
    description: string,
    timeline: string,
    budgetRange: string,
    files: seq<Attachment>,
    status: string,
    submittedAt: int,
    lastUpdated: int,
    adminNotes: Option<string>)

  /** A row of the `dph_projects` table; nullable columns are options. */
  datatype DbRow = DbRow(
    id: string,
    companyName: string,
    contactEmail: string,
    contactPhone: Option<string>,
    projectType: string,
    description: string,
    timeline: string,
    budgetRange: string,
    status: string,
    adminNotes: Option<string>,
    createdAt: int,
    updatedAt: int)

  /** The `x || undefined` idiom: null and the empty string both become absent. */
  function Truthy(x: Option<string>): (r: Option<string>)
    ensures r.Some? <==> x.Some? && x.value != ""
    ensures r.Some? ==> r == x
  {
    if x.Some? && x.value != "" then x else None
  }

  /** Converts a database row to a project: columns copied, no files, and a
      null or empty phone or note read as absent. */
  function FromRow(row: DbRow): (p: Project)
    ensures p.id == row.id && p.companyName == row.companyName && p.contactEmail == row.contactEmail
    ensures p.projectType == row.projectType && p.description == row.description && p.timeline == row.timeline
    ensures p.budgetRange == row.budgetRange && p.status == row.status
    ensures p.submittedAt == row.createdAt && p.lastUpdated == row.updatedAt
    ensures p.files == []
    ensures p.contactPhone.Some? <==> row.contactPhone.Some? && row.contactPhone.value != ""
    ensures p.adminNotes.Some? <==> row.adminNotes.Some? && row.adminNotes.value != ""
    ensures p.contactPhone.Some? ==> p.contactPhone == row.contactPhone
    ensures p.adminNotes.Some? ==> p.adminNotes == row.adminNotes
  {
    Project(row.id, row.companyName, row.contactEmail, Truthy(row.contactPhone), row.projectType,
            row.description, row.timeline, row.budgetRange, [], row.status,
            row.createdAt, row.updatedAt, Truthy(row.adminNotes))
  }

  /** `rows.map(FromRow)`. */
  function FromRows(rows: seq<DbRow>): (ps: seq<Project>)
    ensures |ps| == |rows|
    ensures forall i :: 0 <= i < |rows| ==> ps[i] == FromRow(rows[i])
  {
    if rows == [] then [] else [FromRow(rows[0])] + FromRows(rows[1..])
  }
}
