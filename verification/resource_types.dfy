/**
 * The portal's vocabulary: resource kinds, departments, semesters, the three
 * review states, the catalog `Resource` record, the `StudentSubmission`
 * record, and the three display-label tables.
 */
module ResourceTypes {
  import opened Optional

  /** `ResourceType`. The TypeScript field is called `type`, a Dafny keyword, hence `kind` below. */
  datatype ResourceType = Notes | Timetable | Syllabus | Assignment | Pyq

  datatype Department = ComputerScience | Electronics | Mechanical | Civil | Electrical

  /** `Semester`: the literal union `1 | 2 | ... | 8`. */
  type Semester = n: int | 1 <= n <= 8 witness 1

  /** The review state of a submission. */
  datatype ApprovalStatus = Pending | Approved | Rejected

  /** The two states a review moves a submission to (the `'approved' | 'rejected'` parameter type). */
  type ReviewOutcome = s: ApprovalStatus | s != Pending witness Approved

  /** A catalog entry. `subject` and `year` are set only on previous-year question papers. */
  datatype Resource = Resource(
    id: string,
    title: string,
    description: string,
    kind: ResourceType,
    department: Department,
    semester: Semester,
    fileUrl: string,
    fileName: string,
    fileSize: string,
    uploadedAt: string,
    uploadedBy: string,
    downloads: int,
    status: Option<ApprovalStatus>,
    subject: Option<string>,
    year: Option<int>)

  /** A student's contribution awaiting, or having had, faculty review. */
  datatype Submission = Submission(
    id: string,
    title: string,
    description: string,
    kind: ResourceType,
    department: Department,
    semester: Semester,
    fileUrl: string,
    fileName: string,
    fileSize: string,
    submittedAt: string,
    submittedBy: string,
    studentEmail: string,
    status: ApprovalStatus,
    reviewedBy: Option<string>,
    reviewedAt: Option<string>,
    rejectionReason: Option<string>)

  /** Every department, in declaration order. */
  const Departments: seq<Department> := [ComputerScience, Electronics, Mechanical, Civil, Electrical]

  /** `departmentLabels`. */
  function DepartmentLabel(d: Department): string {
    match d
    case ComputerScience => "Computer Science"
    case Electronics => "Electronics & Communication"
    case Mechanical => "Mechanical Engineering"
    case Civil => "Civil Engineering"
    case Electrical => "Electrical Engineering"
  }

  /** `resourceTypeLabels`. */
  function ResourceTypeLabel(t: ResourceType): string {
    match t
    case Notes => "Notes"
    case Timetable => "Timetable"
    case Syllabus => "Syllabus"
    case Assignment => "Assignment"
    case Pyq => "Previous Year Questions"
  }

  /** `statusLabels`. */
  function StatusLabel(s: ApprovalStatus): string {
    match s
    case Pending => "Pending Review"
    case Approved => "Approved"
    case Rejected => "Rejected"
  }

  /** The department table lists all five departments, with five different non-empty labels. */
  lemma DepartmentLabelsDistinct()
    ensures forall d: Department :: d in Departments && DepartmentLabel(d) != ""
    ensures forall d1: Department, d2: Department :: DepartmentLabel(d1) == DepartmentLabel(d2) ==> d1 == d2
  {
    forall d: Department
      ensures d in Departments && DepartmentLabel(d) != ""
    {
      match d
      case ComputerScience => assert Departments[0] == d;
      case Electronics => assert Departments[1] == d;
      case Mechanical => assert Departments[2] == d;
      case Civil => assert Departments[3] == d;
      case Electrical => assert Departments[4] == d;
    }
  }

  /** The resource-type table covers all five kinds, previous-year questions included, with distinct labels. */
  lemma ResourceTypeLabelsDistinct()
    ensures ResourceTypeLabel(Pyq) == "Previous Year Questions"
    ensures forall t1: ResourceType, t2: ResourceType :: ResourceTypeLabel(t1) == ResourceTypeLabel(t2) ==> t1 == t2
  {
  }

  /** The status table gives each of the three review states its own label. */
  lemma StatusLabelsDistinct()
    ensures forall s1: ApprovalStatus, s2: ApprovalStatus :: StatusLabel(s1) == StatusLabel(s2) ==> s1 == s2
  {
  }
}
