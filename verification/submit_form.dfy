/** The student submission form: maps the filled-in form to an `addSubmission` call. */
module SubmitForm {
  import opened Optional
  import opened ResourceTypes
  import opened SubmissionStore
  import opened SubmissionsHook

  /** The kinds the form's type selector offers. */
  type FormKind = t: ResourceType | t == Notes || t == Assignment witness Notes

  /** The form's fields once every required selector has a value. */
  datatype FormData = FormData(
    title: string,
    description: string,
    kind: FormKind,
    semester: Semester,
    department: Department,
    studentName: string,
    studentEmail: string)

  const DefaultFileName := "document.pdf"
  const PlaceholderFileSize := "1.5 MB"

  /**
   * `fileName || 'document.pdf'`: the chosen file's name, or the default when
   * no file was chosen or its name is empty.
   */
  function FileNameOrDefault(chosen: Option<string>): (r: string)
    ensures chosen.Some? && chosen.value != "" ==> r == chosen.value
    ensures chosen.None? || chosen.value == "" ==> r == DefaultFileName
  {
    if chosen.Some? && chosen.value != "" then chosen.value else DefaultFileName
  }

  /**
   * The argument `handleSubmit` passes to `addSubmission`: text and selector
   * fields copied as typed, the student name as submitter, a fixed file URL
   * and size, and no review data.
   */
  function ToNewSubmission(form: FormData, chosen: Option<string>): (r: NewSubmission)
    ensures r.title == form.title && r.description == form.description
    ensures r.kind == form.kind && r.department == form.department && r.semester == form.semester
    ensures r.submittedBy == form.studentName && r.studentEmail == form.studentEmail
    ensures r.fileName == FileNameOrDefault(chosen)
    ensures r.fileUrl == SampleFileUrl && r.fileSize == PlaceholderFileSize
    ensures r.reviewedBy.None? && r.reviewedAt.None? && r.rejectionReason.None?
  {
    NewSubmission(form.title, form.description, form.kind, form.department, form.semester,
      SampleFileUrl, FileNameOrDefault(chosen), PlaceholderFileSize, form.studentName,
      form.studentEmail, None, None, None)
  }

  /**
   * `handleSubmit`: the created submission is a pending note or assignment,
   * appended to the list, and a review-consistent store stays consistent.
   */
  function HandleSubmit(store: Store, form: FormData, chosen: Option<string>, now: int, today: string): (r: Added)
    ensures r.created.status == Pending && (r.created.kind == Notes || r.created.kind == Assignment)
    ensures r.created.id == SubmissionId(now) && r.created.submittedAt == today
    ensures r.state.list == Read(store).list + [r.created]
    ensures AllConsistent(Read(store).list) ==> AllConsistent(r.state.list)
  {
    var input := ToNewSubmission(form, chosen);
    var r := AddSubmission(store, input, now, today);
    assert AllConsistent(Read(store).list) ==> AllConsistent(r.state.list) by {
      if AllConsistent(Read(store).list) {
        AddKeepsConsistency(store, input, now, today);
      }
    }
    r
  }
}
