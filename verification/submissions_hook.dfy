/**
 * The `useSubmissions` hook: builds new submission records, forwards reviews
 * to the repository, and answers status and e-mail queries over the list it
 * last read. After every mutation the hook re-reads the store (`refresh`),
 * so its list is the repository's list.
 */
module SubmissionsHook {
  import opened Optional
  import opened Seqs
  import opened Numbers
  import opened ResourceTypes
  import opened SubmissionStore

  /**
   * The argument of `addSubmission`: a submission without `id`, `status` and
   * `submittedAt`. The optional review fields survive the `Omit` and are
   * copied by the spread.
   */
  datatype NewSubmission = NewSubmission(
    title: string,
    description: string,
    kind: ResourceType,
    department: Department,
    semester: Semester,
    fileUrl: string,
    fileName: string,
    fileSize: string,
    submittedBy: string,
    studentEmail: string,
    reviewedBy: Option<string>,
    reviewedAt: Option<string>,
    rejectionReason: Option<string>)

  /** The hook's view after an operation: the store and the list `refresh` read from it. */
  datatype HookState = HookState(store: Store, list: seq<Submission>)

  /** The id given to a submission created at clock reading `now` (`Date.now()` in milliseconds). */
  function SubmissionId(now: int): string {
    "sub-" + IntToString(now)
  }

  /** Two creations get the same id exactly when the clock read the same value both times. */
  lemma SubmissionIdsCollideIffSameClock(a: int, b: int)
    ensures SubmissionId(a) == SubmissionId(b) <==> a == b
  {
    if SubmissionId(a) == SubmissionId(b) {
      assert IntToString(a) == SubmissionId(a)[4..];
      assert IntToString(b) == SubmissionId(b)[4..];
      IntToStringInjective(a, b);
    }
  }

  /**
   * The record `addSubmission` builds: pending, dated `today`, with id
   * `"sub-" + now`, every other field copied from the input.
   */
  function MakeSubmission(input: NewSubmission, now: int, today: string): (r: Submission)
    ensures r.id == SubmissionId(now) && r.status == Pending && r.submittedAt == today
    ensures && r.title == input.title && r.description == input.description
            && r.kind == input.kind && r.department == input.department
            && r.semester == input.semester && r.fileUrl == input.fileUrl
            && r.fileName == input.fileName && r.fileSize == input.fileSize
            && r.submittedBy == input.submittedBy && r.studentEmail == input.studentEmail
            && r.reviewedBy == input.reviewedBy && r.reviewedAt == input.reviewedAt
            && r.rejectionReason == input.rejectionReason
  {
    Submission(SubmissionId(now), input.title, input.description, input.kind, input.department,
      input.semester, input.fileUrl, input.fileName, input.fileSize, today, input.submittedBy,
      input.studentEmail, Pending, input.reviewedBy, input.reviewedAt, input.rejectionReason)
  }

  /** The result of `addSubmission`: the hook's new state and the record it returns. */
  datatype Added = Added(state: HookState, created: Submission)

  /**
   * `addSubmission`: build the record, append it to the stored list, re-read.
   * The hook's list becomes the list it would have read before, plus the new
   * record at the end.
   */
  function AddSubmission(store: Store, input: NewSubmission, now: int, today: string): (r: Added)
    ensures r.created == MakeSubmission(input, now, today)
    ensures r.state.list == Read(store).list + [r.created]
    ensures r.state.store == Some(r.state.list)
  {
    var created := MakeSubmission(input, now, today);
    var loaded := Read(Save(store, created));
    Added(HookState(loaded.store, loaded.list), created)
  }

  /**
   * Two additions in a row append two records in call order; their ids differ
   * exactly when the two clock readings differ.
   */
  lemma TwoAdditions(store: Store, a: NewSubmission, b: NewSubmission, t1: int, t2: int, today: string)
    ensures var first := AddSubmission(store, a, t1, today);
      var second := AddSubmission(first.state.store, b, t2, today);
      && second.state.list == Read(store).list + [first.created, second.created]
      && (first.created.id == second.created.id <==> t1 == t2)
  {
    SubmissionIdsCollideIffSameClock(t1, t2);
  }

  /**
   * `updateStatus`: hands its four arguments to the repository unchanged and
   * re-reads, so the hook's list is the repository's updated list.
   */
  function UpdateStatusHook(store: Store, id: string, status: ReviewOutcome, reviewer: string,
                            reason: Option<string>, today: string): (r: HookState)
    ensures r.store == UpdateStatus(store, id, status, reviewer, reason, today)
    ensures r.list == r.store.value
  {
    var loaded := Read(UpdateStatus(store, id, status, reviewer, reason, today));
    HookState(loaded.store, loaded.list)
  }

  /** `getByStatus`: the submissions with the given status, in list order. */
  function ByStatus(list: seq<Submission>, status: ApprovalStatus): (r: seq<Submission>)
    ensures Subseq(r, list)
    ensures forall s :: s in r ==> s in list && s.status == status
    ensures forall i :: 0 <= i < |list| && list[i].status == status ==> list[i] in r
    ensures forall s :: multiset(r)[s] == if s.status == status then multiset(list)[s] else 0
  {
    Filter(list, (s: Submission) => s.status == status)
  }

  /**
   * `getMySubmissions`: the submissions whose `studentEmail` is exactly
   * `email` (case-sensitive, no trimming), in list order.
   */
  function MySubmissions(list: seq<Submission>, email: string): (r: seq<Submission>)
    ensures Subseq(r, list)
    ensures forall s :: s in r ==> s in list && s.studentEmail == email
    ensures forall i :: 0 <= i < |list| && list[i].studentEmail == email ==> list[i] in r
    ensures forall s :: multiset(r)[s] == if s.studentEmail == email then multiset(list)[s] else 0
  {
    Filter(list, (s: Submission) => s.studentEmail == email)
  }

  /** A new submission without review data keeps a review-consistent store review-consistent. */
  lemma AddKeepsConsistency(store: Store, input: NewSubmission, now: int, today: string)
    requires AllConsistent(Read(store).list)
    requires input.reviewedBy.None? && input.reviewedAt.None? && input.rejectionReason.None?
    ensures AllConsistent(AddSubmission(store, input, now, today).state.list)
  {
  }
}
