/**
 * The faculty review page: a status filter over the hook's list, the three
 * status counters, and the approve / reject handlers. The pending-only rule
 * and the non-blank rejection reason are enforced here, by the page, and not
 * by the repository below it.
 */
module FacultyDashboard {
  import opened Optional
  import opened Text
  import opened Seqs
  import opened ResourceTypes
  import opened SubmissionStore
  import opened SubmissionsHook

  /** The reviewer name the page passes with every decision. */
  const FacultyName := "Prof. Faculty"

  /** `filteredSubmissions`: everything for `'all'`, otherwise the submissions with the selected status. */
  function FilteredSubmissions(list: seq<Submission>, filter: Facet<ApprovalStatus>): (r: seq<Submission>)
    ensures filter.Any? ==> r == list
    ensures Subseq(r, list)
    ensures forall s :: s in r ==> s in list && Admits(filter, s.status)
    ensures forall i :: 0 <= i < |list| && Admits(filter, list[i].status) ==> list[i] in r
    ensures forall s :: multiset(r)[s] == if Admits(filter, s.status) then multiset(list)[s] else 0
  {
    match filter
    case Any => SubseqRefl(list); list
    case Only(status) => ByStatus(list, status)
  }

  /** The three counters shown above the list. */
  datatype Counts = Counts(pending: nat, approved: nat, rejected: nat)

  /** `pendingCount`, `approvedCount`, `rejectedCount`. */
  function StatusCounts(list: seq<Submission>): Counts {
    Counts(|ByStatus(list, Pending)|, |ByStatus(list, Approved)|, |ByStatus(list, Rejected)|)
  }

  /** Every submission is counted exactly once: the three counters add up to the list length. */
  lemma {:induction false} CountsCoverList(list: seq<Submission>)
    ensures var c := StatusCounts(list); c.pending + c.approved + c.rejected == |list|
  {
    if |list| > 0 {
      CountsCoverList(list[1..]);
    }
  }

  /** The approve and reject buttons are rendered only for pending submissions. */
  predicate ActionsOffered(s: Submission) {
    s.status == Pending
  }

  /**
   * `handleApprove`: approve as the faculty member, with no reason, which
   * clears any reason recorded before.
   */
  function HandleApprove(store: Store, id: string, today: string): (r: HookState)
    ensures var before := Read(store).list;
      && |r.list| == |before|
      && (FindById(before, id).Some? ==>
            var i := FindById(before, id).value;
            && r.list[i].status == Approved
            && r.list[i].reviewedBy == Some(FacultyName)
            && r.list[i].reviewedAt == Some(today)
            && r.list[i].rejectionReason.None?
            && SameContent(r.list[i], before[i])
            && forall j :: 0 <= j < |before| && j != i ==> r.list[j] == before[j])
      && (FindById(before, id).None? ==> r.list == before)
  {
    UpdateStatusHook(store, id, Approved, FacultyName, None, today)
  }

  /** The reject dialog: the submission it was opened for, the typed reason, and whether it is shown. */
  datatype RejectDialog = RejectDialog(selected: Option<string>, reason: string, open: bool)

  /** The page state the reject flow touches. */
  datatype Page = Page(store: Store, dialog: RejectDialog)

  /** `openRejectDialog`: remember the submission and show the dialog. */
  function OpenRejectDialog(p: Page, id: string): (r: Page)
    ensures r.store == p.store && r.dialog.reason == p.dialog.reason
    ensures r.dialog.selected == Some(id) && r.dialog.open
  {
    p.(dialog := p.dialog.(selected := Some(id), open := true))
  }

  /** `selectedSubmission && rejectionReason.trim()`: a non-empty id is selected and the reason is not blank. */
  predicate CanReject(d: RejectDialog) {
    d.selected.Some? && d.selected.value != "" && !IsBlank(d.reason)
  }

  /**
   * `handleReject`: when the guard holds, reject with the reason exactly as
   * typed (untrimmed), then clear the reason and the selection and close the
   * dialog; otherwise nothing happens.
   */
  function HandleReject(p: Page, today: string): (r: Page)
    ensures !CanReject(p.dialog) ==> r == p
    ensures CanReject(p.dialog) ==>
      && r.dialog == RejectDialog(None, "", false)
      && r.store == UpdateStatus(p.store, p.dialog.selected.value, Rejected, FacultyName, Some(p.dialog.reason), today)
  {
    if CanReject(p.dialog) then
      Page(UpdateStatus(p.store, p.dialog.selected.value, Rejected, FacultyName, Some(p.dialog.reason), today),
           RejectDialog(None, "", false))
    else p
  }

  /** Approving from the page keeps every submission review-consistent. */
  lemma ApproveKeepsConsistency(store: Store, id: string, today: string)
    requires AllConsistent(Read(store).list)
    ensures AllConsistent(HandleApprove(store, id, today).list)
  {
    UpdateKeepsConsistency(store, id, Approved, FacultyName, None, today);
  }

  /** Rejecting from the page keeps every submission review-consistent: the guard supplies a non-blank reason. */
  lemma RejectKeepsConsistency(p: Page, today: string)
    requires AllConsistent(Read(p.store).list)
    ensures AllConsistent(Read(HandleReject(p, today).store).list)
  {
    if CanReject(p.dialog) {
      UpdateKeepsConsistency(p.store, p.dialog.selected.value, Rejected, FacultyName, Some(p.dialog.reason), today);
    }
  }

  /**
   * With unique ids, approving a submission for which the buttons are
   * offered moves exactly that submission from pending to approved.
   */
  lemma OfferedApproveMovesPendingToApproved(store: Store, i: nat, today: string)
    requires i < |Read(store).list|
    requires UniqueIds(Read(store).list)
    requires ActionsOffered(Read(store).list[i])
    ensures var before := Read(store).list;
      var after := HandleApprove(store, before[i].id, today).list;
      && before[i].status == Pending
      && after[i].status == Approved
      && SameContent(after[i], before[i])
      && forall j :: 0 <= j < |before| && j != i ==> after[j] == before[j]
  {
    var before := Read(store).list;
    var found := FindById(before, before[i].id);
    assert found == Some(i);
  }
}
