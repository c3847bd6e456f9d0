/**
 * The submission repository: one list of submissions kept under a single
 * local-storage key, seeded with a four-record fixture on the first read.
 * The key's content is a `Store` value threaded through every operation.
 */
module SubmissionStore {
  import opened Optional
  import opened Text
  import opened Seqs
  import opened ResourceTypes

  /** The stored list, or `None` while the key has never been written. */
  type Store = Option<seq<Submission>>

  /** What a read returns: the (possibly just seeded) store and the list read from it. */
  datatype Loaded = Loaded(store: Store, list: seq<Submission>)

  const SampleFileUrl := "https://www.africau.edu/images/default/sample.pdf"

  const FixtureRejection := "Content quality does not meet standards. " + "Please add more detailed explanations."

  /** `initialMockSubmissions`: two pending, one approved and one rejected submission. */
  const Fixture: seq<Submission> := [NetworksNotes, AlgorithmNotes, LabExperiments, HeatTransferNotes]

  /** The fixture's first record: pending. */
  const NetworksNotes: Submission :=
    Submission("sub-1", "Computer Networks Lecture Notes",
      "Complete notes from all lectures covering OSI model, TCP/IP, and networking protocols.",
      Notes, ComputerScience, 5, SampleFileUrl, "CN_Notes_Complete.pdf", "3.2 MB",
      "2024-01-18", "Rahul Sharma", "rahul@college.edu", Pending, None, None, None)

  /** The fixture's second record: approved. */
  const AlgorithmNotes: Submission :=
    Submission("sub-2", "Algorithm Design Notes",
      "Detailed notes on sorting, searching, and graph algorithms.",
      Notes, ComputerScience, 4, SampleFileUrl, "Algo_Notes.pdf", "2.1 MB",
      "2024-01-17", "Priya Patel", "priya@college.edu", Approved,
      Some("Prof. Kumar"), Some("2024-01-18"), None)

  /** The fixture's third record: rejected, with a reason. */
  const LabExperiments: Submission :=
    Submission("sub-3", "Microprocessor Lab Experiments",
      "All lab experiments with code and explanations.",
      Notes, Electronics, 4, SampleFileUrl, "MP_Lab.pdf", "1.8 MB",
      "2024-01-16", "Amit Gupta", "amit@college.edu", Rejected,
      Some("Prof. Reddy"), Some("2024-01-17"), Some(FixtureRejection))

  /** The fixture's fourth record: pending. */
  const HeatTransferNotes: Submission :=
    Submission("sub-4", "Heat Transfer Notes",
      "Comprehensive notes on conduction, convection, and radiation.",
      Notes, Mechanical, 4, SampleFileUrl, "HT_Notes.pdf", "2.5 MB",
      "2024-01-15", "Sneha Rao", "sneha@college.edu", Pending, None, None, None)

  /**
   * The review fields agree with the status: a pending submission carries no
   * review data; a reviewed one names its reviewer and date; a rejection
   * reason is present, and not blank, exactly when the status is rejected.
   */
  predicate ReviewConsistent(s: Submission) {
    && (s.status == Pending ==> s.reviewedBy.None? && s.reviewedAt.None?)
    && (s.status != Pending ==> s.reviewedBy.Some? && s.reviewedAt.Some?)
    && (s.rejectionReason.Some? <==> s.status == Rejected)
    && (s.rejectionReason.Some? ==> !IsBlank(s.rejectionReason.value))
  }

  /** Every submission of the list is review-consistent. */
  predicate AllConsistent(list: seq<Submission>) {
    forall i :: 0 <= i < |list| ==> ReviewConsistent(list[i])
  }

  /** No two submissions of the list share an id. */
  predicate UniqueIds(list: seq<Submission>) {
    forall i, j :: 0 <= i < j < |list| ==> list[i].id != list[j].id
  }

  /** The fixture has four submissions with distinct ids. */
  lemma FixtureIdsDistinct()
    ensures |Fixture| == 4
    ensures UniqueIds(Fixture)
  {
    var f := Fixture;
    assert f[0].id[4] == '1' && f[1].id[4] == '2' && f[2].id[4] == '3' && f[3].id[4] == '4';
  }

  /** Each fixture submission is review-consistent. */
  lemma FixtureConsistent()
    ensures AllConsistent(Fixture)
  {
    assert ReviewConsistent(NetworksNotes);
    assert ReviewConsistent(AlgorithmNotes);
    assert ReviewConsistent(LabExperiments) by {
      RejectionNotBlank();
    }
    assert ReviewConsistent(HeatTransferNotes);
    AllConsistentOfFour(NetworksNotes, AlgorithmNotes, LabExperiments, HeatTransferNotes);
  }

  /** Four review-consistent submissions make a review-consistent list. */
  lemma AllConsistentOfFour(a: Submission, b: Submission, c: Submission, d: Submission)
    requires ReviewConsistent(a) && ReviewConsistent(b) && ReviewConsistent(c) && ReviewConsistent(d)
    ensures AllConsistent([a, b, c, d])
  {
  }

  /** The fixture's rejection reason is not blank. */
  lemma RejectionNotBlank()
    ensures !IsBlank(FixtureRejection)
  {
    assert FixtureRejection[0] == 'C';
    BlankIffAllWhitespace(FixtureRejection);
  }

  /**
   * `getSubmissions`: the stored list if the key holds one; otherwise the
   * fixture, which is also written to the key.
   */
  function Read(store: Store): (r: Loaded)
    ensures r.store == Some(r.list)
    ensures store.Some? ==> r.list == store.value
    ensures store.None? ==> r.list == Fixture
  {
    match store
    case Some(list) => Loaded(store, list)
    case None => Loaded(Some(Fixture), Fixture)
  }

  /** Reading twice is reading once: a second read sees the same list and writes nothing new. */
  lemma ReadIdempotent(store: Store)
    ensures Read(Read(store).store) == Read(store)
  {
  }

  /** `saveSubmission`: append one submission to the (possibly just seeded) list and write it back. */
  function Save(store: Store, s: Submission): (r: Store)
    ensures r.Some?
    ensures var before := Read(store).list;
      && |r.value| == |before| + 1
      && r.value[..|before|] == before
      && r.value[|before|] == s
  {
    Some(Read(store).list + [s])
  }

  /** `findIndex((s) => s.id === id)`: the position of the first submission with that id. */
  function FindById(list: seq<Submission>, id: string): (r: Option<nat>)
    ensures r.None? ==> forall j :: 0 <= j < |list| ==> list[j].id != id
    ensures r.Some? ==> r.value < |list| && list[r.value].id == id
    ensures r.Some? ==> forall j :: 0 <= j < r.value ==> list[j].id != id
  {
    if |list| == 0 then None
    else if list[0].id == id then Some(0)
    else match FindById(list[1..], id)
      case None => None
      case Some(i) => Some(i + 1)
  }

  /** The non-review fields of two submissions agree. */
  predicate SameContent(a: Submission, b: Submission) {
    && a.id == b.id && a.title == b.title && a.description == b.description
    && a.kind == b.kind && a.department == b.department && a.semester == b.semester
    && a.fileUrl == b.fileUrl && a.fileName == b.fileName && a.fileSize == b.fileSize
    && a.submittedAt == b.submittedAt && a.submittedBy == b.submittedBy
    && a.studentEmail == b.studentEmail
  }

  /**
   * The spread `{ ...s, status, reviewedBy, reviewedAt, rejectionReason }`:
   * every other field kept, the review fields replaced. An absent reason
   * clears a reason recorded earlier.
   */
  function Reviewed(s: Submission, status: ReviewOutcome, reviewer: string, reason: Option<string>, today: string): (r: Submission)
    ensures SameContent(r, s)
    ensures r.status == status && r.reviewedBy == Some(reviewer) && r.reviewedAt == Some(today)
    ensures r.rejectionReason == reason
  {
    s.(status := status, reviewedBy := Some(reviewer), reviewedAt := Some(today), rejectionReason := reason)
  }

  /**
   * `updateSubmissionStatus`: review the first submission with the given id.
   * The current status is not consulted, so a reviewed submission can be
   * reviewed again; an unknown id changes nothing beyond first-read seeding.
   * `today` stands for `new Date().toISOString().split('T')[0]`.
   */
  function UpdateStatus(store: Store, id: string, status: ReviewOutcome, reviewer: string,
                        reason: Option<string>, today: string): (r: Store)
    ensures r.Some?
    ensures var before := Read(store).list;
      && |r.value| == |before|
      && (FindById(before, id).None? ==> r.value == before)
      && (FindById(before, id).Some? ==>
            var i := FindById(before, id).value;
            && r.value[i] == Reviewed(before[i], status, reviewer, reason, today)
            && forall j :: 0 <= j < |before| && j != i ==> r.value[j] == before[j])
  {
    var before := Read(store).list;
    match FindById(before, id)
    case None => Some(before)
    case Some(i) => Some(before[i := Reviewed(before[i], status, reviewer, reason, today)])
  }

  /** An id that is not in the list leaves the list exactly as it was read. */
  lemma UpdateUnknownIdIsNoOp(store: Store, id: string, status: ReviewOutcome, reviewer: string,
                              reason: Option<string>, today: string)
    requires forall s :: s in Read(store).list ==> s.id != id
    ensures UpdateStatus(store, id, status, reviewer, reason, today) == Read(store).store
  {
  }

  /**
   * The repository does not restrict transitions to pending submissions: the
   * fixture's approved `sub-2` can be rejected afterwards.
   */
  lemma UpdateOverwritesReviewed()
    ensures Fixture[1].status == Approved
    ensures var r := UpdateStatus(None, "sub-2", Rejected, "Prof. Faculty", Some("late"), "2024-02-01");
      r.value[1].status == Rejected && r.value[1].reviewedBy == Some("Prof. Faculty")
  {
    var f := Fixture;
    assert f[0].id[4] == '1';
    assert FindById(f, "sub-2") == Some(1);
  }

  /**
   * The repository does not check the rejection reason either: rejecting with
   * no reason stores a rejected submission without one.
   */
  lemma UpdateAcceptsMissingReason()
    ensures var r := UpdateStatus(None, "sub-1", Rejected, "Prof. Faculty", None, "2024-02-01");
      r.value[0].status == Rejected && !ReviewConsistent(r.value[0])
  {
    assert FindById(Fixture, "sub-1") == Some(0);
  }

  /**
   * A review whose reason matches its outcome (a non-blank reason exactly for
   * a rejection) keeps a review-consistent list review-consistent.
   */
  lemma UpdateKeepsConsistency(store: Store, id: string, status: ReviewOutcome, reviewer: string,
                               reason: Option<string>, today: string)
    requires AllConsistent(Read(store).list)
    requires reason.Some? <==> status == Rejected
    requires reason.Some? ==> !IsBlank(reason.value)
    ensures AllConsistent(UpdateStatus(store, id, status, reviewer, reason, today).value)
  {
    var before := Read(store).list;
    var after := UpdateStatus(store, id, status, reviewer, reason, today).value;
    forall j | 0 <= j < |after|
      ensures ReviewConsistent(after[j])
    {
      if FindById(before, id) != Some(j) {
        assert after[j] == before[j];
      }
    }
  }

  /** `getApprovedSubmissions`: the approved submissions, in stored order. */
  function ReadApproved(store: Store): (r: Loaded)
    ensures r.store == Read(store).store
    ensures Subseq(r.list, Read(store).list)
    ensures forall s :: s in r.list ==> s in Read(store).list && s.status == Approved
    ensures forall s :: s in Read(store).list && s.status == Approved ==> s in r.list
    ensures forall s :: multiset(r.list)[s] == if s.status == Approved then multiset(Read(store).list)[s] else 0
  {
    var loaded := Read(store);
    Loaded(loaded.store, Filter(loaded.list, (s: Submission) => s.status == Approved))
  }
}
