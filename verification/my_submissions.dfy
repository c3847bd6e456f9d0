/** The student's "my submissions" page: a case-insensitive e-mail search over the hook's list. */
module MySubmissionsPage {
  import opened Text
  import opened Seqs
  import opened ResourceTypes

  /** The search predicate: the lowercased e-mail contains the lowercased, untrimmed filter text. */
  predicate EmailMatches(s: Submission, filter: string) {
    Contains(Lower(s.studentEmail), Lower(filter))
  }

  /**
   * `filteredSubmissions`: a blank filter shows every submission; otherwise
   * exactly the submissions whose e-mail matches, in list order.
   */
  function FilterByEmail(list: seq<Submission>, filter: string): (r: seq<Submission>)
    ensures IsBlank(filter) ==> r == list
    ensures Subseq(r, list)
    ensures !IsBlank(filter) ==> forall s :: s in r ==> s in list && EmailMatches(s, filter)
    ensures !IsBlank(filter) ==> forall i :: 0 <= i < |list| && EmailMatches(list[i], filter) ==> list[i] in r
    ensures !IsBlank(filter) ==> forall s :: multiset(r)[s] == if EmailMatches(s, filter) then multiset(list)[s] else 0
  {
    if IsBlank(filter) then SubseqRefl(list); list
    else Filter(list, (s: Submission) => EmailMatches(s, filter))
  }

  /** Searching for a whole e-mail address finds every submission made with it, whatever its letter case. */
  lemma WholeAddressFindsOwnSubmissions(list: seq<Submission>, i: nat)
    requires i < |list|
    ensures list[i] in FilterByEmail(list, list[i].studentEmail)
  {
    if !IsBlank(list[i].studentEmail) {
      ContainsSelfAndEmpty(Lower(list[i].studentEmail));
    }
  }
}
