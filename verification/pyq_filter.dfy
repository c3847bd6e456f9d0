/**
 * The previous-year question paper page: the year and subject option lists it
 * derives from the papers, its five conditional filters, and the select
 * handlers that turn option values back into selections. The papers and the
 * per-department subject table are parameters.
 */
module PyqFilter {
  import opened Optional
  import opened Text
  import opened Seqs
  import opened Numbers
  import opened ResourceTypes

  /** The value every select uses for "no restriction". */
  const AllOption := "all"

  /**
   * The page's selections. Department and semester are typed facets; subject
   * and year are kept as the raw select values, `"all"` included.
   */
  datatype PyqView = PyqView(
    query: string,
    department: Facet<Department>,
    semester: Facet<Semester>,
    subject: string,
    year: string)

  /** The page's initial state: everything `"all"`, no query. */
  const Initial := PyqView("", Any, Any, AllOption, AllOption)

  /**
   * The values of the present entries of `s` that pass `keep`, in order:
   * `.filter(Boolean)` on a list of optional values.
   */
  function Present<T>(s: seq<Option<T>>, keep: T -> bool): seq<T> {
    if |s| == 0 then []
    else if s[0].Some? && keep(s[0].value) then [s[0].value] + Present(s[1..], keep)
    else Present(s[1..], keep)
  }

  /** Exactly the kept values of the present entries survive. */
  lemma {:induction false} PresentMembers<T>(s: seq<Option<T>>, keep: T -> bool)
    ensures forall x :: x in Present(s, keep) ==> Some(x) in s && keep(x)
    ensures forall i :: 0 <= i < |s| && s[i].Some? && keep(s[i].value) ==> s[i].value in Present(s, keep)
  {
    if |s| > 0 {
      PresentMembers(s[1..], keep);
      PresentCons(s, keep);
      assert forall i :: 1 <= i < |s| ==> s[i] == s[1..][i - 1];
      assert forall x :: Some(x) in s[1..] ==> Some(x) in s;
    }
  }

  /** Where the `j`-th kept value came from: an entry of `s` holding it. */
  lemma {:induction false} PresentIndex<T>(s: seq<Option<T>>, keep: T -> bool, j: nat) returns (b: nat)
    requires j < |Present(s, keep)|
    ensures b < |s| && s[b] == Some(Present(s, keep)[j])
  {
    PresentShift(s, keep, j);
    var d := if s[0].Some? && keep(s[0].value) then 1 else 0;
    if d == 1 && j == 0 {
      b := 0;
    } else {
      var b' := PresentIndex(s[1..], keep, j - d);
      PresentCons(s, keep);
      ShiftedOrigin(s, Present(s, keep), Present(s[1..], keep), d, j, b');
      b := b' + 1;
    }
  }

  /** Kept values stay in order: two of them come from entries of `s` in the same order. */
  lemma {:induction false} PresentOrigin<T>(s: seq<Option<T>>, keep: T -> bool, i: nat, j: nat) returns (a: nat, b: nat)
    requires i < j < |Present(s, keep)|
    ensures a < b < |s| && s[a] == Some(Present(s, keep)[i]) && s[b] == Some(Present(s, keep)[j])
  {
    PresentShift(s, keep, i);
    PresentShift(s, keep, j);
    PresentCons(s, keep);
    var r, rest := Present(s, keep), Present(s[1..], keep);
    var d := if s[0].Some? && keep(s[0].value) then 1 else 0;
    if d == 1 && i == 0 {
      var b' := PresentIndex(s[1..], keep, j - 1);
      ShiftedOrigin(s, r, rest, d, j, b');
      a, b := 0, b' + 1;
    } else {
      var a', b' := PresentOrigin(s[1..], keep, i - d, j - d);
      ShiftedOrigin(s, r, rest, d, i, a');
      ShiftedOrigin(s, r, rest, d, j, b');
      a, b := a' + 1, b' + 1;
    }
  }

  /** `Present` on a non-empty list: the first entry's value if it is kept, then the rest. */
  lemma PresentCons<T>(s: seq<Option<T>>, keep: T -> bool)
    requires |s| > 0
    ensures Present(s, keep)
      == if s[0].Some? && keep(s[0].value) then [s[0].value] + Present(s[1..], keep) else Present(s[1..], keep)
  {
  }

  /**
   * An entry of the rest of `s` holding the `k - d`-th element of `rest`
   * holds the `k`-th element of `r`, where `r` is `rest` with `d` values in front.
   */
  lemma ShiftedOrigin<T>(s: seq<Option<T>>, r: seq<T>, rest: seq<T>, d: nat, k: nat, p: nat)
    requires |s| > 0 && d <= 1
    requires d == 1 ==> s[0].Some? && r == [s[0].value] + rest
    requires d == 0 ==> r == rest
    requires d <= k && k - d < |rest| && p < |s| - 1 && s[1..][p] == Some(rest[k - d])
    ensures k < |r| && s[p + 1] == Some(r[k])
  {
    assert s[p + 1] == s[1..][p];
    if d == 1 {
      ConsAt(s[0].value, rest, k);
    }
  }

  /** The `k`-th kept value, seen from the rest of the list after its first entry. */
  lemma PresentShift<T>(s: seq<Option<T>>, keep: T -> bool, k: nat)
    requires k < |Present(s, keep)|
    ensures |s| > 0
    ensures var kept := s[0].Some? && keep(s[0].value);
      && |Present(s, keep)| == |Present(s[1..], keep)| + (if kept then 1 else 0)
      && (kept && k == 0 ==> Present(s, keep)[k] == s[0].value)
      && (kept && k > 0 ==> Present(s, keep)[k] == Present(s[1..], keep)[k - 1])
      && (!kept ==> Present(s, keep)[k] == Present(s[1..], keep)[k])
  {
    var rest := Present(s[1..], keep);
    if s[0].Some? && keep(s[0].value) {
      ConsAt(s[0].value, rest, k);
    }
  }

  /** Indexing a list with one element in front. */
  lemma ConsAt<T>(x: T, rest: seq<T>, k: nat)
    requires k <= |rest|
    ensures |[x] + rest| == |rest| + 1
    ensures ([x] + rest)[k] == if k == 0 then x else rest[k - 1]
  {
  }

  /** Dropping absent entries keeps a duplicate-free list duplicate-free. */
  lemma {:induction false} PresentDistinct<T>(s: seq<Option<T>>, keep: T -> bool)
    requires Distinct(s)
    ensures Distinct(Present(s, keep))
  {
    if |s| > 0 {
      assert Distinct(s[1..]);
      PresentDistinct(s[1..], keep);
      PresentMembers(s[1..], keep);
      PresentCons(s, keep);
      assert s[0] !in s[1..];
    }
  }

  /** `mockPYQs.map((p) => p.year)`. */
  function Years(pyqs: seq<Resource>): (r: seq<Option<int>>)
    ensures |r| == |pyqs| && forall i :: 0 <= i < |pyqs| ==> r[i] == pyqs[i].year
  {
    seq(|pyqs|, i requires 0 <= i < |pyqs| => pyqs[i].year)
  }

  /** `mockPYQs.map((p) => p.subject)`. */
  function Subjects(pyqs: seq<Resource>): (r: seq<Option<string>>)
    ensures |r| == |pyqs| && forall i :: 0 <= i < |pyqs| ==> r[i] == pyqs[i].subject
  {
    seq(|pyqs|, i requires 0 <= i < |pyqs| => pyqs[i].subject)
  }

  /** `Boolean(y)` for a number: every year but zero is truthy. */
  function NonZero(): int -> bool {
    y => y != 0
  }

  /** `Boolean(s)` for a string: every subject but the empty one is truthy. */
  function NonEmpty(): string -> bool {
    s => s != ""
  }

  /**
   * `availableYears`: the distinct truthy years of the papers, largest first.
   * Each offered year is some paper's year, every paper's non-zero year is
   * offered, and no year is offered twice.
   */
  function AvailableYears(pyqs: seq<Resource>): (r: seq<int>)
    ensures StrictlyDescending(r)
    ensures forall y :: y in r ==> y != 0 && Some(y) in Years(pyqs)
    ensures forall i :: 0 <= i < |pyqs| && pyqs[i].year.Some? && pyqs[i].year.value != 0 ==> pyqs[i].year.value in r
  {
    var years := Years(pyqs);
    var unique := Dedup(years);
    var truthy := Present(unique, NonZero());
    PresentMembers(unique, NonZero());
    PresentDistinct(unique, NonZero());
    var r := SortDescending(truthy);
    SortKeepsDistinct(truthy);
    DescendingDistinctIsStrict(r);
    assert forall y :: y in r <==> y in truthy by {
      forall y
        ensures y in r <==> y in truthy
      {
        assert y in r <==> y in multiset(r);
        assert y in truthy <==> y in multiset(truthy);
      }
    }
    forall i | 0 <= i < |pyqs| && pyqs[i].year.Some? && pyqs[i].year.value != 0
      ensures pyqs[i].year.value in truthy
    {
      assert years[i] in unique;
      var j :| 0 <= j < |unique| && unique[j] == years[i];
    }
    r
  }

  /**
   * `availableSubjects`: with no department selected, the distinct non-empty
   * subjects of the papers in order of first appearance; otherwise the
   * department's row of the subject table, or nothing when it has none.
   */
  function AvailableSubjects(pyqs: seq<Resource>, department: Facet<Department>,
                             byDepartment: map<Department, seq<string>>): (r: seq<string>)
    ensures department.Any? ==> Distinct(r)
    ensures department.Any? ==> forall s :: s in r ==> s != "" && Some(s) in Subjects(pyqs)
    ensures department.Any? ==> forall i :: 0 <= i < |pyqs| && pyqs[i].subject.Some? && pyqs[i].subject.value != "" ==> pyqs[i].subject.value in r
    ensures department.Any? ==> forall i, j, k :: 0 <= i < j < |r| && 0 <= k < |pyqs| && pyqs[k].subject == Some(r[j]) ==> Some(r[i]) in Subjects(pyqs)[..k]
    ensures department.Only? && department.choice in byDepartment ==> r == byDepartment[department.choice]
    ensures department.Only? && department.choice !in byDepartment ==> r == []
  {
    match department
    case Any =>
      var subjects := Subjects(pyqs);
      var unique := Dedup(subjects);
      PresentMembers(unique, NonEmpty());
      PresentDistinct(unique, NonEmpty());
      forall i | 0 <= i < |pyqs| && pyqs[i].subject.Some? && pyqs[i].subject.value != ""
        ensures pyqs[i].subject.value in Present(unique, NonEmpty())
      {
        assert subjects[i] in unique;
        var j :| 0 <= j < |unique| && unique[j] == subjects[i];
      }
      forall i, j, k | 0 <= i < j < |Present(unique, NonEmpty())| && 0 <= k < |pyqs| && pyqs[k].subject == Some(Present(unique, NonEmpty())[j])
        ensures Some(Present(unique, NonEmpty())[i]) in subjects[..k]
      {
        SubjectsInOrder(pyqs, i, j, k);
      }
      Present(unique, NonEmpty())
    case Only(d) =>
      if d in byDepartment then byDepartment[d] else []
  }

  /** One instance of the first-appearance order of the offered subjects. */
  lemma SubjectsInOrder(pyqs: seq<Resource>, i: nat, j: nat, k: nat)
    requires var r := Present(Dedup(Subjects(pyqs)), NonEmpty());
      i < j < |r| && k < |pyqs| && pyqs[k].subject == Some(r[j])
    ensures Some(Present(Dedup(Subjects(pyqs)), NonEmpty())[i]) in Subjects(pyqs)[..k]
  {
    var subjects := Subjects(pyqs);
    var unique := Dedup(subjects);
    var a, b := PresentOrigin(unique, NonEmpty(), i, j);
    DedupFirstAppearance(subjects);
    assert subjects[k] == unique[b];
  }

  /** The search test: the lowercased title, description or subject contains `needle`; a paper without subject matches only on title or description. */
  predicate SearchHit(r: Resource, needle: string) {
    || Contains(Lower(r.title), needle)
    || Contains(Lower(r.description), needle)
    || (r.subject.Some? && Contains(Lower(r.subject.value), needle))
  }

  /** `r.year === parseInt(selectedYear)`: never true when the value does not parse (`NaN`). */
  predicate YearMatches(r: Resource, selected: string) {
    ParseInt(selected).Some? && r.year == ParseInt(selected)
  }

  function InDepartment(f: Facet<Department>): Resource -> bool {
    (r: Resource) => Admits(f, r.department)
  }

  function InSemester(f: Facet<Semester>): Resource -> bool {
    (r: Resource) => Admits(f, r.semester)
  }

  function OnSubject(subject: string): Resource -> bool {
    (r: Resource) => r.subject == Some(subject)
  }

  function InYear(year: string): Resource -> bool {
    (r: Resource) => YearMatches(r, year)
  }

  function MatchesQuery(query: string): Resource -> bool {
    (r: Resource) => SearchHit(r, Lower(query))
  }

  /** The conjunction of every active criterion. */
  predicate PyqMatches(view: PyqView, r: Resource) {
    && Admits(view.department, r.department)
    && Admits(view.semester, r.semester)
    && (view.subject != AllOption ==> r.subject == Some(view.subject))
    && (view.year != AllOption ==> YearMatches(r, view.year))
    && (!IsBlank(view.query) ==> SearchHit(r, Lower(view.query)))
  }

  function PyqPredicate(view: PyqView): Resource -> bool {
    (r: Resource) => PyqMatches(view, r)
  }

  /** The five guarded criteria, conjoined in the order the page applies them. */
  function Steps(view: PyqView): Resource -> bool {
    Both(Both(Both(Both(
      Guard(view.department.Only?, InDepartment(view.department)),
      Guard(view.semester.Only?, InSemester(view.semester))),
      Guard(view.subject != AllOption, OnSubject(view.subject))),
      Guard(view.year != AllOption, InYear(view.year))),
      Guard(!IsBlank(view.query), MatchesQuery(view.query)))
  }

  /** On a single paper the conjoined steps decide what `PyqMatches` decides. */
  lemma StepsDecideMatch(view: PyqView, r: Resource)
    ensures Steps(view)(r) == PyqMatches(view, r)
  {
    var searching := !IsBlank(view.query);
    var hit := SearchHit(r, Lower(view.query));
    assert Guard(searching, MatchesQuery(view.query))(r) == (!searching || hit);
    assert Guard(view.department.Only?, InDepartment(view.department))(r) == Admits(view.department, r.department);
    assert Guard(view.semester.Only?, InSemester(view.semester))(r) == Admits(view.semester, r.semester);
    assert Guard(view.subject != AllOption, OnSubject(view.subject))(r) == (view.subject != AllOption ==> r.subject == Some(view.subject));
    assert Guard(view.year != AllOption, InYear(view.year))(r) == (view.year != AllOption ==> YearMatches(r, view.year));
  }

  /** The page's five sequential steps equal one filter by the conjunction. */
  lemma SequentialIsConjunctive(pyqs: seq<Resource>, view: PyqView)
    ensures
      var byDepartment := FilterWhen(pyqs, view.department.Only?, InDepartment(view.department));
      var bySemester := FilterWhen(byDepartment, view.semester.Only?, InSemester(view.semester));
      var bySubject := FilterWhen(bySemester, view.subject != AllOption, OnSubject(view.subject));
      var byYear := FilterWhen(bySubject, view.year != AllOption, InYear(view.year));
      FilterWhen(byYear, !IsBlank(view.query), MatchesQuery(view.query)) == Filter(pyqs, PyqPredicate(view))
  {
    FiveFiltersFuse(pyqs, view.department.Only?, InDepartment(view.department),
      view.semester.Only?, InSemester(view.semester), view.subject != AllOption, OnSubject(view.subject),
      view.year != AllOption, InYear(view.year), !IsBlank(view.query), MatchesQuery(view.query));
    forall i | 0 <= i < |pyqs|
      ensures Steps(view)(pyqs[i]) == PyqPredicate(view)(pyqs[i])
    {
      StepsDecideMatch(view, pyqs[i]);
    }
    FilterAgrees(pyqs, Steps(view), PyqPredicate(view));
  }

  /**
   * `filteredPYQs`: the papers, in order, that pass every active criterion.
   */
  function FilterPyqs(pyqs: seq<Resource>, view: PyqView): (r: seq<Resource>)
    ensures r == Filter(pyqs, PyqPredicate(view))
    ensures Subseq(r, pyqs)
    ensures forall x :: x in r ==> x in pyqs && PyqMatches(view, x)
    ensures forall i :: 0 <= i < |pyqs| && PyqMatches(view, pyqs[i]) ==> pyqs[i] in r
  {
    var byDepartment := FilterWhen(pyqs, view.department.Only?, InDepartment(view.department));
    var bySemester := FilterWhen(byDepartment, view.semester.Only?, InSemester(view.semester));
    var bySubject := FilterWhen(bySemester, view.subject != AllOption, OnSubject(view.subject));
    var byYear := FilterWhen(bySubject, view.year != AllOption, InYear(view.year));
    var bySearch := FilterWhen(byYear, !IsBlank(view.query), MatchesQuery(view.query));
    SequentialIsConjunctive(pyqs, view);
    bySearch
  }

  /** In the initial state the page lists every paper, in order. */
  lemma InitialShowsAll(pyqs: seq<Resource>)
    ensures FilterPyqs(pyqs, Initial) == pyqs
  {
    assert IsBlank("");
    forall i | 0 <= i < |pyqs|
      ensures PyqPredicate(Initial)(pyqs[i])
    {
      assert PyqMatches(Initial, pyqs[i]);
    }
    FilterKeepsAll(pyqs, PyqPredicate(Initial));
  }

  /** The option value of a year: `year.toString()`. */
  function YearOption(year: int): string {
    IntToString(year)
  }

  /**
   * Choosing an offered year restricts the list to the papers of exactly that
   * year: the option value never collides with `"all"` and reads back as the year.
   */
  lemma YearOptionSelectsYear(year: int, r: Resource)
    ensures YearOption(year) != AllOption
    ensures YearMatches(r, YearOption(year)) <==> r.year == Some(year)
  {
    ParseIntRoundTrip(year);
    var s := IntToString(year);
    assert s != AllOption by {
      if year < 0 {
        assert s[0] == '-';
      } else {
        assert '0' <= s[0] <= '9';
      }
    }
  }

  /** The option value of a semester: `sem.toString()`. */
  function SemesterOption(sem: Semester): string {
    IntToString(sem)
  }

  /**
   * The semester select's handler: `"all"` or `parseInt(value)`. The cast to
   * `Semester` is unchecked in the page; here a value outside one to eight is `None`.
   */
  function SelectSemester(value: string): (r: Option<Facet<Semester>>)
    ensures value == AllOption ==> r == Some(Any)
    ensures r.Some? && r.value.Only? ==> ParseInt(value) == Some(r.value.choice)
  {
    if value == AllOption then Some(Any)
    else match ParseInt(value)
      case Some(n) => if 1 <= n <= 8 then Some(Only(n)) else None
      case None => None
  }

  /** Every semester option selects its own semester. */
  lemma SemesterOptionRoundTrip(sem: Semester)
    ensures SelectSemester(SemesterOption(sem)) == Some(Only(sem))
  {
    ParseIntRoundTrip(sem);
    assert SemesterOption(sem) != AllOption by {
      assert '0' <= SemesterOption(sem)[0] <= '9';
    }
  }

  /**
   * The department select's handler: set the department and reset the subject
   * to `"all"`, so a subject chosen under another department never restricts
   * the new list.
   */
  function SelectDepartment(view: PyqView, department: Facet<Department>): (r: PyqView)
    ensures r.department == department && r.subject == AllOption
    ensures r.query == view.query && r.semester == view.semester && r.year == view.year
  {
    view.(department := department, subject := AllOption)
  }

  /**
   * After a department change the subject criterion is inactive: a paper is
   * listed exactly when it passes the new department and the unchanged
   * semester, year and search criteria.
   */
  lemma DepartmentChangeIgnoresSubject(view: PyqView, department: Facet<Department>, r: Resource)
    ensures var searched := !IsBlank(view.query) ==> SearchHit(r, Lower(view.query));
      PyqMatches(SelectDepartment(view, department), r) <==>
        && Admits(department, r.department)
        && Admits(view.semester, r.semester)
        && (view.year != AllOption ==> YearMatches(r, view.year))
        && searched
  {
  }
}
