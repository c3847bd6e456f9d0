/**
 * The resource browser's `filteredResources`: five conditional filters
 * applied one after another to the catalog (bookmarks, department, type,
 * semester, free-text search). The catalog itself is a parameter.
 */
module CatalogFilter {
  import opened Optional
  import opened Text
  import opened Seqs
  import opened ResourceTypes

  /** The browser's selections. */
  datatype CatalogView = CatalogView(
    query: string,
    department: Facet<Department>,
    kind: Facet<ResourceType>,
    semester: Facet<Semester>,
    bookmarksOnly: bool)

  /** The view with nothing selected: all facets `'all'`, no query, bookmarks off. */
  const Unfiltered := CatalogView("", Any, Any, Any, false)

  /** The search test: the lowercased title, description or uploader contains `needle`. */
  predicate SearchHit(r: Resource, needle: string) {
    || Contains(Lower(r.title), needle)
    || Contains(Lower(r.description), needle)
    || Contains(Lower(r.uploadedBy), needle)
  }

  function IsBookmarkedResource(bookmarks: seq<string>): Resource -> bool {
    (r: Resource) => r.id in bookmarks
  }

  function InDepartment(f: Facet<Department>): Resource -> bool {
    (r: Resource) => Admits(f, r.department)
  }

  function OfKind(f: Facet<ResourceType>): Resource -> bool {
    (r: Resource) => Admits(f, r.kind)
  }

  function InSemester(f: Facet<Semester>): Resource -> bool {
    (r: Resource) => Admits(f, r.semester)
  }

  /** The search predicate for the lowercased, untrimmed query. */
  function MatchesQuery(query: string): Resource -> bool {
    (r: Resource) => SearchHit(r, Lower(query))
  }

  /** The conjunction of every active criterion; a blank query is no criterion. */
  predicate CatalogMatches(view: CatalogView, bookmarks: seq<string>, r: Resource) {
    && (view.bookmarksOnly ==> r.id in bookmarks)
    && Admits(view.department, r.department)
    && Admits(view.kind, r.kind)
    && Admits(view.semester, r.semester)
    && (!IsBlank(view.query) ==> SearchHit(r, Lower(view.query)))
  }

  function CatalogPredicate(view: CatalogView, bookmarks: seq<string>): Resource -> bool {
    (r: Resource) => CatalogMatches(view, bookmarks, r)
  }

  /**
   * `filteredResources`. Applying the five steps in sequence is the same as
   * one filter by the conjunction of the active criteria, so the result is the
   * catalog's subsequence of exactly the matching resources.
   */
  function FilterResources(catalog: seq<Resource>, view: CatalogView, bookmarks: seq<string>): (r: seq<Resource>)
    ensures r == Filter(catalog, CatalogPredicate(view, bookmarks))
    ensures Subseq(r, catalog)
    ensures forall x :: x in r ==> x in catalog && CatalogMatches(view, bookmarks, x)
    ensures forall i :: 0 <= i < |catalog| && CatalogMatches(view, bookmarks, catalog[i]) ==> catalog[i] in r
  {
    var byBookmark := FilterWhen(catalog, view.bookmarksOnly, IsBookmarkedResource(bookmarks));
    var byDepartment := FilterWhen(byBookmark, view.department.Only?, InDepartment(view.department));
    var byKind := FilterWhen(byDepartment, view.kind.Only?, OfKind(view.kind));
    var bySemester := FilterWhen(byKind, view.semester.Only?, InSemester(view.semester));
    var bySearch := FilterWhen(bySemester, !IsBlank(view.query), MatchesQuery(view.query));
    SequentialIsConjunctive(catalog, view, bookmarks);
    bySearch
  }

  /** The five guarded criteria, conjoined in the order the steps apply them. */
  function Steps(view: CatalogView, bookmarks: seq<string>): Resource -> bool {
    Both(Both(Both(Both(
      Guard(view.bookmarksOnly, IsBookmarkedResource(bookmarks)),
      Guard(view.department.Only?, InDepartment(view.department))),
      Guard(view.kind.Only?, OfKind(view.kind))),
      Guard(view.semester.Only?, InSemester(view.semester))),
      Guard(!IsBlank(view.query), MatchesQuery(view.query)))
  }

  /** On a single resource the conjoined steps decide what `CatalogMatches` decides. */
  lemma StepsDecideMatch(view: CatalogView, bookmarks: seq<string>, r: Resource)
    ensures Steps(view, bookmarks)(r) == CatalogMatches(view, bookmarks, r)
  {
    var searching := !IsBlank(view.query);
    var hit := SearchHit(r, Lower(view.query));
    assert Guard(searching, MatchesQuery(view.query))(r) == (!searching || hit);
    assert Guard(view.bookmarksOnly, IsBookmarkedResource(bookmarks))(r) == (view.bookmarksOnly ==> r.id in bookmarks);
    assert Guard(view.department.Only?, InDepartment(view.department))(r) == Admits(view.department, r.department);
    assert Guard(view.kind.Only?, OfKind(view.kind))(r) == Admits(view.kind, r.kind);
    assert Guard(view.semester.Only?, InSemester(view.semester))(r) == Admits(view.semester, r.semester);
  }

  /** The five sequential steps equal the one conjunctive filter. */
  lemma SequentialIsConjunctive(catalog: seq<Resource>, view: CatalogView, bookmarks: seq<string>)
    ensures
      var byBookmark := FilterWhen(catalog, view.bookmarksOnly, IsBookmarkedResource(bookmarks));
      var byDepartment := FilterWhen(byBookmark, view.department.Only?, InDepartment(view.department));
      var byKind := FilterWhen(byDepartment, view.kind.Only?, OfKind(view.kind));
      var bySemester := FilterWhen(byKind, view.semester.Only?, InSemester(view.semester));
      FilterWhen(bySemester, !IsBlank(view.query), MatchesQuery(view.query))
        == Filter(catalog, CatalogPredicate(view, bookmarks))
  {
    FiveFiltersFuse(catalog, view.bookmarksOnly, IsBookmarkedResource(bookmarks),
      view.department.Only?, InDepartment(view.department), view.kind.Only?, OfKind(view.kind),
      view.semester.Only?, InSemester(view.semester), !IsBlank(view.query), MatchesQuery(view.query));
    forall i | 0 <= i < |catalog|
      ensures Steps(view, bookmarks)(catalog[i]) == CatalogPredicate(view, bookmarks)(catalog[i])
    {
      StepsDecideMatch(view, bookmarks, catalog[i]);
    }
    FilterAgrees(catalog, Steps(view, bookmarks), CatalogPredicate(view, bookmarks));
  }

  /** With nothing selected the browser shows the whole catalog, in catalog order. */
  lemma UnfilteredShowsAll(catalog: seq<Resource>, bookmarks: seq<string>)
    ensures FilterResources(catalog, Unfiltered, bookmarks) == catalog
  {
    assert IsBlank("");
    FilterKeepsAll(catalog, CatalogPredicate(Unfiltered, bookmarks));
  }

  /** A whitespace-only query filters nothing: the result is the one for the empty query. */
  lemma BlankQueryIgnored(catalog: seq<Resource>, view: CatalogView, bookmarks: seq<string>)
    requires IsBlank(view.query)
    ensures FilterResources(catalog, view, bookmarks) == FilterResources(catalog, view.(query := ""), bookmarks)
  {
    assert IsBlank("");
    FilterAgrees(catalog, CatalogPredicate(view, bookmarks), CatalogPredicate(view.(query := ""), bookmarks));
  }
}
