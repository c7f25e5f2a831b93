/**
 * The view model of the doctors screen: which table query feeds the list for
 * the current search text, which feeds the recent list, and what selecting a
 * doctor and navigating do.  The search text arrives already debounced.
 */
module ViewModel {
  import opened Wrappers
  import opened Model
  import opened Dao
  import Repository
  import DateTimeConverter

  /** The search text before the user types anything. */
  const EmptyQuery: string := ""

  /** The whitespace characters below U+0080 (tab to carriage return, the four separators, space). */
  predicate IsWhitespace(c: char) {
    '\t' <= c <= '\r' || '\U{1C}' <= c <= '\U{1F}' || c == ' '
  }

  /** Kotlin's `isNullOrBlank` on a non-null string: empty or whitespace only. */
  predicate IsBlank(q: string) {
    forall i :: 0 <= i < |q| ==> IsWhitespace(q[i])
  }

  /** The LIKE pattern built from the search text: `%query%`. */
  function SearchPattern(query: string): (p: string)
    ensures IsContainsPattern(p)
    ensures p[1..|p| - 1] == query
    ensures |p| == |query| + 2
  {
    "%" + query + "%"
  }

  /** The query the doctor list is read from. */
  datatype DoctorsSource = PagedListing | ByName(pattern: string)

  /** A blank search shows the paged listing; any other searches by name. */
  function RouteDoctors(query: string): (r: DoctorsSource)
    ensures r.PagedListing? <==> IsBlank(query)
    ensures r.ByName? ==> r.pattern == SearchPattern(query)
  {
    if IsBlank(query) then PagedListing else ByName(SearchPattern(query))
  }

  /** The filter of the table query behind a source. */
  function SourceFilter(s: DoctorsSource): Filter {
    match s
    case PagedListing => NotRecent
    case ByName(p) => NameMatches(p)
  }

  /** A non-blank search keeps exactly the doctors whose name contains it, ignoring ASCII case. */
  lemma SearchMatchesContainingNames(query: string, row: DoctorViewItem)
    requires !IsBlank(query)
    ensures Keeps(SourceFilter(RouteDoctors(query)), row) <==> Contains(Lower(row.name), Lower(query))
  {
    NameLikeContains(row.name, query);
  }

  /** A blank search shows exactly the doctors not marked recent. */
  lemma BlankQueryShowsNonRecent(query: string, row: DoctorViewItem)
    requires IsBlank(query)
    ensures Keeps(SourceFilter(RouteDoctors(query)), row) <==> !row.isRecent
  {
  }

  /** Lower-casing twice is lower-casing once. */
  lemma LowerIdempotent(s: string)
    ensures Lower(Lower(s)) == Lower(s)
  {
    forall i | 0 <= i < |s|
      ensures Lower(Lower(s))[i] == Lower(s)[i]
    {
      assert Lower(s)[i] == if 'A' <= s[i] <= 'Z' then (s[i] as int + 32) as char else s[i];
    }
  }

  /** The search ignores the case of the ASCII letters typed. */
  lemma SearchIgnoresCase(query: string, name: string)
    ensures NameLike(name, SearchPattern(query)) <==> NameLike(name, SearchPattern(Lower(query)))
  {
    NameLikeContains(name, query);
    NameLikeContains(name, Lower(query));
    LowerIdempotent(query);
  }

  /** The recent list ignores blankness: the empty search keeps every recent doctor. */
  lemma EmptySearchKeepsAllRecent(row: DoctorViewItem)
    ensures Keeps(RecentNameMatches(SearchPattern(EmptyQuery)), row) <==> row.isRecent
  {
    NameLikeContains(row.name, EmptyQuery);
    assert Lower(row.name)[0..] == Lower(row.name);
    assert "" <= Lower(row.name)[0..];
  }

  class DoctorsViewModel {
    const repository: Repository.DoctorsRepository
    /** `DetailContract.actionId`, a generated resource id. */
    const detailActionId: int
    /** The debounced search text. */
    var query: string
    /** The doctor last selected (`doctorLiveData`). */
    var selectedDoctor: Option<DoctorViewItem>
    /** The pending navigation event (`navigationLiveData`). */
    var navigation: Option<int>
    /**
     * The current listing (`repoResult.value`), known here by the number of
     * times its retry has been invoked; None until the listing exists.
     */
    var listingRetries: Option<nat>

    constructor (repository: Repository.DoctorsRepository, detailActionId: int)
      ensures this.repository == repository && this.detailActionId == detailActionId
      ensures query == EmptyQuery && selectedDoctor == None && navigation == None
      ensures listingRetries == None
    {
      this.repository := repository;
      this.detailActionId := detailActionId;
      query := EmptyQuery;
      selectedDoctor := None;
      navigation := None;
      listingRetries := None;
    }

    /** A search text that survived the debounce becomes the current query. */
    method OnQuery(q: string)
      modifies this
      ensures query == q
      ensures selectedDoctor == old(selectedDoctor) && navigation == old(navigation)
      ensures listingRetries == old(listingRetries)
    {
      query := q;
    }

    /** The trigger reaches `repoResult`: the repository's listing is created, once. */
    method LoadListing()
      modifies this
      ensures listingRetries == if old(listingRetries).None? then Some(0) else old(listingRetries)
      ensures query == old(query) && selectedDoctor == old(selectedDoctor) && navigation == old(navigation)
    {
      if listingRetries.None? {
        listingRetries := Some(0);
      }
    }

    /** `retry`: nothing without a listing, otherwise one call of the listing's retry. */
    method Retry()
      modifies this
      ensures old(listingRetries).None? ==> listingRetries == None
      ensures old(listingRetries).Some? ==> listingRetries == Some(old(listingRetries).value + 1)
      ensures query == old(query) && selectedDoctor == old(selectedDoctor) && navigation == old(navigation)
    {
      if listingRetries.Some? {
        listingRetries := Some(listingRetries.value + 1);
      }
    }

    /** `doctors`: the rows the list shows for the current query. */
    ghost function Doctors(): (r: seq<DoctorViewItem>)
      reads this, repository, repository.dao
      requires repository.dao.Valid()
      ensures IsSelection(repository.dao.rows, SourceFilter(RouteDoctors(query)), Rating, r)
    {
      match RouteDoctors(query)
      case PagedListing => GetDoctorList(repository.dao.rows)
      case ByName(p) => repository.GetDoctorsByName(p)
    }

    /** `recentDoctors`: the recent list, always filtered by `%query%`, blank or not. */
    ghost function RecentDoctors(): (r: seq<DoctorViewItem>)
      reads this, repository, repository.dao
      requires repository.dao.Valid()
      ensures |r| <= Repository.RecentDoctorCountMax
      ensures forall row :: row in r ==> row.isRecent && NameLike(row.name, SearchPattern(query))
      ensures r == GetRecentDoctorList(repository.dao.rows, SearchPattern(query))
    {
      repository.GetRecentDoctors(SearchPattern(query))
    }

    /**
     * `setSelectedDoctor`: publish the doctor and record the visit at `now`;
     * `evicted` is the doctor that lost its recent mark, if any.
     */
    method SetSelectedDoctor(doctor: DoctorViewItem, now: DateTimeConverter.Long) returns (evicted: Option<string>)
      requires repository.dao.Valid()
      modifies this, repository.dao
      ensures repository.dao.Valid()
      ensures selectedDoctor == Some(doctor)
      ensures query == old(query) && navigation == old(navigation) && listingRetries == old(listingRetries)
      ensures Repository.VisitOutcome(old(repository.dao.rows), now as int, doctor.id, evicted, repository.dao.rows)
    {
      selectedDoctor := Some(doctor);
      evicted := repository.UpdateVisitingTimeById(doctor.id, now);
    }

    /** `navigate`: post the detail screen's action. */
    method Navigate()
      modifies this
      ensures navigation == Some(detailActionId)
      ensures query == old(query) && selectedDoctor == old(selectedDoctor) && listingRetries == old(listingRetries)
    {
      navigation := Some(detailActionId);
    }
  }

  /**
   * Selecting a stored doctor with a clock later than every recent visit puts
   * it at the head of the recent list the screen shows, whatever the search
   * text, provided its name matches that search.
   */
  lemma SelectedDoctorHeadsRecentList(before: Table, now: int, doctor: DoctorViewItem, evicted: Option<string>,
                                      after: Table, query: string)
    requires WellKeyed(before)
    requires Repository.VisitOutcome(before, now, doctor.id, evicted, after)
    requires doctor.id in before && NameLike(before[doctor.id].name, SearchPattern(query))
    requires forall k :: k in before && k != doctor.id && before[k].isRecent ==> before[k].recentVisiting < now
    ensures WellKeyed(after)
    ensures |GetRecentDoctorList(after, SearchPattern(query))| > 0
    ensures GetRecentDoctorList(after, SearchPattern(query))[0] == before[doctor.id].(recentVisiting := now, isRecent := true)
  {
    Repository.LatestVisitHeadsRecentList(before, now, doctor.id, evicted, after, SearchPattern(query));
    Repository.LatestVisitStaysRecent(before, now, doctor.id, evicted, after);
    Repository.VisitKeepsRows(before, now, doctor.id, evicted, after);
    assert Repository.SameDoctor(after[doctor.id], before[doctor.id]);
  }
}
