/** `PollService.QueryPollsPaged`: the poll listing as a pipeline of filter,
    search, stable sort and paging over the rows the poll table returns. */
module PollQueries {
  import opened Wrappers
  import opened Text
  import opened Lists
  import opened Schema
  import Polls

  /** `PollQueryDto`. `voterId` and `forVoting` are accepted but never read. */
  datatype PollQuery = PollQuery(
    searchTerm: Option<string>,
    sortBy: Option<string>,
    sortDesc: bool,
    createdByEmail: Option<string>,
    voterId: Option<Id>,
    forVoting: bool,
    startDateFrom: Option<Day>,
    startDateTo: Option<Day>,
    page: int,
    pageSize: int)

  /** A query with every field at its default. */
  const DefaultQuery: PollQuery := PollQuery(None, None, false, None, None, false, None, None, 1, 10)

  /** `PagedResponseDto<PollResponseDto>`. */
  datatype PollPage = PollPage(data: seq<Polls.PollView>, pagination: Pagination)

  // ---------------------------------------------------------------------
  // FilterPolls

  /** The creator test; an absent or empty email lets every poll through. */
  function ByCreator(email: Option<string>): Poll -> bool {
    (p: Poll) => IsNullOrEmpty(email) || p.createdBy == email.value
  }

  /** The inclusive lower start-date bound, when given. */
  function StartsFrom(bound: Option<Day>): Poll -> bool {
    (p: Poll) => bound.None? || p.startDate >= bound.value
  }

  /** The inclusive upper start-date bound, when given. */
  function StartsBy(bound: Option<Day>): Poll -> bool {
    (p: Poll) => bound.None? || p.startDate <= bound.value
  }

  /** All three filter criteria of the query hold for `p`. */
  predicate PassesFilter(q: PollQuery, p: Poll) {
    ByCreator(q.createdByEmail)(p) && StartsFrom(q.startDateFrom)(p) && StartsBy(q.startDateTo)(p)
  }

  /** `PassesFilter` as a single `Where` test. */
  function FilterTest(q: PollQuery): Poll -> bool {
    (p: Poll) => PassesFilter(q, p)
  }

  /** `FilterPolls`: each criterion the query supplies narrows the list in turn. */
  function FilterPolls(polls: seq<Poll>, q: PollQuery): (r: seq<Poll>)
    ensures forall p :: multiset(r)[p] == if PassesFilter(q, p) then multiset(polls)[p] else 0
  {
    var byCreator := if IsNullOrEmpty(q.createdByEmail) then polls else Filter(polls, ByCreator(q.createdByEmail));
    var from := if q.startDateFrom.Some? then Filter(byCreator, StartsFrom(q.startDateFrom)) else byCreator;
    if q.startDateTo.Some? then Filter(from, StartsBy(q.startDateTo)) else from
  }

  /** The staged filter is a single pass keeping exactly the polls that meet
      every criterion, in their input order. */
  lemma FilterPollsIsOnePass(polls: seq<Poll>, q: PollQuery)
    ensures FilterPolls(polls, q) == Filter(polls, FilterTest(q))
  {
    var creator, from, to := ByCreator(q.createdByEmail), StartsFrom(q.startDateFrom), StartsBy(q.startDateTo);
    if IsNullOrEmpty(q.createdByEmail) {
      FilterAll(polls, creator);
    }
    if q.startDateFrom.None? {
      FilterAll(Filter(polls, creator), from);
    }
    if q.startDateTo.None? {
      FilterAll(Filter(Filter(polls, creator), from), to);
    }
    var both := (p: Poll) => creator(p) && from(p);
    FilterTwice(polls, creator, from, both);
    FilterTwice(polls, both, to, FilterTest(q));
  }

  // ---------------------------------------------------------------------
  // SearchPolls

  /** A non-empty title or description of `p`, lower-cased, contains `term`. */
  predicate MatchesTerm(p: Poll, term: string) {
    || (|p.title| > 0 && Contains(Lower(p.title), term))
    || (|p.description| > 0 && Contains(Lower(p.description), term))
  }

  /** The search test of the query; an absent or empty term matches everything. */
  predicate PassesSearch(q: PollQuery, p: Poll) {
    IsNullOrEmpty(q.searchTerm) || MatchesTerm(p, Lower(q.searchTerm.value))
  }

  /** `MatchesTerm` for a lower-cased term, as a `Where` test. */
  function SearchTest(term: string): Poll -> bool {
    (p: Poll) => MatchesTerm(p, term)
  }

  /** `SearchPolls`: the polls whose title or description contains the term, ignoring case. */
  function SearchPolls(polls: seq<Poll>, q: PollQuery): (r: seq<Poll>)
    ensures IsNullOrEmpty(q.searchTerm) ==> r == polls
    ensures forall p :: multiset(r)[p] == if PassesSearch(q, p) then multiset(polls)[p] else 0
  {
    if IsNullOrEmpty(q.searchTerm) then polls
    else Filter(polls, SearchTest(Lower(q.searchTerm.value)))
  }

  /** Searching ignores the case of the term: terms that lower-case alike find the same polls. */
  lemma SearchIgnoresCase(polls: seq<Poll>, q: PollQuery, term: string)
    requires q.searchTerm.Some? && Lower(term) == Lower(q.searchTerm.value)
    ensures SearchPolls(polls, q.(searchTerm := Some(term))) == SearchPolls(polls, q)
  {
    assert |term| == |Lower(term)| == |q.searchTerm.value|;
  }

  // ---------------------------------------------------------------------
  // SortPolls

  function TitleLe(a: Poll, b: Poll): bool { StrLe(a.title, b.title) }
  function StartLe(a: Poll, b: Poll): bool { a.startDate <= b.startDate }
  function EndLe(a: Poll, b: Poll): bool { a.endDate <= b.endDate }

  /** The key order `SortPolls` applies: by start date, newest first, when no
      key is named; by title, start date or end date for those keys, in either
      direction; none for any other key. */
  function SortOrder(q: PollQuery): Option<(Poll, Poll) -> bool> {
    KeyOrder(q.sortBy, q.sortDesc)
  }

  function KeyOrder(sortBy: Option<string>, descending: bool): Option<(Poll, Poll) -> bool> {
    if IsNullOrEmpty(sortBy) then Some(Reversed(StartLe))
    else
      var key := Lower(sortBy.value);
      var le :=
        if key == "title" then Some(TitleLe)
        else if key == "startdate" then Some(StartLe)
        else if key == "enddate" then Some(EndLe)
        else None;
      if le.Some? && descending then Some(Reversed(le.value)) else le
  }

  /** `SortPolls`: a stable sort by the query's key order; an unknown key leaves the list alone. */
  function SortPolls(polls: seq<Poll>, q: PollQuery): (r: seq<Poll>)
    ensures multiset(r) == multiset(polls)
    ensures SortOrder(q).None? ==> r == polls
  {
    match SortOrder(q)
    case None => polls
    case Some(le) => SortBy(polls, le)
  }

  /** Every key order `SortPolls` can choose compares any two polls and is transitive. */
  lemma SortOrderIsPreorder(q: PollQuery)
    requires SortOrder(q).Some?
    ensures TotalPreorder(SortOrder(q).value)
  {
    assert TotalPreorder(StartLe);
    assert TotalPreorder(EndLe);
    forall a: Poll, b: Poll ensures TitleLe(a, b) || TitleLe(b, a) {
      StrLeTotal(a.title, b.title);
    }
    forall a: Poll, b: Poll, c: Poll | TitleLe(a, b) && TitleLe(b, c) ensures TitleLe(a, c) {
      StrLeTransitive(a.title, b.title, c.title);
    }
    assert TotalPreorder(TitleLe);
    ReversedTotalPreorder(StartLe);
    ReversedTotalPreorder(EndLe);
    ReversedTotalPreorder(TitleLe);
  }

  /** With a known key the result is in key order, and polls the key cannot
      tell apart keep their input order (LINQ's `OrderBy` is stable). */
  lemma SortPollsOrdered(polls: seq<Poll>, q: PollQuery, c: Poll)
    requires SortOrder(q).Some?
    ensures Sorted(SortPolls(polls, q), SortOrder(q).value)
    ensures Ties(SortPolls(polls, q), SortOrder(q).value, c) == Ties(polls, SortOrder(q).value, c)
  {
    SortOrderIsPreorder(q);
    SortBySorted(polls, SortOrder(q).value);
    SortByStable(polls, SortOrder(q).value, c);
  }

  /** With no key the newest start date comes first. */
  lemma DefaultSortNewestFirst(polls: seq<Poll>, q: PollQuery)
    requires IsNullOrEmpty(q.sortBy)
    ensures forall i, j :: 0 <= i < j < |SortPolls(polls, q)| ==>
      SortPolls(polls, q)[i].startDate >= SortPolls(polls, q)[j].startDate
  {
    SortOrderIsPreorder(q);
    SortBySorted(polls, Reversed(StartLe));
  }

  // ---------------------------------------------------------------------
  // QueryPollsPaged

  /** The filtered, searched and sorted list the page is cut from: every row
      meeting the filter and the search, as often as the table holds it, and
      nothing else. */
  function ListPolls(rows: seq<Poll>, q: PollQuery): (r: seq<Poll>)
    ensures forall p :: multiset(r)[p] == if PassesFilter(q, p) && PassesSearch(q, p) then multiset(rows)[p] else 0
  {
    SortPolls(SearchPolls(FilterPolls(rows, q), q), q)
  }

  /** A poll that is not soft-deleted. */
  predicate IsLive(p: Poll) { !p.isDeleted }

  /** The response rows for `page`: each poll with its option rows. */
  ghost function Views(page: seq<Poll>, options: map<Id, PollOption>): (r: seq<Polls.PollView>)
    ensures |r| == |page|
    ensures forall i :: 0 <= i < |r| ==> r[i].poll == page[i] && r[i].options == Polls.OptionsOf(options, page[i].id)
  {
    seq(|page|, i requires 0 <= i < |page| => Polls.PollView(page[i], Polls.OptionsOf(options, page[i].id)))
  }

  /** `data` shows the live polls of `shown` and nothing else, in the order of
      `shown` and each as often as `shown` holds it, every one with exactly
      its option rows. */
  ghost predicate ShowsLiveRows(data: seq<Polls.PollView>, shown: seq<Poll>, options: map<Id, PollOption>) {
    && |data| == |Filter(shown, IsLive)|
    && (forall i :: 0 <= i < |data| ==> data[i].poll == Filter(shown, IsLive)[i])
    && (forall i :: 0 <= i < |data| ==> !data[i].poll.isDeleted && data[i].poll in shown)
    && (forall p :: p in shown && !p.isDeleted ==> exists i :: 0 <= i < |data| && data[i].poll == p)
    && (forall i :: 0 <= i < |data| ==> data[i].options.Keys == Polls.OptionIdsOf(options, data[i].poll.id))
    && (forall i, o :: 0 <= i < |data| && o in data[i].options ==> data[i].options[o] == options[o])
  }

  /** The page response for an already sorted listing: the counts cover the
      whole listing, deleted polls included; the page is cut first and its
      deleted polls dropped afterwards. */
  ghost function PageResponse(listed: seq<Poll>, options: map<Id, PollOption>, page: int, pageSize: int): (r: PollPage)
    requires pageSize >= 1
    ensures r.pagination.totalRecords == |listed|
    ensures r.pagination.page == page && r.pagination.pageSize == pageSize
    ensures r.pagination.totalPages == CeilDiv(|listed|, pageSize)
    ensures |r.data| <= pageSize
    ensures ShowsLiveRows(r.data, PageOf(listed, page, pageSize), options)
  {
    var shown := PageOf(listed, page, pageSize);
    LiveViews(shown, options);
    PollPage(Views(Filter(shown, IsLive), options), Pagination(|listed|, page, pageSize, CeilDiv(|listed|, pageSize)))
  }

  /** Dropping the deleted polls of `shown` keeps every live one, in order, and adds nothing. */
  lemma LiveViews(shown: seq<Poll>, options: map<Id, PollOption>)
    ensures ShowsLiveRows(Views(Filter(shown, IsLive), options), shown, options)
  {
    var live := Filter(shown, IsLive);
    var data := Views(live, options);
    forall p | p in shown && !p.isDeleted ensures exists i :: 0 <= i < |data| && data[i].poll == p {
      FilterMembership(shown, IsLive, p);
      var i :| 0 <= i < |live| && live[i] == p;
      assert data[i].poll == p;
    }
    forall i | 0 <= i < |data| ensures data[i].poll in shown {
      FilterMembership(shown, IsLive, live[i]);
    }
  }

  /** The listing holds as many polls as pass the filter and the search. */
  lemma ListedCount(rows: seq<Poll>, q: PollQuery)
    ensures |ListPolls(rows, q)| == |Filter(rows, QueryTest(q))|
  {
    var listed := ListPolls(rows, q);
    assert multiset(listed) == multiset(Filter(rows, QueryTest(q)));
    assert |listed| == |multiset(listed)|;
    assert |Filter(rows, QueryTest(q))| == |multiset(Filter(rows, QueryTest(q)))|;
  }

  /** Every listed poll is a row of the table that passes the filter and the search. */
  lemma ListedRow(rows: seq<Poll>, q: PollQuery, p: Poll)
    requires p in ListPolls(rows, q)
    ensures p in rows && PassesFilter(q, p) && PassesSearch(q, p)
  {
    assert multiset(ListPolls(rows, q))[p] > 0;
  }

  /** Every row of a page comes from the listing. */
  lemma PageRowListed(listed: seq<Poll>, page: int, pageSize: nat, p: Poll)
    requires p in PageOf(listed, page, pageSize)
    ensures p in listed
  {
    var k :| 0 <= k < |PageOf(listed, page, pageSize)| && PageOf(listed, page, pageSize)[k] == p;
    assert listed[SkipCount(page, pageSize) + k] == p;
  }

  /** The filter and the search of the query as one test. */
  function QueryTest(q: PollQuery): Poll -> bool {
    (p: Poll) => PassesFilter(q, p) && PassesSearch(q, p)
  }

  /** `rows` is the poll table in some order: each stored poll exactly once, and nothing else. */
  ghost predicate PollRows(rows: seq<Poll>, polls: map<Id, Poll>) {
    forall p :: multiset(rows)[p] == if p.id in polls && polls[p.id] == p then 1 else 0
  }

  /** A row of the table is the poll stored under its id. */
  lemma PollRowStored(rows: seq<Poll>, polls: map<Id, Poll>, p: Poll)
    requires PollRows(rows, polls) && p in rows
    ensures p.id in polls && polls[p.id] == p
  {
    assert multiset(rows)[p] > 0;
  }

  /** `QueryPollsPaged` over the poll table, read as `rows` in table order. */
  ghost function QueryPollsPaged(s: Store, rows: seq<Poll>, q: PollQuery): (r: PollPage)
    requires q.pageSize >= 1 && PollRows(rows, s.polls)
    // TotalRecords counts every stored poll that passes the filter and the search, deleted polls included.
    ensures r.pagination.totalRecords == |Filter(rows, QueryTest(q))|
    ensures r.pagination.page == q.page && r.pagination.pageSize == q.pageSize
    ensures |r.data| <= q.pageSize
    // Every row shown is a live stored poll that passes the filter and the search.
    ensures forall i :: 0 <= i < |r.data| ==>
      && r.data[i].poll.id in s.polls && s.polls[r.data[i].poll.id] == r.data[i].poll
      && !r.data[i].poll.isDeleted
      && PassesFilter(q, r.data[i].poll) && PassesSearch(q, r.data[i].poll)
  {
    var listed := ListPolls(rows, q);
    var r := PageResponse(listed, s.options, q.page, q.pageSize);
    ListedCount(rows, q);
    forall i | 0 <= i < |r.data|
      ensures && r.data[i].poll.id in s.polls && s.polls[r.data[i].poll.id] == r.data[i].poll
              && PassesFilter(q, r.data[i].poll) && PassesSearch(q, r.data[i].poll)
    {
      PageRowListed(listed, q.page, q.pageSize, r.data[i].poll);
      ListedRow(rows, q, r.data[i].poll);
      PollRowStored(rows, s.polls, r.data[i].poll);
    }
    r
  }

  /** Paging loses no live poll: the `i`-th poll of a listing, if not
      deleted, is shown on page `i / pageSize + 1`, which is within the page count. */
  lemma PageShowsEveryLivePoll(listed: seq<Poll>, options: map<Id, PollOption>, pageSize: int, i: nat)
    requires pageSize >= 1 && i < |listed| && !listed[i].isDeleted
    ensures var r := PageResponse(listed, options, i / pageSize + 1, pageSize);
      && 1 <= i / pageSize + 1 <= r.pagination.totalPages
      && exists k :: 0 <= k < |r.data| && r.data[k].poll == listed[i]
  {
    PagesCover(listed, pageSize, i);
    assert listed[i] in PageOf(listed, i / pageSize + 1, pageSize);
  }

  /** The same for the whole query: every live poll the filters and search
      let through is on the page its position in the sorted listing names. */
  lemma QueryShowsEveryLivePoll(s: Store, rows: seq<Poll>, q: PollQuery, i: nat)
    requires q.pageSize >= 1 && PollRows(rows, s.polls)
    requires i < |ListPolls(rows, q)| && !ListPolls(rows, q)[i].isDeleted
    requires q.page == i / q.pageSize + 1
    ensures var r := QueryPollsPaged(s, rows, q);
      && 1 <= q.page <= r.pagination.totalPages
      && exists k :: 0 <= k < |r.data| && r.data[k].poll == ListPolls(rows, q)[i]
  {
    PageShowsEveryLivePoll(ListPolls(rows, q), s.options, q.pageSize, i);
  }

  /** The result does not depend on `voterId` or `forVoting`: the listing is
      not narrowed to the polls a voter can still vote in. */
  lemma QueryIgnoresVoterFields(s: Store, rows: seq<Poll>, q: PollQuery, voterId: Option<Id>, forVoting: bool)
    requires q.pageSize >= 1 && PollRows(rows, s.polls)
    ensures QueryPollsPaged(s, rows, q.(voterId := voterId, forVoting := forVoting))
         == QueryPollsPaged(s, rows, q)
  {
    var q' := q.(voterId := voterId, forVoting := forVoting);
    assert FilterPolls(rows, q') == FilterPolls(rows, q);
    assert SearchPolls(FilterPolls(rows, q), q') == SearchPolls(FilterPolls(rows, q), q);
    assert ListPolls(rows, q') == ListPolls(rows, q);
  }
}
