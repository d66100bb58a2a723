/** The six listing operations of the notice service. Each reads the notice
    and scrap tables, selects rows with its own predicate and runs the shared
    pipeline of module Paging. */
module Listings {
  import opened Outcomes
  import opened Dates
  import opened Text
  import opened Tables
  import opened Paging

  /** A listing's filter request: four optional strings. */
  datatype NoticeFilter = NoticeFilter(
    categories: Option<string>,
    providers: Option<string>,
    startDate: Option<string>,
    endDate: Option<string>)

  /** An entry for notice `n` as `userId` sees it. */
  function Entry(n: Notice, scraps: seq<Scrap>, userId: int): NoticeSummary
  {
    Summarize(n, IsScrapped(scraps, userId, n.id))
  }

  function ScrapMark(scraps: seq<Scrap>, userId: int): Notice -> bool
  {
    (n: Notice) => IsScrapped(scraps, userId, n.id)
  }

  /** The matching rows, newest first. */
  function Ordered(notices: seq<Notice>, keep: Notice -> bool): (o: seq<Notice>)
    ensures SortedDesc(o)
    ensures forall x {:trigger multiset(o)[x]} :: multiset(o)[x] == if keep(x) then multiset(notices)[x] else 0
    ensures forall x {:trigger x in o} :: x in o <==> x in notices && keep(x)
    ensures |o| == |Filter(notices, keep)|
  {
    var o := SortByDateDesc(Filter(notices, keep));
    assert forall x :: x in o <==> x in multiset(o);
    o
  }

  /** The listing pipeline for the rows satisfying `keep`, entries marked
      against the scrap box of `userId`. */
  function Listing(notices: seq<Notice>, scraps: seq<Scrap>, userId: int, keep: Notice -> bool, page: int): (r: PagedNoticeList)
    requires page >= 1
    ensures r.page == page
    ensures r.totalNotice == |Filter(notices, keep)| && r.totalPage == TotalPages(r.totalNotice)
    ensures |r.notices| <= PageSize
    ensures forall i :: 0 <= i < |r.notices| ==>
              && Skip(page) + i < r.totalNotice
              && r.notices[i] == Entry(Ordered(notices, keep)[Skip(page) + i], scraps, userId)
    ensures Skip(page) < r.totalNotice ==> |r.notices| == Min(PageSize, r.totalNotice - Skip(page))
    ensures forall e :: e in r.notices ==> exists n :: n in notices && keep(n) && e == Entry(n, scraps, userId)
    ensures forall i, j :: 0 <= i < j < |r.notices| ==> DateLe(r.notices[j].date, r.notices[i].date)
    ensures r.notices == [] <==> page > r.totalPage
  {
    PagedEntries(notices, scraps, userId, keep, page);
    Paged(Filter(notices, keep), page, ScrapMark(scraps, userId))
  }

  /** The page of the ordered rows, in terms of the listing's own entries. */
  lemma PagedEntries(notices: seq<Notice>, scraps: seq<Scrap>, userId: int, keep: Notice -> bool, page: int)
    requires page >= 1
    ensures var r := Paged(Filter(notices, keep), page, ScrapMark(scraps, userId));
            && (forall i :: 0 <= i < |r.notices| ==>
                  && Skip(page) + i < |Ordered(notices, keep)|
                  && r.notices[i] == Entry(Ordered(notices, keep)[Skip(page) + i], scraps, userId))
            && (forall e :: e in r.notices ==> exists n :: n in notices && keep(n) && e == Entry(n, scraps, userId))
  {
    var o := Ordered(notices, keep);
    var mark := ScrapMark(scraps, userId);
    var r := Paged(Filter(notices, keep), page, mark);
    forall i | 0 <= i < |r.notices|
      ensures r.notices[i] == Entry(o[Skip(page) + i], scraps, userId)
    {
      var n := o[Skip(page) + i];
      assert mark(n) == IsScrapped(scraps, userId, n.id);
    }
    forall e | e in r.notices
      ensures exists n :: n in notices && keep(n) && e == Entry(n, scraps, userId)
    {
      var i :| 0 <= i < |r.notices| && r.notices[i] == e;
      var n := o[Skip(page) + i];
      assert n in o;
    }
  }

  /** Every matching notice shows up, as its entry, on some page. */
  lemma ListingComplete(notices: seq<Notice>, scraps: seq<Scrap>, userId: int, keep: Notice -> bool, n: Notice)
    requires n in notices && keep(n)
    ensures exists page :: page >= 1 && Entry(n, scraps, userId) in Listing(notices, scraps, userId, keep, page).notices
  {
    var k := PositionOf(notices, keep, n);
    PageOfPosition(k);
    ListingHolds(notices, scraps, userId, keep, k / PageSize + 1, k);
  }

  /** A matching notice has a position in the ordering. */
  lemma PositionOf(notices: seq<Notice>, keep: Notice -> bool, n: Notice) returns (k: nat)
    requires n in notices && keep(n)
    ensures k < |Ordered(notices, keep)| && Ordered(notices, keep)[k] == n
  {
    var o := Ordered(notices, keep);
    assert n in o;
    k :| 0 <= k < |o| && o[k] == n;
  }

  /** Position `k` of the ordering is an entry of the page that holds it. */
  lemma ListingHolds(notices: seq<Notice>, scraps: seq<Scrap>, userId: int, keep: Notice -> bool, page: int, k: nat)
    requires page >= 1
    requires Skip(page) <= k < Skip(page) + PageSize && k < |Ordered(notices, keep)|
    ensures Entry(Ordered(notices, keep)[k], scraps, userId) in Listing(notices, scraps, userId, keep, page).notices
  {
    ListingReaches(notices, scraps, userId, keep, page, k);
    var r := Listing(notices, scraps, userId, keep, page);
    assert r.notices[k - Skip(page)] == Entry(Ordered(notices, keep)[k], scraps, userId);
  }

  /** The page that holds position `k` of the ordering is long enough to show it. */
  lemma ListingReaches(notices: seq<Notice>, scraps: seq<Scrap>, userId: int, keep: Notice -> bool, page: int, k: nat)
    requires page >= 1
    requires Skip(page) <= k < Skip(page) + PageSize && k < |Ordered(notices, keep)|
    ensures k - Skip(page) < |Listing(notices, scraps, userId, keep, page).notices|
  {
    var r := Listing(notices, scraps, userId, keep, page);
    assert Skip(page) < r.totalNotice;
  }

  /** The scrap table only sets the `scrapped` flags: which notices a listing
      returns, and in what order, do not depend on it or on the user. */
  lemma ScrapsOnlyMark(notices: seq<Notice>, scraps1: seq<Scrap>, scraps2: seq<Scrap>, user1: int, user2: int, keep: Notice -> bool, page: int)
    requires page >= 1
    ensures var r1 := Listing(notices, scraps1, user1, keep, page);
            var r2 := Listing(notices, scraps2, user2, keep, page);
            && r1.totalNotice == r2.totalNotice && r1.totalPage == r2.totalPage
            && |r1.notices| == |r2.notices|
            && forall i :: 0 <= i < |r1.notices| ==> r1.notices[i].(scrapped := false) == r2.notices[i].(scrapped := false)
  {
  }

  lemma {:induction false} FilterCongruent<T(!new)>(s: seq<T>, p: T -> bool, q: T -> bool)
    requires forall x :: p(x) == q(x)
    ensures Filter(s, p) == Filter(s, q)
  {
    if s != [] {
      FilterCongruent(s[1..], p, q);
    }
  }

  /** Two predicates that agree on every notice give the same listing. */
  lemma ListingCongruent(notices: seq<Notice>, scraps: seq<Scrap>, userId: int, p: Notice -> bool, q: Notice -> bool, page: int)
    requires page >= 1
    requires forall n :: p(n) == q(n)
    ensures Listing(notices, scraps, userId, p, page) == Listing(notices, scraps, userId, q, page)
  {
    FilterCongruent(notices, p, q);
  }

  // ---------------------------------------------------------------- getNoticesByTime

  /** The predicate that keeps every row; also the constant mark of the scrapped listing. */
  function EveryNotice(): Notice -> bool
  {
    (n: Notice) => true
  }

  /** `getNoticesByTime`: every notice, newest first. */
  function GetNoticesByTime(notices: seq<Notice>, scraps: seq<Scrap>, userId: int, page: int): (r: PagedNoticeList)
    requires page >= 1
    ensures r.totalNotice == |notices|
    ensures forall e :: e in r.notices ==> exists n :: n in notices && e == Entry(n, scraps, userId)
  {
    var r := Listing(notices, scraps, userId, EveryNotice(), page);
    assert |Filter(notices, EveryNotice())| == |notices| by {
      assert forall x :: multiset(Filter(notices, EveryNotice()))[x] == multiset(notices)[x];
      assert multiset(Filter(notices, EveryNotice())) == multiset(notices);
    }
    r
  }

  // ------------------------------------------------------ getNoticesByFilterOrderByDate

  function StartDate(filter: NoticeFilter): string
  {
    filter.startDate.GetOr(DefaultStartDate)
  }

  function EndDate(filter: NoticeFilter): string
  {
    filter.endDate.GetOr(DefaultEndDate)
  }

  /** `categories?.split(',') || []`. */
  function CategoryList(filter: NoticeFilter): seq<string>
  {
    match filter.categories
    case None => []
    case Some(s) => Split(s, ',')
  }

  /** `providers?.split(',') || []`. */
  function ProviderList(filter: NoticeFilter): seq<string>
  {
    match filter.providers
    case None => []
    case Some(s) => Split(s, ',')
  }

  predicate InDateRange(start: string, end: string, n: Notice)
  {
    DateLe(start, n.date) && DateLe(n.date, end)
  }

  /** The `where` clause: `Between(start_date, end_date)` on the date, and
      `In(list)` on the mapped category and the provider name, each list
      imposing nothing when it is empty (the `null` branch). */
  predicate MatchesFilter(filter: NoticeFilter, n: Notice)
  {
    && InDateRange(StartDate(filter), EndDate(filter), n)
    && (|CategoryList(filter)| == 0 || n.mappedCategory in CategoryList(filter))
    && (|ProviderList(filter)| == 0 || n.providerName in ProviderList(filter))
  }

  /** An absent list admits every value; a present one exactly its comma-separated pieces. */
  predicate Admits(list: Option<string>, x: string)
  {
    list.None? || x in Split(list.value, ',')
  }

  /** What the `where` clause demands, in terms of the request's own fields:
      the date bounds or their defaults, and each list admitting its column. */
  lemma MatchesFilterMeans(filter: NoticeFilter, n: Notice)
    ensures MatchesFilter(filter, n) <==>
              && DateLe(filter.startDate.GetOr("2020-01-01"), n.date)
              && DateLe(n.date, filter.endDate.GetOr("2040-01-01"))
              && Admits(filter.categories, n.mappedCategory)
              && Admits(filter.providers, n.providerName)
  {
  }

  function FilterKeep(filter: NoticeFilter): Notice -> bool
  {
    (n: Notice) => MatchesFilter(filter, n)
  }

  /** `getNoticesByFilterOrderByDate`. */
  function GetNoticesByFilterOrderByDate(notices: seq<Notice>, scraps: seq<Scrap>, userId: int, filter: NoticeFilter, page: int): (r: PagedNoticeList)
    requires page >= 1
    ensures r.totalNotice == |Filter(notices, FilterKeep(filter))|
    ensures forall e :: e in r.notices ==> exists n ::
              && n in notices && e == Entry(n, scraps, userId)
              && DateLe(filter.startDate.GetOr("2020-01-01"), n.date)
              && DateLe(n.date, filter.endDate.GetOr("2040-01-01"))
              && Admits(filter.categories, n.mappedCategory)
              && Admits(filter.providers, n.providerName)
  {
    var r := Listing(notices, scraps, userId, FilterKeep(filter), page);
    assert forall e :: e in r.notices ==> exists n ::
        && n in notices && e == Entry(n, scraps, userId)
        && DateLe(filter.startDate.GetOr("2020-01-01"), n.date)
        && DateLe(n.date, filter.endDate.GetOr("2040-01-01"))
        && Admits(filter.categories, n.mappedCategory)
        && Admits(filter.providers, n.providerName) by {
      forall e | e in r.notices
        ensures exists n ::
          && n in notices && e == Entry(n, scraps, userId)
          && DateLe(filter.startDate.GetOr("2020-01-01"), n.date)
          && DateLe(n.date, filter.endDate.GetOr("2040-01-01"))
          && Admits(filter.categories, n.mappedCategory)
          && Admits(filter.providers, n.providerName)
      {
        var n :| n in notices && FilterKeep(filter)(n) && e == Entry(n, scraps, userId);
        MatchesFilterMeans(filter, n);
      }
    }
    r
  }

  /** Without category and provider lists only the date range constrains the listing. */
  lemma AbsentListsConstrainNothing(notices: seq<Notice>, scraps: seq<Scrap>, userId: int, filter: NoticeFilter, page: int)
    requires page >= 1
    requires filter.categories.None? && filter.providers.None?
    ensures GetNoticesByFilterOrderByDate(notices, scraps, userId, filter, page)
         == Listing(notices, scraps, userId, (n: Notice) => InDateRange(StartDate(filter), EndDate(filter), n), page)
  {
    ListingCongruent(notices, scraps, userId, FilterKeep(filter), (n: Notice) => InDateRange(StartDate(filter), EndDate(filter), n), page);
  }

  /** An empty filter, over notices dated inside the default window, lists
      exactly what getNoticesByTime lists. */
  lemma EmptyFilterListsEverything(notices: seq<Notice>, scraps: seq<Scrap>, userId: int, page: int)
    requires page >= 1
    requires forall n :: n in notices ==> InDateRange(DefaultStartDate, DefaultEndDate, n)
    ensures GetNoticesByFilterOrderByDate(notices, scraps, userId, NoticeFilter(None, None, None, None), page)
         == GetNoticesByTime(notices, scraps, userId, page)
  {
    var f := NoticeFilter(None, None, None, None);
    forall x | x in notices
      ensures FilterKeep(f)(x) == EveryNotice()(x)
    {
    }
    FilterSameOn(notices, FilterKeep(f), EveryNotice());
  }

  /** Filtering only consults the predicates on rows of the table. */
  lemma {:induction false} FilterSameOn<T(!new)>(s: seq<T>, p: T -> bool, q: T -> bool)
    requires forall x :: x in s ==> p(x) == q(x)
    ensures Filter(s, p) == Filter(s, q)
  {
    if s != [] {
      FilterSameOn(s[1..], p, q);
    }
  }

  /** A present but empty list is not "no constraint": "" splits to [""], so
      only notices whose label is "" pass. */
  lemma EmptyCategoryStringKeepsOnlyEmptyLabel(filter: NoticeFilter, n: Notice)
    requires filter.categories == Some("")
    ensures MatchesFilter(filter, n) ==> n.mappedCategory == ""
  {
    assert CategoryList(filter) == [""];
  }

  /** A category list without commas names one label: with no provider list
      the filter keeps exactly the notices of that label inside the bounds. */
  lemma SingleCategoryFilter(filter: NoticeFilter, n: Notice)
    requires filter.categories.Some? && ',' !in filter.categories.value && filter.providers.None?
    ensures MatchesFilter(filter, n) <==>
              InDateRange(StartDate(filter), EndDate(filter), n) && n.mappedCategory == filter.categories.value
  {
    SplitPlain(filter.categories.value, ',');
  }

  // -------------------------------------------- getNoticesByCategoryIdOrderByDate

  function CategoryKeep(categoryId: int): Notice -> bool
  {
    (n: Notice) => n.categoryId == categoryId
  }

  /** `getNoticesByCategoryIdOrderByDate`: `where: { category: { id: categoryId } }`. */
  function GetNoticesByCategoryIdOrderByDate(notices: seq<Notice>, scraps: seq<Scrap>, userId: int, categoryId: int, page: int): (r: PagedNoticeList)
    requires page >= 1
    ensures r.totalNotice == |Filter(notices, CategoryKeep(categoryId))|
    ensures forall e :: e in r.notices ==> exists n :: n in notices && n.categoryId == categoryId && e == Entry(n, scraps, userId)
  {
    Listing(notices, scraps, userId, CategoryKeep(categoryId), page)
  }

  // -------------------------------------------- getNoticesByProviderIdOrderByDate

  function ProviderKeep(providerId: int): Notice -> bool
  {
    (n: Notice) => n.providerId == providerId
  }

  /** `getNoticesByProviderIdOrderByDate`: `where: { category: { provider: { id } } }`. */
  function GetNoticesByProviderIdOrderByDate(notices: seq<Notice>, scraps: seq<Scrap>, userId: int, providerId: int, page: int): (r: PagedNoticeList)
    requires page >= 1
    ensures r.totalNotice == |Filter(notices, ProviderKeep(providerId))|
    ensures forall e :: e in r.notices ==> exists n :: n in notices && n.providerId == providerId && e == Entry(n, scraps, userId)
  {
    Listing(notices, scraps, userId, ProviderKeep(providerId), page)
  }

  // ---------------------------------------------------------------- searchNotice

  /** `title like %k% or content like %k% or writer like %k%`. */
  predicate MatchesKeyword(keyword: string, n: Notice)
  {
    Contains(n.title, keyword) || Contains(n.content, keyword) || Contains(n.writer, keyword)
  }

  function KeywordKeep(keyword: string): Notice -> bool
  {
    (n: Notice) => MatchesKeyword(keyword, n)
  }

  /** `searchNotice`. */
  function SearchNotice(notices: seq<Notice>, scraps: seq<Scrap>, keyword: string, userId: int, page: int): (r: PagedNoticeList)
    requires page >= 1
    ensures r.totalNotice == |Filter(notices, KeywordKeep(keyword))|
    ensures forall e :: e in r.notices ==> exists n ::
              && n in notices && e == Entry(n, scraps, userId)
              && ((exists i :: OccursAt(n.title, keyword, i))
                  || (exists i :: OccursAt(n.content, keyword, i))
                  || (exists i :: OccursAt(n.writer, keyword, i)))
  {
    var r := Listing(notices, scraps, userId, KeywordKeep(keyword), page);
    assert forall n :: MatchesKeyword(keyword, n) ==>
        ((exists i :: OccursAt(n.title, keyword, i))
         || (exists i :: OccursAt(n.content, keyword, i))
         || (exists i :: OccursAt(n.writer, keyword, i))) by {
      forall n | MatchesKeyword(keyword, n)
        ensures (exists i :: OccursAt(n.title, keyword, i))
             || (exists i :: OccursAt(n.content, keyword, i))
             || (exists i :: OccursAt(n.writer, keyword, i))
      {
        ContainsIff(n.title, keyword);
        ContainsIff(n.content, keyword);
        ContainsIff(n.writer, keyword);
      }
    }
    r
  }

  /** `%%` matches every row: an empty keyword lists what getNoticesByTime lists. */
  lemma EmptyKeywordListsEverything(notices: seq<Notice>, scraps: seq<Scrap>, userId: int, page: int)
    requires page >= 1
    ensures SearchNotice(notices, scraps, "", userId, page) == GetNoticesByTime(notices, scraps, userId, page)
  {
    forall n: Notice
      ensures KeywordKeep("")(n) == EveryNotice()(n)
    {
      assert n.title[..0] == "";
    }
    ListingCongruent(notices, scraps, userId, KeywordKeep(""), EveryNotice(), page);
  }

  // ---------------------------------------------------------- getScrappedNotices

  /** `getScrappedNotices`: the rows of the user's scrap box joined with their
      notices, ordered by the notice's date, every entry marked scrapped. */
  function GetScrappedNotices(notices: seq<Notice>, scraps: seq<Scrap>, userId: int, page: int): (r: PagedNoticeList)
    requires page >= 1
    requires ReferencesResolve(notices, scraps)
    ensures r.page == page
    ensures r.totalNotice == |UserScraps(scraps, userId)| && r.totalPage == TotalPages(r.totalNotice)
    ensures |r.notices| <= PageSize
    ensures forall i :: 0 <= i < |r.notices| ==>
              && Skip(page) + i < r.totalNotice
              && r.notices[i] == Summarize(SortByDateDesc(Joined(notices, UserScraps(scraps, userId)))[Skip(page) + i], true)
    ensures Skip(page) < r.totalNotice ==> |r.notices| == Min(PageSize, r.totalNotice - Skip(page))
    ensures forall e :: e in r.notices ==> e.scrapped
    ensures forall e :: e in r.notices ==> exists n :: n in notices && Scrap(userId, n.id) in scraps && e == Summarize(n, true)
    ensures forall i, j :: 0 <= i < j < |r.notices| ==> DateLe(r.notices[j].date, r.notices[i].date)
    ensures r.notices == [] <==> page > r.totalPage
  {
    var r := Paged(Joined(notices, UserScraps(scraps, userId)), page, EveryNotice());
    ScrappedEntries(notices, scraps, userId, page);
    r
  }

  /** Each entry of a page of the joined scrap box is a scrapped notice of the user. */
  lemma ScrappedEntries(notices: seq<Notice>, scraps: seq<Scrap>, userId: int, page: int)
    requires page >= 1
    requires ReferencesResolve(notices, scraps)
    ensures forall e :: e in Paged(Joined(notices, UserScraps(scraps, userId)), page, EveryNotice()).notices ==>
              exists n :: n in notices && Scrap(userId, n.id) in scraps && e == Summarize(n, true)
  {
    var rows := UserScraps(scraps, userId);
    var joined := Joined(notices, rows);
    var r := Paged(joined, page, EveryNotice());
    forall e | e in r.notices
      ensures exists n :: n in notices && Scrap(userId, n.id) in scraps && e == Summarize(n, true)
    {
      var i :| 0 <= i < |r.notices| && r.notices[i] == e;
      var n := SortByDateDesc(joined)[Skip(page) + i];
      assert n in multiset(SortByDateDesc(joined));
      JoinedRowScrapped(notices, scraps, userId, n);
    }
  }

  /** A notice of the joined scrap box is a notice the user scrapped. */
  lemma JoinedRowScrapped(notices: seq<Notice>, scraps: seq<Scrap>, userId: int, n: Notice)
    requires ReferencesResolve(notices, scraps)
    requires n in multiset(Joined(notices, UserScraps(scraps, userId)))
    ensures n in notices && Scrap(userId, n.id) in scraps
  {
    var rows := UserScraps(scraps, userId);
    var joined := Joined(notices, rows);
    var k :| 0 <= k < |joined| && joined[k] == n;
    assert rows[k] in rows;
  }

  /** Every notice the user has scrapped shows up, marked, on some page of
      the scrap box. */
  lemma ScrappedComplete(notices: seq<Notice>, scraps: seq<Scrap>, userId: int, n: Notice)
    requires StoreInvariant(notices, scraps)
    requires n in notices && Scrap(userId, n.id) in scraps
    ensures exists page :: page >= 1 && Summarize(n, true) in GetScrappedNotices(notices, scraps, userId, page).notices
  {
    var k := ScrappedPosition(notices, scraps, userId, n);
    PageOfPosition(k);
    ScrappedHolds(notices, scraps, userId, k / PageSize + 1, k);
  }

  /** A scrapped notice holds a position of the date-ordered scrap box: the
      join of its row is that very notice, since notice ids are unique. */
  lemma ScrappedPosition(notices: seq<Notice>, scraps: seq<Scrap>, userId: int, n: Notice) returns (k: nat)
    requires StoreInvariant(notices, scraps)
    requires n in notices && Scrap(userId, n.id) in scraps
    ensures k < |SortByDateDesc(Joined(notices, UserScraps(scraps, userId)))|
    ensures SortByDateDesc(Joined(notices, UserScraps(scraps, userId)))[k] == n
  {
    var rows := UserScraps(scraps, userId);
    var joined := Joined(notices, rows);
    assert Scrap(userId, n.id) in rows;
    var j :| 0 <= j < |rows| && rows[j] == Scrap(userId, n.id);
    var a :| 0 <= a < |notices| && notices[a] == joined[j];
    var b :| 0 <= b < |notices| && notices[b] == n;
    assert notices[a].id == notices[b].id;
    assert a == b;
    var sorted := SortByDateDesc(joined);
    assert n in multiset(joined);
    assert n in multiset(sorted);
    k :| 0 <= k < |sorted| && sorted[k] == n;
  }

  /** Position `k` of the ordered scrap box is an entry of the page that holds it. */
  lemma ScrappedHolds(notices: seq<Notice>, scraps: seq<Scrap>, userId: int, page: int, k: nat)
    requires page >= 1
    requires ReferencesResolve(notices, scraps)
    requires Skip(page) <= k < Skip(page) + PageSize
    requires k < |SortByDateDesc(Joined(notices, UserScraps(scraps, userId)))|
    ensures Summarize(SortByDateDesc(Joined(notices, UserScraps(scraps, userId)))[k], true)
              in GetScrappedNotices(notices, scraps, userId, page).notices
  {
    var r := GetScrappedNotices(notices, scraps, userId, page);
    assert Skip(page) < r.totalNotice;
    assert r.notices[k - Skip(page)] == Summarize(SortByDateDesc(Joined(notices, UserScraps(scraps, userId)))[k], true);
  }
}
