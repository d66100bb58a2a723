/** Two worked scenarios: a filtered listing over two notices, and a user
    toggling a scrap twice through the service object. */
module Examples {
  import opened Outcomes
  import opened Dates
  import opened Tables
  import opened Paging
  import opened Listings
  import opened Service

  function Announcement(): Notice
  {
    Notice(1, "Notice A", "body", "2021-06-01", "office", "url-a", 0, 10, "공지사항", "공지사항", 100, "정보대학")
  }

  function Academic(): Notice
  {
    Notice(2, "Notice B", "body", "2025-01-01", "office", "url-b", 0, 20, "학사", "학사", 200, "미디어학부")
  }

  function CategoryWindow(): NoticeFilter
  {
    NoticeFilter(Some("공지사항"), None, Some("2020-01-01"), Some("2024-01-01"))
  }

  lemma CategoryWindowSelects()
    ensures MatchesFilter(CategoryWindow(), Announcement())
    ensures !MatchesFilter(CategoryWindow(), Academic())
  {
    DateLeAtFirstDifference("2020-01-01", Announcement().date, 3);
    DateLeAtFirstDifference(Announcement().date, "2024-01-01", 3);
    DateLeAtFirstDifference("2024-01-01", Academic().date, 3);
    SingleCategoryFilter(CategoryWindow(), Announcement());
    SingleCategoryFilter(CategoryWindow(), Academic());
  }

  lemma DatesOrdered()
    ensures DateLe(Announcement().date, Academic().date) && !DateLe(Academic().date, Announcement().date)
  {
    DateLeAtFirstDifference(Announcement().date, Academic().date, 3);
  }

  /** Both notices fall inside the default date window. */
  lemma InDefaultWindow()
    ensures InDateRange(DefaultStartDate, DefaultEndDate, Announcement())
    ensures InDateRange(DefaultStartDate, DefaultEndDate, Academic())
  {
    DateLeAtFirstDifference(DefaultStartDate, Announcement().date, 3);
    DateLeAtFirstDifference(Announcement().date, DefaultEndDate, 2);
    DateLeAtFirstDifference(DefaultStartDate, Academic().date, 3);
    DateLeAtFirstDifference(Academic().date, DefaultEndDate, 2);
  }

  /** Filtering on category "공지사항" between 2020-01-01 and 2024-01-01 keeps
      only the 2021 notice. */
  lemma CategoryWindowListing()
    ensures var r := GetNoticesByFilterOrderByDate([Announcement(), Academic()], [], 7, CategoryWindow(), 1);
            r.notices == [Summarize(Announcement(), false)] && r.totalNotice == 1 && r.totalPage == 1
  {
    var a := Announcement();
    CategoryWindowRows();
    assert SortByDateDesc([a]) == [a];
    FirstPageUnscrapped([a], 7);
    var r := Paged([a], 1, ScrapMark([], 7));
    assert r.notices == [Summarize(a, false)];
    assert GetNoticesByFilterOrderByDate([a, Academic()], [], 7, CategoryWindow(), 1) == r;
  }

  lemma CategoryWindowRows()
    ensures Filter([Announcement(), Academic()], FilterKeep(CategoryWindow())) == [Announcement()]
  {
    CategoryWindowSelects();
    FilterPair(Announcement(), Academic(), FilterKeep(CategoryWindow()));
  }

  /** With no filter at all both notices are listed, the newest first. */
  lemma UnfilteredListing()
    ensures var r := GetNoticesByFilterOrderByDate([Announcement(), Academic()], [], 7, NoticeFilter(None, None, None, None), 1);
            r.notices == [Summarize(Academic(), false), Summarize(Announcement(), false)] && r.totalNotice == 2
  {
    InDefaultWindow();
    DatesOrdered();
    UnfilteredPair(Announcement(), Academic(), 7);
  }

  /** Two notices inside the default window, `b` strictly newer than `a`, and
      no scraps: the empty filter lists `b` then `a`, neither marked. */
  lemma UnfilteredPair(a: Notice, b: Notice, userId: int)
    requires InDateRange(DefaultStartDate, DefaultEndDate, a) && InDateRange(DefaultStartDate, DefaultEndDate, b)
    requires DateLe(a.date, b.date) && !DateLe(b.date, a.date)
    ensures var r := GetNoticesByFilterOrderByDate([a, b], [], userId, NoticeFilter(None, None, None, None), 1);
            r.notices == [Summarize(b, false), Summarize(a, false)] && r.totalNotice == 2
  {
    var keep := FilterKeep(NoticeFilter(None, None, None, None));
    assert keep(a) && keep(b);
    FilterPair(a, b, keep);
    assert SortByDateDesc([a, b]) == [b, a];
    FirstPageUnscrapped([a, b], userId);
    var r := Paged([a, b], 1, ScrapMark([], userId));
    assert r.notices == [Summarize(b, false), Summarize(a, false)];
  }

  /** Filtering a two-row table keeps each row on its own. */
  lemma FilterPair(a: Notice, b: Notice, keep: Notice -> bool)
    ensures Filter([a, b], keep) == (if keep(a) then [a] else []) + (if keep(b) then [b] else [])
  {
    assert [a, b][1..] == [b] && [b][1..] == [];
  }

  /** With an empty scrap table, the first page of at most ten rows is the
      whole ordering, no entry marked scrapped. */
  lemma FirstPageUnscrapped(rows: seq<Notice>, userId: int)
    requires |rows| <= PageSize
    ensures var r := Paged(rows, 1, ScrapMark([], userId));
            && |r.notices| == |rows|
            && forall i :: 0 <= i < |rows| ==> r.notices[i] == Summarize(SortByDateDesc(rows)[i], false)
  {
  }

  /** A user without scraps scraps notice 5, then un-scraps it. */
  method ToggleScenario() returns (first: Result<bool, ServiceError>, second: Result<bool, ServiceError>, left: seq<Scrap>)
    ensures first == Success(true) && second == Success(false) && left == []
  {
    var n := Notice(5, "Notice", "body", "2024-03-01", "office", "url", 0, 10, "학사", "학사", 100, "정보대학");
    assert HasNotice([n], 5);
    var service := new NoticeService([n], []);
    first := service.ScrapNotice(42, 5);
    assert service.scraps == [Scrap(42, 5)];
    second := service.ScrapNotice(42, 5);
    left := service.scraps;
  }
}
