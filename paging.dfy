/** The pipeline every listing shares: order the selected rows by date,
    newest first; cut out the page window (`skip: (page - 1) * 10, take: 10`);
    mark each entry; report `page`, `totalNotice` and `totalPage`. */
module Paging {
  import opened Dates
  import opened Tables

  const PageSize: nat := 10

  /** `(page - 1) * 10`, the rows skipped before page `page`. */
  function Skip(page: int): nat
    requires page >= 1
  {
    (page - 1) * PageSize
  }

  function Min(a: int, b: int): int
  {
    if a <= b then a else b
  }

  /** `Math.ceil(total / 10)`, computed on integers. */
  function TotalPages(total: nat): (pages: nat)
    ensures pages * PageSize >= total
    ensures pages == 0 || (pages - 1) * PageSize < total
  {
    (total + PageSize - 1) / PageSize
  }

  /** A page has entries exactly when it is one of the first TotalPages pages. */
  lemma PageInRange(total: nat, page: int)
    requires page >= 1
    ensures Skip(page) < total <==> page <= TotalPages(total)
  {
    var pages := TotalPages(total);
    if page <= pages {
      assert (page - 1) * PageSize <= (pages - 1) * PageSize;
    } else {
      assert (page - 1) * PageSize >= pages * PageSize;
    }
  }

  /** Position `k` of an ordering lies on page `k / 10 + 1`, at index `k % 10`. */
  lemma PageOfPosition(k: nat)
    ensures Skip(k / PageSize + 1) <= k < Skip(k / PageSize + 1) + PageSize
    ensures k - Skip(k / PageSize + 1) == k % PageSize
  {
  }

  /** The rows `skip .. skip + 10` of `s`, clipped to its end. */
  function PageWindow<T>(s: seq<T>, page: int): (w: seq<T>)
    requires page >= 1
    ensures |w| == if Skip(page) < |s| then Min(PageSize, |s| - Skip(page)) else 0
    ensures forall i :: 0 <= i < |w| ==> w[i] == s[Skip(page) + i]
  {
    if Skip(page) < |s| then s[Skip(page)..Skip(page) + Min(PageSize, |s| - Skip(page))] else []
  }

  /** Non-increasing by date: `order: { date: 'DESC' }`. */
  ghost predicate SortedDesc(s: seq<Notice>)
  {
    forall i, j :: 0 <= i < j < |s| ==> DateLe(s[j].date, s[i].date)
  }

  lemma PrependSorted(h: Notice, t: seq<Notice>)
    requires SortedDesc(t)
    requires forall y :: y in t ==> DateLe(y.date, h.date)
    ensures SortedDesc([h] + t)
  {
    var s := [h] + t;
    forall i, j | 0 <= i < j < |s|
      ensures DateLe(s[j].date, s[i].date)
    {
      if i == 0 {
        assert s[j] in t;
      } else {
        assert s[i] == t[i - 1] && s[j] == t[j - 1];
      }
    }
  }

  /** Puts `x` in front of the first row that is not newer than it. */
  function InsertByDate(x: Notice, s: seq<Notice>): (r: seq<Notice>)
    requires SortedDesc(s)
    ensures SortedDesc(r)
    ensures multiset(r) == multiset(s) + multiset{x}
  {
    if s == [] then [x]
    else if DateLe(s[0].date, x.date) then
      assert forall y :: y in s ==> DateLe(y.date, x.date) by {
        forall y | y in s
          ensures DateLe(y.date, x.date)
        {
          var j :| 0 <= j < |s| && s[j] == y;
          if j > 0 {
            DateLeTransitive(y.date, s[0].date, x.date);
          } else {
            DateLeReflexive(y.date);
          }
        }
      }
      PrependSorted(x, s);
      [x] + s
    else
      var rest := InsertByDate(x, s[1..]);
      assert s == [s[0]] + s[1..];
      DateLeTotal(s[0].date, x.date);
      assert forall y :: y in rest ==> DateLe(y.date, s[0].date) by {
        forall y | y in rest
          ensures DateLe(y.date, s[0].date)
        {
          assert y in multiset(rest);
          if y != x {
            assert y in s[1..];
          }
        }
      }
      PrependSorted(s[0], rest);
      [s[0]] + rest
  }

  /** Insertion sort by date, newest first; rows with equal dates keep table order. */
  function SortByDateDesc(s: seq<Notice>): (r: seq<Notice>)
    ensures SortedDesc(r)
    ensures multiset(r) == multiset(s)
    ensures |r| == |s|
  {
    assert |multiset(s)| == |s|;
    if s == [] then []
    else
      assert s == [s[0]] + s[1..];
      InsertByDate(s[0], SortByDateDesc(s[1..]))
  }

  /** One entry of a listing: `{ id, title, date, scrapped }`. */
  datatype NoticeSummary = NoticeSummary(id: int, title: string, date: string, scrapped: bool)

  /** A listing response: `{ notices, page, totalNotice, totalPage }`. */
  datatype PagedNoticeList = PagedNoticeList(notices: seq<NoticeSummary>, page: int, totalNotice: nat, totalPage: nat)

  function Summarize(n: Notice, scrapped: bool): NoticeSummary
  {
    NoticeSummary(n.id, n.title, n.date, scrapped)
  }

  /** `notices.map(...)`, taking each entry's `scrapped` flag from `mark`. */
  function Annotate(ns: seq<Notice>, mark: Notice -> bool): seq<NoticeSummary>
  {
    seq(|ns|, i requires 0 <= i < |ns| => Summarize(ns[i], mark(ns[i])))
  }

  /** The shared pipeline over the selected rows `rows`. */
  function Paged(rows: seq<Notice>, page: int, mark: Notice -> bool): (r: PagedNoticeList)
    requires page >= 1
    ensures r.page == page
    ensures r.totalNotice == |rows| && r.totalPage == TotalPages(|rows|)
    ensures |r.notices| <= PageSize
    ensures |r.notices| == if Skip(page) < |rows| then Min(PageSize, |rows| - Skip(page)) else 0
    ensures forall i :: 0 <= i < |r.notices| ==>
              && Skip(page) + i < |rows|
              && var n := SortByDateDesc(rows)[Skip(page) + i]; r.notices[i] == Summarize(n, mark(n))
    ensures forall i, j :: 0 <= i < j < |r.notices| ==> DateLe(r.notices[j].date, r.notices[i].date)
    ensures r.notices == [] <==> page > r.totalPage
  {
    var ordered := SortByDateDesc(rows);
    PageInRange(|rows|, page);
    PagedNoticeList(Annotate(PageWindow(ordered, page), mark), page, |rows|, TotalPages(|rows|))
  }
}
