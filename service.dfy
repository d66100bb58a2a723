/** The two operations of the notice service that change the store: reading a
    notice's detail, which counts a view, and toggling a scrap. */
module Service {
  import opened Outcomes
  import opened Tables

  datatype ServiceError =
    | NoticeNotFound           // getNoticeInfoById dereferences a missing row
    | UnknownNoticeReference   // the store refuses a scrap row for a missing notice

  /** The detail response of getNoticeInfoById. */
  datatype NoticeInfo = NoticeInfo(
    id: int,
    title: string,
    content: string,
    date: string,
    view: nat,
    url: string,
    scrapped: bool,
    writer: string,
    scrapCount: nat,
    category: string,
    provider: string)

  /** The detail of a notice row; `scrapped` and `scrapCount` are fixed placeholders. */
  function Detail(n: Notice): NoticeInfo
  {
    NoticeInfo(n.id, n.title, n.content, n.date, n.view, n.url, false, n.writer, 0, n.categoryName, n.providerName)
  }

  /** The outcome of getNoticeInfoById on `notices`: the response and the new notice table. */
  function ViewNotice(notices: seq<Notice>, id: int): (out: (Result<NoticeInfo, ServiceError>, seq<Notice>))
    ensures out.0.Success? <==> HasNotice(notices, id)
    ensures out.0.Failure? ==> out.0.error == NoticeNotFound && out.1 == notices
    ensures |out.1| == |notices|
    ensures UniqueIds(notices) ==> forall j :: 0 <= j < |notices| ==>
              out.1[j] == if notices[j].id == id then notices[j].(view := notices[j].view + 1) else notices[j]
    ensures out.0.Success? ==> exists j ::
              && 0 <= j < |notices| && notices[j].id == id
              && out.1[j].view == notices[j].view + 1 && out.0.value == Detail(out.1[j])
    ensures out.0.Success? ==> out.0.value.id == id && !out.0.value.scrapped && out.0.value.scrapCount == 0
  {
    match FindNotice(notices, id)
    case None => (Failure(NoticeNotFound), notices)
    case Some(k) =>
      var updated := notices[k := notices[k].(view := notices[k].view + 1)];
      (Success(Detail(updated[k])), updated)
  }

  /** Counting a view changes no id, so the store invariant survives it. */
  lemma ViewKeepsStoreInvariant(notices: seq<Notice>, scraps: seq<Scrap>, id: int)
    requires StoreInvariant(notices, scraps)
    ensures StoreInvariant(ViewNotice(notices, id).1, scraps)
  {
    var after := ViewNotice(notices, id).1;
    forall j | 0 <= j < |notices|
      ensures after[j].id == notices[j].id
    {
    }
    forall row | row in scraps
      ensures HasNotice(after, row.noticeId)
    {
      var n :| n in notices && n.id == row.noticeId;
      var j :| 0 <= j < |notices| && notices[j] == n;
      assert after[j] in after;
    }
  }

  /** `scraps[..k] + scraps[k+1..]`: the table with its row `k` deleted. */
  function RemoveAt(scraps: seq<Scrap>, k: nat): (r: seq<Scrap>)
    requires k < |scraps|
    ensures multiset(r) == multiset(scraps) - multiset{scraps[k]}
    ensures UniqueRows(scraps) ==> UniqueRows(r) && scraps[k] !in r
  {
    assert scraps == scraps[..k] + [scraps[k]] + scraps[k + 1..];
    var r := scraps[..k] + scraps[k + 1..];
    assert forall i :: 0 <= i < |r| ==> r[i] == scraps[if i < k then i else i + 1];
    r
  }

  /** The outcome of scrapNotice on the store: the answer and the new scrap table. */
  function ToggleScrap(notices: seq<Notice>, scraps: seq<Scrap>, userId: int, noticeId: int): (out: (Result<bool, ServiceError>, seq<Scrap>))
    ensures Scrap(userId, noticeId) in scraps ==>
              && out.0 == Success(false)
              && multiset(out.1) == multiset(scraps) - multiset{Scrap(userId, noticeId)}
    ensures Scrap(userId, noticeId) !in scraps && HasNotice(notices, noticeId) ==>
              out == (Success(true), scraps + [Scrap(userId, noticeId)])
    ensures Scrap(userId, noticeId) !in scraps && !HasNotice(notices, noticeId) ==>
              out == (Failure(UnknownNoticeReference), scraps)
    ensures forall row :: row != Scrap(userId, noticeId) ==> multiset(out.1)[row] == multiset(scraps)[row]
    ensures UniqueRows(scraps) ==> UniqueRows(out.1) && (out.0.Success? ==> (out.0.value <==> Scrap(userId, noticeId) in out.1))
  {
    var row := Scrap(userId, noticeId);
    match FirstIndex(scraps, (s: Scrap) => s == row)
    case Some(k) => (Success(false), RemoveAt(scraps, k))
    case None =>
      assert row !in scraps;
      if FindNotice(notices, noticeId).Some? then (Success(true), scraps + [row])
      else (Failure(UnknownNoticeReference), scraps)
  }

  /** A toggle keeps every row unique and every row's notice present. */
  lemma ToggleKeepsStoreInvariant(notices: seq<Notice>, scraps: seq<Scrap>, userId: int, noticeId: int)
    requires StoreInvariant(notices, scraps)
    ensures StoreInvariant(notices, ToggleScrap(notices, scraps, userId, noticeId).1)
  {
    var after := ToggleScrap(notices, scraps, userId, noticeId).1;
    forall row | row in after
      ensures HasNotice(notices, row.noticeId)
    {
      assert row in multiset(after);
      if row != Scrap(userId, noticeId) {
        assert row in multiset(scraps);
      }
    }
  }

  /** Toggling twice answers both ways and restores the scrap table: exactly
      when the row was absent, and up to the order of rows when it was present. */
  lemma ToggleTwiceRestores(notices: seq<Notice>, scraps: seq<Scrap>, userId: int, noticeId: int)
    requires StoreInvariant(notices, scraps)
    ensures var (r1, s1) := ToggleScrap(notices, scraps, userId, noticeId);
            var (r2, s2) := ToggleScrap(notices, s1, userId, noticeId);
            && multiset(s2) == multiset(scraps)
            && (Scrap(userId, noticeId) !in scraps ==> s2 == scraps)
            && r2.Success? == r1.Success?
            && (r1.Success? ==> r2.value == !r1.value)
  {
    var row := Scrap(userId, noticeId);
    var (r1, s1) := ToggleScrap(notices, scraps, userId, noticeId);
    if row in scraps {
      assert HasNotice(notices, noticeId);
      assert row !in s1;
    } else if HasNotice(notices, noticeId) {
      assert s1 == scraps + [row];
      var k := FirstIndex(s1, (s: Scrap) => s == row);
      assert k == Some(|scraps|);
      assert s1[..|scraps|] == scraps;
    }
  }

  /** The service over its two repositories, held as in-memory tables. */
  class NoticeService {
    var notices: seq<Notice>
    var scraps: seq<Scrap>

    ghost predicate Valid()
      reads this
    {
      StoreInvariant(notices, scraps)
    }

    constructor (notices0: seq<Notice>, scraps0: seq<Scrap>)
      requires StoreInvariant(notices0, scraps0)
      ensures Valid()
      ensures notices == notices0 && scraps == scraps0
    {
      notices := notices0;
      scraps := scraps0;
    }

    /** `getNoticeInfoById`: look the notice up, count the view, save it, answer its detail. */
    method GetNoticeInfoById(id: int) returns (r: Result<NoticeInfo, ServiceError>)
      requires Valid()
      modifies this
      ensures Valid()
      ensures (r, notices) == ViewNotice(old(notices), id)
      ensures scraps == old(scraps)
    {
      ViewKeepsStoreInvariant(notices, scraps, id);
      var found := FindNotice(notices, id);
      if found.None? {
        r := Failure(NoticeNotFound);
        return;
      }
      var k := found.value;
      notices := notices[k := notices[k].(view := notices[k].view + 1)];
      r := Success(Detail(notices[k]));
    }

    /** `scrapNotice`: delete the user's row for the notice and answer false,
        or insert one and answer true. */
    method ScrapNotice(userId: int, noticeId: int) returns (r: Result<bool, ServiceError>)
      requires Valid()
      modifies this
      ensures Valid()
      ensures (r, scraps) == ToggleScrap(notices, old(scraps), userId, noticeId)
      ensures notices == old(notices)
    {
      ToggleKeepsStoreInvariant(notices, scraps, userId, noticeId);
      var row := Scrap(userId, noticeId);
      var entity := FirstIndex(scraps, (s: Scrap) => s == row);
      if entity.Some? {
        scraps := RemoveAt(scraps, entity.value);
        r := Success(false);
        return;
      }
      if FindNotice(notices, noticeId).None? {
        r := Failure(UnknownNoticeReference);
        return;
      }
      scraps := scraps + [row];
      r := Success(true);
    }
  }
}
