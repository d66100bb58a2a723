/** The two repositories the service reads, as in-memory tables: notice rows
    (each carrying its category and provider columns, as loaded with
    `relations: ['category', 'category.provider']`) and scrap rows linking a
    user's scrap box to a notice. */
module Tables {
  import opened Outcomes

  datatype Notice = Notice(
    id: int,
    title: string,
    content: string,
    date: string,
    writer: string,
    url: string,
    view: nat,
    categoryId: int,
    categoryName: string,
    mappedCategory: string,
    providerId: int,
    providerName: string)

  /** One scrap: the owner of the scrap box and the notice it references. */
  datatype Scrap = Scrap(userId: int, noticeId: int)

  /** The rows of `s` that satisfy `keep`, in table order (a `where` clause). */
  function Filter<T(!new)>(s: seq<T>, keep: T -> bool): (r: seq<T>)
    ensures |r| <= |s|
    ensures forall x {:trigger multiset(r)[x]} :: multiset(r)[x] == if keep(x) then multiset(s)[x] else 0
    ensures forall x {:trigger x in r} :: x in r <==> x in s && keep(x)
  {
    if s == [] then []
    else
      var rest := Filter(s[1..], keep);
      assert s == [s[0]] + s[1..];
      if keep(s[0]) then [s[0]] + rest else rest
  }

  /** The first position whose row satisfies `p` (a `findOne`). */
  function FirstIndex<T>(s: seq<T>, p: T -> bool): (r: Option<nat>)
    ensures r.Some? ==> r.value < |s| && p(s[r.value])
    ensures r.Some? ==> forall j :: 0 <= j < r.value ==> !p(s[j])
    ensures r.None? ==> forall j :: 0 <= j < |s| ==> !p(s[j])
  {
    if s == [] then None
    else if p(s[0]) then Some(0)
    else match FirstIndex(s[1..], p)
      case None => None
      case Some(k) => Some(k + 1)
  }

  predicate HasNotice(notices: seq<Notice>, id: int)
  {
    exists n :: n in notices && n.id == id
  }

  /** `findOne({ where: { id } })` on the notice table. */
  function FindNotice(notices: seq<Notice>, id: int): (k: Option<nat>)
    ensures k.Some? ==> k.value < |notices| && notices[k.value].id == id
    ensures k.None? <==> !HasNotice(notices, id)
  {
    var k := FirstIndex(notices, (n: Notice) => n.id == id);
    assert k.None? ==> forall n :: n in notices ==> n.id != id;
    k
  }

  /** The scrap rows in the scrap box of `userId`. */
  function UserScraps(scraps: seq<Scrap>, userId: int): (rows: seq<Scrap>)
    ensures forall row {:trigger row in rows} :: row in rows <==> row in scraps && row.userId == userId
    ensures forall row {:trigger multiset(rows)[row]} :: multiset(rows)[row] == if row.userId == userId then multiset(scraps)[row] else 0
  {
    Filter(scraps, (row: Scrap) => row.userId == userId)
  }

  /** `scraps.some((scrap) => scrap.notice.id === id)`. */
  function AnyRefers(rows: seq<Scrap>, noticeId: int): (b: bool)
    ensures b <==> exists row :: row in rows && row.noticeId == noticeId
  {
    if rows == [] then false
    else rows[0].noticeId == noticeId || AnyRefers(rows[1..], noticeId)
  }

  /** Whether a listing marks notice `noticeId` as scrapped for `userId`:
      some row of the user's scrap box references it. */
  function IsScrapped(scraps: seq<Scrap>, userId: int, noticeId: int): (b: bool)
    ensures b <==> Scrap(userId, noticeId) in scraps
  {
    var rows := UserScraps(scraps, userId);
    assert Scrap(userId, noticeId) in scraps ==> Scrap(userId, noticeId) in rows;
    AnyRefers(rows, noticeId)
  }

  /** The notices the rows reference, in row order (`relations: ['notice']`). */
  function Joined(notices: seq<Notice>, rows: seq<Scrap>): (r: seq<Notice>)
    requires forall row :: row in rows ==> HasNotice(notices, row.noticeId)
    ensures |r| == |rows|
    ensures forall i :: 0 <= i < |rows| ==> r[i] in notices && r[i].id == rows[i].noticeId
  {
    if rows == [] then []
    else
      var k := FindNotice(notices, rows[0].noticeId).value;
      [notices[k]] + Joined(notices, rows[1..])
  }

  /** The notice table's primary key. */
  ghost predicate UniqueIds(notices: seq<Notice>)
  {
    forall i, j :: 0 <= i < j < |notices| ==> notices[i].id != notices[j].id
  }

  /** At most one scrap row per (user, notice) pair, as the toggle keeps it. */
  ghost predicate UniqueRows(scraps: seq<Scrap>)
  {
    forall i, j :: 0 <= i < j < |scraps| ==> scraps[i] != scraps[j]
  }

  /** The scrap-to-notice relation is a foreign key: every row references a notice. */
  ghost predicate ReferencesResolve(notices: seq<Notice>, scraps: seq<Scrap>)
  {
    forall row :: row in scraps ==> HasNotice(notices, row.noticeId)
  }

  ghost predicate StoreInvariant(notices: seq<Notice>, scraps: seq<Scrap>)
  {
    UniqueIds(notices) && UniqueRows(scraps) && ReferencesResolve(notices, scraps)
  }
}
