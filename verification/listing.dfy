/** The admin listings: `GET /api/files` (one page of records, newest upload
    first) and `GET /api/qrs` (every record). The collection's
    `sort({ uploadDate: -1 })` is modelled as any enumeration of the store's
    keys that is ordered by upload date, newest first. Ties are left in
    whatever order the store chooses. */
module Listing {
  import opened Records
  import Auth

  predicate Distinct(ks: seq<string>)
  {
    forall i, j :: 0 <= i < j < |ks| ==> ks[i] != ks[j]
  }

  predicate AllIn(ks: seq<string>, m: map<string, FileRecord>)
  {
    forall i :: 0 <= i < |ks| ==> ks[i] in m
  }

  predicate NewestFirst(ks: seq<string>, m: map<string, FileRecord>)
  {
    forall i, j :: 0 <= i < j < |ks| && ks[i] in m && ks[j] in m ==> m[ks[i]].uploadDate >= m[ks[j]].uploadDate
  }

  /** `ks` names every record of `m` exactly once, newest upload first. */
  predicate IsNewestFirstOrder(ks: seq<string>, m: map<string, FileRecord>)
  {
    && Distinct(ks)
    && AllIn(ks, m)
    && (forall k :: k in m ==> k in ks)
    && NewestFirst(ks, m)
  }

  /** Inserts `k` after every key that is at least as new. */
  function InsertByDate(ks: seq<string>, k: string, m: map<string, FileRecord>): (r: seq<string>)
    requires k in m && AllIn(ks, m) && NewestFirst(ks, m)
    ensures |r| == |ks| + 1
    ensures forall x :: x in r <==> x == k || x in ks
    ensures AllIn(r, m) && NewestFirst(r, m)
    ensures Distinct(ks) && k !in ks ==> Distinct(r)
    decreases |ks|
  {
    if |ks| == 0 then [k]
    else if m[ks[0]].uploadDate >= m[k].uploadDate then
      var tail := InsertByDate(ks[1..], k, m);
      HeadIsNewest(ks, m);
      ConsNewestFirst(ks[0], tail, m);
      if Distinct(ks) && k !in ks then DistinctCons(ks[0], tail); [ks[0]] + tail
      else [ks[0]] + tail
    else
      HeadIsNewest(ks, m);
      ConsNewestFirst(k, ks, m);
      if Distinct(ks) && k !in ks then DistinctCons(k, ks); [k] + ks
      else [k] + ks
  }

  lemma HeadIsNewest(ks: seq<string>, m: map<string, FileRecord>)
    requires |ks| > 0 && AllIn(ks, m) && NewestFirst(ks, m)
    ensures forall x :: x in ks[1..] ==> m[x].uploadDate <= m[ks[0]].uploadDate
  {
    forall x | x in ks[1..] ensures m[x].uploadDate <= m[ks[0]].uploadDate {
      var j :| 0 <= j < |ks[1..]| && ks[1..][j] == x;
      assert ks[j + 1] == x;
    }
  }

  lemma ConsNewestFirst(a: string, t: seq<string>, m: map<string, FileRecord>)
    requires a in m && AllIn(t, m) && NewestFirst(t, m)
    requires forall x :: x in t ==> m[x].uploadDate <= m[a].uploadDate
    ensures AllIn([a] + t, m) && NewestFirst([a] + t, m)
  {
    var r := [a] + t;
    forall i, j | 0 <= i < j < |r| ensures m[r[i]].uploadDate >= m[r[j]].uploadDate {
      assert r[j] == t[j - 1];
      if i > 0 { assert r[i] == t[i - 1]; }
    }
  }

  lemma DistinctCons(a: string, t: seq<string>)
    requires Distinct(t) && a !in t
    ensures Distinct([a] + t)
  {
    var r := [a] + t;
    forall i, j | 0 <= i < j < |r| ensures r[i] != r[j] {
      assert r[j] == t[j - 1];
      if i > 0 { assert r[i] == t[i - 1]; }
    }
  }

  /** The order in which `find().sort({ uploadDate: -1 })` returns the store. */
  method SortNewestFirst(m: map<string, FileRecord>) returns (ks: seq<string>)
    ensures IsNewestFirstOrder(ks, m)
  {
    ks := [];
    var rest := m.Keys;
    while rest != {}
      invariant rest <= m.Keys
      invariant AllIn(ks, m) && Distinct(ks) && NewestFirst(ks, m)
      invariant forall x :: x in ks ==> x !in rest
      invariant forall k :: k in m ==> k in rest || k in ks
      decreases rest
    {
      var k :| k in rest;
      ks := InsertByDate(ks, k, m);
      rest := rest - {k};
    }
  }

  /** The keys an order lists. */
  function Elements(ks: seq<string>): set<string>
  {
    set x | x in ks
  }

  lemma {:induction false} DistinctCardinality(ks: seq<string>)
    requires Distinct(ks)
    ensures |Elements(ks)| == |ks|
    decreases |ks|
  {
    if |ks| > 0 {
      var tail := ks[1..];
      assert Distinct(tail);
      DistinctCardinality(tail);
      var all := Elements(ks);
      var rest := Elements(tail);
      assert all == {ks[0]} + rest by {
        forall x | x in all ensures x in {ks[0]} + rest {
          var i :| 0 <= i < |ks| && ks[i] == x;
          if i > 0 { assert tail[i - 1] == x; }
        }
      }
      assert ks[0] !in rest;
    }
  }

  /** An enumeration of the store is as long as the store is large. */
  lemma OrderCoversStore(ks: seq<string>, m: map<string, FileRecord>)
    requires IsNewestFirstOrder(ks, m)
    ensures |ks| == |m|
  {
    DistinctCardinality(ks);
    assert Elements(ks) == m.Keys;
  }

  // ---------------------------------------------------------------------
  // Query parameters and arithmetic

  /** What `+req.query.x` makes of a query parameter: absent, not a number
      (NaN), or an integer. */
  datatype QueryValue = Absent | NotANumber | Number(value: int)

  /** `+q || fallback`: a missing, zero or non-numeric value falls back. */
  function NumberOr(q: QueryValue, fallback: int): (r: int)
    ensures q.Number? && q.value != 0 ==> r == q.value
    ensures q.Absent? || q.NotANumber? || q == Number(0) ==> r == fallback
    ensures fallback != 0 ==> r != 0
  {
    if q.Number? && q.value != 0 then q.value else fallback
  }

  function Abs(x: int): nat { if x < 0 then -x else x }

  function Min(a: int, b: int): int { if a <= b then a else b }

  /** `Math.ceil(total / limit)` for a non-zero integer limit. */
  function CeilDiv(total: nat, limit: int): int
    requires limit != 0
  {
    if limit > 0 then (total + limit - 1) / limit else -(total / -limit)
  }

  lemma CeilDivIsCeiling(total: nat, limit: int)
    requires limit != 0
    ensures limit > 0 ==> (CeilDiv(total, limit) - 1) * limit < total <= CeilDiv(total, limit) * limit
    ensures limit < 0 ==> CeilDiv(total, limit) * limit <= total < (CeilDiv(total, limit) - 1) * limit
  {
    var p := CeilDiv(total, limit);
    if limit > 0 {
      var q := total + limit - 1;
      assert q == (q / limit) * limit + q % limit;
      assert p * limit == q - q % limit;
      assert (p - 1) * limit == q - q % limit - limit;
    } else {
      var n := -limit;
      assert total == (total / n) * n + total % n;
      assert p * limit == (total / n) * n;
      assert (p - 1) * limit == (total / n) * n + n;
    }
  }

  // ---------------------------------------------------------------------
  // One page of the listing

  datatype Listed = Listed(
    id: string,
    originalName: string,
    fileSize: nat,
    uploadDate: Time,
    downloadCount: nat,
    qrCode: string,
    downloadUrl: string)

  datatype Pagination = Pagination(page: int, limit: int, total: nat, pages: int)

  datatype PageBody = PageBody(files: seq<Listed>, pagination: Pagination)

  /** The listing's view of one record, with its two public URLs. */
  function ListedOf(origin: string, r: FileRecord): Listed
  {
    Listed(r.id, r.originalName, r.fileSize, r.uploadDate, r.downloadCount,
           QrImageUrl(origin, r.qrCodePath), DownloadUrl(origin, r.id))
  }

  function Render(origin: string, ks: seq<string>, m: map<string, FileRecord>): (r: seq<Listed>)
    requires AllIn(ks, m)
    ensures |r| == |ks|
    ensures forall i :: 0 <= i < |ks| ==> r[i] == ListedOf(origin, m[ks[i]])
    decreases |ks|
  {
    if |ks| == 0 then [] else [ListedOf(origin, m[ks[0]])] + Render(origin, ks[1..], m)
  }

  function Skip(page: int, limit: int): int { (page - 1) * limit }

  /** How many records a page holds once `skip` of `total` are passed over. */
  function PageLength(skip: nat, limit: int, total: nat): nat
  {
    if skip >= total then 0 else Min(Abs(limit), total - skip)
  }

  /** The records a page holds: the `skip`-th newest and the ones after it. */
  predicate IsPageOf(files: seq<Listed>, ks: seq<string>, m: map<string, FileRecord>, skip: nat, limit: int,
                     origin: string)
    requires AllIn(ks, m)
  {
    && |files| == PageLength(skip, limit, |ks|)
    && forall i :: 0 <= i < |files| ==> skip + i < |ks| && files[i] == ListedOf(origin, m[ks[skip + i]])
  }

  function Window(ks: seq<string>, m: map<string, FileRecord>, skip: nat, limit: int, origin: string): (files: seq<Listed>)
    requires AllIn(ks, m)
    ensures IsPageOf(files, ks, m, skip, limit, origin)
  {
    var lo := Min(skip, |ks|);
    var hi := Min(skip + Abs(limit), |ks|);
    var files := Render(origin, ks[lo..hi], m);
    assert forall i :: 0 <= i < |files| ==> ks[lo..hi][i] == ks[skip + i];
    files
  }

  /** The page `GET /api/files` answers, given the store's newest-first
      order. A negative skip is refused by the store (500); a negative limit
      is taken by it as its absolute value. */
  function Paginate(ks: seq<string>, m: map<string, FileRecord>, pageQ: QueryValue, limitQ: QueryValue,
                    origin: string): (rep: Reply<PageBody>)
    requires IsNewestFirstOrder(ks, m)
    ensures var skip := Skip(NumberOr(pageQ, 1), NumberOr(limitQ, 10));
            && (rep.Ok? <==> skip >= 0)
            && (!rep.Ok? ==> rep == Fail(500, MsgServerError))
            && (rep.Ok? ==> IsPageOf(rep.body.files, ks, m, skip, NumberOr(limitQ, 10), origin))
    ensures rep.Ok? ==>
              var limit := NumberOr(limitQ, 10);
              rep.body.pagination == Pagination(NumberOr(pageQ, 1), limit, |m|, CeilDiv(|m|, limit))
  {
    OrderCoversStore(ks, m);
    var page := NumberOr(pageQ, 1);
    var limit := NumberOr(limitQ, 10);
    var skip := Skip(page, limit);
    if skip < 0 then Fail(500, MsgServerError)
    else Ok(PageBody(Window(ks, m, skip, limit, origin), Pagination(page, limit, |m|, CeilDiv(|m|, limit))))
  }

  /** `GET /api/files`. */
  method ListFiles(s: State, header: Option<string>, pageQ: QueryValue, limitQ: QueryValue,
                   origin: string, now: Time) returns (st: Step<PageBody>)
    ensures Auth.RequireAuth(s.sessions, header, now).Denied? ==> st == Step(LoginRequired, s)
    ensures st.next == Auth.Touch(s, header, now)
    ensures Auth.RequireAuth(s.sessions, header, now).Admitted? ==>
              exists ks :: IsNewestFirstOrder(ks, s.store) && st.reply == Paginate(ks, s.store, pageQ, limitQ, origin)
  {
    match Auth.RequireAuth(s.sessions, header, now)
    case Denied =>
      st := Step(LoginRequired, s);
    case Admitted(_, sessions) =>
      var ks := SortNewestFirst(s.store);
      st := Step(Paginate(ks, s.store, pageQ, limitQ, origin), s.(sessions := sessions));
  }

  /** `GET /api/qrs`: every record, in the store's natural order. */
  method ListAll(s: State, header: Option<string>, now: Time) returns (st: Step<seq<FileRecord>>)
    ensures Auth.RequireAuth(s.sessions, header, now).Denied? ==> st == Step(LoginRequired, s)
    ensures st.next == Auth.Touch(s, header, now)
    ensures st.reply.Ok? <==> Auth.RequireAuth(s.sessions, header, now).Admitted?
    ensures st.reply.Ok? ==>
              && |st.reply.body| == |s.store|
              && (forall i :: 0 <= i < |st.reply.body| ==> st.reply.body[i] in s.store.Values)
              && (forall k :: k in s.store ==> s.store[k] in st.reply.body)
  {
    match Auth.RequireAuth(s.sessions, header, now)
    case Denied =>
      st := Step(LoginRequired, s);
    case Admitted(_, sessions) =>
      var ks := SortNewestFirst(s.store);
      OrderCoversStore(ks, s.store);
      var records := seq(|ks|, i requires 0 <= i < |ks| => s.store[ks[i]]);
      forall k | k in s.store
        ensures s.store[k] in records
      {
        var i :| 0 <= i < |ks| && ks[i] == k;
        assert records[i] == s.store[k];
      }
      st := Step(Ok(records), s.(sessions := sessions));
  }

  // ---------------------------------------------------------------------
  // Properties

  /** With 15 records, page 2 of 10 holds the 11th to 15th newest, and
      there are 2 pages. */
  lemma SecondPageOfFifteen(ks: seq<string>, m: map<string, FileRecord>, origin: string)
    requires IsNewestFirstOrder(ks, m) && |ks| == 15
    ensures var rep := Paginate(ks, m, Number(2), Number(10), origin);
            && rep.Ok?
            && rep.body.pagination == Pagination(2, 10, 15, 2)
            && rep.body.files == Render(origin, ks[10..15], m)
  {
    OrderCoversStore(ks, m);
    var rep := Paginate(ks, m, Number(2), Number(10), origin);
    assert Skip(2, 10) == 10;
    assert CeilDiv(15, 10) == 2;
    var expected := Render(origin, ks[10..15], m);
    assert IsPageOf(rep.body.files, ks, m, 10, 10, origin);
    assert |rep.body.files| == 5 == |expected|;
    forall i | 0 <= i < 5 ensures rep.body.files[i] == expected[i] {
      assert ks[10..15][i] == ks[10 + i];
    }
  }

  /** A page is never longer than the limit, and the listed records are in
      newest-first order. */
  lemma PageIsBoundedAndOrdered(ks: seq<string>, m: map<string, FileRecord>, pageQ: QueryValue,
                                limitQ: QueryValue, origin: string)
    requires IsNewestFirstOrder(ks, m)
    requires Paginate(ks, m, pageQ, limitQ, origin).Ok?
    ensures var files := Paginate(ks, m, pageQ, limitQ, origin).body.files;
            && |files| <= Abs(NumberOr(limitQ, 10))
            && forall i, j :: 0 <= i < j < |files| ==> files[i].uploadDate >= files[j].uploadDate
  {
    var files := Paginate(ks, m, pageQ, limitQ, origin).body.files;
    var limit := NumberOr(limitQ, 10);
    var skip := Skip(NumberOr(pageQ, 1), limit);
    PageIsOrdered(files, ks, m, skip, limit, origin);
  }

  lemma PageIsOrdered(files: seq<Listed>, ks: seq<string>, m: map<string, FileRecord>, skip: nat, limit: int,
                      origin: string)
    requires AllIn(ks, m) && NewestFirst(ks, m)
    requires IsPageOf(files, ks, m, skip, limit, origin)
    ensures forall i, j :: 0 <= i < j < |files| ==> files[i].uploadDate >= files[j].uploadDate
  {
    forall i, j | 0 <= i < j < |files|
      ensures files[i].uploadDate >= files[j].uploadDate
    {
      var a := ks[skip + i];
      var b := ks[skip + j];
      assert files[i].uploadDate == m[a].uploadDate;
      assert files[j].uploadDate == m[b].uploadDate;
    }
  }

  lemma SkipStep(page: int, limit: int)
    requires page >= 1 && limit > 0
    ensures Skip(page, limit) >= 0
    ensures Skip(page + 1, limit) == Skip(page, limit) + limit
  {
    assert (page - 1) * limit >= 0 by {
      assert page - 1 >= 0;
    }
  }

  /** Consecutive pages of a positive limit tile the ordered store: page p
      is full when enough records follow its start, and page p + 1 starts
      with the record right after it. */
  lemma PagesTile(ks: seq<string>, m: map<string, FileRecord>, page: int, limit: int, origin: string)
    requires IsNewestFirstOrder(ks, m) && page >= 1 && limit > 0
    requires Skip(page, limit) + limit < |ks|
    ensures var rep := Paginate(ks, m, Number(page), Number(limit), origin);
            rep.Ok? && |rep.body.files| == limit
    ensures var next := Paginate(ks, m, Number(page + 1), Number(limit), origin);
            && next.Ok? && |next.body.files| > 0
            && next.body.files[0] == ListedOf(origin, m[ks[Skip(page, limit) + limit]])
  {
    SkipStep(page, limit);
    OrderCoversStore(ks, m);
    var skip := Skip(page, limit);
    assert NumberOr(Number(page), 1) == page && NumberOr(Number(page + 1), 1) == page + 1;
    assert NumberOr(Number(limit), 10) == limit;
    var rep := Paginate(ks, m, Number(page), Number(limit), origin);
    assert IsPageOf(rep.body.files, ks, m, skip, limit, origin);
    assert PageLength(skip, limit, |ks|) == limit;
    var next := Paginate(ks, m, Number(page + 1), Number(limit), origin);
    assert IsPageOf(next.body.files, ks, m, skip + limit, limit, origin);
    assert PageLength(skip + limit, limit, |ks|) > 0;
    assert next.body.files[0] == ListedOf(origin, m[ks[skip + limit + 0]]);
  }
}
