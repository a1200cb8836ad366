/** `GET /api/stats`: the record count, the sum of all download counters,
    the number of uploads since the start of the day, and the five most
    recent uploads. Local midnight (`todayStart`) is a parameter. */
module Stats {
  import opened Records
  import opened Listing
  import Auth

  const RecentLimit: nat := 5

  datatype RecentFile = RecentFile(originalName: string, uploadDate: Time, downloadCount: nat)

  datatype StatsBody = StatsBody(totalFiles: nat, totalDownloads: nat, todayUploads: nat, recentFiles: seq<RecentFile>)

  // ---------------------------------------------------------------------
  // Reference definitions over the store itself

  /** The download counters of the records named by `keys`, summed in no
      particular order. */
  ghost function SumOn(m: map<string, FileRecord>, keys: set<string>): nat
    requires keys <= m.Keys
    decreases keys
  {
    if keys == {} then 0
    else
      var k :| k in keys;
      m[k].downloadCount + SumOn(m, keys - {k})
  }

  ghost function TotalDownloads(m: map<string, FileRecord>): nat
  {
    SumOn(m, m.Keys)
  }

  /** The records uploaded at or after `t`. */
  function UploadedSince(m: map<string, FileRecord>, keys: set<string>, t: Time): set<string>
  {
    set k | k in keys && k in m && m[k].uploadDate >= t
  }

  /** The sum does not depend on which record is taken first. */
  lemma {:induction false} SumOnAny(m: map<string, FileRecord>, keys: set<string>, k: string)
    requires keys <= m.Keys && k in keys
    ensures SumOn(m, keys) == m[k].downloadCount + SumOn(m, keys - {k})
    decreases keys
  {
    var j :| j in keys && SumOn(m, keys) == m[j].downloadCount + SumOn(m, keys - {j});
    if j != k {
      SumOnAny(m, keys - {j}, k);
      SumOnAny(m, keys - {k}, j);
      assert keys - {j} - {k} == keys - {k} - {j};
    }
  }

  // ---------------------------------------------------------------------
  // What the handler computes, along the newest-first order

  function SumOver(ks: seq<string>, m: map<string, FileRecord>): nat
    requires AllIn(ks, m)
    decreases |ks|
  {
    if |ks| == 0 then 0 else m[ks[0]].downloadCount + SumOver(ks[1..], m)
  }

  function CountSince(ks: seq<string>, m: map<string, FileRecord>, t: Time): nat
    requires AllIn(ks, m)
    decreases |ks|
  {
    if |ks| == 0 then 0
    else (if m[ks[0]].uploadDate >= t then 1 else 0) + CountSince(ks[1..], m, t)
  }

  function RecentOf(r: FileRecord): RecentFile
  {
    RecentFile(r.originalName, r.uploadDate, r.downloadCount)
  }

  function Recent(ks: seq<string>, m: map<string, FileRecord>): (r: seq<RecentFile>)
    requires AllIn(ks, m)
    ensures |r| == |ks|
    ensures forall i :: 0 <= i < |ks| ==> r[i] == RecentOf(m[ks[i]])
    decreases |ks|
  {
    if |ks| == 0 then [] else [RecentOf(m[ks[0]])] + Recent(ks[1..], m)
  }

  lemma ElementsSplit(ks: seq<string>)
    requires |ks| > 0 && Distinct(ks)
    ensures Elements(ks) == {ks[0]} + Elements(ks[1..])
    ensures ks[0] !in Elements(ks[1..])
    ensures Distinct(ks[1..])
  {
    forall x | x in Elements(ks) ensures x in {ks[0]} + Elements(ks[1..]) {
      var i :| 0 <= i < |ks| && ks[i] == x;
      if i > 0 { assert ks[1..][i - 1] == x; }
    }
  }

  /** Summing along any duplicate-free order gives the reference sum. */
  lemma {:induction false} SumOverIsSum(ks: seq<string>, m: map<string, FileRecord>)
    requires Distinct(ks) && AllIn(ks, m)
    ensures Elements(ks) <= m.Keys
    ensures SumOver(ks, m) == SumOn(m, Elements(ks))
    decreases |ks|
  {
    if |ks| > 0 {
      ElementsSplit(ks);
      SumOverIsSum(ks[1..], m);
      SumOnAny(m, Elements(ks), ks[0]);
      assert Elements(ks) - {ks[0]} == Elements(ks[1..]);
    }
  }

  /** Counting along any duplicate-free order gives the size of the
      reference set. */
  lemma {:induction false} CountSinceIsCount(ks: seq<string>, m: map<string, FileRecord>, t: Time)
    requires Distinct(ks) && AllIn(ks, m)
    ensures CountSince(ks, m, t) == |UploadedSince(m, Elements(ks), t)|
    decreases |ks|
  {
    if |ks| == 0 {
      assert UploadedSince(m, Elements(ks), t) == {};
    } else {
      ElementsSplit(ks);
      CountSinceIsCount(ks[1..], m, t);
      var rest := UploadedSince(m, Elements(ks[1..]), t);
      assert ks[0] !in rest;
      if m[ks[0]].uploadDate >= t {
        assert UploadedSince(m, Elements(ks), t) == {ks[0]} + rest;
      } else {
        assert UploadedSince(m, Elements(ks), t) == rest;
      }
    }
  }

  lemma OrderElements(ks: seq<string>, m: map<string, FileRecord>)
    requires IsNewestFirstOrder(ks, m)
    ensures Elements(ks) == m.Keys
  {
  }

  /** The body of a stats reply, given the store's newest-first order. */
  function StatsOf(ks: seq<string>, m: map<string, FileRecord>, todayStart: Time): (b: StatsBody)
    requires IsNewestFirstOrder(ks, m)
    ensures b.totalFiles == |m|
    ensures b.totalDownloads == TotalDownloads(m)
    ensures b.todayUploads == |UploadedSince(m, m.Keys, todayStart)|
    ensures |b.recentFiles| == Min(RecentLimit, |m|)
    ensures forall i :: 0 <= i < |b.recentFiles| ==> i < |ks| && b.recentFiles[i] == RecentOf(m[ks[i]])
  {
    OrderCoversStore(ks, m);
    OrderElements(ks, m);
    SumOverIsSum(ks, m);
    CountSinceIsCount(ks, m, todayStart);
    var total := if |m| == 0 then 0 else SumOver(ks, m);
    StatsBody(|m|, total, CountSince(ks, m, todayStart), Recent(ks[..Min(RecentLimit, |ks|)], m))
  }

  /** `GET /api/stats`. */
  method GetStats(s: State, header: Option<string>, todayStart: Time, now: Time) returns (st: Step<StatsBody>)
    ensures Auth.RequireAuth(s.sessions, header, now).Denied? ==> st == Step(LoginRequired, s)
    ensures st.next == Auth.Touch(s, header, now)
    ensures st.reply.Ok? <==> Auth.RequireAuth(s.sessions, header, now).Admitted?
    ensures st.reply.Ok? ==>
              exists ks :: IsNewestFirstOrder(ks, s.store) && st.reply.body == StatsOf(ks, s.store, todayStart)
  {
    match Auth.RequireAuth(s.sessions, header, now)
    case Denied =>
      st := Step(LoginRequired, s);
    case Admitted(_, sessions) =>
      var ks := SortNewestFirst(s.store);
      st := Step(Ok(StatsOf(ks, s.store, todayStart)), s.(sessions := sessions));
  }

  // ---------------------------------------------------------------------
  // Properties

  /** An empty store reports zero of everything. */
  lemma EmptyStoreStats(ks: seq<string>, m: map<string, FileRecord>, todayStart: Time)
    requires IsNewestFirstOrder(ks, m) && |m| == 0
    ensures StatsOf(ks, m, todayStart) == StatsBody(0, 0, 0, [])
  {
    assert m.Keys == {};
    assert UploadedSince(m, m.Keys, todayStart) == {};
  }

  /** No record left out of the recent list is newer than one in it. */
  lemma RecentAreNewest(ks: seq<string>, m: map<string, FileRecord>)
    requires IsNewestFirstOrder(ks, m)
    ensures forall k, i :: k in m && k !in ks[..Min(RecentLimit, |ks|)] && 0 <= i < Min(RecentLimit, |ks|) ==>
              m[k].uploadDate <= m[ks[i]].uploadDate
  {
    var n := Min(RecentLimit, |ks|);
    forall k, i | k in m && k !in ks[..n] && 0 <= i < n
      ensures m[k].uploadDate <= m[ks[i]].uploadDate
    {
      var j :| 0 <= j < |ks| && ks[j] == k;
    }
  }

  /** Every download the store has counted shows up in the total: one more
      download of any record raises the total by exactly one. */
  lemma OneMoreDownload(m: map<string, FileRecord>, id: string, now: Time)
    requires id in m
    ensures var r := m[id];
            TotalDownloads(m[id := r.(downloadCount := r.downloadCount + 1, lastAccessed := now)]) == TotalDownloads(m) + 1
  {
    var r := m[id];
    var m' := m[id := r.(downloadCount := r.downloadCount + 1, lastAccessed := now)];
    SumOnAny(m, m.Keys, id);
    SumOnAny(m', m'.Keys, id);
    SumOnSame(m, m', m.Keys - {id});
    assert m'.Keys == m.Keys;
  }

  lemma {:induction false} SumOnSame(m: map<string, FileRecord>, m': map<string, FileRecord>, keys: set<string>)
    requires keys <= m.Keys && keys <= m'.Keys
    requires forall k :: k in keys ==> m[k].downloadCount == m'[k].downloadCount
    ensures SumOn(m, keys) == SumOn(m', keys)
    decreases keys
  {
    if keys != {} {
      var k :| k in keys && SumOn(m, keys) == m[k].downloadCount + SumOn(m, keys - {k});
      SumOnAny(m', keys, k);
      SumOnSame(m, m', keys - {k});
    }
  }
}
