/** The server as one state machine: every route, applied to the state,
    with the clock reading of the request. Uploads name their QR images
    after the record id (see `Upload.ClockNamingCrossesQrCodes` for what the
    clock naming does). Listing, `/api/qrs` and stats change the state
    only through the session gate, whatever order they list records in. */
module Machine {
  import opened Records
  import Auth
  import Retrieval
  import Deletion
  import Upload
  import Listing

  datatype Request =
    | LoginReq(username: Option<string>, password: Option<string>, sid: string)
    | LogoutReq(header: Option<string>)
    | CheckAuthReq(header: Option<string>)
    | ListAllReq(header: Option<string>)
    | UploadReq(header: Option<string>, parts: seq<Upload.Part>, draws: seq<Upload.Draw>, origin: string)
    | ListReq(header: Option<string>, pageQ: Listing.QueryValue, limitQ: Listing.QueryValue, origin: string)
    | DeleteReq(header: Option<string>, id: string)
    | StatsReq(header: Option<string>, todayStart: Time)
    | PdfReq(id: string)
    | InfoReq(id: string)
    | QrReq(id: string)
    | ExpireReq(sid: string)

  /** The routes behind `requireAuth`. */
  predicate IsAdmin(req: Request)
  {
    req.LogoutReq? || req.CheckAuthReq? || req.ListAllReq? || req.UploadReq? || req.ListReq? || req.DeleteReq? || req.StatsReq?
  }

  /** One draw per uploaded file. */
  predicate WellFormed(req: Request)
  {
    req.UploadReq? ==> |req.draws| == |req.parts|
  }

  /** The state after serving `req` at time `now`. */
  function Next(s: State, cfg: Auth.Credentials, req: Request, now: Time): (r: State)
    requires WellFormed(req)
    ensures IsAdmin(req) && (forall t :: Auth.Presents(req.header, t) ==> t !in s.sessions) ==> r == s
    ensures req.InfoReq? || req.QrReq? ==> r == s
    ensures r.sessions.Keys <= s.sessions.Keys + (if req.LoginReq? then {req.sid} else {})
  {
    match req
    case LoginReq(u, p, sid) => Auth.Login(s, cfg, u, p, sid, now).next
    case LogoutReq(h) => Auth.Logout(s, h, now).next
    case CheckAuthReq(h) => Auth.CheckAuth(s, h, now).next
    case ListAllReq(h) => Auth.Touch(s, h, now)
    case UploadReq(h, parts, draws, origin) => Upload.UploadFiles(s, h, parts, draws, origin, now, Upload.ById).next
    case ListReq(h, _, _, _) => Auth.Touch(s, h, now)
    case DeleteReq(h, id) => Deletion.DeleteFile(s, h, id, now).next
    case StatsReq(h, _) => Auth.Touch(s, h, now)
    case PdfReq(id) => Retrieval.FetchPdf(s, id, now).next
    case InfoReq(id) => Retrieval.FetchInfo(s, id).next
    case QrReq(id) => Retrieval.FetchQr(s, id).next
    case ExpireReq(sid) => Auth.Expire(s, sid)
  }

  /** What an upload needs of multer's generated names to keep the state
      consistent: they collide with no stored file and with each other. */
  predicate FreshNames(s: State, req: Request)
  {
    req.UploadReq? ==> Upload.FreshStoredNames(req.parts, s.store)
  }

  // ---------------------------------------------------------------------
  // Properties

  /** Every route keeps the state consistent. */
  lemma NextKeepsConsistent(s: State, cfg: Auth.Credentials, req: Request, now: Time)
    requires WellFormed(req) && FreshNames(s, req)
    requires ConsistentState(s)
    ensures ConsistentState(Next(s, cfg, req, now))
  {
    match req
    case UploadReq(h, parts, draws, origin) =>
      Upload.UploadKeepsConsistent(s, h, parts, draws, origin, now);
    case DeleteReq(h, id) =>
      Deletion.DeleteKeepsConsistent(s, h, id, now);
    case PdfReq(id) =>
      Retrieval.FetchPdfKeepsConsistent(s, id, now);
    case _ =>
  }

  /** Consistency holds along any run of well-formed requests. */
  lemma {:induction false} RunKeepsConsistent(s: State, cfg: Auth.Credentials, reqs: seq<Request>, times: seq<Time>)
    requires |reqs| == |times|
    requires forall i :: 0 <= i < |reqs| ==> WellFormed(reqs[i])
    requires ConsistentState(s)
    requires FreshAlong(s, cfg, reqs, times)
    ensures ConsistentState(Run(s, cfg, reqs, times))
    decreases |reqs|
  {
    if |reqs| > 0 {
      NextKeepsConsistent(s, cfg, reqs[0], times[0]);
      assert forall i :: 0 <= i < |reqs[1..]| ==> reqs[1..][i] == reqs[i + 1];
      RunKeepsConsistent(Next(s, cfg, reqs[0], times[0]), cfg, reqs[1..], times[1..]);
    }
  }

  /** The state after a run of requests. */
  function Run(s: State, cfg: Auth.Credentials, reqs: seq<Request>, times: seq<Time>): State
    requires |reqs| == |times|
    requires forall i :: 0 <= i < |reqs| ==> WellFormed(reqs[i])
    decreases |reqs|
  {
    if |reqs| == 0 then s
    else
      assert forall i :: 0 <= i < |reqs[1..]| ==> reqs[1..][i] == reqs[i + 1];
      Run(Next(s, cfg, reqs[0], times[0]), cfg, reqs[1..], times[1..])
  }

  /** Every upload of the run gets names fresh in the state it meets. */
  predicate FreshAlong(s: State, cfg: Auth.Credentials, reqs: seq<Request>, times: seq<Time>)
    requires |reqs| == |times|
    requires forall i :: 0 <= i < |reqs| ==> WellFormed(reqs[i])
    decreases |reqs|
  {
    |reqs| > 0 ==>
      && FreshNames(s, reqs[0])
      && (assert forall i :: 0 <= i < |reqs[1..]| ==> reqs[1..][i] == reqs[i + 1];
          FreshAlong(Next(s, cfg, reqs[0], times[0]), cfg, reqs[1..], times[1..]))
  }

  /** Without a session the admin routes change nothing at all. */
  lemma GateBlocksAdmin(s: State, cfg: Auth.Credentials, req: Request, now: Time)
    requires WellFormed(req) && IsAdmin(req)
    requires forall t :: Auth.Presents(req.header, t) ==> t !in s.sessions
    ensures Next(s, cfg, req, now) == s
  {
  }

  /** A record's download counter moves only when its PDF is served, and
      then by exactly one. */
  lemma DownloadsCountOnlyFetches(s: State, cfg: Auth.Credentials, req: Request, now: Time, k: string)
    requires WellFormed(req)
    requires k in s.store && k in Next(s, cfg, req, now).store
    ensures Next(s, cfg, req, now).store[k].downloadCount ==
              s.store[k].downloadCount + (if req == PdfReq(k) && k in s.store && s.store[k].filePath in s.disk then 1 else 0)
  {
  }

  /** Only a login opens a session; every other route keeps or removes them. */
  lemma OnlyLoginOpensSessions(s: State, cfg: Auth.Credentials, req: Request, now: Time)
    requires WellFormed(req)
    ensures !req.LoginReq? ==> Next(s, cfg, req, now).sessions.Keys <= s.sessions.Keys
    ensures req.LoginReq? ==> Next(s, cfg, req, now).sessions.Keys <= s.sessions.Keys + {req.sid}
  {
  }

  /** The public metadata and QR routes change nothing; the PDF route
      changes only the served record's counter and access time. */
  lemma PublicReadsAreReadOnly(s: State, cfg: Auth.Credentials, req: Request, now: Time)
    requires req.PdfReq? || req.InfoReq? || req.QrReq?
    ensures req.InfoReq? || req.QrReq? ==> Next(s, cfg, req, now) == s
    ensures Next(s, cfg, req, now).disk == s.disk && Next(s, cfg, req, now).sessions == s.sessions
    ensures Next(s, cfg, req, now).store.Keys == s.store.Keys
    ensures forall k :: k in s.store && k != req.id ==> Next(s, cfg, req, now).store[k] == s.store[k]
  {
  }
}
