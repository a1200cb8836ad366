/** `POST /api/upload`: the session gate, then multer's screening and disk
    writes, then one loop iteration per file that renders its QR code and
    inserts its record.

    The clock and the random generator reach the model as data: each part
    carries the name multer's disk storage generated for it, and each loop
    iteration draws an id and a timestamp (`Draw`). */
module Upload {
  import opened Records
  import Auth
  import Retrieval
  import Deletion

  /** One file of the multipart request, as multer reports it. */
  datatype Part = Part(originalName: string, mimeType: string, size: nat, storedName: string)

  /** What one loop iteration draws: the record id and `Date.now()`. */
  datatype Draw = Draw(fileId: string, now: Time)

  // ---------------------------------------------------------------------
  // Multer's screening

  /** Why multer refuses a request: an eleventh file, a file that is not a
      PDF (the file filter), or a file over the size limit. */
  datatype Rejection = UnexpectedFile | NotPdf | TooLarge

  predicate Acceptable(p: Part)
  {
    p.mimeType == PdfMime && p.size <= MaxFileSize
  }

  /** Files are screened in order; the first offending one decides. */
  function ScreenFrom(parts: seq<Part>, i: nat): Option<Rejection>
    decreases |parts| - i
  {
    if i >= |parts| then None
    else if i >= MaxFiles then Some(UnexpectedFile)
    else if parts[i].mimeType != PdfMime then Some(NotPdf)
    else if parts[i].size > MaxFileSize then Some(TooLarge)
    else ScreenFrom(parts, i + 1)
  }

  function Screen(parts: seq<Part>): Option<Rejection>
  {
    ScreenFrom(parts, 0)
  }

  lemma {:induction false} ScreenFromPasses(parts: seq<Part>, i: nat)
    ensures ScreenFrom(parts, i).None? <==>
              (|parts| <= MaxFiles || i >= |parts|) && forall j :: i <= j < |parts| ==> Acceptable(parts[j])
    decreases |parts| - i
  {
    if i < |parts| {
      var p := parts[i];
      ScreenFromPasses(parts, i + 1);
    }
  }

  /** Which file decides a refusal: an eleventh file is refused only when
      the ten before it pass, and a non-PDF or oversized file only when it
      is among the first ten and every file before it passes. */
  lemma {:induction false} ScreenFromFirstOffence(parts: seq<Part>, i: nat)
    ensures ScreenFrom(parts, i) == Some(UnexpectedFile) ==>
              MaxFiles < |parts| && forall j :: i <= j < MaxFiles ==> Acceptable(parts[j])
    ensures ScreenFrom(parts, i) == Some(NotPdf) ==>
              exists j :: i <= j < |parts| && j < MaxFiles && parts[j].mimeType != PdfMime
                          && forall k :: i <= k < j ==> Acceptable(parts[k])
    ensures ScreenFrom(parts, i) == Some(TooLarge) ==>
              exists j :: i <= j < |parts| && j < MaxFiles && parts[j].mimeType == PdfMime && parts[j].size > MaxFileSize
                          && forall k :: i <= k < j ==> Acceptable(parts[k])
    decreases |parts| - i
  {
    if i < |parts| && i < MaxFiles && Acceptable(parts[i]) {
      ScreenFromFirstOffence(parts, i + 1);
    }
  }

  /** Multer lets a request through exactly when it holds at most ten
      files, each a PDF of at most 50 MiB. */
  lemma ScreenPasses(parts: seq<Part>)
    ensures Screen(parts).None? <==> |parts| <= MaxFiles && forall j :: 0 <= j < |parts| ==> Acceptable(parts[j])
  {
    ScreenFromPasses(parts, 0);
  }

  /** How the error handler answers a refusal: only the size limit is
      recognised (400); the others fall through to 500 with their message. */
  function RejectionReply(r: Rejection): (rep: Reply<seq<Uploaded>>)
    ensures rep.Fail?
    ensures rep.status == 400 <==> r == TooLarge
    ensures rep.status == 500 <==> r != TooLarge
  {
    match r
    case UnexpectedFile => Fail(500, MsgUnexpectedField)
    case NotPdf => Fail(500, MsgPdfOnly)
    case TooLarge => Fail(400, MsgTooLarge)
  }

  /** The paths multer's disk storage writes for a request. */
  function StoredPaths(parts: seq<Part>): set<string>
    decreases |parts|
  {
    if |parts| == 0 then {} else {PdfPath(parts[0].storedName)} + StoredPaths(parts[1..])
  }

  lemma {:induction false} StoredPathsAre(parts: seq<Part>, p: string)
    ensures p in StoredPaths(parts) <==> exists i :: 0 <= i < |parts| && p == PdfPath(parts[i].storedName)
    decreases |parts|
  {
    if |parts| > 0 {
      StoredPathsAre(parts[1..], p);
      if exists i :: 0 <= i < |parts| && p == PdfPath(parts[i].storedName) {
        var i :| 0 <= i < |parts| && p == PdfPath(parts[i].storedName);
        if i > 0 { assert parts[1..][i - 1] == parts[i]; }
      }
      if exists i :: 0 <= i < |parts[1..]| && p == PdfPath(parts[1..][i].storedName) {
        var i :| 0 <= i < |parts[1..]| && p == PdfPath(parts[1..][i].storedName);
        assert parts[1..][i] == parts[i + 1];
      }
    }
  }

  /** Multer's disk storage writes every accepted file before the handler
      runs: each stored path then holds a PDF and nothing else changes. */
  function WritePdfs(disk: map<string, Blob>, parts: seq<Part>): (d: map<string, Blob>)
    ensures forall p :: p in disk ==> p in d
    ensures forall p :: p in StoredPaths(parts) ==> p in d && d[p].PdfBytes?
    ensures forall p :: p in d && p !in StoredPaths(parts) ==> p in disk && d[p] == disk[p]
    decreases |parts|
  {
    if |parts| == 0 then disk
    else WritePdfs(disk[PdfPath(parts[0].storedName) := PdfBytes(parts[0].size)], parts[1..])
  }

  // ---------------------------------------------------------------------
  // QR image names

  /** How the QR image file is named: after the clock reading, as the
      server does, or after the record id. */
  datatype QrNaming = ByClock | ById

  function Decimal(n: nat): string
    decreases n
  {
    if n < 10 then ["0123456789"[n]] else Decimal(n / 10) + ["0123456789"[n % 10]]
  }

  function QrNameOf(naming: QrNaming, d: Draw): string
  {
    match naming
    case ByClock => "qr_" + Decimal(d.now) + ".png"
    case ById => QrNameFor(d.fileId)
  }

  lemma {:induction false} DecimalHasNoSlash(n: nat)
    ensures '/' !in Decimal(n)
    decreases n
  {
    if n >= 10 {
      DecimalHasNoSlash(n / 10);
    }
  }

  /** The QR images the loop renders, in order, each encoding its file's
      download link; a later image overwrites an earlier one at the same path. */
  function WriteQrs(disk: map<string, Blob>, ws: seq<Draw>, origin: string, naming: QrNaming): map<string, Blob>
    decreases |ws|
  {
    if |ws| == 0 then disk
    else WriteQrs(disk[QrPath(QrNameOf(naming, ws[0])) := QrPng(DownloadUrl(origin, ws[0].fileId))], ws[1..], origin, naming)
  }

  // ---------------------------------------------------------------------
  // The per-file loop

  /** One entry of the success reply. */
  datatype Uploaded = Uploaded(id: string, name: string, size: nat, qrCode: string, downloadUrl: string, uploadDate: Time)

  datatype Persisted = Persisted(store: map<string, FileRecord>, disk: map<string, Blob>, files: seq<Uploaded>, failed: bool)

  /** How many loop iterations ran: the failing one renders its QR image
      before its insert is refused. */
  function Processed(r: Persisted): nat
  {
    if r.failed then |r.files| + 1 else |r.files|
  }

  function NewRecord(p: Part, d: Draw, qrPath: string): FileRecord
  {
    FileRecord(d.fileId, p.originalName, p.storedName, PdfPath(p.storedName), p.size, p.mimeType, qrPath, d.now, 0, d.now)
  }

  /** The reply entry for one file. The server renders the image link
      from `path.basename` of the image path, which is the image's name
      (`SummaryLinkIsBasename`). */
  function SummaryOf(p: Part, d: Draw, origin: string, naming: QrNaming): Uploaded
  {
    Uploaded(d.fileId, p.originalName, p.size, origin + QrStaticRoute + QrNameOf(naming, d), DownloadUrl(origin, d.fileId), d.now)
  }

  /** The image link of a reply entry is the one the server renders from
      the stored image path whenever the image name has no separator:
      always for clock names, and for id names when the id has none. */
  lemma SummaryLinkIsBasename(p: Part, d: Draw, origin: string, naming: QrNaming)
    requires naming == ById ==> '/' !in d.fileId
    ensures SummaryOf(p, d, origin, naming).qrCode == QrImageUrl(origin, QrPath(QrNameOf(naming, d)))
  {
    if naming == ByClock {
      DecimalHasNoSlash(d.now);
    }
    BasenameOfJoin(QrDir, QrNameOf(naming, d));
  }

  /** The drawn ids are new to the store and to each other, so that every
      insert passes the unique index. */
  predicate FreshIds(draws: seq<Draw>, store: map<string, FileRecord>)
  {
    && (forall i :: 0 <= i < |draws| ==> draws[i].fileId !in store)
    && (forall i, j :: 0 <= i < j < |draws| ==> draws[i].fileId != draws[j].fileId)
  }

  lemma FreshIdsCons(draws: seq<Draw>, store: map<string, FileRecord>, r: FileRecord)
    requires |draws| > 0
    ensures FreshIds(draws, store) <==>
              draws[0].fileId !in store && FreshIds(draws[1..], store[draws[0].fileId := r])
  {
    if draws[0].fileId !in store && FreshIds(draws[1..], store[draws[0].fileId := r]) {
      forall i, j | 0 <= i < j < |draws| ensures draws[i].fileId != draws[j].fileId {
        assert draws[j] == draws[1..][j - 1];
        if i > 0 { assert draws[i] == draws[1..][i - 1]; }
      }
    }
    if FreshIds(draws, store) {
      forall i | 0 <= i < |draws[1..]| ensures draws[1..][i].fileId !in store[draws[0].fileId := r] {
        assert draws[1..][i] == draws[i + 1];
      }
      forall i, j | 0 <= i < j < |draws[1..]| ensures draws[1..][i].fileId != draws[1..][j].fileId {
        assert draws[1..][i] == draws[i + 1] && draws[1..][j] == draws[j + 1];
      }
    }
  }

  /** The handler's loop: render the QR image, then insert the record; the
      first insert the unique index refuses stops the loop, and what was
      written before it stays. */
  function Persist(store: map<string, FileRecord>, disk: map<string, Blob>, parts: seq<Part>, draws: seq<Draw>,
                   origin: string, naming: QrNaming): (r: Persisted)
    requires |parts| == |draws|
    ensures Processed(r) <= |parts|
    ensures !r.failed ==> |r.files| == |parts|
    decreases |parts|
  {
    if |parts| == 0 then Persisted(store, disk, [], false)
    else
      var d := draws[0];
      var q := QrPath(QrNameOf(naming, d));
      var disk1 := disk[q := QrPng(DownloadUrl(origin, d.fileId))];
      var rec := NewRecord(parts[0], d, q);
      if d.fileId in store then Persisted(store, disk1, [], true)
      else
        var rest := Persist(store[d.fileId := rec], disk1, parts[1..], draws[1..], origin, naming);
        Persisted(rest.store, rest.disk, [SummaryOf(parts[0], d, origin, naming)] + rest.files, rest.failed)
  }

  /** The loop runs to the end exactly when every drawn id is new. */
  lemma {:induction false} PersistSucceeds(store: map<string, FileRecord>, disk: map<string, Blob>, parts: seq<Part>,
                                           draws: seq<Draw>, origin: string, naming: QrNaming)
    requires |parts| == |draws|
    ensures !Persist(store, disk, parts, draws, origin, naming).failed <==> FreshIds(draws, store)
    decreases |parts|
  {
    if |parts| > 0 {
      var d := draws[0];
      var q := QrPath(QrNameOf(naming, d));
      var rec := NewRecord(parts[0], d, q);
      FreshIdsCons(draws, store, rec);
      if d.fileId !in store {
        PersistSucceeds(store[d.fileId := rec], disk[q := QrPng(DownloadUrl(origin, d.fileId))], parts[1..], draws[1..], origin, naming);
      }
    }
  }

  /** The loop never touches a record that was already stored, and each
      insert adds exactly one key. */
  lemma {:induction false} PersistKeepsOld(store: map<string, FileRecord>, disk: map<string, Blob>, parts: seq<Part>,
                                           draws: seq<Draw>, origin: string, naming: QrNaming)
    requires |parts| == |draws|
    ensures var r := Persist(store, disk, parts, draws, origin, naming);
            && (forall k :: k in store ==> k in r.store && r.store[k] == store[k])
            && |r.store| == |store| + |r.files|
    decreases |parts|
  {
    if |parts| > 0 && draws[0].fileId !in store {
      var d := draws[0];
      var q := QrPath(QrNameOf(naming, d));
      var disk1 := disk[q := QrPng(DownloadUrl(origin, d.fileId))];
      var store1 := store[d.fileId := NewRecord(parts[0], d, q)];
      PersistKeepsOld(store1, disk1, parts[1..], draws[1..], origin, naming);
    }
  }

  /** Every key the loop adds is the id of one of the files it reports. */
  lemma {:induction false} PersistNewKeys(store: map<string, FileRecord>, disk: map<string, Blob>, parts: seq<Part>,
                                          draws: seq<Draw>, origin: string, naming: QrNaming)
    requires |parts| == |draws|
    ensures var r := Persist(store, disk, parts, draws, origin, naming);
            forall k :: k in r.store && k !in store ==> exists i :: 0 <= i < |r.files| && draws[i].fileId == k
    decreases |parts|
  {
    if |parts| > 0 && draws[0].fileId !in store {
      var d := draws[0];
      var q := QrPath(QrNameOf(naming, d));
      var disk1 := disk[q := QrPng(DownloadUrl(origin, d.fileId))];
      var store1 := store[d.fileId := NewRecord(parts[0], d, q)];
      PersistNewKeys(store1, disk1, parts[1..], draws[1..], origin, naming);
      var rest := Persist(store1, disk1, parts[1..], draws[1..], origin, naming);
      var r := Persist(store, disk, parts, draws, origin, naming);
      assert r.store == rest.store && |r.files| == |rest.files| + 1;
      forall k | k in r.store && k !in store
        ensures exists i :: 0 <= i < |r.files| && draws[i].fileId == k
      {
        if k == d.fileId {
          assert draws[0].fileId == k;
        } else {
          assert k in rest.store && k !in store1;
          var i :| 0 <= i < |rest.files| && draws[1..][i].fileId == k;
          assert draws[i + 1].fileId == k;
        }
      }
    }
  }

  /** The i-th reported file is the i-th part, stored under the i-th drawn
      id with no downloads yet, its QR image at the path the naming gives. */
  lemma {:induction false} PersistRecord(store: map<string, FileRecord>, disk: map<string, Blob>, parts: seq<Part>,
                                         draws: seq<Draw>, origin: string, naming: QrNaming, i: nat)
    requires |parts| == |draws|
    requires i < |Persist(store, disk, parts, draws, origin, naming).files|
    ensures var r := Persist(store, disk, parts, draws, origin, naming);
            var q := QrPath(QrNameOf(naming, draws[i]));
            && r.files[i] == SummaryOf(parts[i], draws[i], origin, naming)
            && draws[i].fileId in r.store && r.store[draws[i].fileId] == NewRecord(parts[i], draws[i], q)
    decreases |parts|
  {
    var d := draws[0];
    var q := QrPath(QrNameOf(naming, d));
    var disk1 := disk[q := QrPng(DownloadUrl(origin, d.fileId))];
    var store1 := store[d.fileId := NewRecord(parts[0], d, q)];
    var rest := Persist(store1, disk1, parts[1..], draws[1..], origin, naming);
    if i == 0 {
      PersistKeepsOld(store1, disk1, parts[1..], draws[1..], origin, naming);
    } else {
      PersistRecord(store1, disk1, parts[1..], draws[1..], origin, naming, i - 1);
      assert parts[1..][i - 1] == parts[i] && draws[1..][i - 1] == draws[i];
    }
  }

  lemma PersistRecords(store: map<string, FileRecord>, disk: map<string, Blob>, parts: seq<Part>,
                       draws: seq<Draw>, origin: string, naming: QrNaming)
    requires |parts| == |draws|
    ensures var r := Persist(store, disk, parts, draws, origin, naming);
            forall i :: 0 <= i < |r.files| ==>
              var q := QrPath(QrNameOf(naming, draws[i]));
              && r.files[i] == SummaryOf(parts[i], draws[i], origin, naming)
              && draws[i].fileId in r.store && r.store[draws[i].fileId] == NewRecord(parts[i], draws[i], q)
  {
    var r := Persist(store, disk, parts, draws, origin, naming);
    forall i | 0 <= i < |r.files|
      ensures var q := QrPath(QrNameOf(naming, draws[i]));
              && r.files[i] == SummaryOf(parts[i], draws[i], origin, naming)
              && draws[i].fileId in r.store && r.store[draws[i].fileId] == NewRecord(parts[i], draws[i], q)
    {
      PersistRecord(store, disk, parts, draws, origin, naming, i);
    }
  }

  /** The loop's only disk effect is the QR images of the iterations that
      ran, the refused one included. */
  lemma {:induction false} PersistDisk(store: map<string, FileRecord>, disk: map<string, Blob>, parts: seq<Part>,
                                       draws: seq<Draw>, origin: string, naming: QrNaming)
    requires |parts| == |draws|
    ensures var r := Persist(store, disk, parts, draws, origin, naming);
            r.disk == WriteQrs(disk, draws[..Processed(r)], origin, naming)
    decreases |parts|
  {
    if |parts| > 0 {
      var d := draws[0];
      var q := QrPath(QrNameOf(naming, d));
      var disk1 := disk[q := QrPng(DownloadUrl(origin, d.fileId))];
      var r := Persist(store, disk, parts, draws, origin, naming);
      if d.fileId in store {
        assert draws[..1][0] == d && draws[..1][1..] == [];
      } else {
        var store1 := store[d.fileId := NewRecord(parts[0], d, q)];
        PersistDisk(store1, disk1, parts[1..], draws[1..], origin, naming);
        var rest := Persist(store1, disk1, parts[1..], draws[1..], origin, naming);
        assert Processed(r) == Processed(rest) + 1;
        assert draws[..Processed(r)][0] == d;
        assert draws[..Processed(r)][1..] == draws[1..][..Processed(rest)];
      }
    }
  }

  // ---------------------------------------------------------------------
  // The route

  /** `POST /api/upload`. */
  function UploadFiles(s: State, header: Option<string>, parts: seq<Part>, draws: seq<Draw>, origin: string,
                       now: Time, naming: QrNaming): (st: Step<seq<Uploaded>>)
    requires |draws| == |parts|
    ensures Auth.RequireAuth(s.sessions, header, now).Denied? ==> st == Step(LoginRequired, s)
    ensures st.next.sessions == Auth.Touch(s, header, now).sessions
    ensures Auth.RequireAuth(s.sessions, header, now).Admitted? && Screen(parts).Some? ==>
              st == Step(RejectionReply(Screen(parts).value), Auth.Touch(s, header, now))
    ensures Auth.RequireAuth(s.sessions, header, now).Admitted? && Screen(parts).None? && |parts| == 0 ==>
              st == Step(Fail(400, MsgNoFiles), Auth.Touch(s, header, now))
    ensures st.reply.Ok? <==>
              Auth.RequireAuth(s.sessions, header, now).Admitted? && Screen(parts).None? && |parts| > 0
              && FreshIds(draws, s.store)
    ensures forall k :: k in s.store ==> k in st.next.store && st.next.store[k] == s.store[k]
    ensures Auth.RequireAuth(s.sessions, header, now).Admitted? && Screen(parts).None? && |parts| > 0 ==>
              var r := Persist(s.store, WritePdfs(s.disk, parts), parts, draws, origin, naming);
              && st.next == Auth.Touch(s, header, now).(store := r.store, disk := r.disk)
              && (st.reply.Ok? <==> !r.failed)
    ensures st.reply.Ok? ==>
              && |st.reply.body| == |parts|
              && |st.next.store| == |s.store| + |parts|
              && forall i :: 0 <= i < |parts| ==>
                   var q := QrPath(QrNameOf(naming, draws[i]));
                   && st.reply.body[i] == SummaryOf(parts[i], draws[i], origin, naming)
                   && draws[i].fileId in st.next.store
                   && st.next.store[draws[i].fileId] == NewRecord(parts[i], draws[i], q)
  {
    match Auth.RequireAuth(s.sessions, header, now)
    case Denied => Step(LoginRequired, s)
    case Admitted(_, sessions) =>
      var s1 := s.(sessions := sessions);
      match Screen(parts)
      case Some(why) => Step(RejectionReply(why), s1)
      case None =>
        if |parts| == 0 then Step(Fail(400, MsgNoFiles), s1)
        else
          var r := Persist(s.store, WritePdfs(s.disk, parts), parts, draws, origin, naming);
          PersistSucceeds(s.store, WritePdfs(s.disk, parts), parts, draws, origin, naming);
          PersistKeepsOld(s.store, WritePdfs(s.disk, parts), parts, draws, origin, naming);
          PersistRecords(s.store, WritePdfs(s.disk, parts), parts, draws, origin, naming);
          var s2 := s1.(store := r.store, disk := r.disk);
          if r.failed then Step(Fail(500, MsgServerError + ": duplicate key"), s2)
          else Step(Ok(r.files), s2)
  }

  // ---------------------------------------------------------------------
  // Properties

  /** A request with a file that is not a PDF, or too large, or more than
      ten files, creates nothing. */
  lemma RejectedCreatesNothing(s: State, header: Option<string>, parts: seq<Part>, draws: seq<Draw>,
                               origin: string, now: Time, naming: QrNaming)
    requires |draws| == |parts|
    requires |parts| > MaxFiles || exists j :: 0 <= j < |parts| && !Acceptable(parts[j])
    ensures var st := UploadFiles(s, header, parts, draws, origin, now, naming);
            !st.reply.Ok? && st.next.store == s.store && st.next.disk == s.disk
  {
    ScreenPasses(parts);
  }

  /** Every uploaded file can be looked up by the id in the reply, with the
      name and size it was uploaded with and no downloads yet. */
  lemma UploadThenInfo(s: State, header: Option<string>, parts: seq<Part>, draws: seq<Draw>,
                       origin: string, now: Time, naming: QrNaming, i: nat)
    requires |draws| == |parts|
    requires UploadFiles(s, header, parts, draws, origin, now, naming).reply.Ok?
    requires i < |parts|
    ensures var st := UploadFiles(s, header, parts, draws, origin, now, naming);
            var info := Retrieval.FetchInfo(st.next, st.reply.body[i].id).reply;
            && info.Ok?
            && info.body.originalName == parts[i].originalName == st.reply.body[i].name
            && info.body.fileSize == parts[i].size == st.reply.body[i].size
            && info.body.downloadCount == 0
            && st.reply.body[i].downloadUrl == DownloadUrl(origin, info.body.id)
  {
  }

  lemma {:induction false} WriteQrsKeeps(disk: map<string, Blob>, ws: seq<Draw>, origin: string, naming: QrNaming, p: string)
    requires forall j :: 0 <= j < |ws| ==> p != QrPath(QrNameOf(naming, ws[j]))
    ensures p in WriteQrs(disk, ws, origin, naming) <==> p in disk
    ensures p in disk ==> WriteQrs(disk, ws, origin, naming)[p] == disk[p]
    decreases |ws|
  {
    if |ws| > 0 {
      assert forall j :: 0 <= j < |ws[1..]| ==> ws[1..][j] == ws[j + 1];
      WriteQrsKeeps(disk[QrPath(QrNameOf(naming, ws[0])) := QrPng(DownloadUrl(origin, ws[0].fileId))], ws[1..], origin, naming, p);
    }
  }

  /** Named after the id, the image of any id the loop rendered encodes
      exactly that id's download link. */
  lemma {:induction false} WriteQrsById(disk: map<string, Blob>, ws: seq<Draw>, origin: string, i: nat)
    requires i < |ws|
    ensures var p := QrPath(QrNameFor(ws[i].fileId));
            p in WriteQrs(disk, ws, origin, ById)
            && WriteQrs(disk, ws, origin, ById)[p] == QrPng(DownloadUrl(origin, ws[i].fileId))
    decreases |ws|
  {
    var id := ws[i].fileId;
    var p := QrPath(QrNameFor(id));
    var disk1 := disk[QrPath(QrNameOf(ById, ws[0])) := QrPng(DownloadUrl(origin, ws[0].fileId))];
    if exists j :: 1 <= j < |ws| && ws[j].fileId == id {
      var j :| 1 <= j < |ws| && ws[j].fileId == id;
      assert ws[1..][j - 1] == ws[j];
      WriteQrsById(disk1, ws[1..], origin, j - 1);
    } else {
      assert i == 0;
      forall j | 0 <= j < |ws[1..]| ensures p != QrPath(QrNameOf(ById, ws[1..][j])) {
        assert ws[1..][j] == ws[j + 1];
        if p == QrPath(QrNameFor(ws[j + 1].fileId)) {
          QrPathInjective(id, ws[j + 1].fileId);
        }
      }
      WriteQrsKeeps(disk1, ws[1..], origin, ById, p);
    }
  }

  /** Right after an upload with id-named images, the QR route serves, for
      every file, an image encoding exactly `<origin>/api/pdf/<id>`. */
  lemma UploadThenQr(s: State, header: Option<string>, parts: seq<Part>, draws: seq<Draw>,
                     origin: string, now: Time, i: nat)
    requires |draws| == |parts|
    requires UploadFiles(s, header, parts, draws, origin, now, ById).reply.Ok?
    requires i < |parts|
    ensures var st := UploadFiles(s, header, parts, draws, origin, now, ById);
            Retrieval.FetchQr(st.next, draws[i].fileId).reply == Ok(QrPng(DownloadUrl(origin, draws[i].fileId)))
  {
    var pdfs := WritePdfs(s.disk, parts);
    var r := Persist(s.store, pdfs, parts, draws, origin, ById);
    PersistDisk(s.store, pdfs, parts, draws, origin, ById);
    PersistRecord(s.store, pdfs, parts, draws, origin, ById, i);
    assert draws[..Processed(r)] == draws;
    WriteQrsById(pdfs, draws, origin, i);
  }

  /** Two download links differ whenever their ids do. */
  lemma DownloadUrlInjective(origin: string, a: string, b: string)
    requires DownloadUrl(origin, a) == DownloadUrl(origin, b)
    ensures a == b
  {
    assert origin + PdfRoute + a + "" == DownloadUrl(origin, a);
    assert origin + PdfRoute + b + "" == DownloadUrl(origin, b);
    SandwichInjective(origin + PdfRoute, a, b, "");
  }

  /** Two PDFs, uploaded under ids `a` and `b` in one request whose loop
      reads the same millisecond for both: what the clock-named images make
      of them. */
  function SameMillisecond(s: State, header: Option<string>, p0: Part, p1: Part, a: string, b: string,
                           origin: string, t: Time, now: Time): Step<seq<Uploaded>>
  {
    UploadFiles(s, header, [p0, p1], [Draw(a, t), Draw(b, t)], origin, now, ByClock)
  }

  /** Two renders in the same millisecond write one path, and the later
      image is the one left on disk. */
  lemma ClockWritesOneImage(disk: map<string, Blob>, a: string, b: string, origin: string, t: Time)
    ensures WriteQrs(disk, [Draw(a, t), Draw(b, t)], origin, ByClock) ==
              disk[QrPath(QrNameOf(ByClock, Draw(a, t))) := QrPng(DownloadUrl(origin, b))]
  {
    var q := QrPath(QrNameOf(ByClock, Draw(a, t)));
    var d1 := disk[q := QrPng(DownloadUrl(origin, a))];
    var d2 := d1[q := QrPng(DownloadUrl(origin, b))];
    assert [Draw(a, t), Draw(b, t)][1..] == [Draw(b, t)] && [Draw(b, t)][1..] == [];
    assert WriteQrs(d1, [Draw(b, t)], origin, ByClock) == WriteQrs(d2, [], origin, ByClock);
    assert d2 == disk[q := QrPng(DownloadUrl(origin, b))];
  }

  /** As written, both records of `SameMillisecond` point at one image,
      the second file's, so the first file's QR code opens the second file. */
  lemma ClockNamingCrossesQrCodes(s: State, header: Option<string>, p0: Part, p1: Part, a: string, b: string,
                                  origin: string, t: Time, now: Time)
    requires a != b && a !in s.store && b !in s.store
    requires Auth.RequireAuth(s.sessions, header, now).Admitted?
    requires Acceptable(p0) && Acceptable(p1)
    ensures var st := SameMillisecond(s, header, p0, p1, a, b, origin, t, now);
            && st.reply.Ok?
            && st.next.store[a].qrCodePath == st.next.store[b].qrCodePath
            && Retrieval.FetchQr(st.next, a).reply == Ok(QrPng(DownloadUrl(origin, b)))
            && DownloadUrl(origin, b) != DownloadUrl(origin, a)
  {
    var parts := [p0, p1];
    var draws := [Draw(a, t), Draw(b, t)];
    ScreenPasses(parts);
    var pdfs := WritePdfs(s.disk, parts);
    var r := Persist(s.store, pdfs, parts, draws, origin, ByClock);
    PersistSucceeds(s.store, pdfs, parts, draws, origin, ByClock);
    PersistDisk(s.store, pdfs, parts, draws, origin, ByClock);
    PersistRecords(s.store, pdfs, parts, draws, origin, ByClock);
    assert draws[..Processed(r)] == draws;
    ClockWritesOneImage(pdfs, a, b, origin, t);
    if DownloadUrl(origin, b) == DownloadUrl(origin, a) {
      DownloadUrlInjective(origin, b, a);
    }
  }

  /** As written, deleting the second file of `SameMillisecond` deletes the
      shared image, and the first file's QR code is gone with it. */
  lemma ClockNamingOrphansOnDelete(s: State, header: Option<string>, p0: Part, p1: Part, a: string, b: string,
                                   origin: string, t: Time, now: Time, later: Time)
    requires a != b && a !in s.store && b !in s.store
    requires Auth.RequireAuth(s.sessions, header, now).Admitted?
    requires Acceptable(p0) && Acceptable(p1)
    ensures var st := SameMillisecond(s, header, p0, p1, a, b, origin, t, now);
            var del := Deletion.DeleteFile(st.next, header, b, later);
            && del.reply.Ok?
            && Retrieval.FetchQr(del.next, a).reply == Fail(404, MsgQrNotFound)
  {
    ClockNamingCrossesQrCodes(s, header, p0, p1, a, b, origin, t, now);
    var st := SameMillisecond(s, header, p0, p1, a, b, origin, t, now);
    assert st.next.sessions.Keys == s.sessions.Keys;
    DeleteSharedImage(st.next, header, a, b, later);
  }

  /** Deleting one of two records that share an image path removes the
      other record's image too. */
  lemma DeleteSharedImage(s: State, header: Option<string>, a: string, b: string, now: Time)
    requires a != b && a in s.store && b in s.store
    requires s.store[a].qrCodePath == s.store[b].qrCodePath
    requires Auth.RequireAuth(s.sessions, header, now).Admitted?
    ensures var del := Deletion.DeleteFile(s, header, b, now);
            && del.reply.Ok?
            && Retrieval.FetchQr(del.next, a).reply == Fail(404, MsgQrNotFound)
  {
  }

  /** Names of multer's stored files that are new: no record already uses
      the path, and no two files of the request share one. */
  predicate FreshStoredNames(parts: seq<Part>, store: map<string, FileRecord>)
  {
    && (forall i, k :: 0 <= i < |parts| && k in store ==> PdfPath(parts[i].storedName) != store[k].filePath)
    && (forall i, j :: 0 <= i < j < |parts| ==> PdfPath(parts[i].storedName) != PdfPath(parts[j].storedName))
  }

  /** With id-named images and freshly named PDFs, an upload (successful
      or stopped half way) keeps the state consistent. */
  lemma UploadKeepsConsistent(s: State, header: Option<string>, parts: seq<Part>, draws: seq<Draw>,
                              origin: string, now: Time)
    requires |draws| == |parts|
    requires ConsistentState(s) && FreshStoredNames(parts, s.store)
    ensures ConsistentState(UploadFiles(s, header, parts, draws, origin, now, ById).next)
  {
    var st := UploadFiles(s, header, parts, draws, origin, now, ById);
    if Auth.RequireAuth(s.sessions, header, now).Admitted? && Screen(parts).None? && |parts| > 0 {
      var r := Persist(s.store, WritePdfs(s.disk, parts), parts, draws, origin, ById);
      PersistKeepsOld(s.store, WritePdfs(s.disk, parts), parts, draws, origin, ById);
      assert st.next.store == r.store && st.next.disk == r.disk;
      forall k | k in r.store
        ensures RecordConsistent(r.store, r.disk, k)
      {
        if k in s.store {
          OldRecordConsistent(s, parts, draws, origin, k);
        } else {
          NewRecordConsistent(s, parts, draws, origin, k);
        }
      }
      forall j, k | j in r.store && k in r.store && j != k
        ensures r.store[j].filePath != r.store[k].filePath
      {
        NewPathsDistinct(s, parts, draws, origin, r, j, k);
      }
    }
  }

  /** A record stored before the upload keeps its PDF, and its QR image
      either stays or is rewritten with a link to the same id. */
  lemma OldRecordConsistent(s: State, parts: seq<Part>, draws: seq<Draw>, origin: string, k: string)
    requires |draws| == |parts|
    requires ConsistentState(s) && k in s.store
    ensures var r := Persist(s.store, WritePdfs(s.disk, parts), parts, draws, origin, ById);
            k in r.store && RecordConsistent(r.store, r.disk, k)
  {
    var pdfs := WritePdfs(s.disk, parts);
    var r := Persist(s.store, pdfs, parts, draws, origin, ById);
    var ws := draws[..Processed(r)];
    PersistKeepsOld(s.store, pdfs, parts, draws, origin, ById);
    PersistDisk(s.store, pdfs, parts, draws, origin, ById);
    var q := QrPath(QrNameFor(k));
    var rec := r.store[k];
    assert RecordConsistent(s.store, s.disk, k);
    PdfStaysPdf(s.disk, pdfs, parts, ws, origin, rec.filePath);
    if exists j :: 0 <= j < |ws| && ws[j].fileId == k {
      var j :| 0 <= j < |ws| && ws[j].fileId == k;
      WriteQrsById(pdfs, ws, origin, j);
      DownloadUrlLinks(origin, k);
    } else {
      forall j | 0 <= j < |ws| ensures q != QrPath(QrNameOf(ById, ws[j])) {
        if q == QrPath(QrNameFor(ws[j].fileId)) { QrPathInjective(k, ws[j].fileId); }
      }
      QrPathInQrDir(QrNameFor(k));
      forall i | 0 <= i < |parts| ensures q != PdfPath(parts[i].storedName) {
        PdfPathInPdfDir(parts[i].storedName);
        DirsDisjoint(PdfPath(parts[i].storedName), q);
      }
      StoredPathsAre(parts, q);
      WriteQrsKeeps(pdfs, ws, origin, ById, q);
    }
  }

  /** A record the upload inserted has its PDF on disk and an image at its
      id's path linking to it. */
  lemma NewRecordConsistent(s: State, parts: seq<Part>, draws: seq<Draw>, origin: string, k: string)
    requires |draws| == |parts|
    requires k !in s.store
    requires k in Persist(s.store, WritePdfs(s.disk, parts), parts, draws, origin, ById).store
    ensures var r := Persist(s.store, WritePdfs(s.disk, parts), parts, draws, origin, ById);
            RecordConsistent(r.store, r.disk, k)
  {
    var pdfs := WritePdfs(s.disk, parts);
    var r := Persist(s.store, pdfs, parts, draws, origin, ById);
    var ws := draws[..Processed(r)];
    PersistNewKeys(s.store, pdfs, parts, draws, origin, ById);
    PersistDisk(s.store, pdfs, parts, draws, origin, ById);
    var i :| 0 <= i < |r.files| && draws[i].fileId == k;
    PersistRecord(s.store, pdfs, parts, draws, origin, ById, i);
    var rec := r.store[k];
    assert ws[i] == draws[i];
    PdfPathInPdfDir(parts[i].storedName);
    StoredPathsAre(parts, rec.filePath);
    PdfStaysPdf(s.disk, pdfs, parts, ws, origin, rec.filePath);
    WriteQrsById(pdfs, ws, origin, i);
    DownloadUrlLinks(origin, k);
  }

  /** A record's PDF path stays a PDF on disk through the upload's writes. */
  lemma PdfStaysPdf(disk: map<string, Blob>, pdfs: map<string, Blob>, parts: seq<Part>, ws: seq<Draw>,
                    origin: string, p: string)
    requires pdfs == WritePdfs(disk, parts)
    requires InDir(p, PdfDir)
    requires (p in disk && disk[p].PdfBytes?) || p in StoredPaths(parts)
    ensures p in WriteQrs(pdfs, ws, origin, ById) && WriteQrs(pdfs, ws, origin, ById)[p].PdfBytes?
  {
    forall j | 0 <= j < |ws| ensures p != QrPath(QrNameOf(ById, ws[j])) {
      QrPathInQrDir(QrNameFor(ws[j].fileId));
      DirsDisjoint(p, QrPath(QrNameFor(ws[j].fileId)));
    }
    WriteQrsKeeps(pdfs, ws, origin, ById, p);
  }

  /** The iteration that added a new key: its record is that iteration's
      file, stored under its drawn id. */
  lemma NewKeyIteration(store: map<string, FileRecord>, disk: map<string, Blob>, parts: seq<Part>,
                        draws: seq<Draw>, origin: string, naming: QrNaming, k: string) returns (a: nat)
    requires |parts| == |draws|
    requires k in Persist(store, disk, parts, draws, origin, naming).store && k !in store
    ensures a < |parts| && draws[a].fileId == k
    ensures Persist(store, disk, parts, draws, origin, naming).store[k].filePath == PdfPath(parts[a].storedName)
  {
    var r := Persist(store, disk, parts, draws, origin, naming);
    PersistNewKeys(store, disk, parts, draws, origin, naming);
    a :| 0 <= a < |r.files| && draws[a].fileId == k;
    PersistRecord(store, disk, parts, draws, origin, naming, a);
  }

  lemma NewPathsDistinct(s: State, parts: seq<Part>, draws: seq<Draw>, origin: string, r: Persisted, j: string, k: string)
    requires |draws| == |parts|
    requires ConsistentState(s) && FreshStoredNames(parts, s.store)
    requires r == Persist(s.store, WritePdfs(s.disk, parts), parts, draws, origin, ById)
    requires j in r.store && k in r.store && j != k
    ensures r.store[j].filePath != r.store[k].filePath
  {
    var pdfs := WritePdfs(s.disk, parts);
    PersistKeepsOld(s.store, pdfs, parts, draws, origin, ById);
    if j !in s.store {
      var a := NewKeyIteration(s.store, pdfs, parts, draws, origin, ById, j);
      if k !in s.store {
        var b := NewKeyIteration(s.store, pdfs, parts, draws, origin, ById, k);
        if a < b {
          assert PdfPath(parts[a].storedName) != PdfPath(parts[b].storedName);
        } else {
          assert PdfPath(parts[b].storedName) != PdfPath(parts[a].storedName);
        }
      } else {
        assert PdfPath(parts[a].storedName) != s.store[k].filePath;
      }
    } else if k !in s.store {
      var b := NewKeyIteration(s.store, pdfs, parts, draws, origin, ById, k);
      assert PdfPath(parts[b].storedName) != s.store[j].filePath;
    }
  }
}
