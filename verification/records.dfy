/** The state the PDF hosting server keeps between requests: the `File`
    collection, the files on disk and the in-memory session table, together
    with the path and URL conventions that the route handlers share.

    Everything the server reads from the outside world (the clock, the random
    generator, the request's host) reaches the model as a parameter, so each
    route is a pure function from a state and a request to a reply and the
    next state. */
module Records {

  datatype Option<+T> = None | Some(value: T)

  /** Milliseconds since the epoch, as `Date.now()` reports them. */
  type Time = nat

  /** One document of the `File` collection. */
  datatype FileRecord = FileRecord(
    id: string,
    originalName: string,
    fileName: string,
    filePath: string,
    fileSize: nat,
    mimeType: string,
    qrCodePath: string,
    uploadDate: Time,
    downloadCount: nat,
    lastAccessed: Time)

  /** What a path on disk holds: an uploaded PDF, of which only the size
      matters here, or a PNG image of a QR code, known by the text it encodes. */
  datatype Blob = PdfBytes(size: nat) | QrPng(payload: string)

  /** `store` is the collection keyed by its unique `id` field, `disk` is what
      `fs.existsSync` and the read streams see, and `sessions` maps each live
      session id to its recorded login time. */
  datatype State = State(
    store: map<string, FileRecord>,
    disk: map<string, Blob>,
    sessions: map<string, Time>)

  /** A reply: a JSON success body, an error body with its status, or the
      401 `needLogin` answer of the session gate. */
  datatype Reply<+T> = Ok(body: T) | Fail(status: nat, error: string) | LoginRequired

  function StatusOf<T>(r: Reply<T>): nat
  {
    match r
    case Ok(_) => 200
    case Fail(status, _) => status
    case LoginRequired => 401
  }

  /** What a route handler answers and the state it leaves behind. */
  datatype Step<+T> = Step(reply: Reply<T>, next: State)

  // Directories (relative to the server's own directory) and routes.
  const PdfDir: string := "uploads/pdfs"
  const QrDir: string := "uploads/qrcodes"
  const PdfRoute: string := "/api/pdf/"
  const QrStaticRoute: string := "/uploads/qrcodes/"

  const PdfMime: string := "application/pdf"
  const MaxFileSize: nat := 50 * 1024 * 1024
  const MaxFiles: nat := 10

  // Error messages, verbatim.
  const MsgLoginRequired: string := "Avtorizatsiya kerak"
  const MsgCredentialsRequired: string := "Username va password talab qilinadi"
  const MsgBadCredentials: string := "Noto'g'ri username yoki password"
  const MsgFileNotFound: string := "Fayl topilmadi"
  const MsgFileNotOnServer: string := "Fayl serverda topilmadi"
  const MsgQrNotFound: string := "QR kod topilmadi"
  const MsgServerError: string := "Server xatoligi"
  const MsgNoFiles: string := "Hech qanday fayl yuklanmadi"
  const MsgPdfOnly: string := "Faqat PDF fayllar qabul qilinadi!"
  const MsgTooLarge: string := "Fayl hajmi juda katta (maksimal 50MB)"
  const MsgUnexpectedField: string := "Unexpected field"

  function PdfPath(storedName: string): string { PdfDir + "/" + storedName }

  function QrPath(qrName: string): string { QrDir + "/" + qrName }

  /** The image name that ties a QR code to its record: `qr_<id>.png`. */
  function QrNameFor(id: string): string { "qr_" + id + ".png" }

  /** The public link a QR code encodes: `<origin>/api/pdf/<id>`. */
  function DownloadUrl(origin: string, id: string): string { origin + PdfRoute + id }

  predicate EndsWith(s: string, suffix: string)
  {
    |suffix| <= |s| && s[|s| - |suffix|..] == suffix
  }

  /** `url` is a download link for record `id`, whatever origin it names. */
  predicate LinksTo(url: string, id: string)
  {
    EndsWith(url, PdfRoute + id)
  }

  predicate InDir(p: string, dir: string)
  {
    |dir| < |p| && p[..|dir| + 1] == dir + "/"
  }

  /** The last path segment after trailing separators are dropped, as
      `path.basename` computes it. */
  function Basename(p: string): (name: string)
    ensures '/' !in name
    decreases |p|
  {
    if |p| == 0 then ""
    else if p[|p| - 1] == '/' then Basename(p[..|p| - 1])
    else LastSegment(p)
  }

  function LastSegment(p: string): (name: string)
    ensures '/' !in name
    ensures |name| <= |p| && name == p[|p| - |name|..]
    decreases |p|
  {
    if |p| == 0 || p[|p| - 1] == '/' then ""
    else LastSegment(p[..|p| - 1]) + [p[|p| - 1]]
  }

  /** The static URL under which the server exposes a QR image. */
  function QrImageUrl(origin: string, qrCodePath: string): string
  {
    origin + QrStaticRoute + Basename(qrCodePath)
  }

  // ---------------------------------------------------------------------
  // Path facts

  lemma {:induction false} LastSegmentOfJoin(dir: string, name: string)
    requires '/' !in name
    ensures LastSegment(dir + "/" + name) == name
    decreases |name|
  {
    var p := dir + "/" + name;
    if |name| == 0 {
      assert p[|p| - 1] == '/';
    } else {
      var init := name[..|name| - 1];
      assert p[..|p| - 1] == dir + "/" + init;
      assert p[|p| - 1] == name[|name| - 1];
      LastSegmentOfJoin(dir, init);
      assert init + [name[|name| - 1]] == name;
    }
  }

  /** A file written as `<dir>/<name>` is served under `name`. */
  lemma BasenameOfJoin(dir: string, name: string)
    requires '/' !in name && name != ""
    ensures Basename(dir + "/" + name) == name
  {
    var p := dir + "/" + name;
    assert p[|p| - 1] == name[|name| - 1];
    assert name[|name| - 1] in name;
    LastSegmentOfJoin(dir, name);
  }

  lemma PdfPathInPdfDir(storedName: string)
    ensures InDir(PdfPath(storedName), PdfDir)
  {
    assert PdfPath(storedName)[..|PdfDir| + 1] == PdfDir + "/";
  }

  lemma QrPathInQrDir(qrName: string)
    ensures InDir(QrPath(qrName), QrDir)
  {
    assert QrPath(qrName)[..|QrDir| + 1] == QrDir + "/";
  }

  /** PDFs and QR images live in different directories, so a path of one
      kind is never a path of the other. */
  lemma DirsDisjoint(p: string, q: string)
    requires InDir(p, PdfDir) && InDir(q, QrDir)
    ensures p != q
  {
    assert p[8] == p[..|PdfDir| + 1][8] == 'p';
    assert q[8] == q[..|QrDir| + 1][8] == 'q';
  }

  lemma SandwichInjective(pre: string, a: string, b: string, suf: string)
    requires pre + a + suf == pre + b + suf
    ensures a == b
  {
    var x := pre + a + suf;
    assert |a| == |b|;
    assert a == x[|pre|..|pre| + |a|];
    assert b == (pre + b + suf)[|pre|..|pre| + |b|];
  }

  /** Distinct records get distinct QR image paths. */
  lemma QrPathInjective(a: string, b: string)
    requires QrPath(QrNameFor(a)) == QrPath(QrNameFor(b))
    ensures a == b
  {
    assert QrPath(QrNameFor(a)) == (QrDir + "/" + "qr_") + a + ".png";
    assert QrPath(QrNameFor(b)) == (QrDir + "/" + "qr_") + b + ".png";
    SandwichInjective(QrDir + "/" + "qr_", a, b, ".png");
  }

  lemma DownloadUrlLinks(origin: string, id: string)
    ensures LinksTo(DownloadUrl(origin, id), id)
  {
    var u := DownloadUrl(origin, id);
    assert u == origin + (PdfRoute + id);
    assert u[|u| - |PdfRoute + id|..] == PdfRoute + id;
  }

  // ---------------------------------------------------------------------
  // The invariant every route preserves

  /** Record `k` is stored under its own id, its PDF is on disk under the
      PDF directory, and its QR image, named after the id, is on disk and
      encodes a download link for that same id. */
  predicate RecordConsistent(store: map<string, FileRecord>, disk: map<string, Blob>, k: string)
    requires k in store
  {
    var r := store[k];
    && r.id == k
    && InDir(r.filePath, PdfDir)
    && r.filePath in disk && disk[r.filePath].PdfBytes?
    && r.qrCodePath == QrPath(QrNameFor(k))
    && r.qrCodePath in disk && disk[r.qrCodePath].QrPng?
    && LinksTo(disk[r.qrCodePath].payload, k)
  }

  /** Every record is consistent with the disk, and no two records share a
      PDF file (so deleting one never takes another's file with it). */
  predicate Consistent(store: map<string, FileRecord>, disk: map<string, Blob>)
  {
    && (forall k :: k in store ==> RecordConsistent(store, disk, k))
    && (forall j, k :: j in store && k in store && j != k ==> store[j].filePath != store[k].filePath)
  }

  predicate ConsistentState(s: State)
  {
    Consistent(s.store, s.disk)
  }
}
