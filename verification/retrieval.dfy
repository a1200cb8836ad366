/** The public read routes: the PDF itself (which counts the download), the
    QR image and the metadata. None of them needs a session. A successful
    stream is modelled as the record that was served and the blob read from
    disk; the bytes and headers are not modelled. */
module Retrieval {
  import opened Records

  datatype Served = Served(record: FileRecord, content: Blob)

  datatype FileInfo = FileInfo(
    id: string,
    originalName: string,
    fileSize: nat,
    uploadDate: Time,
    downloadCount: nat,
    lastAccessed: Time)

  /** `GET /api/pdf/:id`: a missing record and a missing file are two
      distinct 404s; otherwise the download is counted and stamped, and the
      file is served. */
  function FetchPdf(s: State, id: string, now: Time): (st: Step<Served>)
    ensures id !in s.store ==> st == Step(Fail(404, MsgFileNotFound), s)
    ensures id in s.store && s.store[id].filePath !in s.disk ==> st == Step(Fail(404, MsgFileNotOnServer), s)
    ensures st.reply.Ok? <==> id in s.store && s.store[id].filePath in s.disk
    ensures st.reply.Ok? ==>
              var r := s.store[id];
              && st.next.store == s.store[id := r.(downloadCount := r.downloadCount + 1, lastAccessed := now)]
              && st.next.disk == s.disk && st.next.sessions == s.sessions
              && st.reply.body == Served(st.next.store[id], s.disk[r.filePath])
  {
    if id !in s.store then Step(Fail(404, MsgFileNotFound), s)
    else
      var r := s.store[id];
      if r.filePath !in s.disk then Step(Fail(404, MsgFileNotOnServer), s)
      else
        var r' := r.(downloadCount := r.downloadCount + 1, lastAccessed := now);
        Step(Ok(Served(r', s.disk[r.filePath])), s.(store := s.store[id := r']))
  }

  /** `GET /api/file-info/:id`: metadata only; nothing is read or written. */
  function FetchInfo(s: State, id: string): (st: Step<FileInfo>)
    ensures st.next == s
    ensures st.reply.Ok? <==> id in s.store
    ensures !st.reply.Ok? ==> st.reply == Fail(404, MsgFileNotFound)
    ensures st.reply.Ok? ==>
              var r := s.store[id];
              st.reply.body == FileInfo(r.id, r.originalName, r.fileSize, r.uploadDate, r.downloadCount, r.lastAccessed)
  {
    if id !in s.store then Step(Fail(404, MsgFileNotFound), s)
    else
      var r := s.store[id];
      Step(Ok(FileInfo(r.id, r.originalName, r.fileSize, r.uploadDate, r.downloadCount, r.lastAccessed)), s)
  }

  /** `GET /api/qr/:id`: serves the QR image; no counter is touched. */
  function FetchQr(s: State, id: string): (st: Step<Blob>)
    ensures st.next == s
    ensures id !in s.store ==> st.reply == Fail(404, MsgFileNotFound)
    ensures id in s.store && s.store[id].qrCodePath !in s.disk ==> st.reply == Fail(404, MsgQrNotFound)
    ensures st.reply.Ok? <==> id in s.store && s.store[id].qrCodePath in s.disk
    ensures st.reply.Ok? ==> st.reply.body == s.disk[s.store[id].qrCodePath]
  {
    if id !in s.store then Step(Fail(404, MsgFileNotFound), s)
    else
      var r := s.store[id];
      if r.qrCodePath !in s.disk then Step(Fail(404, MsgQrNotFound), s)
      else Step(Ok(s.disk[r.qrCodePath]), s)
  }

  // ---------------------------------------------------------------------
  // Properties

  /** The two 404s of the PDF route are distinguishable by their message. */
  lemma PdfNotFoundMessagesDiffer()
    ensures MsgFileNotFound != MsgFileNotOnServer
  {
    assert |MsgFileNotFound| != |MsgFileNotOnServer|;
  }

  /** An id that names no record is not found by any of the three routes,
      and none of them changes anything. */
  lemma UnknownIdNotFound(s: State, id: string, now: Time)
    requires id !in s.store
    ensures FetchPdf(s, id, now) == Step(Fail(404, MsgFileNotFound), s)
    ensures FetchQr(s, id) == Step(Fail(404, MsgFileNotFound), s)
    ensures FetchInfo(s, id) == Step(Fail(404, MsgFileNotFound), s)
  {
  }

  /** In a consistent state every record's PDF can be fetched and its QR
      image decodes to a download link for that very record. */
  lemma ConsistentServesBoth(s: State, id: string, now: Time)
    requires ConsistentState(s) && id in s.store
    ensures FetchPdf(s, id, now).reply.Ok?
    ensures FetchQr(s, id).reply.Ok? && FetchQr(s, id).reply.body.QrPng?
    ensures LinksTo(FetchQr(s, id).reply.body.payload, id)
  {
    assert RecordConsistent(s.store, s.disk, id);
  }

  /** A fetch keeps the state consistent: the paths of the record it
      stamps do not change and the disk is untouched. */
  lemma FetchPdfKeepsConsistent(s: State, id: string, now: Time)
    requires ConsistentState(s)
    ensures ConsistentState(FetchPdf(s, id, now).next)
  {
    var st := FetchPdf(s, id, now);
    if st.reply.Ok? {
      var s' := st.next;
      forall k | k in s'.store
        ensures RecordConsistent(s'.store, s'.disk, k)
      {
        assert RecordConsistent(s.store, s.disk, k);
      }
      forall j, k | j in s'.store && k in s'.store && j != k
        ensures s'.store[j].filePath != s'.store[k].filePath
      {
        assert s'.store[j].filePath == s.store[j].filePath;
        assert s'.store[k].filePath == s.store[k].filePath;
      }
    }
  }
}
