/** `DELETE /api/file/:id`: removes the record and, when they exist, its
    PDF and its QR image. A file already missing from disk is not an error. */
module Deletion {
  import opened Records
  import Auth
  import Retrieval

  function DeleteFile(s: State, header: Option<string>, id: string, now: Time): (st: Step<()>)
    ensures Auth.RequireAuth(s.sessions, header, now).Denied? ==> st == Step(LoginRequired, s)
    ensures st.next.sessions == Auth.Touch(s, header, now).sessions
    ensures Auth.RequireAuth(s.sessions, header, now).Admitted? && id !in s.store ==>
              st.reply == Fail(404, MsgFileNotFound) && st.next.store == s.store && st.next.disk == s.disk
    ensures st.reply.Ok? <==> Auth.RequireAuth(s.sessions, header, now).Admitted? && id in s.store
    ensures st.reply.Ok? ==>
              && st.next.store == s.store - {id}
              && st.next.disk == s.disk - {s.store[id].filePath, s.store[id].qrCodePath}
  {
    match Auth.RequireAuth(s.sessions, header, now)
    case Denied => Step(LoginRequired, s)
    case Admitted(_, sessions) =>
      var s1 := s.(sessions := sessions);
      if id !in s.store then Step(Fail(404, MsgFileNotFound), s1)
      else
        var r := s.store[id];
        var d1 := if r.filePath in s.disk then s.disk - {r.filePath} else s.disk;
        var d2 := if r.qrCodePath in d1 then d1 - {r.qrCodePath} else d1;
        Step(Ok(()), s1.(store := s.store - {id}, disk := d2))
  }

  /** Once deleted, a record is gone from every public route, and its two
      files are gone from disk. */
  lemma DeletedIsNotFound(s: State, header: Option<string>, id: string, now: Time, later: Time)
    requires DeleteFile(s, header, id, now).reply.Ok?
    ensures var s' := DeleteFile(s, header, id, now).next;
            && Retrieval.FetchPdf(s', id, later).reply == Fail(404, MsgFileNotFound)
            && Retrieval.FetchQr(s', id).reply == Fail(404, MsgFileNotFound)
            && Retrieval.FetchInfo(s', id).reply == Fail(404, MsgFileNotFound)
            && s.store[id].filePath !in s'.disk && s.store[id].qrCodePath !in s'.disk
  {
  }

  /** Deleting one record of a consistent state leaves every other record
      exactly as it was, with both of its files still on disk. */
  lemma DeleteSparesOthers(s: State, header: Option<string>, id: string, now: Time)
    requires ConsistentState(s)
    requires DeleteFile(s, header, id, now).reply.Ok?
    ensures var s' := DeleteFile(s, header, id, now).next;
            forall k :: k in s.store && k != id ==>
              && k in s'.store && s'.store[k] == s.store[k]
              && s.store[k].filePath in s'.disk && s'.disk[s.store[k].filePath] == s.disk[s.store[k].filePath]
              && s.store[k].qrCodePath in s'.disk && s'.disk[s.store[k].qrCodePath] == s.disk[s.store[k].qrCodePath]
  {
    var s' := DeleteFile(s, header, id, now).next;
    var gone := s.store[id];
    assert RecordConsistent(s.store, s.disk, id);
    forall k | k in s.store && k != id
      ensures s.store[k].filePath !in {gone.filePath, gone.qrCodePath}
      ensures s.store[k].qrCodePath !in {gone.filePath, gone.qrCodePath}
    {
      var r := s.store[k];
      assert RecordConsistent(s.store, s.disk, k);
      DirsDisjoint(r.filePath, gone.qrCodePath);
      DirsDisjoint(gone.filePath, r.qrCodePath);
      if r.qrCodePath == gone.qrCodePath {
        QrPathInjective(k, id);
      }
    }
  }

  /** Deletion keeps the state consistent. */
  lemma DeleteKeepsConsistent(s: State, header: Option<string>, id: string, now: Time)
    requires ConsistentState(s)
    ensures ConsistentState(DeleteFile(s, header, id, now).next)
  {
    var st := DeleteFile(s, header, id, now);
    if st.reply.Ok? {
      var s' := st.next;
      DeleteSparesOthers(s, header, id, now);
      forall k | k in s'.store
        ensures RecordConsistent(s'.store, s'.disk, k)
      {
        assert RecordConsistent(s.store, s.disk, k);
      }
    }
  }
}
