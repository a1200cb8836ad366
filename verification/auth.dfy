/** The session gate and the login, logout and check-auth routes.

    A session id is a string the login route draws from the clock and the
    random generator; the model receives it as a parameter. The table maps
    each live id to its login time. The 24-hour timer that deletes an entry
    is the explicit `Expire` event. */
module Auth {
  import opened Records

  const BearerPrefix: string := "Bearer "

  predicate OccursAt(s: string, pat: string, i: nat)
  {
    i + |pat| <= |s| && s[i..i + |pat|] == pat
  }

  /** The first position at or after `from` where `pat` occurs in `s`. */
  function FindFrom(s: string, pat: string, from: nat): (r: Option<nat>)
    ensures r.Some? ==> from <= r.value && OccursAt(s, pat, r.value)
    ensures r.Some? ==> forall i :: from <= i < r.value ==> !OccursAt(s, pat, i)
    ensures r.None? ==> forall i :: from <= i ==> !OccursAt(s, pat, i)
    decreases |s| - from
  {
    if from + |pat| > |s| then None
    else if s[from..from + |pat|] == pat then Some(from)
    else
      assert |pat| > 0;
      FindFrom(s, pat, from + 1)
  }

  /** `String.prototype.replace` with a string pattern: only the first
      occurrence is replaced. */
  function ReplaceFirst(s: string, pat: string, rep: string): string
  {
    match FindFrom(s, pat, 0)
    case None => s
    case Some(i) => s[..i] + rep + s[i + |pat|..]
  }

  /** `authorization?.replace('Bearer ', '')`: nothing when the header is absent. */
  function ExtractToken(header: Option<string>): Option<string>
  {
    match header
    case None => None
    case Some(h) => Some(ReplaceFirst(h, BearerPrefix, ""))
  }

  /** The token a request presents, when it is one the gate would look up
      (present and non-empty, i.e. truthy). */
  predicate Presents(header: Option<string>, token: string)
  {
    ExtractToken(header) == Some(token) && token != ""
  }

  datatype Gate = Denied | Admitted(token: string, sessions: map<string, Time>)

  /** `requireAuth`: admits a request whose token is a live session, and
      rewrites that session's login time (which does not postpone its expiry). */
  function RequireAuth(sessions: map<string, Time>, header: Option<string>, now: Time): (g: Gate)
    ensures g.Admitted? <==> exists t :: Presents(header, t) && t in sessions
    ensures g.Admitted? ==> Presents(header, g.token) && g.token in sessions
    ensures g.Admitted? ==> g.sessions.Keys == sessions.Keys && g.sessions[g.token] == now
    ensures g.Admitted? ==> forall k :: k in sessions && k != g.token ==> g.sessions[k] == sessions[k]
  {
    match ExtractToken(header)
    case None => Denied
    case Some(t) =>
      if t == "" || t !in sessions then Denied
      else Admitted(t, sessions[t := now])
  }

  /** The state an admin route starts from once the gate has run. */
  function Touch(s: State, header: Option<string>, now: Time): (s': State)
    ensures s'.store == s.store && s'.disk == s.disk
    ensures s'.sessions.Keys == s.sessions.Keys
  {
    match RequireAuth(s.sessions, header, now)
    case Denied => s
    case Admitted(_, ss) => s.(sessions := ss)
  }

  /** The configured admin credentials; an unset variable matches nothing. */
  datatype Credentials = Credentials(adminUsername: Option<string>, adminPassword: Option<string>)

  /** A JSON body field is truthy when present and not the empty string. */
  predicate Truthy(v: Option<string>)
  {
    v.Some? && v.value != ""
  }

  predicate Matches(cfg: Credentials, username: Option<string>, password: Option<string>)
  {
    username == cfg.adminUsername && password == cfg.adminPassword
  }

  /** `POST /api/login`; `sid` is the freshly generated session id. */
  function Login(s: State, cfg: Credentials, username: Option<string>, password: Option<string>,
                 sid: string, now: Time): (st: Step<string>)
    ensures !Truthy(username) || !Truthy(password) ==> st == Step(Fail(400, MsgCredentialsRequired), s)
    ensures Truthy(username) && Truthy(password) && !Matches(cfg, username, password) ==>
              st == Step(Fail(401, MsgBadCredentials), s)
    ensures st.reply.Ok? <==> Truthy(username) && Truthy(password) && Matches(cfg, username, password)
    ensures st.reply.Ok? ==> st.reply.body == sid
    ensures st.reply.Ok? ==> st.next.store == s.store && st.next.disk == s.disk
    ensures st.reply.Ok? ==> st.next.sessions.Keys == s.sessions.Keys + {sid} && st.next.sessions[sid] == now
    ensures st.reply.Ok? ==> forall k :: k in s.sessions && k != sid ==> st.next.sessions[k] == s.sessions[k]
  {
    if !Truthy(username) || !Truthy(password) then Step(Fail(400, MsgCredentialsRequired), s)
    else if Matches(cfg, username, password) then Step(Ok(sid), s.(sessions := s.sessions[sid := now]))
    else Step(Fail(401, MsgBadCredentials), s)
  }

  /** `POST /api/logout`: the gate, then the presented session is dropped. */
  function Logout(s: State, header: Option<string>, now: Time): (st: Step<()>)
    ensures RequireAuth(s.sessions, header, now).Denied? ==> st == Step(LoginRequired, s)
    ensures st.reply.Ok? <==> RequireAuth(s.sessions, header, now).Admitted?
    ensures st.reply.Ok? ==> exists t :: Presents(header, t) && st.next.sessions.Keys == s.sessions.Keys - {t}
    ensures st.next.store == s.store && st.next.disk == s.disk
  {
    match RequireAuth(s.sessions, header, now)
    case Denied => Step(LoginRequired, s)
    case Admitted(t, ss) => Step(Ok(()), s.(sessions := ss - {t}))
  }

  /** `GET /api/check-auth`. */
  function CheckAuth(s: State, header: Option<string>, now: Time): (st: Step<bool>)
    ensures st.reply.Ok? <==> exists t :: Presents(header, t) && t in s.sessions
    ensures !st.reply.Ok? ==> st == Step(LoginRequired, s)
    ensures st.next.store == s.store && st.next.disk == s.disk && st.next.sessions.Keys == s.sessions.Keys
  {
    match RequireAuth(s.sessions, header, now)
    case Denied => Step(LoginRequired, s)
    case Admitted(_, ss) => Step(Ok(true), s.(sessions := ss))
  }

  /** The 24-hour timer set at login firing for `sid`. */
  function Expire(s: State, sid: string): (s': State)
    ensures s'.store == s.store && s'.disk == s.disk
    ensures s'.sessions.Keys == s.sessions.Keys - {sid}
  {
    s.(sessions := s.sessions - {sid})
  }

  // ---------------------------------------------------------------------
  // Properties of the gate

  /** Replacing with a string pattern leaves a string without the pattern
      alone, and otherwise replaces its first occurrence only. */
  lemma ReplaceFirstIsFirstMatch(s: string, pat: string, rep: string)
    ensures (forall i: nat :: !OccursAt(s, pat, i)) ==> ReplaceFirst(s, pat, rep) == s
    ensures forall i: nat :: OccursAt(s, pat, i) && (forall j :: 0 <= j < i ==> !OccursAt(s, pat, j)) ==>
              ReplaceFirst(s, pat, rep) == s[..i] + rep + s[i + |pat|..]
  {
  }

  /** The header a client builds from its session id yields that id back. */
  lemma BearerRoundTrip(t: string)
    ensures ExtractToken(Some(BearerPrefix + t)) == Some(t)
  {
    var h := BearerPrefix + t;
    assert OccursAt(h, BearerPrefix, 0) by {
      assert h[0..|BearerPrefix|] == BearerPrefix;
    }
    assert FindFrom(h, BearerPrefix, 0) == Some(0);
    assert h[|BearerPrefix|..] == t;
    assert ReplaceFirst(h, BearerPrefix, "") == h[..0] + "" + h[|BearerPrefix|..];
    assert h[..0] + "" + h[|BearerPrefix|..] == t;
  }

  /** A header without the prefix is taken as the session id itself. */
  lemma RawHeaderIsToken(h: string)
    requires forall i :: !OccursAt(h, BearerPrefix, i)
    ensures ExtractToken(Some(h)) == Some(h)
  {
  }

  /** A successful login creates exactly one new session when the generated
      id is fresh, and the gate admits that id from then on. */
  lemma LoginOpensSession(s: State, cfg: Credentials, username: Option<string>, password: Option<string>,
                          sid: string, now: Time, later: Time)
    requires sid != "" && sid !in s.sessions
    requires Login(s, cfg, username, password, sid, now).reply.Ok?
    ensures var s' := Login(s, cfg, username, password, sid, now).next;
            |s'.sessions| == |s.sessions| + 1
            && RequireAuth(s'.sessions, Some(BearerPrefix + sid), later).Admitted?
  {
    var s' := Login(s, cfg, username, password, sid, now).next;
    assert s'.sessions.Keys == s.sessions.Keys + {sid};
    BearerRoundTrip(sid);
    assert Presents(Some(BearerPrefix + sid), sid);
  }

  /** A failed login leaves the session table exactly as it was. */
  lemma FailedLoginKeepsSessions(s: State, cfg: Credentials, username: Option<string>, password: Option<string>,
                                 sid: string, now: Time)
    requires !Login(s, cfg, username, password, sid, now).reply.Ok?
    ensures Login(s, cfg, username, password, sid, now).next == s
    ensures StatusOf(Login(s, cfg, username, password, sid, now).reply) in {400, 401}
  {
  }

  /** After a logout the same header is turned away. */
  lemma LogoutRevokes(s: State, header: Option<string>, now: Time, later: Time)
    requires Logout(s, header, now).reply.Ok?
    ensures RequireAuth(Logout(s, header, now).next.sessions, header, later).Denied?
  {
  }

  /** After the timer fires a client presenting that session is turned away. */
  lemma ExpireRevokes(s: State, sid: string, later: Time)
    ensures RequireAuth(Expire(s, sid).sessions, Some(BearerPrefix + sid), later).Denied?
  {
    BearerRoundTrip(sid);
  }
}
