/** The server-backed sign-in store: classifies a login or signup response
    into `{ success, message }`, builds the signed-in `User` from the decoded
    token, and keeps the token cookie. Token decoding is an input: the body
    carries the token text and what decoding it yields (`None` when the
    decoder throws). */
module AuthStore {
  import opened Types

  /** The claims the store reads from a token. The role claim is taken as a
      role without any check; `exp` is the expiry claim as a number. */
  datatype TokenPayload = TokenPayload(id: string, sub: string, name: string, role: UserRole, exp: int)

  /** The token cookie: its value and its expiry, a millisecond timestamp.
      The store passes the `exp` claim straight to `new Date`, which reads
      it as milliseconds. */
  datatype Cookie = Cookie(token: string, expires: int)

  /** The part of a login or signup body the store looks at. */
  datatype AuthBody = AuthBody(token: Option<string>, decoded: Option<TokenPayload>)

  /** The store: the signed-in user, the loading flag and the token cookie. */
  datatype StoreState = StoreState(user: Option<User>, loading: bool, cookie: Option<Cookie>)

  const MsgLoginFailed := "Login failed"
  const MsgSignupFailed := "Signup failed"
  const MsgSomethingWrong := "Something went wrong"
  const MsgLoginOk := "Login successful"
  const MsgSignupOk := "Signup successful"

  /** How a response is classified before any user is built. */
  datatype Verdict = Rejected(message: string) | Accepted(token: string, payload: TokenPayload)

  /** The checks both calls share, in order: an exception, a non-ok status
      (the body's message, or the call's own fallback), a missing or empty
      token, a token that does not decode; otherwise accepted. */
  function Classify(resp: Response<AuthBody>, nonOkFallback: string): (v: Verdict)
    ensures resp.Thrown? ==> v == Rejected(MsgSomethingWrong)
    ensures resp.Answer? && !resp.ok ==> v == Rejected(MessageOr(resp.message, nonOkFallback))
    ensures v.Accepted? <==>
      resp.Answer? && resp.ok && resp.body.token.Some? && resp.body.token.value != ""
      && resp.body.decoded.Some?
    ensures v.Accepted? ==> v.token == resp.body.token.value && v.payload == resp.body.decoded.value
    ensures resp.Answer? && resp.ok && (resp.body.token.None? || resp.body.token == Some("")) ==>
      v == Rejected(MsgLoginFailed)
  {
    match resp
    case Thrown(_) => Rejected(MsgSomethingWrong)
    case Answer(ok, message, body) =>
      if !ok then Rejected(MessageOr(message, nonOkFallback))
      else if body.token.None? || body.token.value == "" then Rejected(MsgLoginFailed)
      else if body.decoded.None? then Rejected(MsgSomethingWrong)
      else Accepted(body.token.value, body.decoded.value)
  }

  /** `login`: on acceptance the user is built from the claims (`sub` is the
      email) and the cookie is set; on rejection only loading changes. */
  function Login(st: StoreState, resp: Response<AuthBody>): (r: (StoreState, Reply))
    ensures !r.0.loading
    ensures r.1.success <==> Classify(resp, MsgLoginFailed).Accepted?
    ensures r.1.success ==>
      var pl := resp.body.decoded.value;
      && r.0.user == Some(User(pl.id, pl.sub, pl.name, pl.role, None, None, None, None))
      && r.0.cookie == Some(Cookie(resp.body.token.value, pl.exp))
      && r.1.message == MsgLoginOk
    ensures !r.1.success ==>
      r.0 == st.(loading := false) && r.1.message == Classify(resp, MsgLoginFailed).message
  {
    match Classify(resp, MsgLoginFailed)
    case Rejected(m) => (st.(loading := false), Reply(false, m))
    case Accepted(token, pl) =>
      (StoreState(Some(User(pl.id, pl.sub, pl.name, pl.role, None, None, None, None)), false, Some(Cookie(token, pl.exp))),
       Reply(true, MsgLoginOk))
  }

  /** `register`: the same checks with "Signup failed" as the non-ok
      fallback; the user takes its email from the argument rather than the
      token, and carries the business fields it was given. */
  function Register(st: StoreState, resp: Response<AuthBody>, email: string, businessName: Option<string>,
                    phone: Option<string>, address: Option<string>, description: Option<string>)
    : (r: (StoreState, Reply))
    ensures !r.0.loading
    ensures r.1.success <==> Classify(resp, MsgSignupFailed).Accepted?
    ensures r.1.success ==>
      var pl := resp.body.decoded.value;
      && r.0.user == Some(User(pl.id, email, pl.name, pl.role, businessName, phone, address, description))
      && r.0.cookie == Some(Cookie(resp.body.token.value, pl.exp))
      && r.1.message == MsgSignupOk
    ensures !r.1.success ==>
      r.0 == st.(loading := false) && r.1.message == Classify(resp, MsgSignupFailed).message
  {
    match Classify(resp, MsgSignupFailed)
    case Rejected(m) => (st.(loading := false), Reply(false, m))
    case Accepted(token, pl) =>
      (StoreState(Some(User(pl.id, email, pl.name, pl.role, businessName, phone, address, description)), false, Some(Cookie(token, pl.exp))),
       Reply(true, MsgSignupOk))
  }

  /** `logout`: the user is cleared; loading and the cookie are left as they
      are. */
  function Logout(st: StoreState): (r: StoreState)
    ensures r.user.None?
    ensures r.loading == st.loading && r.cookie == st.cookie
  {
    st.(user := None)
  }

  /** Login and signup accept exactly the same responses; they differ only
      in the fallback message for a non-ok status and in where the email
      comes from. */
  lemma LoginAndRegisterAgree(st: StoreState, resp: Response<AuthBody>, email: string,
                              b: Option<string>, ph: Option<string>, ad: Option<string>, de: Option<string>)
    ensures Login(st, resp).1.success == Register(st, resp, email, b, ph, ad, de).1.success
    ensures Login(st, resp).1.success ==>
      var u := Login(st, resp).0.user.value;
      var v := Register(st, resp, email, b, ph, ad, de).0.user.value;
      u.id == v.id && u.name == v.name && u.role == v.role
    ensures resp.Answer? && !resp.ok && (resp.message.None? || resp.message == Some("")) ==>
      Login(st, resp).1.message == MsgLoginFailed
      && Register(st, resp, email, b, ph, ad, de).1.message == MsgSignupFailed
  {
  }

  /** A failed call never signs anyone in or out. */
  lemma FailureKeepsUser(st: StoreState, resp: Response<AuthBody>, email: string,
                         b: Option<string>, ph: Option<string>, ad: Option<string>, de: Option<string>)
    requires !(resp.Answer? && resp.ok)
    ensures Login(st, resp).0.user == st.user && !Login(st, resp).1.success
    ensures Register(st, resp, email, b, ph, ad, de).0.user == st.user
  {
  }

  /** Signing in and then out leaves nobody signed in, while the store's
      record of the cookie (token and expiry) is not cleared. */
  lemma LoginThenLogout(st: StoreState, resp: Response<AuthBody>)
    requires Login(st, resp).1.success
    ensures Logout(Login(st, resp).0).user.None?
    ensures Logout(Login(st, resp).0).cookie == Some(Cookie(resp.body.token.value, resp.body.decoded.value.exp))
  {
  }

  /** A cookie is still held by the browser at time `nowMs` (milliseconds)
      while its expiry lies ahead. */
  predicate CookieAlive(c: Cookie, nowMs: int) {
    c.expires > nowMs
  }

  /** The expiry written is the `exp` claim read as milliseconds. A JWT
      `exp` counts seconds (section 4.1.4 of RFC 7519), so for any clock
      `nowMs` at or past that many milliseconds, which is every clock after
      January 1970 for a realistic claim, the cookie is expired the moment
      it is set. */
  lemma CookieExpiresAtOnce(st: StoreState, resp: Response<AuthBody>, nowMs: int)
    requires Login(st, resp).1.success
    requires resp.body.decoded.value.exp <= nowMs
    ensures Login(st, resp).0.cookie.Some?
    ensures !CookieAlive(Login(st, resp).0.cookie.value, nowMs)
  {
  }
}
