/** The React auth context over the browser-storage user directory: an
    in-memory user next to the stored current user. */
module AuthContext {
  import opened Types
  import opened LocalAuth

  /** The in-memory side of the context. */
  datatype ContextState = ContextState(user: Option<Account>, loading: bool)

  /** Memory and storage name the same signed-in account. */
  predicate InSync(cs: ContextState, st: Storage) {
    cs.user == GetCurrentUser(st)
  }

  /** Whether a directory call's result commits its user: it succeeded and
      carries a user. */
  function Committed(cs: ContextState, res: AuthResult): (u: Option<Account>)
    ensures res.success && res.user.Some? ==> u == res.user
    ensures !(res.success && res.user.Some?) ==> u == cs.user
  {
    if res.success && res.user.Some? then res.user else cs.user
  }

  /** On mount: the stored current user is read into memory and loading
      ends. */
  function Mount(st: Storage): (cs: ContextState)
    ensures InSync(cs, st) && !cs.loading
  {
    ContextState(GetCurrentUser(st), false)
  }

  /** `login`: the directory's result is returned as is; memory takes its
      user only on success. */
  function Login(cs: ContextState, st: Storage, email: string, password: string)
    : (r: (ContextState, Storage, AuthResult))
    ensures (r.1, r.2) == LoginUser(st, email, password)
    ensures r.0 == cs.(user := Committed(cs, r.2))
  {
    var (st', res) := LoginUser(st, email, password);
    (cs.(user := Committed(cs, res)), st', res)
  }

  /** `register`: the same rule. */
  function Register(cs: ContextState, st: Storage, email: string, password: string, name: string,
                    role: UserRole, stamp: string)
    : (r: (ContextState, Storage, AuthResult))
    ensures (r.1, r.2) == RegisterUser(st, email, password, name, role, stamp)
    ensures r.0 == cs.(user := Committed(cs, r.2))
  {
    var (st', res) := RegisterUser(st, email, password, name, role, stamp);
    (cs.(user := Committed(cs, res)), st', res)
  }

  /** `logout`: both the stored and the in-memory user are cleared. */
  function Logout(cs: ContextState, st: Storage): (r: (ContextState, Storage))
    ensures r.0.user.None? && GetCurrentUser(r.1).None?
    ensures r.1.users == st.users && r.0.loading == cs.loading
  {
    (cs.(user := None), LogoutUser(st))
  }

  /** Signing in keeps memory and storage in step: on success both hold the
      matched account, on failure neither changes. */
  lemma LoginKeepsSync(cs: ContextState, st: Storage, email: string, password: string)
    requires InSync(cs, st)
    ensures var (cs', st', res) := Login(cs, st, email, password);
      InSync(cs', st') && (res.success ==> cs'.user == res.user) && (!res.success ==> cs' == cs)
  {
  }

  /** Signing out always ends in step, with nobody signed in. */
  lemma LogoutSyncs(cs: ContextState, st: Storage)
    ensures var (cs', st') := Logout(cs, st);
      InSync(cs', st') && cs'.user.None?
  {
  }

  /** A successful registration signs the new account in for this session
      only: memory holds it, storage keeps the previous current user, so a
      remount brings the previous user back. */
  lemma RegisterIsSessionOnly(cs: ContextState, st: Storage, email: string, password: string, name: string,
                              role: UserRole, stamp: string)
    requires RegisterUser(st, email, password, name, role, stamp).1.success
    ensures var (cs', st', res) := Register(cs, st, email, password, name, role, stamp);
      && cs'.user == res.user && res.user.Some?
      && GetCurrentUser(st') == GetCurrentUser(st)
      && Mount(st').user == GetCurrentUser(st)
  {
  }

  /** A failed registration changes neither memory nor the stored current
      user. */
  lemma FailedRegisterKeepsUser(cs: ContextState, st: Storage, email: string, password: string, name: string,
                                role: UserRole, stamp: string)
    requires !RegisterUser(st, email, password, name, role, stamp).1.success
    ensures var (cs', st', res) := Register(cs, st, email, password, name, role, stamp);
      cs' == cs && GetCurrentUser(st') == GetCurrentUser(st) && res.message == MsgEmailTaken
  {
  }
}
