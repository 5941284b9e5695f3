/** The browser-storage user directory: a users list under one storage key
    (seeded with a default admin the first time it is read) and the
    signed-in account under another. Storage is an explicit value here. */
module LocalAuth {
  import opened Types
  import opened Seqs

  /** A stored account; unlike `User` it keeps the password. */
  datatype Account = Account(id: string, email: string, password: string, name: string, role: UserRole)

  /** The two storage keys. `users == None` means the key is absent, which is
      different from a present empty list. */
  datatype Storage = Storage(users: Option<seq<Account>>, current: Option<Account>)

  /** `{ success, message, user? }`. */
  datatype AuthResult = AuthResult(success: bool, message: string, user: Option<Account>)

  const DefaultAdmin := Account("admin-1", "admin@example.com", "admin123", "System Admin", Admin)

  const MsgEmailTaken := "User with this email already exists"
  const MsgRegistered := "Registration successful"
  const MsgBadCredentials := "Invalid email or password"
  const MsgLoggedIn := "Login successful"

  function HasEmail(email: string): Account -> bool {
    (u: Account) => u.email == email
  }

  function HasCredentials(email: string, password: string): Account -> bool {
    (u: Account) => u.email == email && u.password == password
  }

  /** No two stored accounts share an email. */
  predicate UniqueEmails(users: seq<Account>) {
    forall i, j :: 0 <= i < j < |users| ==> users[i].email != users[j].email
  }

  /** The directory invariant: an absent key, or a list with unique emails. */
  predicate Valid(st: Storage) {
    st.users.None? || UniqueEmails(st.users.value)
  }

  /** Seeds the default admin only when the users key is absent. */
  function InitializeUsers(st: Storage): (r: Storage)
    ensures r.users.Some?
    ensures st.users.None? ==> r.users == Some([DefaultAdmin])
    ensures st.users.Some? ==> r == st
    ensures r.current == st.current
  {
    if st.users.None? then st.(users := Some([DefaultAdmin])) else st
  }

  /** Reads the users list, seeding it first; the seeding is a write, so the
      storage after the read is returned as well. */
  function GetUsers(st: Storage): (r: (Storage, seq<Account>))
    ensures r.0 == InitializeUsers(st) && r.0.users == Some(r.1)
  {
    var seeded := InitializeUsers(st);
    (seeded, seeded.users.value)
  }

  /** The account a successful registration appends: its id is the role name,
      a dash and the caller-supplied timestamp text. */
  function NewAccount(email: string, password: string, name: string, role: UserRole, stamp: string): Account {
    Account(RoleName(role) + "-" + stamp, email, password, name, role)
  }

  /** Registers an account unless its email is taken. */
  function RegisterUser(st: Storage, email: string, password: string, name: string, role: UserRole, stamp: string)
    : (r: (Storage, AuthResult))
    ensures var users := GetUsers(st).1;
      Exists(users, HasEmail(email)) ==>
        r.0 == InitializeUsers(st) && r.1 == AuthResult(false, MsgEmailTaken, None)
    ensures var users := GetUsers(st).1;
      !Exists(users, HasEmail(email)) ==>
        && r.1.success
        && r.1.user.Some?
        && var u := r.1.user.value;
           u.email == email && u.password == password && u.name == name && u.role == role
           && r.0.users == Some(users + [u])
    ensures r.0.current == st.current
  {
    var (seeded, users) := GetUsers(st);
    if Find(users, HasEmail(email)).Some? then
      (seeded, AuthResult(false, MsgEmailTaken, None))
    else
      var account := NewAccount(email, password, name, role, stamp);
      (seeded.(users := Some(users + [account])), AuthResult(true, MsgRegistered, Some(account)))
  }

  /** Signs in the first account matching both email and password and stores
      it as the current user; a failed attempt leaves the current user alone. */
  function LoginUser(st: Storage, email: string, password: string): (r: (Storage, AuthResult))
    ensures r.0.users == GetUsers(st).0.users
    ensures r.1.success <==> Exists(GetUsers(st).1, HasCredentials(email, password))
    ensures r.1.success ==>
      var users := GetUsers(st).1;
      var k := FindIndex(users, HasCredentials(email, password));
      r.1.user == Some(users[k]) && r.0.current == r.1.user && r.1.message == MsgLoggedIn
    ensures !r.1.success ==> r.0.current == st.current && r.1 == AuthResult(false, MsgBadCredentials, None)
  {
    var (seeded, users) := GetUsers(st);
    match Find(users, HasCredentials(email, password))
    case None => (seeded, AuthResult(false, MsgBadCredentials, None))
    case Some(u) => (seeded.(current := Some(u)), AuthResult(true, MsgLoggedIn, Some(u)))
  }

  function GetCurrentUser(st: Storage): Option<Account> {
    st.current
  }

  /** Removes the stored current user and nothing else. */
  function LogoutUser(st: Storage): (r: Storage)
    ensures GetCurrentUser(r) == None
    ensures r.users == st.users
  {
    st.(current := None)
  }

  /** The seeded directory satisfies the invariant. */
  lemma InitializeUsersValid(st: Storage)
    requires Valid(st)
    ensures Valid(InitializeUsers(st)) && UniqueEmails(GetUsers(st).1)
  {
  }

  /** Registration keeps emails unique: it appends only an email nobody has. */
  lemma RegisterUserKeepsEmailsUnique(st: Storage, email: string, password: string, name: string,
                                      role: UserRole, stamp: string)
    requires Valid(st)
    ensures Valid(RegisterUser(st, email, password, name, role, stamp).0)
  {
    var users := GetUsers(st).1;
    var r := RegisterUser(st, email, password, name, role, stamp);
    if !Exists(users, HasEmail(email)) {
      var us := r.0.users.value;
      assert us == users + [r.1.user.value];
      forall i, j | 0 <= i < j < |us| ensures us[i].email != us[j].email {
        if j == |users| {
          assert !HasEmail(email)(users[i]);
        }
      }
    }
  }

  /** Round trip: right after a successful registration, signing in with the
      same email and password succeeds and yields the new account. */
  lemma RegisterThenLogin(st: Storage, email: string, password: string, name: string,
                          role: UserRole, stamp: string)
    requires RegisterUser(st, email, password, name, role, stamp).1.success
    ensures var (st1, reg) := RegisterUser(st, email, password, name, role, stamp);
      var (st2, login) := LoginUser(st1, email, password);
      login.success && login.user == reg.user && st2.current == reg.user
  {
    var users := GetUsers(st).1;
    var (st1, reg) := RegisterUser(st, email, password, name, role, stamp);
    var users1 := GetUsers(st1).1;
    assert users1 == users + [reg.user.value];
    var p := HasCredentials(email, password);
    assert !Exists(users, p);
    assert p([reg.user.value][0]);
    FindIndexAppend(users, [reg.user.value], p);
  }

  /** A present but empty users list is never reseeded. */
  lemma EmptyListNotReseeded(st: Storage)
    requires st.users == Some([])
    ensures GetUsers(st).1 == []
  {
  }
}
