/** The admin dashboard: its access guard, the users it loads from the
    browser-storage directory split by role, deleting users and events, and
    the outcome of approving a provider. */
module AdminDashboard {
  import opened Types
  import opened Seqs
  import LocalAuth
  import LocalData

  /** Where the guard sends the visitor. */
  datatype Route = Stay | Redirect(path: string)

  /** Signed out goes to the admin login, any other role goes home. */
  function Guard(user: Option<User>): (r: Route)
    ensures user.None? ==> r == Redirect("/auth/admin/login")
    ensures user.Some? ==> (r == Stay <==> user.value.role == Admin)
    ensures user.Some? && user.value.role != Admin ==> r == Redirect("/")
  {
    if user.None? then Redirect("/auth/admin/login")
    else if RoleName(user.value.role) != RoleName(Admin) then Redirect("/")
    else (RoleNameInjective(user.value.role, Admin); Stay)
  }

  /** The dashboard's state over both storage areas. */
  datatype Dashboard = Dashboard(
    directory: LocalAuth.Storage,
    store: LocalData.Store,
    users: seq<LocalAuth.Account>,
    events: seq<Event>,
    registrations: seq<Registration>,
    loading: bool)

  /** The mount effect: only an admin gets the data loaded (reading the
      users seeds the directory) and the loading flag cleared. */
  function Load(d: Dashboard, user: Option<User>): (r: Dashboard)
    ensures Guard(user) != Stay ==> r == d
    ensures Guard(user) == Stay ==>
      && (r.directory, r.users) == LocalAuth.GetUsers(d.directory)
      && r.events == d.store.events && r.registrations == d.store.registrations
      && !r.loading && r.store == d.store
  {
    if Guard(user) != Stay then d
    else
      var (directory, users) := LocalAuth.GetUsers(d.directory);
      d.(directory := directory, users := users, events := d.store.events,
         registrations := d.store.registrations, loading := false)
  }

  /** The page shows its content only once loaded and only to an admin. */
  predicate Renders(d: Dashboard, user: Option<User>) {
    !d.loading && user.Some? && user.value.role == Admin
  }

  /** Nobody but an admin ever sees the dashboard, and an admin sees it
      right after the mount effect. */
  lemma OnlyAdminsSeeIt(d: Dashboard, user: Option<User>)
    ensures Renders(d, user) ==> Guard(user) == Stay
    ensures Guard(user) == Stay ==> Renders(Load(d, user), user)
  {
  }

  function HasRole(role: UserRole): LocalAuth.Account -> bool {
    (u: LocalAuth.Account) => u.role == role
  }

  /** The three role lists the dashboard shows. */
  function RoleLists(users: seq<LocalAuth.Account>)
    : (r: (seq<LocalAuth.Account>, seq<LocalAuth.Account>, seq<LocalAuth.Account>))
    ensures forall u :: u in r.0 <==> u in users && u.role == RegularUser
    ensures forall u :: u in r.1 <==> u in users && u.role == ServiceProvider
    ensures forall u :: u in r.2 <==> u in users && u.role == Admin
  {
    (Filter(users, HasRole(RegularUser)), Filter(users, HasRole(ServiceProvider)), Filter(users, HasRole(Admin)))
  }

  /** The role lists partition the users: every user is in exactly one, so
      their sizes add up to the number of users. */
  lemma {:induction false} RoleListsPartition(users: seq<LocalAuth.Account>)
    ensures var (a, b, c) := RoleLists(users); |a| + |b| + |c| == |users|
  {
    if users != [] {
      RoleListsPartition(users[1..]);
    }
  }

  /** `handleDeleteUser`: after confirmation, removes the account and rereads
      the directory. */
  function HandleDeleteUser(d: Dashboard, userId: string, confirmed: bool): (r: Dashboard)
    ensures !confirmed ==> r == d
    ensures confirmed ==>
      && (forall a :: a in r.users <==> a in d.directory.users.GetOr([]) && a.id != userId)
      && r.directory.users == Some(r.users)
      && r.directory.current == d.directory.current
  {
    if !confirmed then d
    else
      var directory := d.directory.(users := Some(LocalData.DeleteUser(d.directory.users, userId)));
      var (directory', users) := LocalAuth.GetUsers(directory);
      d.(directory := directory', users := users)
  }

  /** Deleting the last account leaves the directory empty for good: the
      users key is written back present, so the default admin is not
      reseeded by the reread. */
  lemma DeletingEveryoneDoesNotReseed(d: Dashboard, userId: string)
    requires d.directory.users.Some?
    requires forall i :: 0 <= i < |d.directory.users.value| ==> d.directory.users.value[i].id == userId
    ensures HandleDeleteUser(d, userId, true).users == []
  {
    FilterNone(d.directory.users.value, LocalData.OtherAccount(userId));
  }

  /** `handleDeleteEvent`: after confirmation, removes the event with its
      registrations and reloads both lists from the store. */
  function HandleDeleteEvent(d: Dashboard, eventId: string, confirmed: bool): (r: Dashboard)
    ensures !confirmed ==> r == d
    ensures confirmed ==>
      && r.store == LocalData.DeleteEvent(d.store, eventId)
      && r.events == r.store.events && r.registrations == r.store.registrations
      && (forall e :: e in r.events ==> e.id != eventId)
      && (forall g :: g in r.registrations ==> g.eventId != eventId)
  {
    if !confirmed then d
    else
      var store := LocalData.DeleteEvent(d.store, eventId);
      d.(store := store, events := store.events, registrations := store.registrations)
  }

  /** What approving a provider leads to. */
  datatype ApproveOutcome = RefetchUnapproved | Alert(message: string)

  const MsgApproveFailed := "Failed to approve provider"
  const MsgApproveError := "An error occurred while approving provider"

  /** `approveProvider`: an ok response refetches the unapproved list; a
      non-ok one alerts the body's message or the fallback; an exception
      alerts the generic error. */
  function ApproveProvider(resp: Response<()>): (r: ApproveOutcome)
    ensures r == RefetchUnapproved <==> resp.Answer? && resp.ok
    ensures resp.Answer? && !resp.ok ==> r == Alert(MessageOr(resp.message, MsgApproveFailed))
    ensures resp.Thrown? ==> r == Alert(MsgApproveError)
  {
    match resp
    case Thrown(_) => Alert(MsgApproveError)
    case Answer(ok, message, _) => if ok then RefetchUnapproved else Alert(MessageOr(message, MsgApproveFailed))
  }

  /** Every failed approval alerts something non-empty. */
  lemma FailedApprovalAlwaysAlerts(resp: Response<()>)
    requires !(resp.Answer? && resp.ok)
    ensures ApproveProvider(resp).Alert? && ApproveProvider(resp).message != ""
  {
  }
}
