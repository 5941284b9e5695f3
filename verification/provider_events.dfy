/** The provider's "My Events" page over the browser-storage event list: the
    role guard, the owner filter, the create/edit form with its checks, and
    deletion. */
module ProviderEvents {
  import opened Types
  import opened Seqs
  import opened Text
  import opened Registry
  import LocalAuth

  /** Where the guard sends the visitor. */
  datatype Route = Stay | Redirect(path: string)

  /** The role text the page compares against. It is not the wire name of
      any role. */
  const GuardRole := "service_provider"

  /** The guard as written: signed out goes to the provider login, a role
      whose name differs from `GuardRole` goes home. */
  function Guard(user: Option<LocalAuth.Account>): (r: Route)
    ensures user.None? ==> r == Redirect("/auth/provider/login")
    ensures user.Some? ==> (r == Stay <==> RoleName(user.value.role) == GuardRole)
    ensures user.Some? && r != Stay ==> r == Redirect("/")
  {
    if user.None? then Redirect("/auth/provider/login")
    else if RoleName(user.value.role) != GuardRole then Redirect("/")
    else Stay
  }

  /** No role's name is the guard's text, so every visitor is sent away,
      providers included, and the page never loads its data. */
  lemma GuardAlwaysRedirects(user: Option<LocalAuth.Account>)
    ensures Guard(user) != Stay
  {
    if user.Some? {
      match user.value.role
      case RegularUser => assert RoleName(RegularUser) != GuardRole;
      case ServiceProvider => assert RoleName(ServiceProvider) != GuardRole;
      case Admin => assert RoleName(Admin) != GuardRole;
    }
  }

  /** The guard as evidently intended: compares against the provider role. */
  function GuardIntended(user: Option<LocalAuth.Account>): (r: Route)
    ensures user.None? ==> r == Redirect("/auth/provider/login")
    ensures user.Some? ==> (r == Stay <==> user.value.role == ServiceProvider)
  {
    if user.None? then Redirect("/auth/provider/login")
    else if RoleName(user.value.role) != RoleName(ServiceProvider) then Redirect("/")
    else Stay
  }

  /** The intended guard lets providers in and nobody else. */
  lemma GuardIntendedAdmitsProviders(u: LocalAuth.Account)
    ensures GuardIntended(Some(u)) == Stay <==> u.role == ServiceProvider
    ensures u.role != ServiceProvider ==> GuardIntended(Some(u)) == Redirect("/")
  {
    RoleNameInjective(u.role, ServiceProvider);
  }

  function OwnedBy(ownerId: string): Event -> bool {
    (e: Event) => e.serviceProviderId == ownerId
  }

  /** `loadData`: the stored events whose provider id is the user's, in
      stored order. */
  function LoadData(stored: seq<Event>, user: LocalAuth.Account): (r: seq<Event>)
    ensures forall e :: e in r <==> e in stored && e.serviceProviderId == user.id
    ensures |r| <= |stored|
  {
    Filter(stored, OwnedBy(user.id))
  }

  /** The form fields. `date == None` is an empty date input; the
      description is `None` only when it was copied from a stored event whose
      description is null (typing always yields text). */
  datatype EventForm = EventForm(name: string, description: Option<string>, date: Option<int>,
                                 location: string, maxParticipants: string)

  const EmptyForm := EventForm("", Some(""), None, "", "")

  /** The page's state: the stored list, the provider's events as shown, the
      form, the event being edited and the two banners. */
  datatype ProviderPage = ProviderPage(
    stored: seq<Event>,
    shown: seq<Event>,
    form: EventForm,
    editing: Option<Event>,
    showForm: bool,
    error: string,
    success: string)

  const MsgMissingFields := "Please fill in all required fields"
  const MsgPastDate := "Event date must be in the future"
  const MsgUpdated := "Event updated successfully!"
  const MsgCreated := "Event created successfully!"
  const MsgDeleted := "Event deleted successfully!"

  /** The capacity field: empty means no capacity, anything else goes
      through `parseInt` (whose `NaN` is `None`, and like `None` sets no
      limit). */
  function ParseCapacity(text: string): (r: Option<int>)
    ensures text == "" ==> r == None
    ensures text != "" ==> r == ParseInt(text)
  {
    if text == "" then None else ParseInt(text)
  }

  /** How the form checks end: calling `trim` on a null description throws,
      a failed check rejects with its message, or the form passes. */
  datatype Check = Throws | Rejected(message: string) | Passes

  /** The form checks, in evaluation order: a blank name rejects before the
      description is looked at; a null description then throws; a blank
      description or location or an empty date rejects; then a date
      strictly before `now` rejects. */
  function FormError(form: EventForm, now: int): (r: Check)
    ensures r == Throws <==> !IsBlank(form.name) && form.description.None?
    ensures r == Rejected(MsgMissingFields) <==>
      IsBlank(form.name)
      || (form.description.Some? && (IsBlank(form.description.value) || form.date.None? || IsBlank(form.location)))
    ensures r == Rejected(MsgPastDate) <==>
      !IsBlank(form.name) && form.description.Some? && !IsBlank(form.description.value) && !IsBlank(form.location)
      && form.date.Some? && form.date.value < now
    ensures r == Passes <==>
      !IsBlank(form.name) && form.description.Some? && !IsBlank(form.description.value) && !IsBlank(form.location)
      && form.date.Some? && form.date.value >= now
  {
    TrimEmptyIffBlank(form.name);
    TrimEmptyIffBlank(form.location);
    if Trim(form.name) == "" then Rejected(MsgMissingFields)
    else if form.description.None? then Throws
    else
      TrimEmptyIffBlank(form.description.value);
      if Trim(form.description.value) == "" || form.date.None? || Trim(form.location) == "" then
        Rejected(MsgMissingFields)
      else if form.date.value < now then Rejected(MsgPastDate)
      else Passes
  }

  /** An event with the form's fields written over it. */
  function ApplyForm(e: Event, form: EventForm): Event
    requires form.date.Some?
  {
    e.(name := form.name, description := form.description, date := form.date.value,
       location := form.location, maxParticipants := ParseCapacity(form.maxParticipants))
  }

  /** Rewrites every event carrying `id` with the form; the others stay. */
  function EditWhere(events: seq<Event>, id: string, form: EventForm): (r: seq<Event>)
    requires form.date.Some?
    ensures |r| == |events|
    ensures forall i :: 0 <= i < |r| ==>
      r[i] == if events[i].id == id then ApplyForm(events[i], form) else events[i]
  {
    if events == [] then []
    else [if events[0].id == id then ApplyForm(events[0], form) else events[0]] + EditWhere(events[1..], id, form)
  }

  /** The event a creation appends, owned by the user, with nobody yet. The
      stored record keeps only the provider's display name
      (`serviceProviderName`); it is carried in the embedded provider, whose
      numeric id (0) and email (the user's) have no counterpart in the
      stored record. */
  function NewEvent(form: EventForm, user: LocalAuth.Account, newId: string): Event
    requires form.date.Some?
  {
    Event(newId, form.name, form.description, form.date.value, form.location, user.id,
          Provider(0, user.name, user.email), None, ParseCapacity(form.maxParticipants), 0)
  }

  /** The stored list after a valid submission: edited in place, or the new
      event appended. */
  function Saved(p: ProviderPage, user: LocalAuth.Account, newId: string): (r: seq<Event>)
    requires p.form.date.Some?
    ensures p.editing.Some? ==> r == EditWhere(p.stored, p.editing.value.id, p.form)
    ensures p.editing.None? ==> r == p.stored + [NewEvent(p.form, user, newId)]
  {
    if p.editing.Some? then EditWhere(p.stored, p.editing.value.id, p.form)
    else p.stored + [NewEvent(p.form, user, newId)]
  }

  /** The state after a valid submission, given the banner it ends with. */
  function AfterSave(p: ProviderPage, user: LocalAuth.Account, newId: string, banner: string): ProviderPage
    requires p.form.date.Some?
  {
    var stored := Saved(p, user, newId);
    ProviderPage(stored, LoadData(stored, user), EmptyForm, None, false, "", banner)
  }

  /** `handleSubmit` as written. The error is cleared first. A throw from
      the checks leaves it at that and changes nothing else (the form stays
      open). A failed check sets the error and changes nothing else. A valid
      submission saves, reloads and resets the form; the reset also clears
      the success banner set just before it, and both updates land in the
      same batch, so the banner ends empty. */
  function HandleSubmit(p: ProviderPage, user: LocalAuth.Account, now: int, newId: string): (r: ProviderPage)
    ensures FormError(p.form, now).Throws? ==> r == p.(error := "")
    ensures FormError(p.form, now).Rejected? ==> r == p.(error := FormError(p.form, now).message)
    ensures FormError(p.form, now).Passes? ==>
      && r.stored == Saved(p, user, newId)
      && r.shown == LoadData(r.stored, user)
      && r.form == EmptyForm && r.editing.None? && !r.showForm
      && r.error == "" && r.success == ""
  {
    match FormError(p.form, now)
    case Throws => p.(error := "")
    case Rejected(msg) => p.(error := msg)
    case Passes => AfterSave(p, user, newId, "")
  }

  /** `handleSubmit` as evidently intended: the success banner survives. */
  function HandleSubmitIntended(p: ProviderPage, user: LocalAuth.Account, now: int, newId: string): (r: ProviderPage)
    ensures FormError(p.form, now).Throws? ==> r == p.(error := "")
    ensures FormError(p.form, now).Rejected? ==> r == p.(error := FormError(p.form, now).message)
    ensures FormError(p.form, now).Passes? ==>
      && r == HandleSubmit(p, user, now, newId).(success := r.success)
      && r.success == if p.editing.Some? then MsgUpdated else MsgCreated
  {
    match FormError(p.form, now)
    case Throws => p.(error := "")
    case Rejected(msg) => p.(error := msg)
    case Passes => AfterSave(p, user, newId, if p.editing.Some? then MsgUpdated else MsgCreated)
  }

  /** As written, a successful create or update never shows its banner. */
  lemma SavedBannerIsLost(p: ProviderPage, user: LocalAuth.Account, now: int, newId: string)
    requires FormError(p.form, now).Passes?
    ensures HandleSubmit(p, user, now, newId).success == ""
    ensures HandleSubmitIntended(p, user, now, newId).success != ""
  {
  }

  /** A blank name or location or a past date saves nothing, whatever else
      the form held; with a description present, one of the two errors is
      shown, and with a null one at most the throw clears the error. */
  lemma RejectedSubmitSavesNothing(p: ProviderPage, user: LocalAuth.Account, now: int, newId: string)
    requires IsBlank(p.form.name) || IsBlank(p.form.location) || (p.form.date.Some? && p.form.date.value < now)
    ensures HandleSubmit(p, user, now, newId).stored == p.stored
    ensures p.form.description.Some? || IsBlank(p.form.name) ==>
      HandleSubmit(p, user, now, newId).error in {MsgMissingFields, MsgPastDate}
    ensures HandleSubmit(p, user, now, newId).error in {"", MsgMissingFields, MsgPastDate}
  {
  }

  /** Creating appends exactly one event, owned by the user, with no
      participants, and the user then sees it in their list. */
  lemma CreateAppendsOwnedEvent(p: ProviderPage, user: LocalAuth.Account, now: int, newId: string)
    requires FormError(p.form, now).Passes? && p.editing.None?
    ensures var r := HandleSubmit(p, user, now, newId);
      && |r.stored| == |p.stored| + 1
      && r.stored[..|p.stored|] == p.stored
      && var e := r.stored[|p.stored|];
         e.id == newId && e.serviceProviderId == user.id && e.currentParticipants == 0
         && e.name == p.form.name && e in r.shown
  {
  }

  /** `handleEdit`: the form is filled from the event. The description is
      copied as it is, null included; a missing capacity becomes the empty
      field and a present one its decimal text. */
  function EditForm(e: Event): (f: EventForm)
    ensures f.date == Some(e.date) && f.description == e.description
    ensures e.maxParticipants.None? <==> f.maxParticipants == ""
  {
    EventForm(e.name, e.description, Some(e.date), e.location,
              match e.maxParticipants
              case None => ""
              case Some(m) => IntToString(m))
  }

  /** Opening an event for editing and submitting the form untouched gives
      the event back: every field survives the trip through the form,
      including the capacity through `toString` and `parseInt`. */
  lemma EditRoundTrip(e: Event)
    ensures ApplyForm(e, EditForm(e)) == e
  {
    match e.maxParticipants
    case None =>
    case Some(m) =>
      ParseIntToString(m);
      assert IntToString(m) != "" by {
        if m < 0 {
          assert IntToString(m)[0] == '-';
        } else {
          assert |NatToString(m)| > 0;
        }
      }
  }

  /** Resubmitting an unchanged edit form of a stored event leaves the
      stored list as it was, when ids are distinct. */
  lemma ResubmitUnchangedEdit(p: ProviderPage, user: LocalAuth.Account, now: int, newId: string, k: int)
    requires UniqueIds(p.stored) && 0 <= k < |p.stored|
    requires p.editing == Some(p.stored[k]) && p.form == EditForm(p.stored[k])
    requires FormError(p.form, now).Passes?
    ensures HandleSubmit(p, user, now, newId).stored == p.stored
  {
    var e := p.stored[k];
    EditRoundTrip(e);
    var r := EditWhere(p.stored, e.id, p.form);
    forall i | 0 <= i < |r| ensures r[i] == p.stored[i] {
      if p.stored[i].id == e.id {
        assert i == k;
      }
    }
  }

  /** An edit rewrites only the events carrying the edited id; the others,
      and the order, are untouched. */
  lemma EditTouchesOnlyThatEvent(p: ProviderPage, user: LocalAuth.Account, now: int, newId: string, i: int)
    requires FormError(p.form, now).Passes? && p.editing.Some? && 0 <= i < |p.stored|
    requires p.stored[i].id != p.editing.value.id
    ensures var r := HandleSubmit(p, user, now, newId);
      |r.stored| == |p.stored| && r.stored[i] == p.stored[i]
  {
  }

  /** Opening an event with a null description and submitting it untouched
      throws inside the checks: nothing is saved, no error is shown and the
      form stays open. */
  lemma NullDescriptionEditThrows(p: ProviderPage, e: Event, user: LocalAuth.Account, now: int, newId: string)
    requires e.description.None? && !IsBlank(e.name)
    ensures var r := HandleSubmit(HandleEdit(p, e), user, now, newId);
      r.stored == p.stored && r.error == "" && r.showForm && r.editing == Some(e)
  {
  }

  /** `handleEdit`. */
  function HandleEdit(p: ProviderPage, e: Event): (r: ProviderPage)
    ensures r.editing == Some(e) && r.showForm && r.form == EditForm(e)
    ensures r.stored == p.stored && r.shown == p.shown
  {
    p.(form := EditForm(e), editing := Some(e), showForm := true)
  }

  /** `handleDelete`: only after the confirmation; removes every stored
      event with the id (their registrations stay behind) and reloads. */
  function HandleDelete(p: ProviderPage, user: LocalAuth.Account, eventId: string, confirmed: bool): (r: ProviderPage)
    ensures !confirmed ==> r == p
    ensures confirmed ==>
      && (forall e :: e in r.stored <==> e in p.stored && e.id != eventId)
      && r.shown == LoadData(r.stored, user)
      && r.success == MsgDeleted
  {
    if !confirmed then p
    else
      var stored := Filter(p.stored, LacksId(eventId));
      p.(stored := stored, shown := LoadData(stored, user), success := MsgDeleted)
  }

  /** Deleting twice is the same as deleting once. */
  lemma DeleteIdempotent(p: ProviderPage, user: LocalAuth.Account, eventId: string)
    ensures HandleDelete(HandleDelete(p, user, eventId, true), user, eventId, true)
         == HandleDelete(p, user, eventId, true)
  {
    FilterIdempotent(p.stored, LacksId(eventId));
  }
}
