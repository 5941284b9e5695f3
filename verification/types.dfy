/** The shared records of the events platform: roles, users, events and
    registrations, with the nullable and optional fields made explicit. */
module Types {

  /** A value that may be absent (`undefined`, `null` or a missing key). */
  datatype Option<+T> = None | Some(value: T) {
    function GetOr(default: T): T {
      match this
      case Some(v) => v
      case None => default
    }
  }

  /** The three roles a user can have; nothing else is a role. */
  datatype UserRole = RegularUser | ServiceProvider | Admin

  /** The wire name of a role. */
  function RoleName(role: UserRole): string {
    match role
    case RegularUser => "user"
    case ServiceProvider => "serviceProvider"
    case Admin => "admin"
  }

  /** Distinct roles have distinct wire names, so comparing names compares roles. */
  lemma RoleNameInjective(a: UserRole, b: UserRole)
    ensures RoleName(a) == RoleName(b) <==> a == b
  {
  }

  /** A signed-in identity as the pages see it; the business fields are
      only filled in for providers who signed up through the store. */
  datatype User = User(
    id: string,
    email: string,
    name: string,
    role: UserRole,
    businessName: Option<string>,
    phone: Option<string>,
    address: Option<string>,
    description: Option<string>)

  /** The organiser embedded in an event. */
  datatype Provider = Provider(id: int, name: string, email: string)

  /** An event. `description` may be null, `maxParticipants` may be absent,
      and `confirmedUsers` may be missing from a server payload. */
  datatype Event = Event(
    id: string,
    name: string,
    description: Option<string>,
    date: int,
    location: string,
    serviceProviderId: string,
    serviceProvider: Provider,
    confirmedUsers: Option<seq<User>>,
    maxParticipants: Option<int>,
    currentParticipants: int)

  /** One (event, user) registration record. */
  datatype Registration = Registration(id: string, eventId: string, userId: string)

  /** The `{ success, message }` object most operations return. */
  datatype Reply = Reply(success: bool, message: string)

  /** JavaScript truthiness of an optional capacity: absent and 0 both mean
      "no limit". */
  predicate HasCapacityLimit(max: Option<int>) {
    max.Some? && max.value != 0
  }

  /** `message || fallback` where the message comes from a JSON body: an
      absent or empty message falls back. */
  function MessageOr(message: Option<string>, fallback: string): (r: string)
    ensures message.Some? && message.value != "" ==> r == message.value
    ensures message.None? || message.value == "" ==> r == fallback
  {
    if message.Some? && message.value != "" then message.value else fallback
  }

  /** The event is over: its date is not after `now`. An event exactly at
      `now` counts as past. */
  predicate IsPast(e: Event, now: int) {
    e.date <= now
  }

  /** An HTTP exchange as the client sees it: either the request or the JSON
      parse threw (with the error's message), or a response arrived with its
      `ok` flag, the body's `message` field and the rest of the body. */
  datatype Response<T> = Thrown(error: string) | Answer(ok: bool, message: Option<string>, body: T)

  /** How an awaited call settled: with a value, or by throwing. */
  datatype Settled<T> = Resolved(value: T) | Threw
}
