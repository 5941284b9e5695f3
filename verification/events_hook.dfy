/** The events hook: the derivation that flattens every event's confirmed
    users into registration records, and the API calls that create, fetch,
    join and leave events, over abstract HTTP responses. */
module EventsHook {
  import opened Types
  import opened Seqs
  import opened Registry

  // ----- Derivation -----

  /** The registrations one event contributes: one per confirmed user, in
      order, with id `eventId-userId`. */
  function UserRegistrations(eventId: string, users: seq<User>): (r: seq<Registration>)
    ensures |r| == |users|
    ensures forall i :: 0 <= i < |r| ==>
      r[i] == Registration(eventId + "-" + users[i].id, eventId, users[i].id)
  {
    if users == [] then []
    else [Registration(eventId + "-" + users[0].id, eventId, users[0].id)] + UserRegistrations(eventId, users[1..])
  }

  /** The confirmed users of an event, a missing list read as none. */
  function Confirmed(e: Event): seq<User> {
    e.confirmedUsers.GetOr([])
  }

  /** The registration list, rebuilt from nothing out of the events: events
      in order and, within each, confirmed users in order. */
  function DeriveRegistrations(events: seq<Event>): (r: seq<Registration>)
    ensures forall i :: 0 <= i < |r| ==> exists k :: 0 <= k < |events| && r[i].eventId == events[k].id
  {
    if events == [] then []
    else UserRegistrations(events[0].id, Confirmed(events[0])) + DeriveRegistrations(events[1..])
  }

  /** The total number of confirmed users over all events. */
  function TotalConfirmed(events: seq<Event>): nat {
    if events == [] then 0 else |Confirmed(events[0])| + TotalConfirmed(events[1..])
  }

  /** The normalisation the derivation applies to each event: an event that
      carries a confirmed-user list gets `currentParticipants` set to its
      length; any other event is left as it is. */
  function SyncParticipants(events: seq<Event>): (r: seq<Event>)
    ensures |r| == |events|
    ensures forall i :: 0 <= i < |r| ==>
      && r[i].id == events[i].id
      && r[i].confirmedUsers == events[i].confirmedUsers
      && (events[i].confirmedUsers.Some? ==>
            r[i].currentParticipants == |events[i].confirmedUsers.value|)
      && (events[i].confirmedUsers.None? ==> r[i] == events[i])
      && r[i] == events[i].(currentParticipants := r[i].currentParticipants)
  {
    if events == [] then []
    else
      var e := events[0];
      var e' := if e.confirmedUsers.Some? then e.(currentParticipants := |e.confirmedUsers.value|) else e;
      [e'] + SyncParticipants(events[1..])
  }

  /** Derivation distributes over concatenation of event lists. */
  lemma {:induction false} DeriveAppend(a: seq<Event>, b: seq<Event>)
    ensures DeriveRegistrations(a + b) == DeriveRegistrations(a) + DeriveRegistrations(b)
  {
    if a == [] {
      assert a + b == b;
    } else {
      assert (a + b)[1..] == a[1..] + b;
      DeriveAppend(a[1..], b);
    }
  }

  /** One derived registration per confirmed user, across all events. */
  lemma {:induction false} DerivedCountIsTotal(events: seq<Event>)
    ensures |DeriveRegistrations(events)| == TotalConfirmed(events)
  {
    if events != [] {
      DerivedCountIsTotal(events[1..]);
    }
  }

  /** Syncing the participant counts does not change what is derived, so the
      derivation is a fixed point of its own normalisation. */
  lemma {:induction false} SyncKeepsDerivation(events: seq<Event>)
    ensures DeriveRegistrations(SyncParticipants(events)) == DeriveRegistrations(events)
    ensures SyncParticipants(SyncParticipants(events)) == SyncParticipants(events)
  {
    if events != [] {
      SyncKeepsDerivation(events[1..]);
    }
  }

  /** The registrations derived for one event's own id. */
  lemma UserRegistrationsFor(eventId: string, users: seq<User>, id: string)
    ensures CountFor(UserRegistrations(eventId, users), id) == if id == eventId then |users| else 0
  {
    var rs := UserRegistrations(eventId, users);
    if id == eventId {
      FilterAll(rs, ForEvent(id));
    } else {
      FilterNone(rs, ForEvent(id));
    }
  }

  /** Derivation correctness for counts: with distinct event ids, the number
      of registrations derived for an event is its confirmed-user count. */
  lemma {:induction false} DerivedCountMatchesConfirmed(events: seq<Event>, k: int)
    requires UniqueIds(events) && 0 <= k < |events|
    ensures CountFor(DeriveRegistrations(events), events[k].id) == |Confirmed(events[k])|
  {
    var id := events[k].id;
    var head := UserRegistrations(events[0].id, Confirmed(events[0]));
    var tail := DeriveRegistrations(events[1..]);
    FilterAppend(head, tail, ForEvent(id));
    UserRegistrationsFor(events[0].id, Confirmed(events[0]), id);
    if k == 0 {
      DerivedCountAbsent(events[1..], id);
    } else {
      DerivedCountMatchesConfirmed(events[1..], k - 1);
    }
  }

  /** An id that no event carries gets no derived registrations. */
  lemma {:induction false} DerivedCountAbsent(events: seq<Event>, id: string)
    requires forall i :: 0 <= i < |events| ==> events[i].id != id
    ensures CountFor(DeriveRegistrations(events), id) == 0
  {
    if events != [] {
      var head := UserRegistrations(events[0].id, Confirmed(events[0]));
      FilterAppend(head, DeriveRegistrations(events[1..]), ForEvent(id));
      UserRegistrationsFor(events[0].id, Confirmed(events[0]), id);
      DerivedCountAbsent(events[1..], id);
    }
  }

  /** Derivation correctness for membership: with distinct event ids, a user
      counts as registered for an event exactly when a confirmed user of that
      event has the user's id. */
  lemma {:induction false} DerivedRegisteredIffConfirmed(events: seq<Event>, k: int, userId: string)
    requires UniqueIds(events) && 0 <= k < |events|
    ensures IsRegistered(DeriveRegistrations(events), events[k].id, userId)
        <==> exists u :: u in Confirmed(events[k]) && u.id == userId
  {
    var id := events[k].id;
    var us := Confirmed(events[k]);
    var derived := DeriveRegistrations(events);
    var p := SamePair(id, userId);
    if exists u :: u in us && u.id == userId {
      var u :| u in us && u.id == userId;
      var j :| 0 <= j < |us| && us[j] == u;
      DerivedContains(events, k, j);
      var g := Registration(id + "-" + userId, id, userId);
      var i :| 0 <= i < |derived| && derived[i] == g;
      assert p(derived[i]);
    }
    if IsRegistered(derived, id, userId) {
      var i :| 0 <= i < |derived| && p(derived[i]);
      DerivedFrom(events, i);
      var k', j :| 0 <= k' < |events| && 0 <= j < |Confirmed(events[k'])|
        && derived[i] == Registration(events[k'].id + "-" + Confirmed(events[k'])[j].id,
                                      events[k'].id, Confirmed(events[k'])[j].id);
      assert k' == k;
      assert Confirmed(events[k])[j] in us;
    }
  }

  /** Every confirmed user yields its registration somewhere in the list. */
  lemma {:induction false} DerivedContains(events: seq<Event>, k: int, j: int)
    requires 0 <= k < |events| && 0 <= j < |Confirmed(events[k])|
    ensures Registration(events[k].id + "-" + Confirmed(events[k])[j].id, events[k].id, Confirmed(events[k])[j].id)
            in DeriveRegistrations(events)
  {
    var head := UserRegistrations(events[0].id, Confirmed(events[0]));
    if k == 0 {
      assert head[j] in head;
    } else {
      DerivedContains(events[1..], k - 1, j);
    }
  }

  /** Every derived registration comes from one confirmed user of one event. */
  lemma {:induction false} DerivedFrom(events: seq<Event>, i: int)
    requires 0 <= i < |DeriveRegistrations(events)|
    ensures exists k, j :: (0 <= k < |events| && 0 <= j < |Confirmed(events[k])|
      && DeriveRegistrations(events)[i]
         == Registration(events[k].id + "-" + Confirmed(events[k])[j].id, events[k].id, Confirmed(events[k])[j].id))
  {
    var head := UserRegistrations(events[0].id, Confirmed(events[0]));
    if i < |head| {
      assert DeriveRegistrations(events)[i] == head[i];
    } else {
      DerivedFrom(events[1..], i - |head|);
      var k, j :| 0 <= k < |events[1..]| && 0 <= j < |Confirmed(events[1..][k])|
        && DeriveRegistrations(events[1..])[i - |head|]
           == Registration(events[1..][k].id + "-" + Confirmed(events[1..][k])[j].id,
                           events[1..][k].id, Confirmed(events[1..][k])[j].id);
      assert events[1..][k] == events[k + 1];
    }
  }

  // ----- API calls -----

  /** The hook's state: the events list, the error text and the loading flag. */
  datatype HookState = HookState(events: seq<Event>, error: Option<string>, loading: bool)

  /** What `createEvent` and `getAllEvents` resolve to. */
  datatype Outcome = Succeeded | Failed(message: string)

  const MsgSomethingWrong := "Something went wrong"

  /** The error text a caught exception leaves: its message, or the generic
      text when the message is empty. */
  function CaughtError(message: string): string {
    if message != "" then message else MsgSomethingWrong
  }

  /** The message of the error thrown for a non-ok response or carried by a
      thrown exception. */
  function ThrownMessage<T>(resp: Response<T>, fallback: string): string {
    match resp
    case Thrown(m) => m
    case Answer(_, m, _) => MessageOr(m, fallback)
  }

  /** `createEvent`: an ok response appends the returned event at the end;
      anything else leaves the events alone and records the error. */
  function CreateEvent(st: HookState, resp: Response<Event>): (r: (HookState, Outcome))
    ensures !r.0.loading
    ensures resp.Answer? && resp.ok ==>
      r.0.events == st.events + [resp.body] && r.0.error == None && r.1 == Succeeded
    ensures !(resp.Answer? && resp.ok) ==>
      var m := ThrownMessage(resp, "Failed to create event");
      r.0.events == st.events && r.0.error == Some(CaughtError(m)) && r.1 == Failed(m)
  {
    match resp
    case Answer(true, _, ev) => (HookState(st.events + [ev], None, false), Succeeded)
    case _ =>
      var m := ThrownMessage(resp, "Failed to create event");
      (HookState(st.events, Some(CaughtError(m)), false), Failed(m))
  }

  /** `getAllEvents`: an ok response replaces the events wholesale (an absent
      list reads as []); a failure keeps them and records the error. */
  function GetAllEvents(st: HookState, resp: Response<Option<seq<Event>>>): (r: (HookState, Outcome))
    ensures !r.0.loading
    ensures resp.Answer? && resp.ok ==>
      r.0.events == resp.body.GetOr([]) && r.0.error == st.error && r.1 == Succeeded
    ensures !(resp.Answer? && resp.ok) ==>
      var m := ThrownMessage(resp, "Failed to fetch events");
      r.0.events == st.events && r.0.error == Some(CaughtError(m)) && r.1 == Failed(m)
  {
    match resp
    case Answer(true, _, evs) => (st.(events := evs.GetOr([]), loading := false), Succeeded)
    case _ =>
      var m := ThrownMessage(resp, "Failed to fetch events");
      (st.(error := Some(CaughtError(m)), loading := false), Failed(m))
  }

  /** What a created event does to the derived registrations: an ok
      response appends the new event's registrations after the existing
      ones, so a fresh id's count is exactly its confirmed users; a failure
      leaves the derivation as it was. */
  lemma CreateEventDerivation(st: HookState, resp: Response<Event>)
    ensures resp.Answer? && resp.ok ==>
      DeriveRegistrations(CreateEvent(st, resp).0.events)
        == DeriveRegistrations(st.events) + UserRegistrations(resp.body.id, Confirmed(resp.body))
    ensures resp.Answer? && resp.ok && (forall i :: 0 <= i < |st.events| ==> st.events[i].id != resp.body.id) ==>
      CountFor(DeriveRegistrations(CreateEvent(st, resp).0.events), resp.body.id) == |Confirmed(resp.body)|
    ensures !(resp.Answer? && resp.ok) ==>
      DeriveRegistrations(CreateEvent(st, resp).0.events) == DeriveRegistrations(st.events)
  {
    if resp.Answer? && resp.ok {
      var e := resp.body;
      DeriveAppend(st.events, [e]);
      assert [e][1..] == [];
      var tail := UserRegistrations(e.id, Confirmed(e));
      assert DeriveRegistrations([e]) == tail + [];
      assert tail + [] == tail;
      if forall i :: 0 <= i < |st.events| ==> st.events[i].id != e.id {
        DerivedCountAbsent(st.events, e.id);
        FilterAppend(DeriveRegistrations(st.events), tail, ForEvent(e.id));
        UserRegistrationsFor(e.id, Confirmed(e), e.id);
      }
    }
  }

  /** What fetching does to the derived registrations: an ok response
      rebuilds them from the fetched list alone, so with distinct ids each
      fetched event's count is its confirmed-user count; a failure leaves
      them as they were. */
  lemma GetAllEventsDerivation(st: HookState, resp: Response<Option<seq<Event>>>)
    ensures resp.Answer? && resp.ok ==>
      DeriveRegistrations(GetAllEvents(st, resp).0.events) == DeriveRegistrations(resp.body.GetOr([]))
    ensures resp.Answer? && resp.ok && UniqueIds(resp.body.GetOr([])) ==>
      var fetched := resp.body.GetOr([]);
      forall k :: 0 <= k < |fetched| ==>
        CountFor(DeriveRegistrations(GetAllEvents(st, resp).0.events), fetched[k].id) == |Confirmed(fetched[k])|
    ensures !(resp.Answer? && resp.ok) ==>
      DeriveRegistrations(GetAllEvents(st, resp).0.events) == DeriveRegistrations(st.events)
  {
    if resp.Answer? && resp.ok && UniqueIds(resp.body.GetOr([])) {
      var fetched := resp.body.GetOr([]);
      forall k | 0 <= k < |fetched|
        ensures CountFor(DeriveRegistrations(fetched), fetched[k].id) == |Confirmed(fetched[k])|
      {
        DerivedCountMatchesConfirmed(fetched, k);
      }
    }
  }

  const MsgJoined := "Registration sucessfull"
  const MsgLeft := "Unregistration sucessfull"

  /** `registerUserForEvent` as written: an ok response resolves to a success
      object; every failure is swallowed and resolves to `undefined` (None)
      without touching the error. Loading is switched on and never off. */
  function RegisterUserForEvent(st: HookState, resp: Response<()>): (r: (HookState, Option<Reply>))
    ensures r.1.Some? <==> resp.Answer? && resp.ok
    ensures r.1.Some? ==> r.1.value == Reply(true, MsgJoined)
    ensures r.0 == st.(loading := true)
  {
    (st.(loading := true), if resp.Answer? && resp.ok then Some(Reply(true, MsgJoined)) else None)
  }

  /** `unregisterUserFromEvent`: always resolves to an object, `success:false`
      with the error's message on failure, and always clears loading. */
  function UnregisterUserFromEvent(st: HookState, resp: Response<()>): (r: (HookState, Reply))
    ensures !r.0.loading && r.0.events == st.events
    ensures r.1.success <==> resp.Answer? && resp.ok
    ensures resp.Answer? && resp.ok ==> r.1 == Reply(true, MsgLeft) && r.0.error == st.error
    ensures !(resp.Answer? && resp.ok) ==>
      var m := ThrownMessage(resp, "Failed to unregister from event");
      r.1 == Reply(false, m) && r.0.error == Some(CaughtError(m))
  {
    if resp.Answer? && resp.ok then (st.(loading := false), Reply(true, MsgLeft))
    else
      var m := ThrownMessage(resp, "Failed to unregister from event");
      (st.(error := Some(CaughtError(m)), loading := false), Reply(false, m))
  }

  /** The join call as evidently intended: it reports failures the way the
      leave call does and clears loading on every path. */
  function JoinEvent(st: HookState, resp: Response<()>): (r: (HookState, Reply))
    ensures !r.0.loading && r.0.events == st.events
    ensures r.1.success <==> resp.Answer? && resp.ok
    ensures !(resp.Answer? && resp.ok) ==>
      r.1.message == ThrownMessage(resp, "Failed to register for event")
      && r.0.error == Some(CaughtError(r.1.message))
  {
    if resp.Answer? && resp.ok then (st.(loading := false), Reply(true, MsgJoined))
    else
      var m := ThrownMessage(resp, "Failed to register for event");
      (st.(error := Some(CaughtError(m)), loading := false), Reply(false, m))
  }

  /** As written, a join attempt leaves the hook loading whatever the server
      answered; the intended join never does. */
  lemma JoinLeavesLoading(st: HookState, resp: Response<()>)
    ensures RegisterUserForEvent(st, resp).0.loading
    ensures !JoinEvent(st, resp).0.loading
  {
  }
}
