/** The public events page's registration view: the optimistic overlay that
    shadows the derived registrations while a join or leave is in flight,
    the read-through lookups, the two click handlers and the choice of the
    action button each card shows. */
module EventsPage {
  import opened Types
  import opened Seqs
  import opened Registry
  import EventsHook

  /** An optimistic entry: what the page shows for one event until reload. */
  datatype Overlay = Overlay(isRegistered: bool, count: int)

  /** The banner message. */
  datatype Notice = Notice(isError: bool, text: string)

  /** The page state the registration view reads and writes. */
  datatype Page = Page(
    user: Option<User>,
    registrations: seq<Registration>,
    overlay: map<string, Overlay>,
    processing: Option<string>,
    message: Option<Notice>,
    justRegistered: set<string>)

  const MsgJoinedNotice := "Successfully registered for the event! \U{1F389}"
  const MsgJoinFailed := "Failed to register for event. Please try again."
  const MsgLeftNotice := "Successfully unregistered from the event."
  const MsgLeaveFailed := "Failed to unregister from event. Please try again."

  /** `isUserRegistered`: with nobody signed in nothing is registered; an
      overlay entry wins over the derived registrations. */
  predicate IsUserRegistered(p: Page, eventId: string)
    ensures IsUserRegistered(p, eventId) ==> p.user.Some?
    ensures p.user.Some? && eventId !in p.overlay ==>
      (IsUserRegistered(p, eventId) <==>
         exists i :: 0 <= i < |p.registrations| &&
           p.registrations[i].eventId == eventId && p.registrations[i].userId == p.user.value.id)
  {
    && p.user.Some?
    && if eventId in p.overlay then p.overlay[eventId].isRegistered
       else IsRegistered(p.registrations, eventId, p.user.value.id)
  }

  /** `getEventRegistrationCount`: the overlay count, else the number of
      derived registrations naming the event. */
  function RegistrationCount(p: Page, eventId: string): (n: int)
    ensures eventId !in p.overlay ==> 0 <= n <= |p.registrations|
    ensures eventId !in p.overlay && n > 0 ==>
      exists i :: 0 <= i < |p.registrations| && p.registrations[i].eventId == eventId
  {
    if eventId in p.overlay then p.overlay[eventId].count
    else
      var n := CountFor(p.registrations, eventId);
      if n > 0 then
        var g := Filter(p.registrations, ForEvent(eventId))[0];
        assert g in p.registrations;
        n
      else n
  }

  /** `isEventFull`, read through the overlay: an event without a truthy
      capacity is never full, otherwise the count shown is compared with
      it. */
  predicate IsEventFull(p: Page, e: Event)
    ensures e.maxParticipants.None? || e.maxParticipants == Some(0) ==> !IsEventFull(p, e)
    ensures IsEventFull(p, e) ==> RegistrationCount(p, e.id) >= e.maxParticipants.value
  {
    IsFull(e, RegistrationCount(p, e.id))
  }

  /** No overlay entry holds a negative count. */
  predicate CountsNonNegative(p: Page) {
    forall id :: id in p.overlay ==> p.overlay[id].count >= 0
  }

  /** The synchronous half of `handleRegister`: mark the event as processing
      and show it as joined, one more participant than currently shown. */
  function StartRegister(p: Page, eventId: string): (r: Page)
    requires p.user.Some?
    ensures r.processing == Some(eventId)
    ensures eventId in r.overlay && r.overlay[eventId] == Overlay(true, RegistrationCount(p, eventId) + 1)
    ensures r.overlay - {eventId} == p.overlay - {eventId}
    ensures r == p.(overlay := r.overlay, processing := r.processing)
  {
    p.(processing := Some(eventId),
       overlay := p.overlay[eventId := Overlay(true, RegistrationCount(p, eventId) + 1)])
  }

  /** The half of `handleRegister` after the join call settles, as written:
      a truthy result confirms; `undefined` does nothing; only a throw rolls
      the entry back and reports the failure. Processing ends either way. */
  function FinishRegister(q: Page, eventId: string, outcome: Settled<Option<Reply>>): (r: Page)
    ensures r.processing == None
    ensures r.user == q.user && r.registrations == q.registrations
    ensures outcome == Resolved(None) ==> r == q.(processing := None)
    ensures outcome.Resolved? && outcome.value.Some? ==>
      r == q.(processing := None, justRegistered := q.justRegistered + {eventId},
               message := Some(Notice(false, MsgJoinedNotice)))
    ensures outcome.Threw? ==>
      r.overlay == q.overlay - {eventId} && r.message == Some(Notice(true, MsgJoinFailed))
      && r.justRegistered == q.justRegistered
  {
    match outcome
    case Resolved(Some(_)) =>
      q.(processing := None, justRegistered := q.justRegistered + {eventId},
         message := Some(Notice(false, MsgJoinedNotice)))
    case Resolved(None) => q.(processing := None)
    case Threw =>
      q.(processing := None, overlay := q.overlay - {eventId}, message := Some(Notice(true, MsgJoinFailed)))
  }

  /** `handleRegister` as one step: nothing without a user, else both halves. */
  function HandleRegister(p: Page, eventId: string, outcome: Settled<Option<Reply>>): (r: Page)
    ensures p.user.None? ==> r == p
    ensures p.user.Some? ==> r.processing == None
    ensures r.overlay - {eventId} == p.overlay - {eventId}
    ensures r.user == p.user && r.registrations == p.registrations
    ensures p.user.Some? && outcome.Resolved? ==>
      IsUserRegistered(r, eventId) && RegistrationCount(r, eventId) == RegistrationCount(p, eventId) + 1
    ensures outcome.Threw? ==> eventId !in r.overlay || r == p
  {
    if p.user.None? then p else FinishRegister(StartRegister(p, eventId), eventId, outcome)
  }

  /** The synchronous half of `handleUnregister`: show the event as left, one
      participant fewer, but never below zero. */
  function StartUnregister(p: Page, eventId: string): (r: Page)
    requires p.user.Some?
    ensures r.processing == Some(eventId)
    ensures eventId in r.overlay && !r.overlay[eventId].isRegistered
    ensures r.overlay[eventId].count >= 0
    ensures RegistrationCount(p, eventId) > 0 ==> r.overlay[eventId].count == RegistrationCount(p, eventId) - 1
    ensures RegistrationCount(p, eventId) <= 0 ==> r.overlay[eventId].count == 0
    ensures r.overlay - {eventId} == p.overlay - {eventId}
    ensures r == p.(overlay := r.overlay, processing := r.processing)
  {
    var current := RegistrationCount(p, eventId);
    p.(processing := Some(eventId),
       overlay := p.overlay[eventId := Overlay(false, if current - 1 > 0 then current - 1 else 0)])
  }

  /** The half of `handleUnregister` after the leave call settles, as
      written: any resolved value (always an object, so always truthy) shows
      the success banner; only a throw rolls back. */
  function FinishUnregister(q: Page, eventId: string, outcome: Settled<Reply>): (r: Page)
    ensures r.processing == None
    ensures r.user == q.user && r.registrations == q.registrations && r.justRegistered == q.justRegistered
    ensures outcome.Resolved? ==>
      r == q.(processing := None, message := Some(Notice(false, MsgLeftNotice)))
    ensures outcome.Threw? ==>
      r.overlay == q.overlay - {eventId} && r.message == Some(Notice(true, MsgLeaveFailed))
  {
    match outcome
    case Resolved(_) => q.(processing := None, message := Some(Notice(false, MsgLeftNotice)))
    case Threw =>
      q.(processing := None, overlay := q.overlay - {eventId}, message := Some(Notice(true, MsgLeaveFailed)))
  }

  /** `handleUnregister` as one step. */
  function HandleUnregister(p: Page, eventId: string, outcome: Settled<Reply>): (r: Page)
    ensures p.user.None? ==> r == p
    ensures p.user.Some? ==> r.processing == None
    ensures r.overlay - {eventId} == p.overlay - {eventId}
    ensures r.user == p.user && r.registrations == p.registrations
    ensures p.user.Some? && outcome.Resolved? ==>
      !IsUserRegistered(r, eventId) && RegistrationCount(r, eventId) >= 0
    ensures outcome.Threw? ==> eventId !in r.overlay || r == p
  {
    if p.user.None? then p else FinishUnregister(StartUnregister(p, eventId), eventId, outcome)
  }

  /** Two pages whose overlays agree away from `eventId` show the same thing
      for every other event. */
  lemma SameAwayFrom(p: Page, r: Page, eventId: string, other: string)
    requires r.overlay - {eventId} == p.overlay - {eventId}
    requires r.user == p.user && r.registrations == p.registrations
    requires other != eventId
    ensures IsUserRegistered(r, other) == IsUserRegistered(p, other)
    ensures RegistrationCount(r, other) == RegistrationCount(p, other)
  {
    assert other in r.overlay <==> other in r.overlay - {eventId};
    assert other in p.overlay <==> other in p.overlay - {eventId};
    if other in r.overlay {
      assert r.overlay[other] == (r.overlay - {eventId})[other];
      assert p.overlay[other] == (p.overlay - {eventId})[other];
    }
  }

  /** Frame: clicking one card's button never changes what another card
      shows. */
  lemma HandlersTouchOneEvent(p: Page, eventId: string, other: string,
                              a: Settled<Option<Reply>>, b: Settled<Reply>)
    requires other != eventId
    ensures IsUserRegistered(HandleRegister(p, eventId, a), other) == IsUserRegistered(p, other)
    ensures RegistrationCount(HandleRegister(p, eventId, a), other) == RegistrationCount(p, other)
    ensures IsUserRegistered(HandleUnregister(p, eventId, b), other) == IsUserRegistered(p, other)
    ensures RegistrationCount(HandleUnregister(p, eventId, b), other) == RegistrationCount(p, other)
  {
    SameAwayFrom(p, HandleRegister(p, eventId, a), eventId, other);
    SameAwayFrom(p, HandleUnregister(p, eventId, b), eventId, other);
  }

  /** Both handlers keep every overlay count non-negative, provided the
      derived counts they start from are (which they are, being lengths). */
  lemma HandlersKeepCountsNonNegative(p: Page, eventId: string,
                                      a: Settled<Option<Reply>>, b: Settled<Reply>)
    requires CountsNonNegative(p)
    ensures CountsNonNegative(HandleRegister(p, eventId, a))
    ensures CountsNonNegative(HandleUnregister(p, eventId, b))
  {
    var r := HandleRegister(p, eventId, a);
    var u := HandleUnregister(p, eventId, b);
    forall id | id in r.overlay ensures r.overlay[id].count >= 0 {
      if id != eventId {
        assert id in r.overlay - {eventId};
        assert r.overlay[id] == (p.overlay - {eventId})[id];
      }
    }
    forall id | id in u.overlay ensures u.overlay[id].count >= 0 {
      if id != eventId {
        assert id in u.overlay - {eventId};
        assert u.overlay[id] == (p.overlay - {eventId})[id];
      }
    }
  }

  /** Joining and then leaving the same event, both calls resolving, shows
      the event as not joined with its original count again. */
  lemma JoinThenLeaveRestoresCount(p: Page, eventId: string, a: Option<Reply>, b: Reply)
    requires p.user.Some? && CountsNonNegative(p)
    ensures var r := HandleUnregister(HandleRegister(p, eventId, Resolved(a)), eventId, Resolved(b));
      !IsUserRegistered(r, eventId) && RegistrationCount(r, eventId) == RegistrationCount(p, eventId)
  {
    var q := HandleRegister(p, eventId, Resolved(a));
    assert RegistrationCount(q, eventId) == RegistrationCount(p, eventId) + 1;
    assert RegistrationCount(p, eventId) >= 0;
  }

  /** As written, a join the server refused still shows the user as joined
      with the raised count, and no error banner appears: the hook turns the
      failure into `undefined`, which the page ignores, and the rollback in
      the page's catch is unreachable because the hook never throws. */
  lemma FailedJoinKeepsOverlay(p: Page, eventId: string, st: EventsHook.HookState, resp: Response<()>)
    requires p.user.Some?
    requires !(resp.Answer? && resp.ok)
    ensures var r := HandleRegister(p, eventId, Resolved(EventsHook.RegisterUserForEvent(st, resp).1));
      && IsUserRegistered(r, eventId)
      && RegistrationCount(r, eventId) == RegistrationCount(p, eventId) + 1
      && r.message == p.message
      && r.justRegistered == p.justRegistered
  {
  }

  /** As written, a leave the server refused still shows the success banner:
      the hook resolves to an object with `success: false`, and the page only
      tests the object for truthiness. */
  lemma FailedLeaveShowsSuccess(p: Page, eventId: string, st: EventsHook.HookState, resp: Response<()>)
    requires p.user.Some?
    requires !(resp.Answer? && resp.ok)
    ensures var r := HandleUnregister(p, eventId, Resolved(EventsHook.UnregisterUserFromEvent(st, resp).1));
      && !EventsHook.UnregisterUserFromEvent(st, resp).1.success
      && r.message == Some(Notice(false, MsgLeftNotice))
      && !IsUserRegistered(r, eventId)
  {
  }

  /** `handleRegister` as evidently intended: the reply's `success` flag is
      consulted, and a failure takes the page's own rollback path (the
      `catch` branch), which deletes the event's overlay entry and reports
      the error. */
  function HandleRegisterReconciled(p: Page, eventId: string, reply: Reply): (r: Page)
    ensures p.user.None? ==> r == p
    ensures p.user.Some? && reply.success ==>
      IsUserRegistered(r, eventId) && RegistrationCount(r, eventId) == RegistrationCount(p, eventId) + 1
      && r.message == Some(Notice(false, MsgJoinedNotice)) && eventId in r.justRegistered
    ensures p.user.Some? && !reply.success ==>
      && r.overlay == p.overlay - {eventId}
      && r.processing.None? && r.message == Some(Notice(true, MsgJoinFailed))
      && r.user == p.user && r.registrations == p.registrations && r.justRegistered == p.justRegistered
  {
    if p.user.None? then p
    else if reply.success then FinishRegister(StartRegister(p, eventId), eventId, Resolved(Some(reply)))
    else FinishRegister(StartRegister(p, eventId), eventId, Threw)
  }

  /** `handleUnregister` as evidently intended, with the same rollback. */
  function HandleUnregisterReconciled(p: Page, eventId: string, reply: Reply): (r: Page)
    ensures p.user.None? ==> r == p
    ensures p.user.Some? && reply.success ==>
      !IsUserRegistered(r, eventId) && r.message == Some(Notice(false, MsgLeftNotice))
    ensures p.user.Some? && !reply.success ==>
      && r.overlay == p.overlay - {eventId}
      && r.processing.None? && r.message == Some(Notice(true, MsgLeaveFailed))
      && r.user == p.user && r.registrations == p.registrations && r.justRegistered == p.justRegistered
  {
    if p.user.None? then p
    else if reply.success then FinishUnregister(StartUnregister(p, eventId), eventId, Resolved(reply))
    else FinishUnregister(StartUnregister(p, eventId), eventId, Threw)
  }

  /** What a rolled-back page shows: the clicked card falls back to the
      derived registrations, and every other card is unchanged. */
  lemma RolledBackView(p: Page, r: Page, eventId: string, id: string)
    requires p.user.Some?
    requires r.overlay == p.overlay - {eventId}
    requires r.user == p.user && r.registrations == p.registrations
    ensures IsUserRegistered(r, eventId) == IsRegistered(p.registrations, eventId, p.user.value.id)
    ensures RegistrationCount(r, eventId) == CountFor(p.registrations, eventId)
    ensures id != eventId ==>
      IsUserRegistered(r, id) == IsUserRegistered(p, id) && RegistrationCount(r, id) == RegistrationCount(p, id)
    ensures eventId !in p.overlay ==>
      IsUserRegistered(r, id) == IsUserRegistered(p, id) && RegistrationCount(r, id) == RegistrationCount(p, id)
  {
    if id != eventId {
      SameAwayFrom(p, r, eventId, id);
    }
    if eventId !in p.overlay {
      assert r.overlay == p.overlay;
    }
  }

  /** With the intended join call and handler, a refused join clears the
      clicked card's optimistic entry, so it shows the derived registrations
      again (everything as before the click when it had no entry), leaves
      every other card alone and raises the error banner; an accepted one
      shows the event joined. */
  lemma ReconciledJoinMatchesServer(p: Page, eventId: string, st: EventsHook.HookState,
                                    resp: Response<()>, id: string)
    requires p.user.Some?
    ensures var r := HandleRegisterReconciled(p, eventId, EventsHook.JoinEvent(st, resp).1);
      && (resp.Answer? && resp.ok ==> IsUserRegistered(r, eventId))
      && (!(resp.Answer? && resp.ok) ==>
            && IsUserRegistered(r, eventId) == IsRegistered(p.registrations, eventId, p.user.value.id)
            && RegistrationCount(r, eventId) == CountFor(p.registrations, eventId)
            && (id != eventId || eventId !in p.overlay ==>
                  IsUserRegistered(r, id) == IsUserRegistered(p, id)
                  && RegistrationCount(r, id) == RegistrationCount(p, id))
            && r.message == Some(Notice(true, MsgJoinFailed)))
  {
    var r := HandleRegisterReconciled(p, eventId, EventsHook.JoinEvent(st, resp).1);
    if !(resp.Answer? && resp.ok) {
      RolledBackView(p, r, eventId, id);
    }
  }

  /** The same for leaving. */
  lemma ReconciledLeaveMatchesServer(p: Page, eventId: string, st: EventsHook.HookState,
                                     resp: Response<()>, id: string)
    requires p.user.Some?
    ensures var r := HandleUnregisterReconciled(p, eventId, EventsHook.UnregisterUserFromEvent(st, resp).1);
      && (resp.Answer? && resp.ok ==> !IsUserRegistered(r, eventId) && r.message == Some(Notice(false, MsgLeftNotice)))
      && (!(resp.Answer? && resp.ok) ==>
            && IsUserRegistered(r, eventId) == IsRegistered(p.registrations, eventId, p.user.value.id)
            && RegistrationCount(r, eventId) == CountFor(p.registrations, eventId)
            && (id != eventId || eventId !in p.overlay ==>
                  IsUserRegistered(r, id) == IsUserRegistered(p, id)
                  && RegistrationCount(r, id) == RegistrationCount(p, id))
            && r.message == Some(Notice(true, MsgLeaveFailed)))
  {
    var r := HandleUnregisterReconciled(p, eventId, EventsHook.UnregisterUserFromEvent(st, resp).1);
    if !(resp.Answer? && resp.ok) {
      RolledBackView(p, r, eventId, id);
    }
  }

  /** An overlay entry decides what a card shows, whatever the derived
      registrations say; without one, the card reads the registrations. */
  lemma OverlayTakesPrecedence(p: Page, eventId: string)
    requires p.user.Some?
    ensures eventId in p.overlay ==>
      IsUserRegistered(p, eventId) == p.overlay[eventId].isRegistered
      && RegistrationCount(p, eventId) == p.overlay[eventId].count
    ensures eventId !in p.overlay ==>
      IsUserRegistered(p, eventId) == IsRegistered(p.registrations, eventId, p.user.value.id)
      && RegistrationCount(p, eventId) == CountFor(p.registrations, eventId)
    ensures forall regs :: eventId in p.overlay ==>
      IsUserRegistered(p.(registrations := regs), eventId) == IsUserRegistered(p, eventId)
      && RegistrationCount(p.(registrations := regs), eventId) == RegistrationCount(p, eventId)
    ensures forall e: Event :: e.id == eventId && eventId in p.overlay ==>
      (IsEventFull(p, e) <==> HasCapacityLimit(e.maxParticipants) && p.overlay[eventId].count >= e.maxParticipants.value)
  {
  }

  /** With no overlay entry, the view reads straight from the derived
      registrations, which agree with the event's confirmed users. */
  lemma ViewAgreesWithConfirmedUsers(p: Page, events: seq<Event>, k: int)
    requires UniqueIds(events) && 0 <= k < |events|
    requires p.registrations == EventsHook.DeriveRegistrations(events)
    requires events[k].id !in p.overlay
    ensures RegistrationCount(p, events[k].id) == |EventsHook.Confirmed(events[k])|
    ensures IsUserRegistered(p, events[k].id)
        <==> p.user.Some? && exists u :: u in EventsHook.Confirmed(events[k]) && u.id == p.user.value.id
  {
    EventsHook.DerivedCountMatchesConfirmed(events, k);
    if p.user.Some? {
      EventsHook.DerivedRegisteredIffConfirmed(events, k, p.user.value.id);
    }
  }

  // ----- Action button -----

  /** The one action a card offers. `Registered` shows the confirmation badge
      and the unregister button; the flags say whether the badge is the
      just-confirmed variant and whether the button is disabled. */
  datatype Action =
    | EventEnded
    | LoginToRegister
    | Registered(justConfirmed: bool, unregisterDisabled: bool)
    | EventFull
    | RegisterButton(disabled: bool)

  /** The button chosen for an event card, first matching case wins: past,
      signed out, registered, full, otherwise register. */
  function SelectAction(p: Page, e: Event, now: int): (a: Action)
    ensures a.EventEnded? <==> IsPast(e, now)
    ensures a.LoginToRegister? <==> !IsPast(e, now) && p.user.None?
    ensures a.Registered? <==> !IsPast(e, now) && IsUserRegistered(p, e.id)
    ensures a.EventFull? <==> !IsPast(e, now) && p.user.Some? && !IsUserRegistered(p, e.id) && IsEventFull(p, e)
    ensures a.RegisterButton? <==>
      !IsPast(e, now) && p.user.Some? && !IsUserRegistered(p, e.id) && !IsEventFull(p, e)
    ensures a.Registered? ==>
      a.justConfirmed == (e.id in p.justRegistered) && a.unregisterDisabled == (p.processing == Some(e.id))
    ensures a.RegisterButton? ==> a.disabled == (p.processing == Some(e.id))
  {
    if IsPast(e, now) then EventEnded
    else if p.user.None? then LoginToRegister
    else if IsUserRegistered(p, e.id) then Registered(e.id in p.justRegistered, p.processing == Some(e.id))
    else if IsEventFull(p, e) then EventFull
    else RegisterButton(p.processing == Some(e.id))
  }

  /** While a join is in flight the card already shows the unregister button,
      disabled, so the same event cannot be joined or left twice at once. */
  lemma InFlightJoinDisablesCard(p: Page, e: Event, now: int)
    requires p.user.Some? && !IsPast(e, now)
    ensures SelectAction(StartRegister(p, e.id), e, now) == Registered(e.id in p.justRegistered, true)
  {
  }

  /** While a leave is in flight the card offers the register button
      disabled, or shows the event as full. */
  lemma InFlightLeaveDisablesCard(p: Page, e: Event, now: int)
    requires p.user.Some? && !IsPast(e, now)
    ensures var a := SelectAction(StartUnregister(p, e.id), e, now);
      a == RegisterButton(true) || a == EventFull
  {
  }

  /** A join that resolved leaves the card showing the user as registered,
      with the button enabled again. */
  lemma ResolvedJoinShowsRegistered(p: Page, e: Event, now: int, v: Option<Reply>)
    requires p.user.Some? && !IsPast(e, now)
    ensures var a := SelectAction(HandleRegister(p, e.id, Resolved(v)), e, now);
      a.Registered? && !a.unregisterDisabled && (v.Some? ==> a.justConfirmed)
  {
  }
}
