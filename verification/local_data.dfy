/** The browser-storage event store: an events list and a registrations
    list, edited by register, unregister and delete operations that run a
    fixed series of guards and then append or remove one entry. */
module LocalData {
  import opened Types
  import opened Seqs
  import opened Registry
  import LocalAuth

  /** The two storage keys this store owns (an absent key reads as []). */
  datatype Store = Store(events: seq<Event>, registrations: seq<Registration>)

  const MsgAlreadyRegistered := "You are already registered for this event"
  const MsgEventNotFound := "Event not found"
  const MsgEventFull := "Event is full"
  const MsgPastRegister := "Cannot register for past events"
  const MsgRegistered := "Successfully registered for event!"
  const MsgNotRegistered := "You are not registered for this event"
  const MsgPastUnregister := "Cannot unregister from past events"
  const MsgUnregistered := "Successfully unregistered from event!"

  /** Removes every event with the id and every registration for it. */
  function DeleteEvent(s: Store, eventId: string): (r: Store)
    ensures forall e :: e in r.events <==> e in s.events && e.id != eventId
    ensures forall g :: g in r.registrations <==> g in s.registrations && g.eventId != eventId
    ensures |r.events| <= |s.events| && |r.registrations| <= |s.registrations|
  {
    Store(Filter(s.events, LacksId(eventId)), Filter(s.registrations, NotForEvent(eventId)))
  }

  /** Removes every account with the id from the users key; an absent key
      reads as an empty list, and the result is always written back. */
  function DeleteUser(users: Option<seq<LocalAuth.Account>>, userId: string): (r: seq<LocalAuth.Account>)
    ensures forall a :: a in r <==> a in users.GetOr([]) && a.id != userId
  {
    Filter(users.GetOr([]), OtherAccount(userId))
  }

  function OtherAccount(userId: string): LocalAuth.Account -> bool {
    (a: LocalAuth.Account) => a.id != userId
  }

  /** Registers the user for the event. The guards run in this order and the
      first that fails decides the reply: already registered, no such event,
      event full, event past. Only a success writes, appending one entry. */
  function RegisterForEvent(s: Store, eventId: string, userId: string, regId: string, now: int)
    : (r: (Store, Reply))
    ensures IsRegistered(s.registrations, eventId, userId) ==>
      r == (s, Reply(false, MsgAlreadyRegistered))
    ensures !IsRegistered(s.registrations, eventId, userId) && !Exists(s.events, HasId(eventId)) ==>
      r == (s, Reply(false, MsgEventNotFound))
    ensures !IsRegistered(s.registrations, eventId, userId) && Exists(s.events, HasId(eventId)) ==>
      var e := s.events[FindIndex(s.events, HasId(eventId))];
      && (IsFull(e, CountFor(s.registrations, eventId)) ==> r == (s, Reply(false, MsgEventFull)))
      && (!IsFull(e, CountFor(s.registrations, eventId)) && IsPast(e, now) ==>
            r == (s, Reply(false, MsgPastRegister)))
      && (!IsFull(e, CountFor(s.registrations, eventId)) && !IsPast(e, now) ==>
            r.1 == Reply(true, MsgRegistered)
            && r.0 == Store(s.events, s.registrations + [Registration(regId, eventId, userId)]))
  {
    if Exists(s.registrations, SamePair(eventId, userId)) then
      (s, Reply(false, MsgAlreadyRegistered))
    else
      match Find(s.events, HasId(eventId))
      case None => (s, Reply(false, MsgEventNotFound))
      case Some(e) =>
        if IsFull(e, CountFor(s.registrations, eventId)) then
          (s, Reply(false, MsgEventFull))
        else if e.date <= now then
          (s, Reply(false, MsgPastRegister))
        else
          (Store(s.events, s.registrations + [Registration(regId, eventId, userId)]),
           Reply(true, MsgRegistered))
  }

  /** Unregisters the user. Guards in order: not registered, no such event,
      event past. A success removes exactly the first matching entry. */
  function UnregisterFromEvent(s: Store, eventId: string, userId: string, now: int): (r: (Store, Reply))
    ensures !IsRegistered(s.registrations, eventId, userId) ==>
      r == (s, Reply(false, MsgNotRegistered))
    ensures IsRegistered(s.registrations, eventId, userId) && !Exists(s.events, HasId(eventId)) ==>
      r == (s, Reply(false, MsgEventNotFound))
    ensures IsRegistered(s.registrations, eventId, userId) && Exists(s.events, HasId(eventId)) ==>
      var e := s.events[FindIndex(s.events, HasId(eventId))];
      && (IsPast(e, now) ==> r == (s, Reply(false, MsgPastUnregister)))
      && (!IsPast(e, now) ==> r.1 == Reply(true, MsgUnregistered) && r.0.events == s.events)
    ensures r.1.success ==>
      exists k :: 0 <= k < |s.registrations|
        && SamePair(eventId, userId)(s.registrations[k])
        && (forall j :: 0 <= j < k ==> !SamePair(eventId, userId)(s.registrations[j]))
        && r.0.registrations == s.registrations[..k] + s.registrations[k + 1..]
  {
    var k := FindIndex(s.registrations, SamePair(eventId, userId));
    if k == -1 then
      (s, Reply(false, MsgNotRegistered))
    else
      match Find(s.events, HasId(eventId))
      case None => (s, Reply(false, MsgEventNotFound))
      case Some(e) =>
        if e.date <= now then
          (s, Reply(false, MsgPastUnregister))
        else
          (Store(s.events, s.registrations[..k] + s.registrations[k + 1..]), Reply(true, MsgUnregistered))
  }

  /** Seeds the events list when it is empty. The seed list in the source is
      entirely commented out, so seeding writes [] and changes nothing. */
  function InitializeDummyEvents(s: Store): (r: Store)
    ensures r == s
  {
    if |s.events| > 0 then s else s.(events := [])
  }

  // ----- Properties -----

  /** A failed register or unregister never writes. */
  lemma FailuresDoNotWrite(s: Store, eventId: string, userId: string, regId: string, now: int)
    ensures !RegisterForEvent(s, eventId, userId, regId, now).1.success ==>
      RegisterForEvent(s, eventId, userId, regId, now).0 == s
    ensures !UnregisterFromEvent(s, eventId, userId, now).1.success ==>
      UnregisterFromEvent(s, eventId, userId, now).0 == s
  {
  }

  /** A successful registration for one event raises that event's count by
      exactly one and leaves every other event's count alone. */
  lemma RegisterCounts(s: Store, eventId: string, userId: string, regId: string, now: int, other: string)
    requires RegisterForEvent(s, eventId, userId, regId, now).1.success
    ensures var s' := RegisterForEvent(s, eventId, userId, regId, now).0;
      CountFor(s'.registrations, other) == CountFor(s.registrations, other) + (if other == eventId then 1 else 0)
  {
    var g := Registration(regId, eventId, userId);
    FilterAppend(s.registrations, [g], ForEvent(other));
  }

  /** Round trip: registering and then unregistering the same pair restores
      the registration list exactly. */
  lemma RegisterUnregisterRoundTrip(s: Store, eventId: string, userId: string, regId: string,
                                    now: int, later: int)
    requires RegisterForEvent(s, eventId, userId, regId, now).1.success
    requires UnregisterFromEvent(RegisterForEvent(s, eventId, userId, regId, now).0, eventId, userId, later).1.success
    ensures UnregisterFromEvent(RegisterForEvent(s, eventId, userId, regId, now).0, eventId, userId, later).0 == s
  {
    var g := Registration(regId, eventId, userId);
    var regs := s.registrations + [g];
    var p := SamePair(eventId, userId);
    assert p([g][0]);
    FindIndexAppend(s.registrations, [g], p);
    assert FindIndex(regs, p) == |s.registrations|;
    assert regs[..|s.registrations|] == s.registrations;
  }

  /** At the same instant, a registration that just succeeded can be undone. */
  lemma UnregisterAfterRegisterSucceeds(s: Store, eventId: string, userId: string, regId: string, now: int)
    requires RegisterForEvent(s, eventId, userId, regId, now).1.success
    ensures UnregisterFromEvent(RegisterForEvent(s, eventId, userId, regId, now).0, eventId, userId, now).1.success
  {
    var g := Registration(regId, eventId, userId);
    var regs := s.registrations + [g];
    assert SamePair(eventId, userId)(regs[|s.registrations|]);
  }

  /** No (event, user) pair is registered twice. */
  predicate NoDuplicatePairs(regs: seq<Registration>) {
    forall i, j :: 0 <= i < j < |regs| ==>
      !(regs[i].eventId == regs[j].eventId && regs[i].userId == regs[j].userId)
  }

  /** Appending a registration for a pair not yet present keeps pairs
      unique. */
  lemma AppendKeepsPairsUnique(regs: seq<Registration>, g: Registration)
    requires NoDuplicatePairs(regs)
    requires !Exists(regs, SamePair(g.eventId, g.userId))
    ensures NoDuplicatePairs(regs + [g])
  {
    var out := regs + [g];
    forall i, j | 0 <= i < j < |out|
      ensures !(out[i].eventId == out[j].eventId && out[i].userId == out[j].userId)
    {
      if j == |regs| {
        assert !SamePair(g.eventId, g.userId)(regs[i]);
      }
    }
  }

  /** Removing one registration keeps pairs unique. */
  lemma RemoveAtKeepsPairsUnique(regs: seq<Registration>, k: int)
    requires NoDuplicatePairs(regs)
    requires 0 <= k < |regs|
    ensures NoDuplicatePairs(regs[..k] + regs[k + 1..])
  {
    var out := regs[..k] + regs[k + 1..];
    forall i, j | 0 <= i < j < |out|
      ensures !(out[i].eventId == out[j].eventId && out[i].userId == out[j].userId)
    {
      var i' := if i < k then i else i + 1;
      var j' := if j < k then j else j + 1;
      assert out[i] == regs[i'] && out[j] == regs[j'];
    }
  }

  /** Register and unregister both keep pairs unique. */
  lemma RegistrationsStayUnique(s: Store, eventId: string, userId: string, regId: string, now: int)
    requires NoDuplicatePairs(s.registrations)
    ensures NoDuplicatePairs(RegisterForEvent(s, eventId, userId, regId, now).0.registrations)
    ensures NoDuplicatePairs(UnregisterFromEvent(s, eventId, userId, now).0.registrations)
  {
    if RegisterForEvent(s, eventId, userId, regId, now).1.success {
      AppendKeepsPairsUnique(s.registrations, Registration(regId, eventId, userId));
    }
    var u := UnregisterFromEvent(s, eventId, userId, now);
    if u.1.success {
      var k :| 0 <= k < |s.registrations| && u.0.registrations == s.registrations[..k] + s.registrations[k + 1..];
      RemoveAtKeepsPairsUnique(s.registrations, k);
    }
  }

  /** The capacity invariant: for every id that resolves to an event with a
      positive capacity, the registrations for that id stay within it. */
  ghost predicate WithinCapacity(s: Store) {
    forall id :: Find(s.events, HasId(id)).Some? ==>
      var e := Find(s.events, HasId(id)).value;
      e.maxParticipants.Some? && e.maxParticipants.value > 0 ==>
        CountFor(s.registrations, id) <= e.maxParticipants.value
  }

  /** Registration never pushes an event past its capacity. */
  lemma RegisterKeepsCapacity(s: Store, eventId: string, userId: string, regId: string, now: int)
    requires WithinCapacity(s)
    ensures WithinCapacity(RegisterForEvent(s, eventId, userId, regId, now).0)
  {
    var r := RegisterForEvent(s, eventId, userId, regId, now);
    if r.1.success {
      forall id | Find(r.0.events, HasId(id)).Some?
        ensures var e := Find(r.0.events, HasId(id)).value;
          e.maxParticipants.Some? && e.maxParticipants.value > 0 ==>
            CountFor(r.0.registrations, id) <= e.maxParticipants.value
      {
        RegisterCounts(s, eventId, userId, regId, now, id);
      }
    }
  }

  /** Removing one registration lowers no event's count. */
  lemma RemoveAtCounts(regs: seq<Registration>, k: int, id: string)
    requires 0 <= k < |regs|
    ensures CountFor(regs[..k] + regs[k + 1..], id) <= CountFor(regs, id)
  {
    FilterRemoveAt(regs, k, ForEvent(id));
  }

  /** Unregistering keeps every event within capacity. */
  lemma UnregisterKeepsCapacity(s: Store, eventId: string, userId: string, now: int)
    requires WithinCapacity(s)
    ensures WithinCapacity(UnregisterFromEvent(s, eventId, userId, now).0)
  {
    var r := UnregisterFromEvent(s, eventId, userId, now);
    if r.1.success {
      var k :| 0 <= k < |s.registrations| && r.0.registrations == s.registrations[..k] + s.registrations[k + 1..];
      forall id | Find(r.0.events, HasId(id)).Some?
        ensures var e := Find(r.0.events, HasId(id)).value;
          e.maxParticipants.Some? && e.maxParticipants.value > 0 ==>
            CountFor(r.0.registrations, id) <= e.maxParticipants.value
      {
        RemoveAtCounts(s.registrations, k, id);
      }
    }
  }

  /** Filtering out one id does not change which event another id finds. */
  lemma {:induction false} FindAfterRemovingOther(events: seq<Event>, gone: string, id: string)
    requires id != gone
    ensures Find(Filter(events, LacksId(gone)), HasId(id)) == Find(events, HasId(id))
  {
    if events != [] {
      FindAfterRemovingOther(events[1..], gone, id);
      FindCons(events, HasId(id));
      if events[0].id != gone {
        var kept := Filter(events, LacksId(gone));
        assert kept == [events[0]] + Filter(events[1..], LacksId(gone));
        FindCons(kept, HasId(id));
        assert kept[1..] == Filter(events[1..], LacksId(gone));
      }
    }
  }

  /** Dropping one event's registrations leaves other events' counts alone. */
  lemma {:induction false} CountAfterRemovingOther(regs: seq<Registration>, gone: string, id: string)
    requires id != gone
    ensures CountFor(Filter(regs, NotForEvent(gone)), id) == CountFor(regs, id)
  {
    if regs != [] {
      CountAfterRemovingOther(regs[1..], gone, id);
      var rest := Filter(regs[1..], NotForEvent(gone));
      if regs[0].eventId != gone {
        assert Filter(regs, NotForEvent(gone)) == [regs[0]] + rest;
        FilterAppend([regs[0]], rest, ForEvent(id));
      }
      FilterAppend([regs[0]], regs[1..], ForEvent(id));
      assert [regs[0]] + regs[1..] == regs;
    }
  }

  /** Deleting an event keeps every remaining event within capacity. */
  lemma DeleteEventKeepsCapacity(s: Store, eventId: string)
    requires WithinCapacity(s)
    ensures WithinCapacity(DeleteEvent(s, eventId))
  {
    var r := DeleteEvent(s, eventId);
    forall id | Find(r.events, HasId(id)).Some?
      ensures var e := Find(r.events, HasId(id)).value;
        e.maxParticipants.Some? && e.maxParticipants.value > 0 ==>
          CountFor(r.registrations, id) <= e.maxParticipants.value
    {
      if id == eventId {
        assert false;
      }
      FindAfterRemovingOther(s.events, eventId, id);
      CountAfterRemovingOther(s.registrations, eventId, id);
    }
  }

  /** Deleting an event keeps the order of what remains: deleting from a
      concatenation deletes from each part. */
  lemma DeleteEventKeepsOrder(a: Store, b: Store, eventId: string)
    ensures DeleteEvent(Store(a.events + b.events, a.registrations + b.registrations), eventId)
         == Store(DeleteEvent(a, eventId).events + DeleteEvent(b, eventId).events,
                  DeleteEvent(a, eventId).registrations + DeleteEvent(b, eventId).registrations)
  {
    FilterAppend(a.events, b.events, LacksId(eventId));
    FilterAppend(a.registrations, b.registrations, NotForEvent(eventId));
  }
}
