/** Lookups over events and registration records shared by the stores and
    the pages: which event an id names, which registrations an event has,
    and when an event counts as full. */
module Registry {
  import opened Types
  import opened Seqs

  function HasId(id: string): Event -> bool {
    (e: Event) => e.id == id
  }

  function LacksId(id: string): Event -> bool {
    (e: Event) => e.id != id
  }

  function ForEvent(eventId: string): Registration -> bool {
    (g: Registration) => g.eventId == eventId
  }

  function NotForEvent(eventId: string): Registration -> bool {
    (g: Registration) => g.eventId != eventId
  }

  function SamePair(eventId: string, userId: string): Registration -> bool {
    (g: Registration) => g.eventId == eventId && g.userId == userId
  }

  /** The user holds a registration for the event. */
  predicate IsRegistered(regs: seq<Registration>, eventId: string, userId: string) {
    Exists(regs, SamePair(eventId, userId))
  }

  /** How many registrations name the event. */
  function CountFor(regs: seq<Registration>, eventId: string): nat {
    |Filter(regs, ForEvent(eventId))|
  }

  /** The event takes no more registrations: it has a truthy capacity and the
      count has reached it. */
  predicate IsFull(e: Event, count: int) {
    HasCapacityLimit(e.maxParticipants) && count >= e.maxParticipants.value
  }

  /** Event ids are pairwise distinct. */
  predicate UniqueIds(events: seq<Event>) {
    forall i, j :: 0 <= i < j < |events| ==> events[i].id != events[j].id
  }
}
