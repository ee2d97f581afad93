/** The document database behind the REST handlers: the Event and Registration collections,
    held in memory, and the invariant every handler keeps. */
module Store {
  import opened Wrappers
  import opened Text
  import opened EventModel
  import opened RegistrationModel

  /** What every stored event satisfies whichever handler wrote it last: a trimmed name and a
      team size in 1..10. (Updates do not run the schema's `required` validator, so a stored
      name may be empty.) */
  predicate StoredEventOk(e: Event)
  {
    e.id != "" && IsTrimmed(e.name) && TeamSizeInRange(e.teamSize)
  }

  predicate UniqueEventIds(events: seq<Event>)
  {
    forall i, j :: 0 <= i < j < |events| ==> events[i].id != events[j].id
  }

  predicate UniqueRegistrationIds(regs: seq<Registration>)
  {
    forall i, j :: 0 <= i < j < |regs| ==> regs[i].id != regs[j].id
  }

  /** The position of the first event with the given id, if any. */
  function IndexOfEvent(events: seq<Event>, id: EventId): (r: Option<nat>)
    ensures r.Some? ==> r.value < |events| && events[r.value].id == id
    ensures r.Some? ==> forall k :: 0 <= k < r.value ==> events[k].id != id
    ensures r.None? <==> forall e :: e in events ==> e.id != id
  {
    if events == [] then None
    else if events[0].id == id then Some(0)
    else match IndexOfEvent(events[1..], id)
      case None => None
      case Some(k) => Some(k + 1)
  }

  /** `Event.findById`: the event stored under the given id, if any. */
  function FindEvent(events: seq<Event>, id: EventId): (r: Option<Event>)
    ensures r.Some? ==> r.value in events && r.value.id == id
    ensures r.None? <==> forall e :: e in events ==> e.id != id
  {
    match IndexOfEvent(events, id)
    case None => None
    case Some(i) => Some(events[i])
  }

  /** `findById` and `find` return the first event with the id. */
  lemma FindEventFirst(events: seq<Event>, id: EventId, k: nat)
    requires k < |events| && events[k].id == id
    requires forall j :: 0 <= j < k ==> events[j].id != id
    ensures FindEvent(events, id) == Some(events[k])
  {
    var r := IndexOfEvent(events, id);
    assert events[k] in events;
    assert r.Some? && r.value == k;
  }

  /** With unique ids, an id is found exactly at the position that holds it. */
  lemma IndexOfUniqueId(events: seq<Event>, i: nat)
    requires UniqueEventIds(events) && i < |events|
    ensures IndexOfEvent(events, events[i].id) == Some(i)
    ensures FindEvent(events, events[i].id) == Some(events[i])
  {
  }

  /** No member of `a` shares a registration number or an email with a member of `b`. */
  predicate NoSharedContact(a: Registration, b: Registration)
  {
    forall m, n :: m in a.members && n in b.members ==>
      m.registrationNumber != n.registrationNumber && m.officialEmail != n.officialEmail
  }

  /** Within one event, no registration number or email appears in two different
      registrations. (Two members of one registration may still share them.) */
  predicate NoSharedContacts(regs: seq<Registration>)
  {
    forall i, j :: 0 <= i < |regs| && 0 <= j < |regs| && i != j && regs[i].event == regs[j].event ==>
      NoSharedContact(regs[i], regs[j])
  }

  predicate Invariant(events: seq<Event>, regs: seq<Registration>)
  {
    && UniqueEventIds(events)
    && (forall e :: e in events ==> StoredEventOk(e))
    && UniqueRegistrationIds(regs)
    && (forall r :: r in regs ==> r.id != "" && RegistrationModel.Valid(r))
    && NoSharedContacts(regs)
  }

  class Database {
    var events: seq<Event>
    var registrations: seq<Registration>

    ghost predicate Valid()
      reads this
    {
      Invariant(events, registrations)
    }

    constructor ()
      ensures Valid()
      ensures events == [] && registrations == []
    {
      events := [];
      registrations := [];
    }
  }
}
