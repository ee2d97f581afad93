/** What the browser holds of the store: the event list served by the events API, and
    registrations whose event is either an id or, once populated, an embedded `{_id, name}`.
    Also the two list operations the admin pages share: resolving an event's display name
    and switching one event's `isOpen` flag. */
module ClientViews {
  import opened Wrappers
  import opened EventModel
  import Store
  import RegistrationModel

  /** `string | { _id: string; name: string }`. */
  datatype EventRef = ById(id: EventId) | Embedded(id: EventId, name: string)

  /** A registration as received from the registrations API. */
  datatype RegistrationView = RegistrationView(
    id: string,
    members: seq<RegistrationModel.Member>,
    event: EventRef,
    createdAt: int)

  /** `getEventName`: an id shows the name of the first listed event with that id when that
      name is non-empty (`event?.name || eventData`), and the raw id otherwise; an embedded
      event shows its own name. */
  function EventName(events: seq<Event>, ref: EventRef): (r: string)
    ensures ref.Embedded? ==> r == ref.name
    ensures ref.ById? ==> r == ref.id || (r != "" && exists e :: e in events && e.id == ref.id && e.name == r)
    ensures ref.ById? && (forall e :: e in events ==> e.id != ref.id) ==> r == ref.id
    ensures ref.ById? ==> forall k :: 0 <= k < |events| && events[k].id == ref.id && (forall j :: 0 <= j < k ==> events[j].id != ref.id) ==>
      r == (if events[k].name != "" then events[k].name else ref.id)
  {
    match ref
    case Embedded(_, name) => name
    case ById(id) =>
      assert forall k :: 0 <= k < |events| && events[k].id == id && (forall j :: 0 <= j < k ==> events[j].id != id) ==>
        Store.FindEvent(events, id) == Some(events[k]) by {
        forall k | 0 <= k < |events| && events[k].id == id && (forall j :: 0 <= j < k ==> events[j].id != id) {
          Store.FindEventFirst(events, id, k);
        }
      }
      match Store.FindEvent(events, id)
      case Some(e) => if e.name != "" then e.name else id
      case None => id
  }

  /** With unique ids, an id shows the name of the event stored under it, or the id itself
      when that name is empty. */
  lemma EventNameOfListedId(events: seq<Event>, i: nat)
    requires Store.UniqueEventIds(events) && i < |events|
    ensures EventName(events, ById(events[i].id)) == if events[i].name != "" then events[i].name else events[i].id
  {
    Store.IndexOfUniqueId(events, i);
  }

  /** `events.map(event => event._id === id ? { ...event, isOpen: open } : event)`. */
  function SetOpen(events: seq<Event>, id: EventId, open: bool): (r: seq<Event>)
    ensures |r| == |events|
    ensures forall k :: 0 <= k < |r| ==> r[k].(isOpen := events[k].isOpen) == events[k]
    ensures forall k :: 0 <= k < |r| ==> r[k].isOpen == (if events[k].id == id then open else events[k].isOpen)
  {
    seq(|events|, k requires 0 <= k < |events| =>
      if events[k].id == id then events[k].(isOpen := open) else events[k])
  }

  /** Switching back undoes a switch: when every event with the id had `isOpen == b`,
      setting it to `!b` and then to `b` gives the original list. */
  lemma SetOpenUndo(events: seq<Event>, id: EventId, b: bool)
    requires forall e :: e in events && e.id == id ==> e.isOpen == b
    ensures SetOpen(SetOpen(events, id, !b), id, b) == events
  {
    var r := SetOpen(SetOpen(events, id, !b), id, b);
    forall k | 0 <= k < |events|
      ensures r[k] == events[k]
    {
      assert events[k] in events;
    }
  }

  /** Switching leaves ids, and so their uniqueness, untouched. */
  lemma SetOpenKeepsIds(events: seq<Event>, id: EventId, open: bool)
    ensures forall k :: 0 <= k < |events| ==> SetOpen(events, id, open)[k].id == events[k].id
    ensures Store.UniqueEventIds(events) ==> Store.UniqueEventIds(SetOpen(events, id, open))
  {
    var r := SetOpen(events, id, open);
    forall k | 0 <= k < |events|
      ensures r[k].id == events[k].id
    {
      assert r[k].(isOpen := events[k].isOpen) == events[k];
    }
  }

  /** The noun after a team size: singular exactly for one. */
  function MemberNoun(teamSize: int): (r: string)
    ensures r == "member" <==> teamSize == 1
    ensures r == "members" <==> teamSize != 1
  {
    if teamSize == 1 then "member" else "members"
  }
}
