/** The admin events page of app/admin/events/page.tsx: the event list it shows, the
    open/close switch and the append after an event is added. */
module AdminEvents {
  import opened EventModel
  import opened ClientViews
  import Store

  /** What a table row shows for an event besides its name and date. */
  datatype Row = Row(teamSizeNoun: string, status: string, action: string)

  function RowOf(e: Event): (r: Row)
    ensures r.status == (if e.isOpen then "Open" else "Closed")
    ensures r.action == (if e.isOpen then "Close Registration" else "Open Registration")
    ensures r.teamSizeNoun == "member" <==> e.teamSize == 1
  {
    Row(MemberNoun(e.teamSize), if e.isOpen then "Open" else "Closed",
        if e.isOpen then "Close Registration" else "Open Registration")
  }

  class EventsPage {
    var events: seq<Event>

    constructor ()
      ensures events == []
    {
      events := [];
    }

    /** `setEvents(data.events)` after a successful fetch. */
    method EventsLoaded(fetched: seq<Event>)
      modifies this
      ensures events == fetched
    {
      events := fetched;
    }

    /** `toggleEventRegistration(eventId, isOpen)`: only after an ok response do the events
        with that id get `isOpen := !isOpen`; a failed request changes nothing. */
    method ToggleEventRegistration(eventId: EventId, isOpen: bool, responseOk: bool)
      modifies this
      ensures events == if responseOk then SetOpen(old(events), eventId, !isOpen) else old(events)
      ensures |events| == |old(events)|
      ensures Store.UniqueEventIds(old(events)) ==> Store.UniqueEventIds(events)
    {
      SetOpenKeepsIds(events, eventId, !isOpen);
      if responseOk {
        events := SetOpen(events, eventId, !isOpen);
      }
    }

    /** `handleEventAdded`: the new event goes after the existing ones. */
    method HandleEventAdded(e: Event)
      modifies this
      ensures events == old(events) + [e]
    {
      events := events + [e];
    }
  }

  /** Two successful clicks on the same row, each passing the flag the row shows, restore
      the list. */
  lemma ToggleTwiceRestores(events: seq<Event>, i: nat)
    requires Store.UniqueEventIds(events) && i < |events|
    ensures var once := SetOpen(events, events[i].id, !events[i].isOpen);
      SetOpen(once, events[i].id, !once[i].isOpen) == events
  {
    var id := events[i].id;
    forall e | e in events && e.id == id
      ensures e.isOpen == events[i].isOpen
    {
      var k :| 0 <= k < |events| && events[k] == e;
    }
    SetOpenUndo(events, id, events[i].isOpen);
  }
}
