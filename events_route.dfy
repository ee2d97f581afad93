/** The events REST handler of app/api/admin/events/route.ts: listing (`GET`), creation
    (`POST`), update (`PUT`) and removal (`DELETE`) of events. */
module EventsRoute {
  import opened Wrappers
  import opened Text
  import opened Sorting
  import opened EventModel
  import opened Store
  import RegistrationModel

  /** The `teamSize` field of a request body: missing, a number, or some other JSON value
      (a string, `null`, ...). */
  datatype TeamSizeField = Absent | Number(n: int) | NotNumber

  /** The `POST` body. An empty `name` stands for a missing or empty one; `date` is `None`
      when missing or empty. */
  datatype CreateRequest = CreateRequest(name: string, date: Option<int>, teamSize: TeamSizeField)

  /** The `PUT` body: the id, and the fields to change (`None` / `Absent` when not sent). */
  datatype UpdateRequest = UpdateRequest(
    id: EventId,
    name: Option<string>,
    date: Option<int>,
    isOpen: Option<bool>,
    teamSize: TeamSizeField)

  const NameDateMessage := "Name and date are required"
  const TeamSizeMessage := "Team size must be a number between 1 and 10"
  const IdMessage := "Event ID is required"
  const NotFoundMessage := "Event not found"
  const ServerErrorMessage := "Internal server error"
  const DeletedMessage := "Event deleted successfully"

  /** The team-size check of `POST` and `PUT`: absent, or a number within 1..10. */
  predicate TeamSizeAcceptable(t: TeamSizeField)
  {
    t.Absent? || (t.Number? && TeamSizeInRange(t.n))
  }

  /** The `GET` handler: every event, by ascending date. */
  function List(events: seq<Event>): (r: seq<Event>)
    ensures multiset(r) == multiset(events)
    ensures forall i, j :: 0 <= i < j < |r| ==> r[i].date <= r[j].date
  {
    SortBy(events, (e: Event) => e.date)
  }

  /** The reply of `POST`. The route checks the raw name; the schema trims it before its own
      `required` check, so a name of white space only fails on save and the handler's
      catch-all replies 500. */
  function CreateOutcome(req: CreateRequest, newId: EventId, now: int): (r: Reply<Event>)
    ensures req.name == "" || req.date.None? ==> r == Err(400, NameDateMessage)
    ensures req.name != "" && req.date.Some? && !TeamSizeAcceptable(req.teamSize) ==> r == Err(400, TeamSizeMessage)
    ensures req.name != "" && req.date.Some? && TeamSizeAcceptable(req.teamSize) && IsBlank(req.name) ==>
      r == Err(500, ServerErrorMessage)
    ensures r.Ok? <==> req.name != "" && req.date.Some? && TeamSizeAcceptable(req.teamSize) && !IsBlank(req.name)
    ensures r.Ok? ==>
      && r.status == 201 && EventModel.Valid(r.value) && r.value.id == newId
      && r.value.isOpen
      && r.value.name == Trim(req.name) && r.value.date == req.date.value
      && r.value.teamSize == (if req.teamSize.Number? then req.teamSize.n else DefaultTeamSize)
      && r.value.createdAt == now && r.value.updatedAt == now
  {
    TrimEmptyIffBlank(req.name);
    if req.name == "" || req.date.None? then Err(400, NameDateMessage)
    else if !TeamSizeAcceptable(req.teamSize) then Err(400, TeamSizeMessage)
    else
      var size := if req.teamSize.Number? then req.teamSize.n else DefaultTeamSize;
      match EventModel.Create(newId, req.name, req.date, Some(true), Some(size), now)
      case None => Err(500, ServerErrorMessage)
      case Some(e) => Ok(201, e)
  }

  /** `findByIdAndUpdate` with `{ ...updateData }`: the fields sent replace the stored ones
      (names trimmed by the schema's setter), the timestamp `updatedAt` moves to `now`, and
      nothing else changes. */
  function ApplyUpdate(e: Event, u: UpdateRequest, now: int): (r: Event)
    ensures r.id == e.id && r.createdAt == e.createdAt && r.updatedAt == now
    ensures r.name == if u.name.Some? then Trim(u.name.value) else e.name
    ensures r.date == u.date.GetOr(e.date)
    ensures r.isOpen == u.isOpen.GetOr(e.isOpen)
    ensures r.teamSize == if u.teamSize.Number? then u.teamSize.n else e.teamSize
  {
    e.(name := if u.name.Some? then Trim(u.name.value) else e.name,
       date := u.date.GetOr(e.date),
       isOpen := u.isOpen.GetOr(e.isOpen),
       teamSize := if u.teamSize.Number? then u.teamSize.n else e.teamSize,
       updatedAt := now)
  }

  /** The reply of `PUT`: 400 without an id or with a bad team size, 404 for an unknown id,
      otherwise the updated event. */
  function UpdateOutcome(events: seq<Event>, u: UpdateRequest, now: int): (r: Reply<Event>)
    ensures u.id == "" ==> r == Err(400, IdMessage)
    ensures u.id != "" && !TeamSizeAcceptable(u.teamSize) ==> r == Err(400, TeamSizeMessage)
    ensures u.id != "" && TeamSizeAcceptable(u.teamSize) && FindEvent(events, u.id).None? ==> r == Err(404, NotFoundMessage)
    ensures r.Ok? <==> u.id != "" && TeamSizeAcceptable(u.teamSize) && FindEvent(events, u.id).Some?
    ensures r.Ok? ==> r.status == 200 && r.value == ApplyUpdate(FindEvent(events, u.id).value, u, now)
  {
    if u.id == "" then Err(400, IdMessage)
    else if !TeamSizeAcceptable(u.teamSize) then Err(400, TeamSizeMessage)
    else match FindEvent(events, u.id)
      case None => Err(404, NotFoundMessage)
      case Some(e) => Ok(200, ApplyUpdate(e, u, now))
  }

  /** An accepted update keeps a stored event well-formed. */
  lemma UpdateKeepsStoredEventOk(e: Event, u: UpdateRequest, now: int)
    requires StoredEventOk(e) && TeamSizeAcceptable(u.teamSize)
    ensures StoredEventOk(ApplyUpdate(e, u, now))
  {
  }

  /** The `POST` handler: on success the new event is appended; on any error the store is
      unchanged. `newId` is the id the database assigns and `now` the time. */
  method Post(db: Database, req: CreateRequest, newId: EventId, now: int) returns (reply: Reply<Event>)
    requires db.Valid()
    requires newId != "" && forall e :: e in db.events ==> e.id != newId
    modifies db
    ensures db.Valid()
    ensures reply == CreateOutcome(req, newId, now)
    ensures db.events == if reply.Ok? then old(db.events) + [reply.value] else old(db.events)
    ensures db.registrations == old(db.registrations)
  {
    reply := CreateOutcome(req, newId, now);
    if reply.Ok? {
      var events' := db.events + [reply.value];
      forall i, j | 0 <= i < j < |events'|
        ensures events'[i].id != events'[j].id
      {
        assert events'[i] in db.events;
      }
      db.events := events';
    }
  }

  /** The `PUT` handler: on success exactly the event with the given id is replaced by its
      updated version; on any error the store is unchanged. */
  method Put(db: Database, u: UpdateRequest, now: int) returns (reply: Reply<Event>)
    requires db.Valid()
    modifies db
    ensures db.Valid()
    ensures reply == UpdateOutcome(old(db.events), u, now)
    ensures reply.Err? ==> db.events == old(db.events)
    ensures reply.Ok? ==>
      var i := IndexOfEvent(old(db.events), u.id).value;
      db.events == old(db.events)[i := reply.value]
    ensures db.registrations == old(db.registrations)
  {
    reply := UpdateOutcome(db.events, u, now);
    if reply.Ok? {
      var i := IndexOfEvent(db.events, u.id).value;
      UpdateKeepsStoredEventOk(db.events[i], u, now);
      var events' := db.events[i := reply.value];
      forall e | e in events'
        ensures StoredEventOk(e)
      {
        var k :| 0 <= k < |events'| && events'[k] == e;
        if k != i {
          assert db.events[k] in db.events;
        }
      }
      db.events := events';
    }
  }

  /** Removing the event at position `i` keeps the store invariant and, ids being unique,
      leaves no event with that id. */
  lemma RemoveKeepsInvariant(events: seq<Event>, regs: seq<RegistrationModel.Registration>, i: nat)
    requires Invariant(events, regs) && i < |events|
    ensures Invariant(events[..i] + events[i + 1..], regs)
    ensures forall e :: e in events[..i] + events[i + 1..] ==> e.id != events[i].id
  {
    var events' := events[..i] + events[i + 1..];
    assert forall k :: 0 <= k < i ==> events'[k] == events[k];
    assert forall k :: i <= k < |events'| ==> events'[k] == events[k + 1];
    forall e | e in events'
      ensures e.id != events[i].id && e in events
    {
      var k :| 0 <= k < |events'| && events'[k] == e;
      if k < i {
        assert e == events[k];
      } else {
        assert e == events[k + 1];
      }
    }
    forall a, b | 0 <= a < b < |events'|
      ensures events'[a].id != events'[b].id
    {
      if b < i {
        assert events'[a] == events[a] && events'[b] == events[b];
      } else if a < i {
        assert events'[a] == events[a] && events'[b] == events[b + 1];
      } else {
        assert events'[a] == events[a + 1] && events'[b] == events[b + 1];
      }
    }
    assert UniqueEventIds(events');
    assert forall e :: e in events' ==> StoredEventOk(e);
  }

  /** The `DELETE` handler: 400 without an id, 404 for an unknown id, otherwise exactly the
      event with that id is removed. */
  method Delete(db: Database, id: EventId) returns (reply: Reply<string>)
    requires db.Valid()
    modifies db
    ensures db.Valid()
    ensures id == "" ==> reply == Err(400, IdMessage) && db.events == old(db.events)
    ensures id != "" && FindEvent(old(db.events), id).None? ==> reply == Err(404, NotFoundMessage) && db.events == old(db.events)
    ensures id != "" && FindEvent(old(db.events), id).Some? ==>
      && reply == Ok(200, DeletedMessage)
      && var i := IndexOfEvent(old(db.events), id).value;
        db.events == old(db.events)[..i] + old(db.events)[i + 1..]
    ensures forall e :: e in db.events ==> e.id != id
    ensures db.registrations == old(db.registrations)
  {
    if id == "" {
      reply := Err(400, IdMessage);
      return;
    }
    match IndexOfEvent(db.events, id) {
      case None =>
        reply := Err(404, NotFoundMessage);
      case Some(i) =>
        RemoveKeepsInvariant(db.events, db.registrations, i);
        var events' := db.events[..i] + db.events[i + 1..];
        db.events := events';
        reply := Ok(200, DeletedMessage);
    }
  }
}
