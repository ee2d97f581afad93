/** The Event document of lib/models/Event.ts: field constraints, defaults and timestamps. */
module EventModel {
  import opened Wrappers
  import opened Text

  /** Document ids are opaque strings; the empty string stands for a missing (falsy) id. */
  type EventId = string

  /** A stored event. `date` is the event date as an opaque timestamp; `createdAt` and
      `updatedAt` are the schema's automatic timestamps. */
  datatype Event = Event(
    id: EventId,
    name: string,
    date: int,
    isOpen: bool,
    teamSize: int,
    createdAt: int,
    updatedAt: int)

  const DefaultTeamSize: int := 1
  const MinTeamSize: int := 1
  const MaxTeamSize: int := 10

  predicate TeamSizeInRange(n: int)
  {
    MinTeamSize <= n <= MaxTeamSize
  }

  /** The schema's constraints on a saved event: a required, trimmed name and a team size
      within the schema's bounds. */
  predicate Valid(e: Event)
  {
    e.name != "" && IsTrimmed(e.name) && TeamSizeInRange(e.teamSize)
  }

  /** Casting and validating a new document as `Event.create` does: the name is trimmed
      before the `required` check, `isOpen` defaults to true, `teamSize` to 1, and both
      timestamps are set to the creation time. `None` is a validation error. */
  function Create(id: EventId, name: string, date: Option<int>, isOpen: Option<bool>,
                  teamSize: Option<int>, now: int): (r: Option<Event>)
    ensures r.Some? <==> Trim(name) != "" && date.Some? && TeamSizeInRange(teamSize.GetOr(DefaultTeamSize))
    ensures r.Some? ==> Valid(r.value)
    ensures r.Some? ==> r.value.id == id && r.value.name == Trim(name) && r.value.date == date.value
    ensures r.Some? ==> r.value.isOpen == (isOpen != Some(false))
    ensures r.Some? ==> r.value.teamSize == (if teamSize.Some? then teamSize.value else 1)
    ensures r.Some? ==> r.value.createdAt == now && r.value.updatedAt == now
  {
    var n := Trim(name);
    var size := teamSize.GetOr(DefaultTeamSize);
    if n == [] || date.None? || !TeamSizeInRange(size) then None
    else Some(Event(id, n, date.value, isOpen.GetOr(true), size, now, now))
  }
}
