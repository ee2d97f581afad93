/** The add-event dialog of components/AddEventForm.tsx: three input fields, the body it
    posts to the events API and the reset after a successful add. */
module AddEventForm {
  import opened Wrappers
  import opened Text
  import opened EventModel
  import EventsRoute

  /** The team sizes the select offers, as its string values. */
  const TeamSizeOptions: seq<string> := [NatToString(1), NatToString(2), NatToString(3), NatToString(4), NatToString(5)]

  /** The JSON body of the `POST`. `teamSize` is what `parseInt` gives once serialised: a
      number, or `null` for `NaN`. */
  datatype EventPayload = EventPayload(name: string, date: string, teamSize: EventsRoute.TeamSizeField, isOpen: bool)

  function Payload(eventName: string, eventDate: string, teamSize: string): (p: EventPayload)
    ensures p.name == eventName && p.date == eventDate && p.isOpen
    ensures p.teamSize.Number? <==> teamSize != [] && IsDigit(teamSize[0])
  {
    var size := match ParseInt(teamSize)
      case Some(n) => EventsRoute.Number(n)
      case None => EventsRoute.NotNumber;
    EventPayload(eventName, eventDate, size, true)
  }

  /** Every offered size reads as the number 1..5, which the route accepts (its bound is
      1..10). */
  lemma OptionsAccepted(k: nat)
    requires k < |TeamSizeOptions|
    ensures Payload("", "", TeamSizeOptions[k]).teamSize == EventsRoute.Number(k + 1)
    ensures EventsRoute.TeamSizeAcceptable(EventsRoute.Number(k + 1))
  {
    ParseIntOfNatToString(k + 1);
  }

  /** A payload built from a non-blank name, a chosen date and an offered size is created by
      the route: 201, open, with the chosen size. `date` is the route's reading of the date
      string. */
  lemma PayloadCreated(eventName: string, eventDate: string, k: nat, date: int, newId: EventId, now: int)
    requires !IsBlank(eventName) && eventDate != "" && k < |TeamSizeOptions|
    ensures var p := Payload(eventName, eventDate, TeamSizeOptions[k]);
      var r := EventsRoute.CreateOutcome(EventsRoute.CreateRequest(p.name, Some(date), p.teamSize), newId, now);
      r.Ok? && r.status == 201 && r.value.isOpen && r.value.teamSize == k + 1
  {
    OptionsAccepted(k);
    assert eventName != "" by {
      if eventName == "" {
        assert IsBlank(eventName);
      }
    }
  }

  /** What the request comes to: the created event from an ok response, a non-ok response,
      or a thrown error (network or body). */
  datatype SubmitReply = Created(event: Event) | NotOk | Threw

  class Form {
    var eventName: string
    var eventDate: string
    var teamSize: string

    /** The team size is always one of the offered values. */
    ghost predicate Valid()
      reads this
    {
      teamSize in TeamSizeOptions
    }

    constructor ()
      ensures eventName == "" && eventDate == "" && teamSize == "1"
      ensures Valid()
    {
      eventName := "";
      eventDate := "";
      teamSize := "1";
    }

    method SetEventName(v: string)
      modifies this
      ensures eventName == v && eventDate == old(eventDate) && teamSize == old(teamSize)
    {
      eventName := v;
    }

    method SetEventDate(v: string)
      modifies this
      ensures eventDate == v && eventName == old(eventName) && teamSize == old(teamSize)
    {
      eventDate := v;
    }

    /** `onValueChange` of the select, which only ever passes one of its options. */
    method SetTeamSize(v: string)
      requires v in TeamSizeOptions
      modifies this
      ensures teamSize == v && eventName == old(eventName) && eventDate == old(eventDate)
      ensures Valid()
    {
      teamSize := v;
    }

    /** `handleSubmit`: posts the payload; on a created event it hands that event to
        `onEventAdded` and resets the fields, otherwise nothing changes and nothing is
        handed on. */
    method HandleSubmit(reply: SubmitReply) returns (payload: EventPayload, added: Option<Event>)
      requires Valid()
      modifies this
      ensures payload == Payload(old(eventName), old(eventDate), old(teamSize))
      ensures added == if reply.Created? then Some(reply.event) else None
      ensures reply.Created? ==> eventName == "" && eventDate == "" && teamSize == "1"
      ensures !reply.Created? ==> eventName == old(eventName) && eventDate == old(eventDate) && teamSize == old(teamSize)
      ensures Valid()
    {
      payload := Payload(eventName, eventDate, teamSize);
      match reply
      case Created(e) =>
        added := Some(e);
        eventName := "";
        eventDate := "";
        teamSize := "1";
      case _ =>
        added := None;
    }
  }
}
