/** The public registration page of app/join-us/page.tsx: which fetched events are offered,
    whether the form or the closed message is shown, and what the submit handler reports. */
module JoinUs {
  import opened Wrappers
  import opened EventModel
  import Store
  import RegistrationsRoute
  import RegistrationForm
  import RegistrationModel

  /** `{ ...event, teamSize: event.teamSize || 1 }`: a falsy team size (absent or zero) reads
      as one. */
  function WithDefaultTeamSize(e: Event): (r: Event)
    ensures r.teamSize == (if e.teamSize == 0 then 1 else e.teamSize)
    ensures r.teamSize != 0
    ensures r.(teamSize := e.teamSize) == e
  {
    if e.teamSize == 0 then e.(teamSize := 1) else e
  }

  /** The `filter`/`map` of `fetchEvents`: the open events, in their fetched order, each with
      its team size defaulted. */
  function OpenEvents(events: seq<Event>): (r: seq<Event>)
    ensures |r| <= |events|
    ensures forall x :: x in r ==> x.isOpen && x.teamSize != 0
    ensures forall e :: e in events && e.isOpen ==> WithDefaultTeamSize(e) in r
    ensures forall x :: x in r ==> exists e :: e in events && e.isOpen && x == WithDefaultTeamSize(e)
  {
    if events == [] then []
    else if events[0].isOpen then [WithDefaultTeamSize(events[0])] + OpenEvents(events[1..])
    else OpenEvents(events[1..])
  }

  /** Filtering keeps relative order: the open events of a concatenation are those of each
      part, concatenated. */
  lemma {:induction false} OpenEventsAppend(a: seq<Event>, b: seq<Event>)
    ensures OpenEvents(a + b) == OpenEvents(a) + OpenEvents(b)
  {
    if a != [] {
      assert (a + b)[0] == a[0];
      assert (a + b)[1..] == a[1..] + b;
      OpenEventsAppend(a[1..], b);
    } else {
      assert a + b == b;
    }
  }

  /** Events served by the store already have a team size in 1..10, so the defaulting step
      changes none of them: every offered event is a stored open event, unaltered. */
  lemma {:induction false} OpenStoredEventsUnchanged(events: seq<Event>)
    requires forall e :: e in events ==> Store.StoredEventOk(e)
    ensures forall x :: x in OpenEvents(events) ==> x in events && x.isOpen
  {
    if events != [] {
      OpenStoredEventsUnchanged(events[1..]);
      assert events[0] in events;
    }
  }

  /** The list the page holds after `fetchEvents`: the open events when the fetch and parse
      succeeded, and the initial empty list otherwise. */
  function ShownEvents(fetched: Option<seq<Event>>): (r: seq<Event>)
    ensures fetched.None? ==> r == []
    ensures fetched.Some? ==> r == OpenEvents(fetched.value)
  {
    match fetched
    case None => []
    case Some(events) => OpenEvents(events)
  }

  datatype View = RegistrationFormView | ClosedMessageView

  /** `events.length > 0 ? <EventRegistrationForm/> : <ClosedRegistrationMessage/>`. */
  function ChooseView(shown: seq<Event>): View
  {
    if |shown| > 0 then RegistrationFormView else ClosedMessageView
  }

  /** The form is shown exactly when the fetch succeeded and some fetched event is open. */
  lemma FormShownIffSomeOpen(fetched: Option<seq<Event>>)
    ensures ChooseView(ShownEvents(fetched)) == RegistrationFormView <==>
      fetched.Some? && exists e :: e in fetched.value && e.isOpen
  {
    if fetched.Some? && exists e :: e in fetched.value && e.isOpen {
      var e :| e in fetched.value && e.isOpen;
      assert WithDefaultTeamSize(e) in ShownEvents(fetched);
    }
    var shown := ShownEvents(fetched);
    if |shown| > 0 {
      assert shown[0] in shown;
    }
  }

  /** What `fetch` followed by `response.json()` gives: a response with its ok flag and
      whether its body parsed, or a rejected promise. */
  datatype SubmitResponse = Responded(ok: bool, bodyParses: bool) | NetworkFailure

  /** `handleSubmit`'s result: true only for an ok response whose body parsed; every other
      outcome is caught and reported as false. */
  function SubmitSucceeded(resp: SubmitResponse): (r: bool)
    ensures r <==> resp.Responded? && resp.ok && resp.bodyParses
  {
    match resp
    case NetworkFailure => false
    case Responded(ok, parses) => if !parses then false else ok
  }

  /** The form hands `handleSubmit` its flat record, which has no `members` key, so the
      registrations route rejects every such body with 400 before any lookup. */
  lemma FlatFormDataRejected(events: seq<Event>, regs: seq<RegistrationModel.Registration>,
                             d: RegistrationForm.FormData)
    ensures RegistrationsRoute.Check(events, regs, RegistrationsRoute.Request(None, d.event))
      == RegistrationsRoute.Reject(400, RegistrationsRoute.MissingMessage)
    ensures !SubmitSucceeded(Responded(false, true))
  {
  }
}
