/** The Registration document of lib/models/Registration.ts: a team of members and the event
    it registers for. */
module RegistrationModel {
  import opened Wrappers
  import opened EventModel

  /** A member sub-document; an empty string stands for a missing field. */
  datatype Member = Member(
    name: string,
    registrationNumber: string,
    year: string,
    branch: string,
    officialEmail: string,
    phoneNumber: string)

  datatype Registration = Registration(id: string, members: seq<Member>, event: EventId, createdAt: int)

  /** MemberSchema: every one of the six fields is required (an empty string fails `required`). */
  predicate ValidMember(m: Member)
  {
    m.name != "" && m.registrationNumber != "" && m.year != "" && m.branch != ""
    && m.officialEmail != "" && m.phoneNumber != ""
  }

  /** RegistrationSchema: at least one member, every member valid, and an event reference. */
  predicate Valid(r: Registration)
  {
    |r.members| >= 1 && r.event != "" && forall m :: m in r.members ==> ValidMember(m)
  }

  /** Validating and saving a new document as `Registration.create` does; `createdAt`
      defaults to the creation time. `None` is a validation error. */
  function Create(id: string, members: seq<Member>, event: EventId, now: int): (r: Option<Registration>)
    ensures r.Some? <==> |members| >= 1 && event != "" && forall m :: m in members ==> ValidMember(m)
    ensures r.Some? ==> Valid(r.value)
    ensures r.Some? ==> r.value.id == id && r.value.members == members && r.value.event == event
    ensures r.Some? ==> r.value.createdAt == now
  {
    var r := Registration(id, members, event, now);
    if Valid(r) then Some(r) else None
  }
}
