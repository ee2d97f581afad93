/** The registrations REST handler of app/api/admin/registrations/route.ts: admission of a team
    registration (`POST`) and the recent-registrations listing (`GET`). */
module RegistrationsRoute {
  import opened Wrappers
  import opened Text
  import opened Sorting
  import opened EventModel
  import opened RegistrationModel
  import opened Store

  /** A member as the request body carries it; an empty string stands for a missing field.
      `section` is checked by the handler but is not part of MemberSchema. */
  datatype MemberInput = MemberInput(
    name: string,
    registrationNumber: string,
    section: string,
    year: string,
    branch: string,
    officialEmail: string,
    phoneNumber: string)

  /** The request body. `members` is `None` when it is missing or not an array; `event` is the
      empty string when it is missing. */
  datatype Request = Request(members: Option<seq<MemberInput>>, event: EventId)

  /** The outcome of the admission checks: an error reply, or the members to store. */
  datatype Decision = Reject(status: nat, error: string) | Admit(members: seq<Member>)

  const MissingMessage := "Members array and event are required"
  const NotFoundMessage := "Event not found"
  const FieldsMessage := "All fields are required for each member"
  const DuplicateMessage := "One or more members have already registered for this event"
  const CreatedStatus: nat := 201
  /** `GET` returns at most this many registrations. */
  const ListLimit: nat := 100

  function IntToString(n: int): string
  {
    if n >= 0 then NatToString(n) else "-" + NatToString(-n)
  }

  function TeamSizeMessage(teamSize: int): string
  {
    "This event requires exactly " + IntToString(teamSize) + " members"
  }

  predicate HasAllFields(m: MemberInput)
  {
    m.name != "" && m.registrationNumber != "" && m.section != "" && m.year != ""
    && m.branch != "" && m.officialEmail != "" && m.phoneNumber != ""
  }

  /** The stored sub-document: the schema keeps six fields and drops `section`. */
  function ToMember(m: MemberInput): Member
  {
    Member(m.name, m.registrationNumber, m.year, m.branch, m.officialEmail, m.phoneNumber)
  }

  /** One condition of the duplicate query: a stored member matching an incoming one by
      registration number or by email. */
  predicate Clash(stored: Member, incoming: MemberInput)
  {
    stored.registrationNumber == incoming.registrationNumber || stored.officialEmail == incoming.officialEmail
  }

  /** The duplicate query `Registration.findOne({ event, $or: ... })` finds a document. */
  predicate AlreadyRegistered(regs: seq<Registration>, event: EventId, incoming: seq<MemberInput>)
  {
    exists r, s, m :: r in regs && r.event == event && s in r.members && m in incoming && Clash(s, m)
  }

  /** The checks of `POST`, in the handler's order; the first that fails gives the reply. */
  function Check(events: seq<Event>, regs: seq<Registration>, req: Request): (d: Decision)
    ensures req.members.None? || req.members.value == [] || req.event == "" ==> d == Reject(400, MissingMessage)
    ensures d == Reject(404, NotFoundMessage) <==>
      req.members.Some? && req.members.value != [] && req.event != "" && FindEvent(events, req.event).None?
    ensures d.Reject? ==> d.status == 400 || d.status == 404
    ensures d.Admit? ==>
      && req.members.Some? && req.event != ""
      && FindEvent(events, req.event).Some?
      && |req.members.value| == FindEvent(events, req.event).value.teamSize
    ensures d.Admit? ==> forall m :: m in req.members.value ==> HasAllFields(m)
    ensures d.Admit? ==>
      forall r, s, m :: r in regs && r.event == req.event && s in r.members && m in req.members.value ==>
        s.registrationNumber != m.registrationNumber && s.officialEmail != m.officialEmail
    ensures d.Admit? ==>
      && |d.members| == |req.members.value|
      && forall i :: 0 <= i < |d.members| ==> d.members[i] == ToMember(req.members.value[i])
    ensures req.members.Some? && req.members.value != [] && req.event != ""
      && FindEvent(events, req.event).Some?
      && |req.members.value| == FindEvent(events, req.event).value.teamSize
      && (forall m :: m in req.members.value ==> HasAllFields(m))
      && !AlreadyRegistered(regs, req.event, req.members.value)
      ==> d.Admit?
  {
    if req.members.None? || |req.members.value| == 0 || req.event == "" then
      Reject(400, MissingMessage)
    else
      var incoming := req.members.value;
      match FindEvent(events, req.event)
      case None => Reject(404, NotFoundMessage)
      case Some(e) =>
        if |incoming| != e.teamSize then Reject(400, TeamSizeMessage(e.teamSize))
        else if exists m :: m in incoming && !HasAllFields(m) then Reject(400, FieldsMessage)
        else if AlreadyRegistered(regs, req.event, incoming) then Reject(400, DuplicateMessage)
        else Admit(seq(|incoming|, i requires 0 <= i < |incoming| => ToMember(incoming[i])))
  }

  /** Registrations for other events never block a request. */
  lemma OtherEventsDoNotBlock(events: seq<Event>, regs: seq<Registration>, other: Registration, req: Request)
    requires other.event != req.event
    ensures Check(events, regs + [other], req) == Check(events, regs, req)
  {
    if req.members.Some? {
      var incoming := req.members.value;
      if AlreadyRegistered(regs + [other], req.event, incoming) {
        var r, s, m :| r in regs + [other] && r.event == req.event && s in r.members && m in incoming && Clash(s, m);
        assert r in regs;
      }
    }
  }

  /** An admitted registration keeps the store's no-shared-contact invariant. */
  lemma AdmitKeepsNoSharedContacts(events: seq<Event>, regs: seq<Registration>, req: Request, reg: Registration)
    requires NoSharedContacts(regs)
    requires Check(events, regs, req).Admit?
    requires reg.event == req.event && reg.members == Check(events, regs, req).members
    ensures NoSharedContacts(regs + [reg])
  {
    var incoming := req.members.value;
    var regs' := regs + [reg];
    forall i, j | 0 <= i < |regs'| && 0 <= j < |regs'| && i != j && regs'[i].event == regs'[j].event
      ensures NoSharedContact(regs'[i], regs'[j])
    {
      if i == |regs| || j == |regs| {
        var old_ := if i == |regs| then regs'[j] else regs'[i];
        assert old_ in regs;
        forall s, t | s in old_.members && t in reg.members
          ensures s.registrationNumber != t.registrationNumber && s.officialEmail != t.officialEmail
        {
          var k :| 0 <= k < |reg.members| && reg.members[k] == t;
          assert incoming[k] in incoming;
        }
      } else {
        assert regs'[i] == regs[i] && regs'[j] == regs[j];
      }
    }
  }

  /** Every admitted member passes MemberSchema, so saving the registration cannot fail. */
  lemma AdmittedMembersValid(events: seq<Event>, regs: seq<Registration>, req: Request)
    requires Check(events, regs, req).Admit?
    ensures var ms := Check(events, regs, req).members;
      |ms| >= 1 && req.event != "" && forall m :: m in ms ==> ValidMember(m)
  {
    var ms := Check(events, regs, req).members;
    forall m | m in ms
      ensures ValidMember(m)
    {
      var k :| 0 <= k < |ms| && ms[k] == m;
      assert req.members.value[k] in req.members.value;
    }
  }

  lemma AppendKeepsInvariant(events: seq<Event>, regs: seq<Registration>, reg: Registration)
    requires Invariant(events, regs)
    requires reg.id != "" && RegistrationModel.Valid(reg)
    requires forall r :: r in regs ==> r.id != reg.id
    requires NoSharedContacts(regs + [reg])
    ensures Invariant(events, regs + [reg])
  {
    var regs' := regs + [reg];
    forall i, j | 0 <= i < j < |regs'|
      ensures regs'[i].id != regs'[j].id
    {
      assert regs'[i] in regs;
    }
  }

  /** The `POST` handler: run the checks, and on success store exactly one new registration
      and reply 201 with it. `newId` is the id the database assigns and `now` the time. */
  method Post(db: Database, req: Request, newId: string, now: int) returns (reply: Reply<Registration>)
    requires db.Valid()
    requires newId != "" && forall r :: r in db.registrations ==> r.id != newId
    modifies db
    ensures db.Valid()
    ensures db.events == old(db.events)
    ensures match Check(old(db.events), old(db.registrations), req)
      case Reject(status, error) =>
        reply == Err(status, error) && db.registrations == old(db.registrations)
      case Admit(members) =>
        var reg := Registration(newId, members, req.event, now);
        reply == Ok(CreatedStatus, reg) && db.registrations == old(db.registrations) + [reg]
  {
    var d := Check(db.events, db.registrations, req);
    match d {
      case Reject(status, error) =>
        reply := Err(status, error);
      case Admit(members) =>
        AdmittedMembersValid(db.events, db.registrations, req);
        var created := RegistrationModel.Create(newId, members, req.event, now);
        var reg := created.value;
        AdmitKeepsNoSharedContacts(db.events, db.registrations, req, reg);
        AppendKeepsInvariant(db.events, db.registrations, reg);
        db.registrations := db.registrations + [reg];
        reply := Ok(CreatedStatus, reg);
    }
  }

  /** The `GET` handler: the newest registrations first (by `createdAt`), at most 100. */
  function Recent(regs: seq<Registration>): (r: seq<Registration>)
    ensures |r| == if |regs| < ListLimit then |regs| else ListLimit
    ensures multiset(r) <= multiset(regs)
    ensures forall i, j :: 0 <= i < j < |r| ==> r[i].createdAt >= r[j].createdAt
    ensures forall x, y :: x in multiset(regs) - multiset(r) && y in r ==> x.createdAt <= y.createdAt
  {
    var sorted := SortBy(regs, (x: Registration) => -x.createdAt);
    var k := if |regs| < ListLimit then |regs| else ListLimit;
    assert |sorted| == |regs| by {
      assert |multiset(sorted)| == |multiset(regs)|;
    }
    NewestPrefix(sorted, k);
    sorted[..k]
  }

  /** Cutting a newest-first sequence after `k` items leaves out nothing newer than what is kept. */
  lemma NewestPrefix(sorted: seq<Registration>, k: nat)
    requires k <= |sorted|
    requires SortedBy(sorted, (x: Registration) => -x.createdAt)
    ensures multiset(sorted[..k]) <= multiset(sorted)
    ensures forall i, j :: 0 <= i < j < k ==> sorted[..k][i].createdAt >= sorted[..k][j].createdAt
    ensures forall x, y :: x in multiset(sorted) - multiset(sorted[..k]) && y in sorted[..k] ==> x.createdAt <= y.createdAt
  {
    assert sorted == sorted[..k] + sorted[k..];
    assert multiset(sorted) == multiset(sorted[..k]) + multiset(sorted[k..]);
    forall i, j | 0 <= i < j < k
      ensures sorted[..k][i].createdAt >= sorted[..k][j].createdAt
    {
      assert -sorted[i].createdAt <= -sorted[j].createdAt;
    }
    forall x, y | x in multiset(sorted) - multiset(sorted[..k]) && y in sorted[..k]
      ensures x.createdAt <= y.createdAt
    {
      assert x in multiset(sorted[k..]);
      assert x in sorted[k..];
      var a :| k <= a < |sorted| && sorted[a] == x;
      var b :| 0 <= b < k && sorted[b] == y;
      assert -sorted[b].createdAt <= -sorted[a].createdAt;
    }
  }
}
