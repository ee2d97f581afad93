/** The spreadsheet export of app/api/admin/export/route.ts, up to the rows handed to the
    spreadsheet library: one row per team registration, with the team's id, event name and
    size and six columns per member. */
module Export {
  import opened Text
  import opened EventModel
  import opened ClientViews
  import RegistrationModel

  /** A cell: text, or the team size as a number. */
  datatype Cell = TextCell(text: string) | NumberCell(number: nat)

  /** A row as an object from column title to cell (the column order of the sheet is not
      part of this model). */
  type Row = map<string, Cell>

  const TeamIdColumn := "Team ID"
  const EventColumn := "Event"
  const TeamSizeColumn := "Team Size"

  /** The six per-member columns, in the order they are written. */
  datatype Field = Name | RegNumber | Email | Phone | Year | Branch

  /** The column-title suffix of a field. */
  function Title(f: Field): string
  {
    match f
    case Name => "Name"
    case RegNumber => "Reg Number"
    case Email => "Email"
    case Phone => "Phone"
    case Year => "Year"
    case Branch => "Branch"
  }

  /** The value a member contributes under a field. */
  function FieldValue(m: RegistrationModel.Member, f: Field): string
  {
    match f
    case Name => m.name
    case RegNumber => m.registrationNumber
    case Email => m.officialEmail
    case Phone => m.phoneNumber
    case Year => m.year
    case Branch => m.branch
  }

  /** The column title `Member ${memberNum} ${field}`. */
  function MemberKey(memberNum: nat, f: Field): string
  {
    "Member " + (NatToString(memberNum) + (" " + Title(f)))
  }

  predicate IsMemberKey(key: string)
  {
    |key| >= 7 && key[..7] == "Member "
  }

  /** The six assignments of one `forEach` step. */
  function AddMember(acc: Row, memberNum: nat, m: RegistrationModel.Member): Row
  {
    acc[MemberKey(memberNum, Name) := TextCell(m.name)]
       [MemberKey(memberNum, RegNumber) := TextCell(m.registrationNumber)]
       [MemberKey(memberNum, Email) := TextCell(m.officialEmail)]
       [MemberKey(memberNum, Phone) := TextCell(m.phoneNumber)]
       [MemberKey(memberNum, Year) := TextCell(m.year)]
       [MemberKey(memberNum, Branch) := TextCell(m.branch)]
  }

  /** The `memberData` object once the members have been visited in order, the i-th (from 1)
      under number i. */
  function MemberColumns(members: seq<RegistrationModel.Member>): Row
  {
    if members == [] then map[]
    else AddMember(MemberColumns(members[..|members| - 1]), |members|, members[|members| - 1])
  }

  /** The `forEach` that fills `memberData`. */
  method FillMemberColumns(members: seq<RegistrationModel.Member>) returns (memberData: Row)
    ensures memberData == MemberColumns(members)
  {
    memberData := map[];
    for index := 0 to |members|
      invariant memberData == MemberColumns(members[..index])
    {
      var member := members[index];
      var memberNum := index + 1;
      memberData := memberData[MemberKey(memberNum, Name) := TextCell(member.name)];
      memberData := memberData[MemberKey(memberNum, RegNumber) := TextCell(member.registrationNumber)];
      memberData := memberData[MemberKey(memberNum, Email) := TextCell(member.officialEmail)];
      memberData := memberData[MemberKey(memberNum, Phone) := TextCell(member.phoneNumber)];
      memberData := memberData[MemberKey(memberNum, Year) := TextCell(member.year)];
      memberData := memberData[MemberKey(memberNum, Branch) := TextCell(member.branch)];
      assert members[..index + 1][..index] == members[..index];
    }
    assert members[..|members|] == members;
  }

  lemma ShorterDigitsDiffer(a: string, b: string, x: string, y: string)
    requires AllDigits(b)
    ensures |a| < |b| ==> a + (" " + x) != b + (" " + y)
  {
    if |a| < |b| {
      assert (a + (" " + x))[|a|] == ' ';
      assert (b + (" " + y))[|a|] == b[|a|];
    }
  }

  /** Digits hold no space, so `a + " " + x` determines where `a` ends. */
  lemma SplitAfterDigits(a: string, b: string, x: string, y: string)
    requires AllDigits(a) && AllDigits(b)
    requires a + (" " + x) == b + (" " + y)
    ensures a == b && x == y
  {
    var u := a + (" " + x);
    var v := b + (" " + y);
    ShorterDigitsDiffer(a, b, x, y);
    ShorterDigitsDiffer(b, a, y, x);
    assert a == u[..|a|] && b == v[..|b|];
    assert x == u[|a| + 1..] && y == v[|b| + 1..];
  }

  lemma TitleInjective(f: Field, g: Field)
    requires Title(f) == Title(g)
    ensures f == g
  {
  }

  /** Different (member, field) pairs get different column titles. */
  lemma MemberKeyInjective(i: nat, j: nat, f: Field, g: Field)
    requires MemberKey(i, f) == MemberKey(j, g)
    ensures i == j && f == g
  {
    var u := NatToString(i) + (" " + Title(f));
    var v := NatToString(j) + (" " + Title(g));
    assert u == MemberKey(i, f)[7..];
    assert v == MemberKey(j, g)[7..];
    SplitAfterDigits(NatToString(i), NatToString(j), Title(f), Title(g));
    NatToStringInjective(i, j);
    TitleInjective(f, g);
  }

  lemma MemberKeyIsMemberKey(n: nat, f: Field)
    ensures IsMemberKey(MemberKey(n, f))
  {
    assert MemberKey(n, f)[..7] == "Member ";
  }

  /** One step adds exactly the six titles of its member, each holding that member's value,
      and keeps every other entry. */
  lemma AddMemberLookup(acc: Row, n: nat, m: RegistrationModel.Member, i: nat, f: Field)
    ensures MemberKey(i, f) in AddMember(acc, n, m) <==> MemberKey(i, f) in acc || i == n
    ensures i == n ==> AddMember(acc, n, m)[MemberKey(i, f)] == TextCell(FieldValue(m, f))
    ensures i != n && MemberKey(i, f) in acc ==> AddMember(acc, n, m)[MemberKey(i, f)] == acc[MemberKey(i, f)]
  {
    forall g: Field
      ensures MemberKey(i, f) == MemberKey(n, g) ==> i == n && f == g
    {
      if MemberKey(i, f) == MemberKey(n, g) {
        MemberKeyInjective(i, n, f, g);
      }
    }
  }

  /** Columns for member i exist exactly when 1 <= i <= the team size, and hold that
      member's values. */
  lemma {:induction false} MemberColumnsLookup(members: seq<RegistrationModel.Member>, i: nat, f: Field)
    ensures MemberKey(i, f) in MemberColumns(members) <==> 1 <= i <= |members|
    ensures 1 <= i <= |members| ==> MemberColumns(members)[MemberKey(i, f)] == TextCell(FieldValue(members[i - 1], f))
  {
    if members != [] {
      var init := members[..|members| - 1];
      MemberColumnsLookup(init, i, f);
      AddMemberLookup(MemberColumns(init), |members|, members[|members| - 1], i, f);
    }
  }

  /** Every member column is the title of one of the six fields of a member numbered
      1..|members|; so every such title starts with "Member ". */
  lemma {:induction false} MemberColumnsKeys(members: seq<RegistrationModel.Member>)
    ensures forall key :: key in MemberColumns(members) ==>
      exists i, f :: 1 <= i <= |members| && key == MemberKey(i, f)
    ensures forall key :: key in MemberColumns(members) ==> IsMemberKey(key)
  {
    if members != [] {
      var n := |members|;
      MemberColumnsKeys(members[..n - 1]);
      forall key | key in MemberColumns(members)
        ensures exists i, f :: 1 <= i <= n && key == MemberKey(i, f)
      {
        if key !in MemberColumns(members[..n - 1]) {
          var f := if key == MemberKey(n, Name) then Name
            else if key == MemberKey(n, RegNumber) then RegNumber
            else if key == MemberKey(n, Email) then Email
            else if key == MemberKey(n, Phone) then Phone
            else if key == MemberKey(n, Year) then Year
            else Branch;
          assert key == MemberKey(n, f);
        }
      }
      MemberKeyIsMemberKey(n, Name);
      MemberKeyIsMemberKey(n, RegNumber);
      MemberKeyIsMemberKey(n, Email);
      MemberKeyIsMemberKey(n, Phone);
      MemberKeyIsMemberKey(n, Year);
      MemberKeyIsMemberKey(n, Branch);
    }
  }

  lemma BaseColumnIsNotMemberKey()
    ensures !IsMemberKey(TeamIdColumn) && !IsMemberKey(EventColumn) && !IsMemberKey(TeamSizeColumn)
  {
    assert TeamIdColumn[..7][0] == 'T';
    assert TeamSizeColumn[..7][0] == 'T';
  }

  /** So the member columns never overwrite the base columns. */
  lemma BaseColumnsNotMemberColumns(members: seq<RegistrationModel.Member>)
    ensures TeamIdColumn !in MemberColumns(members)
    ensures EventColumn !in MemberColumns(members)
    ensures TeamSizeColumn !in MemberColumns(members)
  {
    MemberColumnsKeys(members);
    BaseColumnIsNotMemberKey();
  }

  /** `{ ...baseData, ...memberData }` for one registration (without 'Registration Date'). */
  function ExportRow(events: seq<Event>, reg: RegistrationView): (row: Row)
    ensures TeamIdColumn in row && row[TeamIdColumn] == TextCell(reg.id)
    ensures EventColumn in row && row[EventColumn] == TextCell(EventName(events, reg.event))
    ensures TeamSizeColumn in row && row[TeamSizeColumn] == NumberCell(|reg.members|)
    ensures forall key :: key in row ==>
      key == TeamIdColumn || key == EventColumn || key == TeamSizeColumn ||
      exists i, f :: 1 <= i <= |reg.members| && key == MemberKey(i, f)
  {
    BaseColumnsNotMemberColumns(reg.members);
    MemberColumnsKeys(reg.members);
    var base := map[TeamIdColumn := TextCell(reg.id),
                    EventColumn := TextCell(EventName(events, reg.event)),
                    TeamSizeColumn := NumberCell(|reg.members|)];
    base + MemberColumns(reg.members)
  }

  /** In a row, the columns of member i exist exactly for 1 <= i <= the team size and hold
      that member's values. */
  lemma ExportRowMemberColumns(events: seq<Event>, reg: RegistrationView, i: nat, f: Field)
    ensures MemberKey(i, f) in ExportRow(events, reg) <==> 1 <= i <= |reg.members|
    ensures 1 <= i <= |reg.members| ==>
      ExportRow(events, reg)[MemberKey(i, f)] == TextCell(FieldValue(reg.members[i - 1], f))
  {
    MemberColumnsLookup(reg.members, i, f);
    MemberKeyIsMemberKey(i, f);
    BaseColumnIsNotMemberKey();
  }

  /** The `registrations.map` callback. */
  method TransformRegistration(events: seq<Event>, reg: RegistrationView) returns (row: Row)
    ensures row == ExportRow(events, reg)
  {
    var baseData := map[TeamIdColumn := TextCell(reg.id),
                        EventColumn := TextCell(EventName(events, reg.event)),
                        TeamSizeColumn := NumberCell(|reg.members|)];
    var memberData := FillMemberColumns(reg.members);
    row := baseData + memberData;
  }

  /** `registrations.map(...)`: one row per registration, in the same order, each carrying
      that registration's id. */
  function ExportRows(events: seq<Event>, regs: seq<RegistrationView>): (rows: seq<Row>)
    ensures |rows| == |regs|
    ensures forall i :: 0 <= i < |regs| ==> TeamIdColumn in rows[i] && rows[i][TeamIdColumn] == TextCell(regs[i].id)
    ensures forall i :: 0 <= i < |regs| ==> rows[i] == ExportRow(events, regs[i])
  {
    seq(|regs|, i requires 0 <= i < |regs| => ExportRow(events, regs[i]))
  }
}
