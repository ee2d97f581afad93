/** The admin dashboard of app/admin/dashboard/page.tsx: the per-event registration count,
    the ten-per-page registrations table with its Previous/Next controls, and the event list
    the page toggles and appends to. */
module Dashboard {
  import opened Wrappers
  import opened EventModel
  import opened ClientViews
  import Store

  const ItemsPerPage: int := 10

  function Min(a: int, b: int): int { if a < b then a else b }
  function Max(a: int, b: int): int { if a < b then b else a }

  // ---------------------------------------------------------------------------------------
  // Statistics

  /** `eventMap[id]` after the `reduce` that stores every event under its id: a later event
      with the same id overwrites an earlier one, so this is the last one. */
  function LastWithId(events: seq<Event>, id: EventId): (r: Option<Event>)
    ensures r.Some? ==> r.value in events && r.value.id == id
    ensures r.None? <==> forall e :: e in events ==> e.id != id
    ensures r.Some? ==> exists k :: 0 <= k < |events| && events[k] == r.value && forall j :: k < j < |events| ==> events[j].id != id
  {
    if events == [] then None
    else if events[|events| - 1].id == id then Some(events[|events| - 1])
    else LastWithId(events[..|events| - 1], id)
  }

  /** The key the count fold files a registration under: `eventMap[reg.event]?.name ||
      reg.event` for an id, the embedded name otherwise. */
  function CountedName(events: seq<Event>, ref: EventRef): string
  {
    match ref
    case Embedded(_, name) => name
    case ById(id) =>
      match LastWithId(events, id)
      case Some(e) => if e.name != "" then e.name else id
      case None => id
  }

  /** With unique ids, the fold's map lookup and the table's `getEventName` agree. */
  lemma CountedNameIsEventName(events: seq<Event>, ref: EventRef)
    requires Store.UniqueEventIds(events)
    ensures CountedName(events, ref) == EventName(events, ref)
  {
    if ref.ById? {
      var last := LastWithId(events, ref.id);
      var first := Store.FindEvent(events, ref.id);
      if last.Some? {
        var i :| 0 <= i < |events| && events[i] == last.value;
        Store.IndexOfUniqueId(events, i);
      }
    }
  }

  /** One entry of `Object.entries(eventCounts)`. */
  datatype Count = Count(name: string, value: nat)

  /** The value stored under `name`, or 0 when there is none (`acc[name] || 0`). */
  function CountOf(acc: seq<Count>, name: string): nat
  {
    if acc == [] then 0
    else if acc[0].name == name then acc[0].value
    else CountOf(acc[1..], name)
  }

  function Keys(acc: seq<Count>): set<string>
  {
    if acc == [] then {} else {acc[0].name} + Keys(acc[1..])
  }

  predicate DistinctNames(acc: seq<Count>)
  {
    forall i, j :: 0 <= i < j < |acc| ==> acc[i].name != acc[j].name
  }

  function Sum(acc: seq<Count>): nat
  {
    if acc == [] then 0 else acc[0].value + Sum(acc[1..])
  }

  /** `acc[name] = (acc[name] || 0) + 1`, keeping the keys in insertion order. */
  function Bump(acc: seq<Count>, name: string): seq<Count>
  {
    if acc == [] then [Count(name, 1)]
    else if acc[0].name == name then [acc[0].(value := acc[0].value + 1)] + acc[1..]
    else [acc[0]] + Bump(acc[1..], name)
  }

  /** Bumping adds one to the named count and leaves every other count as it was. */
  lemma {:induction false} BumpCountOf(acc: seq<Count>, name: string, key: string)
    ensures CountOf(Bump(acc, name), key) == CountOf(acc, key) + (if key == name then 1 else 0)
  {
    if acc != [] && acc[0].name != name {
      BumpCountOf(acc[1..], name, key);
    }
  }

  lemma {:induction false} KeysMember(acc: seq<Count>, name: string)
    ensures name in Keys(acc) <==> exists k :: 0 <= k < |acc| && acc[k].name == name
  {
    if acc != [] {
      KeysMember(acc[1..], name);
      if name in Keys(acc[1..]) {
        var k :| 0 <= k < |acc[1..]| && acc[1..][k].name == name;
        assert acc[k + 1].name == name;
      }
      if exists k :: 0 <= k < |acc| && acc[k].name == name {
        var k :| 0 <= k < |acc| && acc[k].name == name;
        if k > 0 {
          assert acc[1..][k - 1].name == name;
        }
      }
    }
  }

  /** Bumping adds the name to the keys, if it is new. */
  lemma {:induction false} BumpKeys(acc: seq<Count>, name: string)
    ensures Keys(Bump(acc, name)) == Keys(acc) + {name}
  {
    if acc != [] && acc[0].name != name {
      BumpKeys(acc[1..], name);
      assert Bump(acc, name)[1..] == Bump(acc[1..], name);
    } else if acc != [] {
      assert Bump(acc, name)[1..] == acc[1..];
    }
  }

  /** Bumping keeps the keys distinct. */
  lemma {:induction false} BumpDistinct(acc: seq<Count>, name: string)
    requires DistinctNames(acc)
    ensures DistinctNames(Bump(acc, name))
  {
    if acc != [] && acc[0].name != name {
      var tail := Bump(acc[1..], name);
      BumpDistinct(acc[1..], name);
      BumpKeys(acc[1..], name);
      KeysMember(acc[1..], acc[0].name);
      KeysMember(tail, acc[0].name);
      assert Bump(acc, name) == [acc[0]] + tail;
    }
  }

  /** Bumping adds one to the total. */
  lemma {:induction false} BumpSum(acc: seq<Count>, name: string)
    ensures Sum(Bump(acc, name)) == Sum(acc) + 1
  {
    if acc != [] && acc[0].name != name {
      BumpSum(acc[1..], name);
      assert Bump(acc, name)[1..] == Bump(acc[1..], name);
    } else if acc != [] {
      assert Bump(acc, name)[1..] == acc[1..];
    }
  }

  /** Bumping keeps every count positive. */
  lemma {:induction false} BumpPositive(acc: seq<Count>, name: string)
    requires forall c :: c in acc ==> c.value > 0
    ensures forall c :: c in Bump(acc, name) ==> c.value > 0
  {
    if acc != [] && acc[0].name != name {
      assert forall c :: c in acc[1..] ==> c in acc;
      BumpPositive(acc[1..], name);
    }
  }

  /** The `reduce` over the resolved names, as a left fold. */
  function Tally(names: seq<string>): seq<Count>
  {
    if names == [] then [] else Bump(Tally(names[..|names| - 1]), names[|names| - 1])
  }

  /** Each name is counted as often as it occurs. */
  lemma {:induction false} TallyCountOf(names: seq<string>, key: string)
    ensures CountOf(Tally(names), key) == multiset(names)[key]
  {
    if names != [] {
      var init := names[..|names| - 1];
      assert names == init + [names[|names| - 1]];
      TallyCountOf(init, key);
      BumpCountOf(Tally(init), names[|names| - 1], key);
    }
  }

  /** One entry per distinct name, the entries summing to the number of names, none zero. */
  lemma {:induction false} TallyShape(names: seq<string>)
    ensures DistinctNames(Tally(names))
    ensures Keys(Tally(names)) == set n | n in names
    ensures Sum(Tally(names)) == |names|
    ensures forall c :: c in Tally(names) ==> c.value > 0
  {
    if names != [] {
      var init := names[..|names| - 1];
      var last := names[|names| - 1];
      assert names == init + [last];
      TallyShape(init);
      BumpKeys(Tally(init), last);
      BumpDistinct(Tally(init), last);
      BumpSum(Tally(init), last);
      BumpPositive(Tally(init), last);
      assert (set n | n in names) == (set n | n in init) + {last};
    }
  }

  /** The resolved name of every registration, in order. */
  function ResolvedNames(events: seq<Event>, regs: seq<RegistrationView>): (r: seq<string>)
    ensures |r| == |regs|
    ensures forall i :: 0 <= i < |regs| ==> r[i] == CountedName(events, regs[i].event)
  {
    seq(|regs|, i requires 0 <= i < |regs| => CountedName(events, regs[i].event))
  }

  datatype Stats = Stats(totalRegistrations: nat, registrationsByEvent: seq<Count>)

  /** The statistics `fetchData` sets: the total, and one count per distinct resolved event
      name that adds up to that total. */
  function ComputeStats(events: seq<Event>, regs: seq<RegistrationView>): (s: Stats)
    ensures s.totalRegistrations == |regs|
    ensures Sum(s.registrationsByEvent) == s.totalRegistrations
    ensures DistinctNames(s.registrationsByEvent)
    ensures Keys(s.registrationsByEvent) == set i | 0 <= i < |regs| :: CountedName(events, regs[i].event)
    ensures forall key :: CountOf(s.registrationsByEvent, key) == multiset(ResolvedNames(events, regs))[key]
  {
    var names := ResolvedNames(events, regs);
    TallyShape(names);
    forall key
      ensures CountOf(Tally(names), key) == multiset(names)[key]
    {
      TallyCountOf(names, key);
    }
    assert (set n | n in names) == set i | 0 <= i < |regs| :: CountedName(events, regs[i].event) by {
      forall n | n in names
        ensures exists i :: 0 <= i < |regs| && n == CountedName(events, regs[i].event)
      {
        var i :| 0 <= i < |names| && names[i] == n;
      }
    }
    Stats(|regs|, Tally(names))
  }

  // ---------------------------------------------------------------------------------------
  // Pagination

  /** How `Array.prototype.slice` reads an index: negative counts from the end, and both ends
      are clipped to `[0, len]`. */
  function SliceIndex(i: int, len: nat): (r: nat)
    ensures r <= len
    ensures 0 <= i <= len ==> r == i
    ensures i > len ==> r == len
    ensures i < 0 ==> r == Max(len + i, 0)
  {
    if i < 0 then (if len + i < 0 then 0 else len + i) else if i > len then len else i
  }

  function JsSlice<T>(s: seq<T>, start: int, end: int): seq<T>
  {
    var a := SliceIndex(start, |s|);
    var b := SliceIndex(end, |s|);
    if a < b then s[a..b] else []
  }

  /** `registrations.slice(indexOfFirstItem, indexOfLastItem)`: page `p` (from 1) shows the
      items at positions `[(p-1)*10, p*10)` that exist; no page shows more than ten. */
  function CurrentItems<T>(s: seq<T>, page: int): (r: seq<T>)
    ensures page >= 1 ==> r == s[Min((page - 1) * ItemsPerPage, |s|)..Min(page * ItemsPerPage, |s|)]
    ensures |r| <= ItemsPerPage
    ensures page == 0 ==> r == []
  {
    JsSlice(s, page * ItemsPerPage - ItemsPerPage, page * ItemsPerPage)
  }

  /** `Math.ceil(n / itemsPerPage)`: the least number of pages that holds `n` items. */
  function TotalPages(n: nat): (r: nat)
    ensures r * ItemsPerPage >= n
    ensures r > 0 ==> (r - 1) * ItemsPerPage < n
  {
    (n + ItemsPerPage - 1) / ItemsPerPage
  }

  /** Pages `1..k`, one after the other. */
  function PagesUpTo<T>(s: seq<T>, k: nat): seq<T>
  {
    if k == 0 then [] else PagesUpTo(s, k - 1) + CurrentItems(s, k)
  }

  lemma {:induction false} PagesUpToIsPrefix<T>(s: seq<T>, k: nat)
    ensures PagesUpTo(s, k) == s[..Min(k * ItemsPerPage, |s|)]
  {
    if k > 0 {
      PagesUpToIsPrefix(s, k - 1);
      var a := Min((k - 1) * ItemsPerPage, |s|);
      var b := Min(k * ItemsPerPage, |s|);
      assert s[..a] + s[a..b] == s[..b];
    }
  }

  /** Reading pages 1 to `totalPages` in turn shows every registration once, in order. */
  lemma AllPagesCoverList<T>(s: seq<T>)
    ensures PagesUpTo(s, TotalPages(|s|)) == s
  {
    PagesUpToIsPrefix(s, TotalPages(|s|));
  }

  /** `Math.max(prev - 1, 1)`. */
  function PreviousPage(p: int): (r: int)
    ensures r >= 1
    ensures p > 1 ==> r == p - 1
    ensures p <= 1 ==> r == 1
  {
    Max(p - 1, 1)
  }

  /** `disabled={currentPage === 1}` on Previous. */
  predicate PreviousEnabled(p: int)
  {
    p != 1
  }

  /** `disabled={currentPage === totalPages}` on Next. */
  predicate NextEnabled(p: int, total: int)
  {
    p != total
  }

  /** `Math.min(prev + 1, totalPages)` as written. */
  function NextPageAsWritten(p: int, total: int): (r: int)
    ensures r <= total
    ensures p < total ==> r == p + 1
    ensures p >= total ==> r == total
  {
    Min(p + 1, total)
  }

  /** With no registrations there are zero pages, yet Next is enabled on page 1 (1 is not 0)
      and its handler moves to page 0, outside `1..`. */
  lemma NextPageAsWrittenLeavesRange()
    ensures NextEnabled(1, TotalPages(0))
    ensures NextPageAsWritten(1, TotalPages(0)) == 0
  {
  }

  /** Next clamped to at least page 1 as well as at most `totalPages`. */
  function NextPage(p: int, total: int): (r: int)
    ensures r >= 1
    ensures r <= Max(total, 1)
    ensures 1 <= p < total ==> r == p + 1
    ensures p >= total ==> r == Max(1, total)
  {
    Max(1, Min(p + 1, total))
  }

  /** Starting inside `1..max(totalPages, 1)`, Previous and the clamped Next stay inside. */
  lemma PageControlsStayInRange(p: int, n: nat)
    requires 1 <= p <= Max(TotalPages(n), 1)
    ensures 1 <= PreviousPage(p) <= Max(TotalPages(n), 1)
    ensures 1 <= NextPage(p, TotalPages(n)) <= Max(TotalPages(n), 1)
    ensures p < TotalPages(n) ==> NextPage(p, TotalPages(n)) == p + 1
  {
  }

  // ---------------------------------------------------------------------------------------
  // Page state

  class DashboardPage {
    var events: seq<Event>
    var registrations: seq<RegistrationView>
    var stats: Stats
    var currentPage: int

    constructor ()
      ensures events == [] && registrations == [] && stats == Stats(0, []) && currentPage == 1
    {
      events := [];
      registrations := [];
      stats := Stats(0, []);
      currentPage := 1;
    }

    /** The state `fetchData` sets after both requests succeed. */
    method DataLoaded(regs: seq<RegistrationView>, evs: seq<Event>)
      modifies this
      ensures registrations == regs && events == evs && stats == ComputeStats(evs, regs)
      ensures currentPage == old(currentPage)
    {
      registrations := regs;
      events := evs;
      stats := ComputeStats(evs, regs);
    }

    /** `toggleEventRegistration(eventId, isOpen)`: after an ok response the matching events
        get `isOpen := !isOpen`; otherwise nothing changes. */
    method ToggleEventRegistration(eventId: EventId, isOpen: bool, responseOk: bool)
      modifies this
      ensures events == if responseOk then SetOpen(old(events), eventId, !isOpen) else old(events)
      ensures registrations == old(registrations) && stats == old(stats) && currentPage == old(currentPage)
    {
      if responseOk {
        events := SetOpen(events, eventId, !isOpen);
      }
    }

    /** `onEventAdded`: the new event goes at the end. */
    method HandleEventAdded(e: Event)
      modifies this
      ensures events == old(events) + [e]
      ensures registrations == old(registrations) && stats == old(stats) && currentPage == old(currentPage)
    {
      events := events + [e];
    }

    /** The Previous button; a click on a disabled button does nothing. */
    method ClickPrevious()
      modifies this
      ensures currentPage == if PreviousEnabled(old(currentPage)) then PreviousPage(old(currentPage)) else old(currentPage)
      ensures events == old(events) && registrations == old(registrations) && stats == old(stats)
    {
      if PreviousEnabled(currentPage) {
        currentPage := PreviousPage(currentPage);
      }
    }

    /** The Next button as written: with no registrations it is enabled on page 1 and moves
        to page 0 (see `NextPageAsWrittenLeavesRange`). */
    method ClickNext()
      modifies this
      ensures var total := TotalPages(|registrations|);
        currentPage == if NextEnabled(old(currentPage), total) then NextPageAsWritten(old(currentPage), total) else old(currentPage)
      ensures events == old(events) && registrations == old(registrations) && stats == old(stats)
    {
      var total := TotalPages(|registrations|);
      if NextEnabled(currentPage, total) {
        currentPage := NextPageAsWritten(currentPage, total);
      }
    }

    /** The rows the table shows. */
    function Rows(): (r: seq<RegistrationView>)
      reads this
      ensures |r| <= ItemsPerPage
      ensures currentPage >= 1 ==> forall x :: x in r ==> x in registrations
      ensures currentPage >= 1 ==>
        r == registrations[Min((currentPage - 1) * ItemsPerPage, |registrations|)..Min(currentPage * ItemsPerPage, |registrations|)]
      ensures currentPage == 0 ==> r == []
    {
      CurrentItems(registrations, currentPage)
    }
  }
}
