# CSI club site: events, registrations and admin pages

A Dafny model of the sequential logic of the CSI club web application: the REST handlers
that create, update and delete events and admit team registrations (with the Mongoose
schemas behind them), the admin route guard, the public registration form and join page,
the admin dashboard and events page, the add-event dialog, the spreadsheet export rows and
the events timeline.

Layout, one module per source file plus three shared ones:

- `wrappers.dfy` (`Wrappers`): `Option` and `Reply` (a status with a value or an error).
- `text.dfy` (`Text`): JavaScript's white space, `trim`, decimal rendering and `parseInt`.
- `sorting.dfy` (`Sorting`): the database's sort on an integer key.
- `event_model.dfy`, `registration_model.dfy`: the two schemas, as datatypes, validity
  predicates and the cast-and-validate step of `create`.
- `store.dfy` (`Store`): the two collections as a class `Database` with sequence fields
  and the invariant every handler keeps. Within one event, no registration number or email
  appears in two registrations.
- `registrations_route.dfy`, `events_route.dfy`: the handlers. The checks are functions; the
  handlers that write are methods on the `Database`.
- `middleware.dfy`: the admin guard.
- `client_views.dfy` (`ClientViews`): the client's view of events and registrations, plus
  the name lookup and the `isOpen` switch that several pages share.
- `registration_form.dfy`, `join_us.dfy`, `dashboard.dfy`, `admin_events.dfy`,
  `add_event_form.dfy`, `export.dfy`, `timeline.dfy`: the client pages and the export.
  React state becomes class fields. Each state setter becomes a method.

Modelling conventions:

- A missing or falsy string is `""`.
- Document ids are strings.
- The id the database assigns and the current time are parameters (`newId`, `now`).
- A network reply is a parameter of the handler that receives it.
- Timers are flags. A timer's expiry is a method that the environment calls.

Where the code and its design description disagree, the model follows the code:

- The registrations handler requires a `section` field for each member. `MemberSchema`
  has no such field, so the stored member drops it (`RegistrationsRoute.ToMember`).
- The registration form hands its page a flat record (name, email, ..., event). The
  page posts that record as is. It has no `members` array, so the handler answers 400
  (`JoinUs.FlatFormDataRejected`).
- `POST /api/admin/events` checks the raw name but saves the trimmed one. A name made
  only of white space passes the handler's check and then fails the schema's `required`.
  The handler's catch-all turns that into a 500 reply.
- `PUT` runs the schema's setters (trim) but not its validators. A stored name can
  therefore become empty. The store invariant asks only for a trimmed name and a team
  size in 1..10.

## Model

| member | source | states |
|---|---|---|
| Text.Trim | lib/models/Event.ts:9 | the result is a slice of the input with only white space cut off before and after it, and it neither starts nor ends with JavaScript white space |
| Text.TrimEmptyIffBlank | lib/models/Event.ts:6-10 | trimming gives the empty string exactly when the input is all white space, which is when a trimmed name fails `required` |
| Text.NatToString | app/api/admin/export/route.ts:54 | the decimal rendering of a member number is non-empty, all digits, with no leading zero |
| Text.NatToStringInjective | app/api/admin/export/route.ts:54-60 | distinct numbers render differently |
| Text.ParseInt | components/AddEventForm.tsx:40 | `parseInt` is NaN exactly when the string is empty or does not start with a digit |
| Text.ParseIntOfNatToString | components/AddEventForm.tsx:40 | `parseInt` reads back the number that `toString` wrote |
| Sorting.SortBy | app/api/admin/events/route.ts:10 | the result is a permutation of the input, in ascending key order |
| EventModel.Create | lib/models/Event.ts:5-27 | a new event saves exactly when the trimmed name is non-empty, a date is given and the team size (default 1) is in 1..10; the saved event is valid, `isOpen` defaults to true and both timestamps are the creation time |
| RegistrationModel.Create | lib/models/Registration.ts:5-32 | a registration saves exactly when it has at least one member, an event and all six fields of every member; `createdAt` is the creation time |
| Store.FindEvent | app/api/admin/registrations/route.ts:24 | the lookup finds an event with the id, or reports none exactly when no stored event has it |
| Store.FindEventFirst | app/api/admin/registrations/route.ts:24 | the event found is the first one with the id |
| RegistrationsRoute.Check | app/api/admin/registrations/route.ts:13-68 | 400 when members or event is missing; 404 exactly when the event is unknown; admission only with exactly `teamSize` members, all seven fields each, and no registration number or email already registered for that event; every request that passes all checks is admitted |
| RegistrationsRoute.OtherEventsDoNotBlock | app/api/admin/registrations/route.ts:58-61 | registrations for other events never change the decision |
| RegistrationsRoute.AdmitKeepsNoSharedContacts | app/api/admin/registrations/route.ts:51-75 | storing an admitted team keeps every registration number and email unique across one event's registrations |
| RegistrationsRoute.AdmittedMembersValid | app/api/admin/registrations/route.ts:40-48 | admitted members satisfy MemberSchema and form a non-empty team |
| RegistrationsRoute.AppendKeepsInvariant | app/api/admin/registrations/route.ts:72-75 | appending a valid registration with a fresh id and no shared contact keeps the store invariant |
| RegistrationsRoute.Post | app/api/admin/registrations/route.ts:8-87 | on admission exactly one registration with the admitted members, the event and a fresh id is appended with 201; on rejection the store is unchanged; events never change and the invariant holds |
| RegistrationsRoute.Recent | app/api/admin/registrations/route.ts:93-96 | at most 100 registrations, newest first, drawn from the stored ones, and none left out is newer than one returned |
| EventsRoute.List | app/api/admin/events/route.ts:10 | every event, in ascending date order |
| EventsRoute.CreateOutcome | app/api/admin/events/route.ts:21-56 | 400 for a missing name or date, 400 for a team size that is not a number in 1..10, 500 for an all-white-space name, otherwise 201 with an open, valid event, trimmed name and team size defaulting to 1 |
| EventsRoute.ApplyUpdate | app/api/admin/events/route.ts:79-83 | only the fields sent change, a sent name is trimmed, `updatedAt` becomes now, id and `createdAt` stay |
| EventsRoute.UpdateOutcome | app/api/admin/events/route.ts:58-100 | 400 without an id, 400 for a bad team size, 404 for an unknown id, otherwise 200 with the updated event |
| EventsRoute.UpdateKeepsStoredEventOk | app/api/admin/events/route.ts:69-83 | an accepted update keeps a stored event's name trimmed and its team size in 1..10 |
| EventsRoute.Post | app/api/admin/events/route.ts:21-56 | on success the created event is appended, otherwise the store is unchanged; registrations never change and the invariant holds |
| EventsRoute.Put | app/api/admin/events/route.ts:58-100 | on success exactly the event with that id is replaced by its update, otherwise the store is unchanged; the invariant holds |
| EventsRoute.RemoveKeepsInvariant | app/api/admin/events/route.ts:114 | removing one event keeps ids unique and leaves no event with the removed id |
| EventsRoute.Delete | app/api/admin/events/route.ts:102-131 | 400 without an id, 404 for an unknown id, otherwise exactly that event is removed; no event with the id remains |
| Middleware.ThirdBranchUnreachable | middleware.ts:22-24 | the redirect for session-less `/admin` can never fire, the first rule having already caught it |
| Middleware.Decide | middleware.ts:5-32 | paths outside `/admin` pass; without a session everything but the login page goes to the login page; with a session `/admin` and the login page go to the dashboard and the rest pass; no redirect targets the requested path |
| Middleware.RedirectTargetPasses | middleware.ts:14-28 | following a redirect never redirects again |
| RegistrationForm.With | components/EventRegistrationForm.tsx:152-154 | the named field takes the new value and every other field keeps its own |
| RegistrationForm.AnyMissingIffSomeFieldEmpty | components/EventRegistrationForm.tsx:157 | the missing-field test fails exactly when some field is empty |
| RegistrationForm.IsValidEmail | components/EventRegistrationForm.tsx:166-167 | the email check equals the regular expression `^[^\s@]+@[^\s@]+\.[^\s@]+$`, in both directions |
| RegistrationForm.ValidateForm | components/EventRegistrationForm.tsx:156-187 | missing fields are reported first, then a bad email, then a phone that is not ten digits; the form passes exactly when all three hold |
| RegistrationForm.Form.constructor | components/EventRegistrationForm.tsx:146-147 | all seven fields empty and not submitting |
| RegistrationForm.Form.HandleChange | components/EventRegistrationForm.tsx:152-154 | only the named field changes |
| RegistrationForm.Form.HandleSubmit | components/EventRegistrationForm.tsx:189-208 | an invalid form sends nothing and changes nothing; a valid one is sent to the handler, reset only when the handler resolves to true, and ends not submitting |
| ClientViews.EventName | app/admin/dashboard/page.tsx:234-240 | an embedded event shows its name; an id shows the name of the first listed event with that id when that name is non-empty, and the id itself otherwise, which is also what an unknown id shows |
| ClientViews.EventNameOfListedId | app/admin/dashboard/page.tsx:234-240 | with unique ids, an id shows the name of the event stored under it, or the id when that name is empty |
| ClientViews.SetOpen | app/admin/dashboard/page.tsx:184-186 | same length and order; only `isOpen` of the events with the id changes, to the new value |
| ClientViews.SetOpenUndo | app/admin/events/page.tsx:73-75 | switching back restores the list |
| ClientViews.SetOpenKeepsIds | app/admin/events/page.tsx:73-75 | switching keeps every id, so unique ids stay unique |
| ClientViews.MemberNoun | app/admin/events/page.tsx:200 | "member" exactly for a team size of one, "members" otherwise |
| JoinUs.WithDefaultTeamSize | app/join-us/page.tsx:58 | a falsy team size becomes 1, any other is kept, and nothing else changes |
| JoinUs.OpenEvents | app/join-us/page.tsx:53-60 | exactly the open events are kept, each with its team size defaulted |
| JoinUs.OpenEventsAppend | app/join-us/page.tsx:53-60 | filtering keeps the fetched order |
| JoinUs.OpenStoredEventsUnchanged | app/join-us/page.tsx:58 | events served by the store come through unaltered |
| JoinUs.ShownEvents | app/join-us/page.tsx:46-72 | a failed fetch leaves the list empty, a successful one gives the open events |
| JoinUs.FormShownIffSomeOpen | app/join-us/page.tsx:125-133 | the form is shown exactly when the fetch succeeded and some event is open; otherwise the closed message |
| JoinUs.SubmitSucceeded | app/join-us/page.tsx:74-112 | true exactly for an ok response whose body parsed |
| JoinUs.FlatFormDataRejected | app/join-us/page.tsx:80-95 | the body the form produces always gets 400 from the registrations handler, so submitting reports failure |
| Dashboard.LastWithId | app/admin/dashboard/page.tsx:108-111 | the map built by the `reduce` holds the last event with that id, or none exactly when no event has it |
| Dashboard.CountedNameIsEventName | app/admin/dashboard/page.tsx:116-118 | with unique ids, the name the count fold uses equals the table's `getEventName` |
| Dashboard.BumpCountOf | app/admin/dashboard/page.tsx:119 | one step adds one to the named count and leaves the others |
| Dashboard.TallyCountOf | app/admin/dashboard/page.tsx:114-121 | each name is counted as often as it occurs |
| Dashboard.TallyShape | app/admin/dashboard/page.tsx:114-135 | one entry per distinct name, every count positive, and the counts add up to the number of registrations |
| Dashboard.ComputeStats | app/admin/dashboard/page.tsx:113-140 | the total is the number of registrations and equals the sum of the per-event counts; one entry per distinct resolved name, each counting its occurrences |
| Dashboard.SliceIndex | app/admin/dashboard/page.tsx:223 | `slice` counts negative indices from the end and clips both ends to the list |
| Dashboard.CurrentItems | app/admin/dashboard/page.tsx:221-223 | page p (from 1) shows the items at `[(p-1)*10, p*10)` that exist; no page shows more than ten; page 0 shows none |
| Dashboard.TotalPages | app/admin/dashboard/page.tsx:224 | the least number of ten-item pages that holds all registrations |
| Dashboard.PagesUpToIsPrefix | app/admin/dashboard/page.tsx:221-224 | pages 1..k together are the first `10k` registrations |
| Dashboard.AllPagesCoverList | app/admin/dashboard/page.tsx:221-224 | pages 1..totalPages together are all registrations, in order |
| Dashboard.PreviousPage | app/admin/dashboard/page.tsx:527 | one page back, never below 1 |
| Dashboard.NextPageAsWritten | app/admin/dashboard/page.tsx:537 | one page on below `totalPages`, and `totalPages` itself from there on, even when that is 0 |
| Dashboard.NextPageAsWrittenLeavesRange | app/admin/dashboard/page.tsx:537-538 | with no registrations Next is enabled on page 1 and moves to page 0 |
| Dashboard.NextPage | app/admin/dashboard/page.tsx:537 | the corrected Next: one page on below `totalPages`, `max(totalPages, 1)` from there on, so always in `1..max(totalPages, 1)` |
| Dashboard.PageControlsStayInRange | app/admin/dashboard/page.tsx:527-538 | from a page in `1..max(totalPages, 1)`, Previous and Next stay in that range |
| Dashboard.DashboardPage.constructor | app/admin/dashboard/page.tsx:56-74 | no events or registrations, empty statistics, page 1 |
| Dashboard.DashboardPage.DataLoaded | app/admin/dashboard/page.tsx:105-140 | the fetched lists are stored with their statistics; the page does not change |
| Dashboard.DashboardPage.ToggleEventRegistration | app/admin/dashboard/page.tsx:174-199 | after an ok reply the matching events get the flipped flag; otherwise nothing changes |
| Dashboard.DashboardPage.HandleEventAdded | app/admin/dashboard/page.tsx:293 | the new event is appended |
| Dashboard.DashboardPage.ClickPrevious | app/admin/dashboard/page.tsx:527-528 | a click goes one page back unless the button is disabled on page 1 |
| Dashboard.DashboardPage.ClickNext | app/admin/dashboard/page.tsx:537-538 | as written: unless the button is disabled (page equal to `totalPages`), a click moves to `min(page + 1, totalPages)`, which is page 0 when there are no registrations |
| Dashboard.DashboardPage.Rows | app/admin/dashboard/page.tsx:220-223 | at most ten rows: on page p (from 1) the registrations at positions `[(p-1)*10, p*10)` that exist, and none on page 0 |
| AdminEvents.RowOf | app/admin/events/page.tsx:197-222 | "Open" with a "Close Registration" action for an open event and the reverse for a closed one; the singular noun exactly for one member |
| AdminEvents.EventsPage.constructor | app/admin/events/page.tsx:33 | no events |
| AdminEvents.EventsPage.EventsLoaded | app/admin/events/page.tsx:44-47 | the fetched events are shown |
| AdminEvents.EventsPage.ToggleEventRegistration | app/admin/events/page.tsx:63-88 | after an ok reply only the matching events flip `isOpen`; a failed request changes nothing; length and unique ids are kept |
| AdminEvents.EventsPage.HandleEventAdded | app/admin/events/page.tsx:90-92 | the new event goes after the existing ones |
| AdminEvents.ToggleTwiceRestores | app/admin/events/page.tsx:219 | two successful clicks on one row restore the list |
| AddEventForm.Payload | components/AddEventForm.tsx:37-42 | the body carries the name and date as typed, `isOpen: true`, and a numeric team size exactly when the selection starts with a digit |
| AddEventForm.OptionsAccepted | components/AddEventForm.tsx:100-101 | each offered size parses to 1..5, which the events handler accepts |
| AddEventForm.PayloadCreated | components/AddEventForm.tsx:32-43 | a non-blank name, a date and an offered size give a 201 with an open event of that size |
| AddEventForm.Form.constructor | components/AddEventForm.tsx:24-26 | name and date empty, team size "1" |
| AddEventForm.Form.SetEventName | components/AddEventForm.tsx:71 | only the name changes |
| AddEventForm.Form.SetEventDate | components/AddEventForm.tsx:85 | only the date changes |
| AddEventForm.Form.SetTeamSize | components/AddEventForm.tsx:95 | only the team size changes, and stays an offered value |
| AddEventForm.Form.HandleSubmit | components/AddEventForm.tsx:29-62 | the payload is built from the fields; on a created event it is handed on once and the fields reset to "", "", "1"; otherwise nothing is handed on and nothing changes |
| Export.FillMemberColumns | app/api/admin/export/route.ts:52-61 | the `forEach` builds the member columns of the whole team |
| Export.MemberKeyInjective | app/api/admin/export/route.ts:55-60 | different (member, field) pairs get different column titles |
| Export.AddMemberLookup | app/api/admin/export/route.ts:54-60 | one step adds exactly the six titles of its member, with that member's values |
| Export.MemberColumnsLookup | app/api/admin/export/route.ts:53-61 | columns for member i exist exactly when 1 <= i <= the team size, holding that member's values |
| Export.MemberColumnsKeys | app/api/admin/export/route.ts:55-60 | every member column is the title of one field of a member numbered 1..team size, so it starts with "Member " |
| Export.BaseColumnsNotMemberColumns | app/api/admin/export/route.ts:63 | member columns never overwrite 'Team ID', 'Event' or 'Team Size' |
| Export.ExportRow | app/api/admin/export/route.ts:44-63 | 'Team ID' is the registration id, 'Event' its resolved event name and 'Team Size' its member count; the row has no other columns than these and the member columns of members 1..team size |
| Export.ExportRowMemberColumns | app/api/admin/export/route.ts:53-63 | in a row, member i's six columns exist exactly for 1 <= i <= the team size and hold that member's values |
| Export.TransformRegistration | app/api/admin/export/route.ts:43-64 | the callback builds exactly the row of its registration |
| Export.ExportRows | app/api/admin/export/route.ts:43-64 | one row per registration, in input order, each carrying that registration's id |
| Timeline.NavigateTarget | app/events/page.tsx:29-34 | 'up' at the first entry and 'down' at the last stay; otherwise the index moves by exactly one; it stays a valid entry |
| Timeline.AutoAdvance | app/events/page.tsx:64-70 | the next entry, or the first after the last |
| Timeline.AdvanceTimesNoWrap | app/events/page.tsx:66-67 | before the last entry, auto-scroll moves one entry per step |
| Timeline.AdvanceTimesCycles | app/events/page.tsx:64-70 | uninterrupted auto-scroll visits every entry in order and returns to its start after one step per entry |
| Timeline.KeyDirection | app/events/page.tsx:135-143 | ArrowUp means up and ArrowDown means down; no other key navigates |
| Timeline.TimelinePage.constructor | app/events/page.tsx:76-127 | after mounting: the first entry, paused, active, and no timeout pending |
| Timeline.TimelinePage.ResetAutoScrollTimer | app/events/page.tsx:56-73 | the pending auto-scroll is replaced by a new one exactly when not paused |
| Timeline.TimelinePage.RegisterUserActivity | app/events/page.tsx:40-54 | active, paused and an inactivity timeout pending |
| Timeline.TimelinePage.AfterRender | app/events/page.tsx:76-88 | when the year or the pause changed, both timeouts are cleared and auto-scroll is re-armed exactly when not paused |
| Timeline.TimelinePage.NavigateTimeline | app/events/page.tsx:29-37 | the index takes the navigation step; paused and active with no auto-scroll pending; the invariant holds |
| Timeline.TimelinePage.HandleYearClick | app/events/page.tsx:19-27 | the clicked entry is shown; paused and active with no auto-scroll pending |
| Timeline.TimelinePage.UserActivity | app/events/page.tsx:91-101 | paused and active with no auto-scroll pending; the inactivity timeout survives only when the page was already paused |
| Timeline.TimelinePage.KeyDown | app/events/page.tsx:135-147 | an arrow key navigates as the direction says, any other key only registers activity |
| Timeline.TimelinePage.InactivityTimeout | app/events/page.tsx:50-53 | inactive and unpaused, with auto-scroll armed for the shown entry |
| Timeline.TimelinePage.AutoScrollTimeout | app/events/page.tsx:64-71 | the next entry or the first; auto-scroll continues exactly when there is more than one entry |

## Left out

- Database and network plumbing is not modelled: connections, Mongoose queries, `fetch`
  and response objects. The collections are in-memory sequences and replies are a
  status/value datatype. The store handles one request at a time. The non-atomic
  check-then-insert of the registrations handler can race under concurrent requests, and
  that race is outside this model.
- RegistrationsRoute.Check: a malformed ObjectId makes `findById` throw, which the handler
  turns into a 500 reply. The model has no malformed ids and answers 404 for any unknown id.
  `EventsRoute.UpdateOutcome` and `EventsRoute.Delete` are the same.
- EventsRoute.CreateOutcome: the date is an opaque integer, and parsing a date string is not
  modelled. An unparsable date makes the schema cast fail and gives a 500 reply. That case
  is not modelled.
- EventsRoute.CreateOutcome: team sizes are integers. A fractional number between 1 and 10
  passes the handler's check, and what the schema stores for it is not modelled. The same
  holds for `PUT`.
- EventsRoute.UpdateOutcome: every sent field is assumed to cast. A `date` that does not
  parse or an `isOpen` that is not a boolean makes `findByIdAndUpdate` throw, and the
  handler then answers 500. The model has no such values.
- Dashboard.ComputeStats: the counts are kept in a plain `{}`, so a name equal to an
  inherited member of `Object.prototype` behaves differently. "toString" or
  "constructor" starts from that inherited function, not from 0, and the count becomes a
  string. For "__proto__" the assignment is ignored, so the counts no longer add up to the
  total. The model treats every name as an ordinary key.
- The registrations handler's `GET` is called with date-range query parameters that it
  ignores. The model ignores them too.
- `populate('event')` gives `null` for a registration whose event was deleted, and the
  pages would then fail on the missing name. Such a registration is not modelled: a
  `RegistrationView` always has an id or an embedded event. Deleting an event leaves its
  registrations in the store.
- The toggle endpoint that the admin pages call (`/api/admin/events/{id}/toggle`) is not
  part of this model. Whether it answers ok is a parameter of `ToggleEventRegistration`.
- Authentication (next-auth tokens and the login page) is not modelled. The session is a
  boolean.
- Key order of the object rows and of `Object.entries` is not modelled. Rows are maps, and
  the counts follow insertion order. JavaScript puts integer-like keys first, which this
  ignores.
- The export's 'Registration Date' column, the dashboard's trend chart, the average
  per day, pie percentages and every other use of `toLocaleDateString` or `toFixed` are
  not modelled. They depend on locale, dates and floating point.
- The "Most Popular Event" card is not modelled. It shows the first entry of the counts,
  not the largest.
- The spreadsheet file itself (the xlsx workbook and buffer) is not modelled. Only the rows
  handed to the library are.
- The dashboard's registrations table reads flat fields (name, email) that the
  registrations API does not return. Only the paging of the rows is modelled.
- Toasts, loading and error flags, dialogs, sidebars, the video controls and window-width
  checks are not modelled.
- Timeline: timer durations are not modelled. Expiry is a method call. The handlers are
  modelled as reading the state current when they run. In React they read the state of
  the render that created them, and that stale-closure behaviour is not modelled.
- Text.ParseInt: leading white space, signs and other radixes are not modelled. The only
  strings parsed are the select's option values.
- Strings are sequences of characters. UTF-16 surrogate pairs are not modelled.

## Findings

| source | as written | input that shows it | evidently intended | confidence | as-written member | corrected member |
|---|---|---|---|---|---|---|
| app/admin/dashboard/page.tsx:537-538 | Next sets the page to `Math.min(prev + 1, totalPages)` and is disabled only when the page equals `totalPages` | no registrations: `totalPages` is 0, Next is enabled on page 1 and moves to page 0 ("Page 0 of 0") | the page never drops below 1 | medium (not executed) | Dashboard.NextPageAsWritten, Dashboard.NextPageAsWrittenLeavesRange | Dashboard.NextPage, Dashboard.PageControlsStayInRange |
