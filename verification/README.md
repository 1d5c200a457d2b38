# Event management: the event-list state of the admin and listing pages

This project is a Dafny model of the only bespoke logic in a small event-listing
web application. That logic is the in-memory event list that its two pages keep.

- **Admin page** (`src/pages/Admin.tsx`). An organiser manages a catalogue of
  events. Creating an event appends the form under a fresh id, one more than
  the largest id in use. Updating replaces the events that carry the selected
  id. Deleting filters an id out of the list. Each form input changes one
  field. Cancel and "Create New" put the editing state back to known values.
- **Listing page** (`src/pages/Index.tsx`). Visitors see seat counts and
  register. Registering adds one attendee to the event with the given id. A
  card shows the seats left and is "Sold Out" once the attendees reach the
  capacity.

Each React handler becomes a pure function from the state before to the state
after. The state setters only publish the result.

Modules:

- `Wrappers` (`wrappers.dfy`): `Option`, which stands for `null`/`undefined`.
- `NumberText` (`number_text.dfy`): `parseInt` read as a decimal parser, plus
  the `|| 0` coercion. `Show` renders an integer the way a number box displays
  it, and the round trip `ParseInt(Show(n) + rest) == Some(n)` is proved.
- `Catalogue` (`catalogue.dfy`): the admin event record and the create,
  update and delete list computations, with freshness, "nothing else
  changes", idempotence and order-preservation lemmas.
- `AdminPage` (`admin_page.dfy`): the admin page's state (`Page`) and every
  handler of it.
- `Listing` (`listing.dfy`): the listing page's register handler, the
  seat-accounting and colour predicates, and the capacity invariant.

How the code's conventions are modelled:

- **Missing ids.** An admin event's optional id is an `int`, and 0 stands for
  "missing". The page reads ids as `e.id || 0`, and JavaScript treats 0 as
  false. So "the selection has a truthy id" is `id != 0`.
- **The attendee count can be text.** The admin form converts only the
  capacity box with `parseInt(value) || 0`. Every other input is stored as
  the text typed, "current attendees" included, even though that field is
  declared a number. `Catalogue.Count` is therefore `Number(n) | Text(s)`.
  `AdminPage.RetypeCurrentAttendees` shows the effect: re-typing the count a
  box displays turns a numeric count into text.
- **Two record types.** The listing page's events are a separate record,
  `Listing.Event`, with integer counts. That matches the source, where the
  listing keeps its own placeholder list and never sees the admin list.
- **Capacity.** The register handler checks nothing. Capacity is protected
  only by disabling the button of a sold-out card. `Listing.Register` is
  therefore total. `Listing.Click` is the button together with its guard, and
  the invariant `0 <= currentAttendees <= maxAttendees` is proved for `Click`
  when ids are unique (`ClickKeepsCapacity`). The uniqueness is needed: the
  guard looks at the clicked card only, but the handler raises every card that
  carries its id, so a full duplicate can be overbooked. The placeholder list
  has unique ids, so on the page as written no sequence of clicks overbooks an
  event (`SeedClicksKeepCapacity`). `RegisterOverbooks` shows that the handler
  alone breaks the invariant.

## Model

| member | source | states |
|---|---|---|
| Catalogue.MaxId | src/pages/Admin.tsx:169 | `Math.max(0, ...ids)` is at least 0 and at least every id, and it is 0 or one of the ids (the least such bound) |
| Catalogue.NewId | src/pages/Admin.tsx:169 | a created event's id is exactly one more than `Math.max(0, ...ids)`: it is 1, or one more than some id in the list, and strictly greater than every id, so it is positive (truthy) and no event carries it |
| Catalogue.Create | src/pages/Admin.tsx:167-172 | creating yields the old list followed by exactly one event: the saved form under the id `NewId` computes, which is fresh and truthy |
| Catalogue.Replace | src/pages/Admin.tsx:155-157 | updating keeps the length, order and every id; an event carrying the selected id becomes the saved form under that id; every other event is unchanged |
| Catalogue.Without | src/pages/Admin.tsx:204 | the filtered list is shorter by the number of events carrying the id, and holds exactly the old events whose id differs |
| Catalogue.CreateKeepsWellKeyed | src/pages/Admin.tsx:167-172 | if every id is present and unique, creating keeps it so |
| Catalogue.ReplaceKeepsWellKeyed | src/pages/Admin.tsx:155-157 | if every id is present and unique, updating keeps it so |
| Catalogue.ReplaceAbsent | src/pages/Admin.tsx:155-157 | updating an id that no event carries leaves the list unchanged |
| Catalogue.ReplaceIdempotent | src/pages/Admin.tsx:155-157 | applying the same update twice is the same as applying it once |
| Catalogue.WithoutAbsent | src/pages/Admin.tsx:204 | deleting an id that no event carries leaves the list unchanged |
| Catalogue.WithoutAppend | src/pages/Admin.tsx:204 | deleting distributes over concatenation, so it works element by element and keeps order |
| Catalogue.WithoutLeavesNone | src/pages/Admin.tsx:204 | after deleting, no event carries the id |
| Catalogue.WithoutIdempotent | src/pages/Admin.tsx:204 | deleting twice equals deleting once |
| Catalogue.WithoutIsSubsequence | src/pages/Admin.tsx:204 | the surviving events are a subsequence of the old list (original order kept) |
| Catalogue.CreateAfterDeleteReusesId | src/pages/Admin.tsx:167-204 | deleting the event just created restores the old list, and the next create hands out the same id again |
| AdminPage.Load | src/pages/Admin.tsx:37-79 | the load effect installs the two placeholder events, whose ids are present and unique, and clears the loading flag; nothing else changes |
| AdminPage.LoadInitial | src/pages/Admin.tsx:20-79 | the page starts loading, with an empty list and a closed blank form; after the load effect it holds the placeholder events with present, unique ids, has stopped loading, and the form is still closed and blank |
| AdminPage.SetField | src/pages/Admin.tsx:81-87 | the typed field alone changes, and id and image keep their values; the capacity becomes `parseInt(value)`, or 0 for NaN; the attendee count becomes exactly the typed text, and typing in any other box leaves the stored count (number or text) as it was; any text field reads back exactly the typed text |
| AdminPage.InputChange | src/pages/Admin.tsx:81-87 | an input change replaces the form by the field update above and touches nothing else on the page |
| AdminPage.Select | src/pages/Admin.tsx:94-98 | selecting an event makes it both the selection and the form and opens editing; the list, file, progress and loading flag are untouched |
| AdminPage.CreateNew | src/pages/Admin.tsx:100-112 | "Create New" clears the selection and opens a form with no id, empty text boxes, an empty image URL and numeric zero counts; the list, chosen file, progress and loading flag are untouched |
| AdminPage.Cancel | src/pages/Admin.tsx:114-119 | cancel leaves the form closed: not editing, nothing selected, no file, progress 0; the list and the form's contents stay |
| AdminPage.Saved | src/pages/Admin.tsx:126-149 | the saved event is the form with only its image possibly changed; with no new file it is the form itself, keeping its current image URL |
| AdminPage.Submit | src/pages/Admin.tsx:121-192 | with a truthy selected id, submit updates exactly the events carrying it and keeps the rest; otherwise it appends the saved event under a fresh id; either way the form closes and loading ends |
| AdminPage.Delete | src/pages/Admin.tsx:194-223 | a missing or zero id, or a declined dialog, changes nothing; otherwise the list becomes the order-preserving filter `Without` (no event carries the id, every other event stays in place); the form closes exactly when it was showing that id, otherwise the selection and editing state are kept |
| AdminPage.RetypeCapacity | src/pages/Admin.tsx:361-370 | typing back the capacity the box displays stores the same capacity |
| AdminPage.RetypeCurrentAttendees | src/pages/Admin.tsx:377-385 | typing back the attendee count the box displays keeps its text but stores it as text, no longer as a number |
| AdminPage.SubmitKeepsWellKeyed | src/pages/Admin.tsx:151-178 | submitting keeps every id present and unique |
| AdminPage.DeleteKeepsWellKeyed | src/pages/Admin.tsx:194-204 | deleting keeps every id present and unique |
| AdminPage.DeleteIdempotent | src/pages/Admin.tsx:194-213 | confirming the same delete twice yields the same page as confirming it once |
| AdminPage.SaveUnchangedSelection | src/pages/Admin.tsx:94-98 | selecting a listed event and saving it with no edits and no file leaves the list unchanged |
| AdminPage.CreateNewThenSubmit | src/pages/Admin.tsx:100-112 | "Create New" then submit with no file appends a blank event under a fresh truthy id |
| NumberText.IntOrZero | src/pages/Admin.tsx:85 | the capacity conversion is 0 when parsing gives NaN and the parsed number otherwise |
| NumberText.ParseShow | src/pages/Admin.tsx:85 | parsing an integer's decimal text, followed by any text that does not start with a digit, gives that integer |
| NumberText.IntOrZeroShow | src/pages/Admin.tsx:85 | the capacity conversion inverts the display of every integer |
| NumberText.ParseIgnoresLeadingSpace | src/pages/Admin.tsx:85 | leading white space does not change what `parseInt` reads |
| NumberText.NoDigitsIsZero | src/pages/Admin.tsx:85 | text without a digit parses to NaN, so the capacity becomes 0 |
| Listing.SeatsLeft | src/pages/Index.tsx:119-121 | seats left plus attendees equal the capacity; no seat is left exactly when the event is sold out; within capacity the figure lies between 0 and the capacity |
| Listing.Seats | src/pages/Index.tsx:118-123 | the seat line shows the seats left out of a total equal to the capacity, the two differing by the attendees; it is red exactly when attendees exceed the capacity minus 20, i.e. fewer than 20 seats remain |
| Listing.ButtonLabel | src/pages/Index.tsx:137 | the label is "Sold Out" exactly when attendees reach the capacity, and "Register Now" exactly when they do not |
| Listing.CardColour | src/pages/Index.tsx:93 | a card's colour counts only when it is set and is not the empty string |
| Listing.ButtonColour | src/pages/Index.tsx:131-135 | the button is gray `rgb(156, 163, 175)` when sold out; otherwise it uses the card's colour if there is one, else `rgb(79, 70, 229)` |
| Listing.BorderColour | src/pages/Index.tsx:92-95 | the border uses the card's colour if there is one, else `transparent` |
| Listing.ButtonMatchesBorder | src/pages/Index.tsx:92-135 | while seats remain, button and border show the same card colour when there is one, and differ (indigo against transparent) when there is none |
| Listing.Register | src/pages/Index.tsx:56-62 | the length and order are kept; events with other ids are unchanged; an event with the id gets one more attendee and keeps every other field |
| Listing.Click | src/pages/Index.tsx:127-130 | a sold-out card's disabled button changes nothing; otherwise the click is exactly the register handler for the card's id, so the clicked event gains one attendee |
| Listing.ClickAll | src/pages/Index.tsx:127-130 | any sequence of button clicks keeps the list's length, every id and every capacity |
| Listing.ClickAllKeepsCapacity | src/pages/Index.tsx:56-62 | with unique ids, every event stays within capacity after any sequence of clicks on any cards |
| Listing.RegisterUnknown | src/pages/Index.tsx:58-62 | registering for an unknown id leaves the list unchanged |
| Listing.RegisterTakesOneSeat | src/pages/Index.tsx:58-62 | registering takes exactly one seat from the target and none from any other card |
| Listing.RegisterAttendance | src/pages/Index.tsx:58-62 | total attendance rises by the number of events carrying the id |
| Listing.RegisterAddsOne | src/pages/Index.tsx:56-62 | with unique ids, registering for a listed event adds exactly one attendee overall |
| Listing.RegisterKeepsCapacity | src/pages/Index.tsx:56-62 | when no target is sold out, registering keeps every event within `0..capacity` |
| Listing.RegisterOverbooks | src/pages/Index.tsx:56-62 | the handler has no capacity check: registering for a sold-out event takes it over capacity |
| Listing.ClickKeepsCapacity | src/pages/Index.tsx:127-130 | with unique ids, the guarded button keeps every event within capacity |
| Listing.SeedConsistent | src/pages/Index.tsx:8-29 | the placeholder events have unique ids, are within capacity, and are neither sold out nor low on seats |
| Listing.SeedClicksKeepCapacity | src/pages/Index.tsx:8-62 | starting from the placeholder events, any sequence of clicks on any cards keeps every event within capacity |
| Listing.TwoSeatScenario | src/pages/Index.tsx:129-137 | an empty two-seat event fills after two clicks, then reads "Sold Out", and a third click changes nothing |

## Left out

- Rendering, toasts, `console.error` and the intermediate `loading = true` states are not modelled. Each handler's final state is modelled.
- The confirmation dialog in delete is not modelled; its answer is the `confirmed` parameter.
- `URL.createObjectURL` is not modelled. A chosen file is known only by the object URL it yields, which is given from outside.
- The simulated upload timer in submit is not modelled. It runs after the handler returns and keeps raising the progress to 100 after submit has reset it to 0. Submit's result holds progress 0.
- The `catch` branches of submit and delete are not modelled. Nothing in the modelled list computations throws.
- The browser's form validation (`required`, `min` on the number boxes) is not modelled. It runs before submit, so `Submit` accepts any form.
- The colour-extraction effect that fills `cardColors` is not modelled. It is asynchronous image loading through a third-party library, so the colour map is a parameter of the colour functions.
- Date formatting for display is not modelled, because it depends on the locale.
- `src/utils/colorExtractor.ts`, `src/lib/supabase.ts`, `src/pages/Auth.tsx`, `src/components/Navbar.tsx` and `src/App.tsx` are not modelled. They are glue around the browser and an external service SDK.
- Per-user registration, duplicate-registration checks, atomic check-and-increment and owner scoping are not modelled, because the code has none of them.
- NumberText.ParseInt: the `0x` hexadecimal prefix, Unicode white space other than ASCII, and the rounding of digit strings beyond 2^53 are not modelled. Integers are unbounded.
- Catalogue.NewId: `Math.max(0, ...ids) + 1` is a JavaScript floating-point number, so from 2^53 on the new id can equal the largest one and would not be fresh. The model uses unbounded integers, so freshness holds for every list. The placeholder ids 1 and 2 are far from that bound.
- Listing.Register: JavaScript's floating-point `+ 1` is modelled as an unbounded integer increment. The two differ only beyond 2^53 attendees.
- AdminPage.InputChange: only the six named inputs use this handler, so an arbitrary property name (`[name]: value`) is not modelled.
- AdminPage.ImageChange: the file picker's handler is modelled, but without a contract, because it only stores its argument.
