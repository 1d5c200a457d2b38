/**
 * The public event listing: the register handler's list update and the
 * seat-accounting predicates the cards render.
 *
 * The handler itself checks nothing; capacity is protected only by disabling
 * the button of a sold-out card.  `Register` is therefore total, and the
 * capacity invariant is proved for `Click`, the button with its guard, when
 * ids are unique (the handler raises every card carrying the clicked id), and
 * so for any clicks on the placeholder list.
 */
module Listing {
  import opened Wrappers

  /** One card's event, as the listing holds it; every id is present. */
  datatype Event = Event(
    id: int,
    name: string,
    date: string,
    location: string,
    description: string,
    maxAttendees: int,
    currentAttendees: int,
    imageUrl: string)

  const SoldOutGray := "rgb(156, 163, 175)"
  const DefaultIndigo := "rgb(79, 70, 229)"
  const NoBorder := "transparent"

  /** The placeholder events the listing starts from. */
  const Seed: seq<Event> := [
    Event(1, "Tech Conference 2025", "2025-05-15T09:00:00", "San Francisco Convention Center",
      "Annual tech conference featuring the latest innovations and industry leaders.",
      200, 120,
      "https://images.unsplash.com/photo-1540575467063-178a50c2df87?w=500&auto=format&fit=crop&q=60&ixlib=rb-4.0.3&ixid=M3wxMjA3fDB8MHxzZWFyY2h8Mnx8ZXZlbnR8ZW58MHx8MHx8fDA%3D"),
    Event(2, "Music Festival", "2025-06-20T16:00:00", "Central Park",
      "A weekend of amazing music performances from top artists.",
      500, 350,
      "https://images.unsplash.com/photo-1514525253161-7a46d19cd819?w=500&auto=format&fit=crop&q=60&ixlib=rb-4.0.3&ixid=M3wxMjA3fDB8MHxzZWFyY2h8M3x8Y29uY2VydHxlbnwwfHwwfHx8MA%3D%3D")
  ]

  // ---------------------------------------------------------------- display

  /** The card shows no free seat and a disabled button. */
  predicate SoldOut(e: Event) {
    e.currentAttendees >= e.maxAttendees
  }

  /** The event holds no more attendees than it has seats, and no fewer than none. */
  predicate WithinCapacity(e: Event) {
    0 <= e.currentAttendees <= e.maxAttendees
  }

  predicate AllWithinCapacity(events: seq<Event>) {
    forall i | 0 <= i < |events| :: WithinCapacity(events[i])
  }

  predicate UniqueIds(events: seq<Event>) {
    forall i, j | 0 <= i < j < |events| :: events[i].id != events[j].id
  }

  /** The "Available Seats" figure: what is left of the capacity. */
  function SeatsLeft(e: Event): (n: int)
    ensures n + e.currentAttendees == e.maxAttendees
    ensures n <= 0 <==> SoldOut(e)
    ensures WithinCapacity(e) ==> 0 <= n <= e.maxAttendees
  {
    e.maxAttendees - e.currentAttendees
  }

  /** What a card's seat line shows: seats left, out of how many, and whether in red. */
  datatype SeatLine = SeatLine(left: int, outOf: int, red: bool)

  /** The seat figure is highlighted in red when fewer than 20 seats remain. */
  predicate LowSeats(e: Event) {
    SeatsLeft(e) < 20
  }

  /** The seat line of a card. */
  function Seats(e: Event): (s: SeatLine)
    ensures s.outOf == e.maxAttendees
    ensures s.left + e.currentAttendees == s.outOf
    ensures s.red <==> e.currentAttendees > e.maxAttendees - 20
  {
    SeatLine(SeatsLeft(e), e.maxAttendees, LowSeats(e))
  }

  /** The button's text. */
  function ButtonLabel(e: Event): (s: string)
    ensures s == "Sold Out" <==> SoldOut(e)
    ensures s == "Register Now" <==> !SoldOut(e)
  {
    if SoldOut(e) then "Sold Out" else "Register Now"
  }

  /** `cardColors[id]`, when it is set and non-empty (an empty string is falsy). */
  function CardColour(colours: map<int, string>, id: int): (c: Option<string>)
    ensures c.Some? <==> id in colours && colours[id] != ""
    ensures c.Some? ==> c.value == colours[id]
  {
    if id in colours && colours[id] != "" then Some(colours[id]) else None
  }

  /** The button's background: gray when sold out, else the card's colour, else indigo. */
  function ButtonColour(e: Event, colours: map<int, string>): (c: string)
    ensures SoldOut(e) ==> c == SoldOutGray
    ensures !SoldOut(e) && CardColour(colours, e.id).Some? ==> c == colours[e.id]
    ensures !SoldOut(e) && CardColour(colours, e.id).None? ==> c == DefaultIndigo
    ensures c != ""
  {
    if SoldOut(e) then SoldOutGray
    else match CardColour(colours, e.id)
      case Some(col) => col
      case None => DefaultIndigo
  }

  /** The card's border: its colour, else transparent. */
  function BorderColour(e: Event, colours: map<int, string>): (c: string)
    ensures CardColour(colours, e.id).Some? ==> c == colours[e.id]
    ensures CardColour(colours, e.id).None? ==> c == NoBorder
    ensures c != ""
  {
    match CardColour(colours, e.id)
    case Some(col) => col
    case None => NoBorder
  }

  // ---------------------------------------------------------------- register

  /** The register handler: one more attendee for every event carrying `id`, nothing else. */
  function Register(events: seq<Event>, id: int): (r: seq<Event>)
    ensures |r| == |events|
    ensures forall i | 0 <= i < |events| && events[i].id != id :: r[i] == events[i]
    ensures forall i | 0 <= i < |events| && events[i].id == id ::
      r[i] == events[i].(currentAttendees := r[i].currentAttendees)
      && r[i].currentAttendees == events[i].currentAttendees + 1
  {
    seq(|events|, i requires 0 <= i < |events| =>
      if events[i].id == id then events[i].(currentAttendees := events[i].currentAttendees + 1)
      else events[i])
  }

  /** A click on the register button of card `i`: a sold-out card's button is disabled. */
  function Click(events: seq<Event>, i: nat): (r: seq<Event>)
    requires i < |events|
    ensures SoldOut(events[i]) ==> r == events
    ensures |r| == |events|
    ensures !SoldOut(events[i]) ==> r[i].currentAttendees == events[i].currentAttendees + 1
    ensures forall j | 0 <= j < |events| :: r[j].id == events[j].id && r[j].maxAttendees == events[j].maxAttendees
    ensures !SoldOut(events[i]) ==> r == Register(events, events[i].id)
  {
    if SoldOut(events[i]) then events else Register(events, events[i].id)
  }

  /** The list after clicking the register buttons of the cards at `clicks`, in order. */
  function ClickAll(events: seq<Event>, clicks: seq<nat>): (r: seq<Event>)
    requires forall k | 0 <= k < |clicks| :: clicks[k] < |events|
    ensures |r| == |events|
    ensures forall j | 0 <= j < |events| :: r[j].id == events[j].id && r[j].maxAttendees == events[j].maxAttendees
    decreases |clicks|
  {
    if clicks == [] then events else ClickAll(Click(events, clicks[0]), clicks[1..])
  }

  /** Total attendance over the list. */
  function Attendance(events: seq<Event>): int
  {
    if events == [] then 0 else Attendance(events[..|events| - 1]) + events[|events| - 1].currentAttendees
  }

  /** How many events carry `id`. */
  function Occurrences(events: seq<Event>, id: int): nat
  {
    if events == [] then 0
    else Occurrences(events[..|events| - 1], id) + (if events[|events| - 1].id == id then 1 else 0)
  }

  // ---------------------------------------------------------------- lemmas

  /** Registering for an id nobody carries changes nothing. */
  lemma RegisterUnknown(events: seq<Event>, id: int)
    requires forall i | 0 <= i < |events| :: events[i].id != id
    ensures Register(events, id) == events
  {
  }

  /** Each registration takes exactly one seat from the target and none from any other card. */
  lemma RegisterTakesOneSeat(events: seq<Event>, id: int, i: nat)
    requires i < |events|
    ensures events[i].id == id ==> SeatsLeft(Register(events, id)[i]) == SeatsLeft(events[i]) - 1
    ensures events[i].id != id ==> SeatsLeft(Register(events, id)[i]) == SeatsLeft(events[i])
  {
  }

  /** Registration raises the total attendance by the number of cards carrying the id. */
  lemma {:induction false} RegisterAttendance(events: seq<Event>, id: int)
    ensures Attendance(Register(events, id)) == Attendance(events) + Occurrences(events, id)
  {
    if events != [] {
      var n := |events| - 1;
      var r := Register(events, id);
      assert r[..n] == Register(events[..n], id);
      RegisterAttendance(events[..n], id);
    }
  }

  /** With unique ids, registering for a listed event adds exactly one attendee overall. */
  lemma RegisterAddsOne(events: seq<Event>, i: nat)
    requires i < |events|
    requires UniqueIds(events)
    ensures Attendance(Register(events, events[i].id)) == Attendance(events) + 1
  {
    RegisterAttendance(events, events[i].id);
    OccursOnce(events, i);
  }

  lemma {:induction false} OccursOnce(events: seq<Event>, i: nat)
    requires i < |events|
    requires UniqueIds(events)
    ensures Occurrences(events, events[i].id) == 1
  {
    var n := |events| - 1;
    if i < n {
      OccursOnce(events[..n], i);
      assert events[..n][i] == events[i];
    } else {
      AbsentNoOccurrences(events[..n], events[i].id);
    }
  }

  lemma {:induction false} AbsentNoOccurrences(events: seq<Event>, id: int)
    requires forall j | 0 <= j < |events| :: events[j].id != id
    ensures Occurrences(events, id) == 0
  {
    if events != [] {
      AbsentNoOccurrences(events[..|events| - 1], id);
    }
  }

  /**
   * Registering never breaks capacity when no target is sold out; this is the
   * guard the button supplies and the handler does not.
   */
  lemma RegisterKeepsCapacity(events: seq<Event>, id: int)
    requires AllWithinCapacity(events)
    requires forall i | 0 <= i < |events| && events[i].id == id :: !SoldOut(events[i])
    ensures AllWithinCapacity(Register(events, id))
  {
  }

  /** Without the guard, registering for a full event overbooks it. */
  lemma RegisterOverbooks(events: seq<Event>, i: nat)
    requires i < |events|
    requires SoldOut(events[i])
    ensures !WithinCapacity(Register(events, events[i].id)[i])
    ensures !AllWithinCapacity(Register(events, events[i].id))
  {
  }

  /** The guarded button keeps every card within capacity, provided ids are unique. */
  lemma ClickKeepsCapacity(events: seq<Event>, i: nat)
    requires i < |events|
    requires UniqueIds(events)
    requires AllWithinCapacity(events)
    ensures AllWithinCapacity(Click(events, i))
  {
    if !SoldOut(events[i]) {
      RegisterKeepsCapacity(events, events[i].id);
    }
  }

  /** However many clicks, on whichever cards, no event ever holds more attendees than seats. */
  lemma {:induction false} ClickAllKeepsCapacity(events: seq<Event>, clicks: seq<nat>)
    requires forall k | 0 <= k < |clicks| :: clicks[k] < |events|
    requires UniqueIds(events)
    requires AllWithinCapacity(events)
    ensures AllWithinCapacity(ClickAll(events, clicks))
    decreases |clicks|
  {
    if clicks != [] {
      var next := Click(events, clicks[0]);
      ClickKeepsCapacity(events, clicks[0]);
      assert UniqueIds(next);
      ClickAllKeepsCapacity(next, clicks[1..]);
    }
  }

  /** While seats remain, the button and the border share the card's colour whenever it has one. */
  lemma ButtonMatchesBorder(e: Event, colours: map<int, string>)
    requires !SoldOut(e)
    ensures CardColour(colours, e.id).Some? ==> ButtonColour(e, colours) == BorderColour(e, colours)
    ensures CardColour(colours, e.id).None? ==> ButtonColour(e, colours) != BorderColour(e, colours)
  {
  }

  /** The placeholder list starts unique and within capacity. */
  lemma SeedConsistent()
    ensures UniqueIds(Seed) && AllWithinCapacity(Seed)
    ensures forall i | 0 <= i < |Seed| :: !SoldOut(Seed[i]) && !LowSeats(Seed[i])
  {
  }

  /** On the placeholder list the page starts from, no sequence of clicks ever overbooks an event. */
  lemma SeedClicksKeepCapacity(clicks: seq<nat>)
    requires forall k | 0 <= k < |clicks| :: clicks[k] < |Seed|
    ensures AllWithinCapacity(ClickAll(Seed, clicks))
  {
    SeedConsistent();
    ClickAllKeepsCapacity(Seed, clicks);
  }

  /**
   * An event with two seats and nobody registered: two clicks fill it, the
   * button then reads "Sold Out" and a third click changes nothing.
   */
  lemma TwoSeatScenario(e: Event)
    requires e.maxAttendees == 2 && e.currentAttendees == 0
    ensures var once := Click([e], 0);
      var twice := Click(once, 0);
      && twice[0].currentAttendees == 2
      && ButtonLabel(twice[0]) == "Sold Out"
      && Click(twice, 0) == twice
  {
    var once := Click([e], 0);
    assert once[0].currentAttendees == 1;
  }
}
