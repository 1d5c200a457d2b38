/**
 * The event list the admin page keeps, and the three list computations its
 * handlers publish: create (append under a fresh id), update (replace the
 * events carrying the selected id) and delete (filter out an id).
 *
 * An event's optional id is an `int` in which 0 stands for "missing": the page
 * reads ids as `e.id || 0`, and it treats 0 as "no id" wherever it tests an id
 * for truth.
 */
module Catalogue {

  /**
   * An attendee count as the admin page holds it.  The seed data carries
   * numbers; the form stores whatever text was typed into the "current
   * attendees" box unconverted, so a count can also be text.
   */
  datatype Count = Number(value: int) | Text(text: string)

  /** One event of the admin catalogue. */
  datatype Event = Event(
    id: int,
    name: string,
    date: string,
    location: string,
    description: string,
    maxAttendees: int,
    currentAttendees: Count,
    imageUrl: string)

  /** JavaScript truthiness of an event's id: it is present and not 0. */
  predicate HasId(e: Event) {
    e.id != 0
  }

  /** No event in `events` carries `id`. */
  predicate Fresh(id: int, events: seq<Event>) {
    forall i | 0 <= i < |events| :: events[i].id != id
  }

  /** Every event has an id, and no two events share one. */
  predicate WellKeyed(events: seq<Event>) {
    && (forall i | 0 <= i < |events| :: HasId(events[i]))
    && (forall i, j | 0 <= i < j < |events| :: events[i].id != events[j].id)
  }

  /** How many events carry `id`. */
  function Occurrences(events: seq<Event>, id: int): nat
  {
    if events == [] then 0
    else (if events[0].id == id then 1 else 0) + Occurrences(events[1..], id)
  }

  // ---------------------------------------------------------------- create

  /**
   * `Math.max(0, ...ids)`: the largest id in the list, or 0 when there is none
   * larger; it is one of the ids unless it is the floor 0.
   */
  function MaxId(events: seq<Event>): (m: int)
    ensures 0 <= m
    ensures forall i | 0 <= i < |events| :: events[i].id <= m
    ensures m == 0 || exists i | 0 <= i < |events| :: events[i].id == m
  {
    if events == [] then 0
    else
      var rest := MaxId(events[1..]);
      if events[0].id > rest then events[0].id else rest
  }

  /** The id a created event receives: one more than the largest id in use. */
  function NewId(events: seq<Event>): (id: int)
    ensures id > 0
    ensures Fresh(id, events)
    ensures forall i | 0 <= i < |events| :: events[i].id < id
    ensures id == 1 || exists i | 0 <= i < |events| :: events[i].id == id - 1
  {
    MaxId(events) + 1
  }

  /** The list after creating `saved`: the old list followed by `saved` under a fresh id. */
  function Create(events: seq<Event>, saved: Event): (r: seq<Event>)
    ensures |r| == |events| + 1
    ensures r[..|events|] == events
    ensures r[|events|] == saved.(id := r[|events|].id)
    ensures HasId(r[|events|]) && Fresh(r[|events|].id, events)
    ensures r[|events|].id == NewId(events)
  {
    events + [saved.(id := NewId(events))]
  }

  // ---------------------------------------------------------------- update

  /**
   * The list after updating the event whose id is `id` with `saved`: every
   * event carrying `id` becomes `saved` under that id, the others stay.
   */
  function Replace(events: seq<Event>, id: int, saved: Event): (r: seq<Event>)
    ensures |r| == |events|
    ensures forall i | 0 <= i < |events| :: r[i].id == events[i].id
    ensures forall i | 0 <= i < |events| && events[i].id != id :: r[i] == events[i]
    ensures forall i | 0 <= i < |events| && events[i].id == id :: r[i] == saved.(id := id)
  {
    seq(|events|, i requires 0 <= i < |events| => if events[i].id == id then saved.(id := id) else events[i])
  }

  // ---------------------------------------------------------------- delete

  /** The list without the events carrying `id`, the others kept in order. */
  function Without(events: seq<Event>, id: int): (r: seq<Event>)
    ensures |r| + Occurrences(events, id) == |events|
    ensures forall e :: e in r <==> e in events && e.id != id
  {
    if events == [] then []
    else (if events[0].id == id then [] else [events[0]]) + Without(events[1..], id)
  }

  // ---------------------------------------------------------------- lemmas

  /** A created event's id is new, so creating never merges two events under one id. */
  lemma CreateKeepsWellKeyed(events: seq<Event>, saved: Event)
    requires WellKeyed(events)
    ensures WellKeyed(Create(events, saved))
  {
    var r := Create(events, saved);
    forall i, j | 0 <= i < j < |r|
      ensures r[i].id != r[j].id
    {
      if j < |events| {
        assert r[i] == events[i] && r[j] == events[j];
      } else {
        assert r[i] == events[i];
      }
    }
  }

  /** Updating never changes which ids the list holds, nor where. */
  lemma ReplaceKeepsWellKeyed(events: seq<Event>, id: int, saved: Event)
    requires WellKeyed(events)
    ensures WellKeyed(Replace(events, id, saved))
  {
  }

  /** Updating an id nobody carries changes nothing. */
  lemma ReplaceAbsent(events: seq<Event>, id: int, saved: Event)
    requires Fresh(id, events)
    ensures Replace(events, id, saved) == events
  {
  }

  /** Submitting the same update twice is the same as submitting it once. */
  lemma ReplaceIdempotent(events: seq<Event>, id: int, saved: Event)
    ensures Replace(Replace(events, id, saved), id, saved) == Replace(events, id, saved)
  {
  }

  /**
   * Ids are not remembered: deleting the event just created and creating
   * another hands the new one the same id again.
   */
  lemma CreateAfterDeleteReusesId(events: seq<Event>, first: Event, second: Event)
    ensures var id := NewId(events);
      && Without(Create(events, first), id) == events
      && Create(Without(Create(events, first), id), second)[|events|].id == id
  {
    var id := NewId(events);
    WithoutAppend(events, [first.(id := id)], id);
    WithoutAbsent(events, id);
    assert Without([first.(id := id)], id) == [];
    assert events + [] == events;
  }

  /** Deleting an id nobody carries changes nothing. */
  lemma {:induction false} WithoutAbsent(events: seq<Event>, id: int)
    requires Fresh(id, events)
    ensures Without(events, id) == events
  {
    if events != [] {
      WithoutAbsent(events[1..], id);
      assert [events[0]] + events[1..] == events;
    }
  }

  /** Deleting works element by element, so it keeps the survivors' order. */
  lemma {:induction false} WithoutAppend(a: seq<Event>, b: seq<Event>, id: int)
    ensures Without(a + b, id) == Without(a, id) + Without(b, id)
  {
    if a == [] {
      assert a + b == b;
    } else {
      assert (a + b)[0] == a[0];
      assert (a + b)[1..] == a[1..] + b;
      WithoutAppend(a[1..], b, id);
    }
  }

  /** Afterwards nobody carries the deleted id. */
  lemma WithoutLeavesNone(events: seq<Event>, id: int)
    ensures Fresh(id, Without(events, id))
  {
    var r := Without(events, id);
    forall i | 0 <= i < |r|
      ensures r[i].id != id
    {
      assert r[i] in r;
    }
  }

  /** Deleting twice is the same as deleting once. */
  lemma WithoutIdempotent(events: seq<Event>, id: int)
    ensures Without(Without(events, id), id) == Without(events, id)
  {
    WithoutLeavesNone(events, id);
    WithoutAbsent(Without(events, id), id);
  }

  /** Deleting keeps every surviving event in its original order. */
  lemma {:induction false} WithoutIsSubsequence(events: seq<Event>, id: int)
    ensures IsSubsequence(Without(events, id), events)
  {
    if events != [] {
      WithoutIsSubsequence(events[1..], id);
      var rest := Without(events[1..], id);
      if events[0].id != id {
        assert Without(events, id) == [events[0]] + rest;
        assert ([events[0]] + rest)[1..] == rest;
      } else {
        assert Without(events, id) == rest;
        SubsequenceOfTail(rest, events);
      }
    }
  }

  /** `a` can be obtained from `b` by dropping elements. */
  predicate IsSubsequence(a: seq<Event>, b: seq<Event>)
    decreases |b|
  {
    if a == [] then true
    else if b == [] then false
    else if a[0] == b[0] then IsSubsequence(a[1..], b[1..])
    else IsSubsequence(a, b[1..])
  }

  /** Putting one more element in front of `b` keeps `a` a subsequence of it. */
  lemma {:induction false} SubsequenceOfTail(a: seq<Event>, b: seq<Event>)
    requires b != []
    requires IsSubsequence(a, b[1..])
    ensures IsSubsequence(a, b)
    decreases |b|, 1
  {
    if a != [] && a[0] == b[0] {
      SubsequenceDropHead(a, b[1..]);
    }
  }

  /** Dropping the first element of a subsequence leaves a subsequence. */
  lemma {:induction false} SubsequenceDropHead(a: seq<Event>, b: seq<Event>)
    requires a != []
    requires IsSubsequence(a, b)
    ensures IsSubsequence(a[1..], b)
    decreases |b| + 1, 0
  {
    if a[1..] != [] {
      if a[0] != b[0] {
        SubsequenceDropHead(a, b[1..]);
      }
      SubsequenceOfTail(a[1..], b);
    }
  }

  /** Dropping events never makes two events share an id. */
  lemma {:induction false} SubsequenceKeepsWellKeyed(a: seq<Event>, b: seq<Event>)
    requires IsSubsequence(a, b)
    requires WellKeyed(b)
    ensures WellKeyed(a)
    decreases |b|
  {
    if a != [] {
      assert b != [];
      if a[0] == b[0] {
        SubsequenceKeepsWellKeyed(a[1..], b[1..]);
        // a[0]'s id is b[0]'s, which no later event of b carries
        forall j | 0 < j < |a|
          ensures a[0].id != a[j].id
        {
          assert a[j] in a[1..];
          SubsequenceMembers(a[1..], b[1..], a[j]);
        }
      } else {
        SubsequenceKeepsWellKeyed(a, b[1..]);
      }
    }
  }

  /** Every event of a subsequence is an event of the whole. */
  lemma {:induction false} SubsequenceMembers(a: seq<Event>, b: seq<Event>, e: Event)
    requires IsSubsequence(a, b)
    requires e in a
    ensures e in b
    decreases |b|
  {
    if a[0] == b[0] {
      if e != a[0] {
        SubsequenceMembers(a[1..], b[1..], e);
      }
    } else {
      SubsequenceMembers(a, b[1..], e);
    }
  }
}
