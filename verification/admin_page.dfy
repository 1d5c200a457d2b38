/**
 * The admin page's state and its event handlers, each lifted into a pure
 * function from the page before to the page after.  The page publishes the
 * result through React state setters; toasts, the confirmation dialog and the
 * simulated upload timer are outside the model (the dialog's answer is a
 * parameter).
 */
module AdminPage {
  import opened Wrappers
  import opened Catalogue
  import NumberText

  /** A chosen image file, known to the model only by the object URL the browser mints for it. */
  datatype File = File(objectUrl: string)

  /** The named inputs of the event form. */
  datatype Field = Name | Date | Location | Description | MaxAttendees | CurrentAttendees

  /** Everything the page keeps in React state. */
  datatype Page = Page(
    events: seq<Event>,
    loading: bool,
    selected: Option<Event>,
    form: Event,
    editing: bool,
    imageFile: Option<File>,
    progress: int)

  /** The empty form: no id, blank text, zero counts. */
  const BlankForm: Event := Event(0, "", "", "", "", 0, Number(0), "")

  /** The page before the event list has loaded. */
  const Initial: Page := Page([], true, None, BlankForm, false, None, 0)

  /** The placeholder events the page loads in place of a database query. */
  const Seed: seq<Event> := [
    Event(1, "Tech Conference 2025", "2025-05-15T09:00:00", "San Francisco Convention Center",
      "Annual tech conference featuring the latest innovations and industry leaders.",
      200, Number(120),
      "https://images.unsplash.com/photo-1540575467063-178a50c2df87?w=500&auto=format&fit=crop&q=60&ixlib=rb-4.0.3&ixid=M3wxMjA3fDB8MHxzZWFyY2h8Mnx8ZXZlbnR8ZW58MHx8MHx8fDA%3D"),
    Event(2, "Music Festival", "2025-06-20T16:00:00", "Central Park",
      "A weekend of amazing music performances from top artists.",
      500, Number(350),
      "https://images.unsplash.com/photo-1514525253161-7a46d19cd819?w=500&auto=format&fit=crop&q=60&ixlib=rb-4.0.3&ixid=M3wxMjA3fDB8MHxzZWFyY2h8M3x8Y29uY2VydHxlbnwwfHwwfHx8MA%3D%3D")
  ]

  /** The form is closed: nothing selected, no file chosen, no upload under way. */
  predicate Closed(p: Page) {
    !p.editing && p.selected.None? && p.imageFile.None? && p.progress == 0
  }

  /** A submit updates (rather than creates) exactly when the selection has a truthy id. */
  predicate Updating(p: Page) {
    p.selected.Some? && HasId(p.selected.value)
  }

  // ---------------------------------------------------------------- loading

  /** The effect that fills the list on first render. */
  function Load(p: Page): (r: Page)
    ensures !r.loading && WellKeyed(r.events) && |r.events| == 2
    ensures r.events == Seed
    ensures r == p.(events := r.events, loading := false)
  {
    p.(events := Seed, loading := false)
  }

  // ---------------------------------------------------------------- form fields

  /** The text an input box shows for a field of the form. */
  function FieldText(f: Event, k: Field): string
  {
    match k
    case Name => f.name
    case Date => f.date
    case Location => f.location
    case Description => f.description
    case MaxAttendees => NumberText.Show(f.maxAttendees)
    case CurrentAttendees =>
      match f.currentAttendees
      case Number(n) => NumberText.Show(n)
      case Text(s) => s
  }

  /**
   * Typing `v` into the box for `k`: only that field changes; the capacity is
   * converted with `parseInt(v) || 0`, every other field keeps the text as typed.
   */
  function SetField(f: Event, k: Field, v: string): (r: Event)
    ensures r.id == f.id && r.imageUrl == f.imageUrl
    ensures forall k' | k' != k :: FieldText(r, k') == FieldText(f, k')
    ensures k == MaxAttendees ==> r.maxAttendees == NumberText.IntOrZero(v)
    ensures k != MaxAttendees ==> FieldText(r, k) == v && r.maxAttendees == f.maxAttendees
    ensures k == CurrentAttendees ==> r.currentAttendees == Text(v)
    ensures k != CurrentAttendees ==> r.currentAttendees == f.currentAttendees
  {
    match k
    case Name => f.(name := v)
    case Date => f.(date := v)
    case Location => f.(location := v)
    case Description => f.(description := v)
    case MaxAttendees => f.(maxAttendees := NumberText.IntOrZero(v))
    case CurrentAttendees => f.(currentAttendees := Text(v))
  }

  /** The change handler of every form input: it edits the form and nothing else. */
  function InputChange(p: Page, k: Field, v: string): (r: Page)
    ensures r == p.(form := r.form)
    ensures r.form.id == p.form.id
    ensures k == MaxAttendees ==> r.form.maxAttendees == NumberText.IntOrZero(v)
    ensures k != MaxAttendees ==> FieldText(r.form, k) == v
    ensures r.form == SetField(p.form, k, v)
  {
    p.(form := SetField(p.form, k, v))
  }

  /** The file picker's change handler: the first chosen file, or none. */
  function ImageChange(p: Page, file: Option<File>): Page
  {
    p.(imageFile := file)
  }

  // ---------------------------------------------------------------- editing state

  /** Clicking an event in the list loads it into the form. */
  function Select(p: Page, e: Event): (r: Page)
    ensures r.editing && r.selected == Some(e) && r.form == e
    ensures r == p.(selected := r.selected, form := r.form, editing := true)
  {
    p.(selected := Some(e), form := e, editing := true)
  }

  /** "Create New": no selection and a blank form, opened for editing. */
  function CreateNew(p: Page): (r: Page)
    ensures r.editing && r.selected.None? && !HasId(r.form)
    ensures forall k :: FieldText(r.form, k) == (if k == MaxAttendees || k == CurrentAttendees then "0" else "")
    ensures r.form.imageUrl == "" && r.form.currentAttendees == Number(0)
    ensures r == p.(selected := r.selected, form := r.form, editing := true)
  {
    p.(selected := None, form := BlankForm, editing := true)
  }

  /** "Cancel": closes the form; the form's contents and the list stay as they are. */
  function Cancel(p: Page): (r: Page)
    ensures Closed(r)
    ensures r.events == p.events && r.form == p.form && r.loading == p.loading
  {
    p.(editing := false, selected := None, imageFile := None, progress := 0)
  }

  // ---------------------------------------------------------------- submit

  /** The event a submit saves: the form, with the chosen file's URL when there is one. */
  function Saved(p: Page): (e: Event)
    ensures e == p.form.(imageUrl := e.imageUrl)
    ensures p.imageFile.None? ==> e == p.form
    ensures p.imageFile.Some? ==> e.imageUrl == p.imageFile.value.objectUrl
  {
    match p.imageFile
    case Some(file) => p.form.(imageUrl := file.objectUrl)
    case None => p.form
  }

  /**
   * Submitting the form: an update of the selected event when the selection has
   * a truthy id, otherwise the creation of a new event; then the form closes.
   */
  function Submit(p: Page): (r: Page)
    ensures Closed(r) && !r.loading && r.form == p.form
    ensures Updating(p) ==>
      var id := p.selected.value.id;
      && |r.events| == |p.events|
      && (forall i | 0 <= i < |p.events| && p.events[i].id != id :: r.events[i] == p.events[i])
      && (forall i | 0 <= i < |p.events| && p.events[i].id == id :: r.events[i] == Saved(p).(id := id))
    ensures !Updating(p) ==>
      var n := |p.events|;
      && |r.events| == n + 1
      && r.events[..n] == p.events
      && r.events[n] == Saved(p).(id := r.events[n].id)
      && HasId(r.events[n]) && Fresh(r.events[n].id, p.events)
      && r.events[n].id == NewId(p.events)
  {
    var events :=
      if Updating(p) then Replace(p.events, p.selected.value.id, Saved(p))
      else Create(p.events, Saved(p));
    Cancel(p.(events := events, loading := false))
  }

  // ---------------------------------------------------------------- delete

  /**
   * The delete button of event `id`, with `confirmed` the answer to the
   * confirmation dialog.  A missing or zero id, or a declined dialog, changes
   * nothing; otherwise the event leaves the list, and the form closes if it was
   * showing that event.
   */
  function Delete(p: Page, id: int, confirmed: bool): (r: Page)
    ensures id == 0 || !confirmed ==> r == p
    ensures id != 0 && confirmed ==>
      && !r.loading && r.form == p.form
      && Fresh(id, r.events)
      && (forall e :: e in r.events <==> e in p.events && e.id != id)
      && r.events == Without(p.events, id)
    ensures id != 0 && confirmed && p.selected.Some? && p.selected.value.id == id ==> Closed(r)
    ensures id != 0 && confirmed && !(p.selected.Some? && p.selected.value.id == id) ==>
      r == p.(events := r.events, loading := false)
  {
    if id == 0 || !confirmed then p
    else
      WithoutLeavesNone(p.events, id);
      var q := p.(events := Without(p.events, id), loading := false);
      if p.selected.Some? && p.selected.value.id == id then Cancel(q) else q
  }

  // ---------------------------------------------------------------- lemmas

  /**
   * The first render: the page starts loading with an empty list and a closed
   * blank form, and the load effect leaves it with the placeholder events, no
   * longer loading, and the form still closed.
   */
  lemma LoadInitial()
    ensures Initial.loading && Initial.events == [] && Closed(Initial)
    ensures var r := Load(Initial);
      && r.events == Seed && WellKeyed(r.events) && !r.loading
      && Closed(r) && r.form == BlankForm
  {
  }

  /** Re-typing the capacity the box shows stores the same capacity again. */
  lemma RetypeCapacity(f: Event)
    ensures SetField(f, MaxAttendees, FieldText(f, MaxAttendees)) == f
  {
    NumberText.IntOrZeroShow(f.maxAttendees);
  }

  /**
   * Re-typing the attendee count the box shows turns a numeric count into its
   * text: the box keeps its digits, but the form no longer holds a number.
   */
  lemma RetypeCurrentAttendees(f: Event, n: int)
    requires f.currentAttendees == Number(n)
    ensures FieldText(SetField(f, CurrentAttendees, FieldText(f, CurrentAttendees)), CurrentAttendees)
         == FieldText(f, CurrentAttendees)
    ensures SetField(f, CurrentAttendees, FieldText(f, CurrentAttendees)).currentAttendees
         == Text(NumberText.Show(n))
  {
  }

  /** Creating, updating and deleting all keep ids present and unique. */
  lemma SubmitKeepsWellKeyed(p: Page)
    requires WellKeyed(p.events)
    ensures WellKeyed(Submit(p).events)
  {
    if Updating(p) {
      ReplaceKeepsWellKeyed(p.events, p.selected.value.id, Saved(p));
    } else {
      CreateKeepsWellKeyed(p.events, Saved(p));
    }
  }

  lemma DeleteKeepsWellKeyed(p: Page, id: int, confirmed: bool)
    requires WellKeyed(p.events)
    ensures WellKeyed(Delete(p, id, confirmed).events)
  {
    if id != 0 && confirmed {
      WithoutIsSubsequence(p.events, id);
      SubsequenceKeepsWellKeyed(Without(p.events, id), p.events);
    }
  }

  /** Confirming the same deletion twice does nothing the first did not. */
  lemma DeleteIdempotent(p: Page, id: int)
    ensures Delete(Delete(p, id, true), id, true) == Delete(p, id, true)
  {
    if id != 0 {
      WithoutIdempotent(p.events, id);
    }
  }

  /** Saving a selected event without touching the form leaves the list as it was. */
  lemma SaveUnchangedSelection(p: Page, e: Event)
    requires WellKeyed(p.events)
    requires e in p.events
    requires p.imageFile.None?
    ensures Submit(Select(p, e)).events == p.events
  {
    var q := Select(p, e);
    var r := Submit(q);
    assert Updating(q);
    forall i | 0 <= i < |p.events|
      ensures r.events[i] == p.events[i]
    {
      if p.events[i].id == e.id {
        var j :| 0 <= j < |p.events| && p.events[j] == e;
        assert i == j;
      }
    }
  }

  /** "Create New" followed by a submit with no file appends a blank event under a fresh id. */
  lemma CreateNewThenSubmit(p: Page)
    requires p.imageFile.None?
    ensures var r := Submit(CreateNew(p)).events;
      && r[..|p.events|] == p.events
      && |r| == |p.events| + 1
      && r[|p.events|] == BlankForm.(id := r[|p.events|].id)
      && HasId(r[|p.events|]) && Fresh(r[|p.events|].id, p.events)
  {
    assert !Updating(CreateNew(p));
  }
}
