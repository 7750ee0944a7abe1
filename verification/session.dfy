/** The component's state and its event handlers. React's separate state
    hooks are gathered into one record, and each handler maps the state
    before an event to the state after it. */
module Session {
  import opened Gregorian
  import opened Wrappers
  import opened Notes
  import DateKey
  import Navigation
  import Grid

  datatype State = State(
    currentMonth: Date,
    selectedDate: Date,
    notes: Store,
    showModal: bool,
    editingNote: Option<Note>,
    noteTitle: string,
    noteDate: string,
    nextId: nat)

  /** JavaScript's `a || fallback` on an optional string: the fallback is
      taken when `a` is missing or empty. */
  function OrElse(a: Option<string>, fallback: string): (r: string)
    ensures a.Some? && a.value != "" ==> r == a.value
    ensures a.None? || a.value == "" ==> r == fallback
  {
    if a.Some? && a.value != "" then a.value else fallback
  }

  /** The state at mount, where `today` stands for `new Date()`. */
  function Initial(today: Date): State {
    State(today, today, map[], false, None, "", DateKey.FormattedDate(today), 0)
  }

  /** `openModal(note)`. */
  function OpenModal(s: State, note: Option<Note>): (t: State)
    ensures t.showModal && t.editingNote == note
    ensures t.noteTitle == if note.Some? then note.value.title else ""
    ensures t.noteDate ==
      if note.Some? && note.value.date != "" then note.value.date else DateKey.FormattedDate(s.selectedDate)
    ensures t.currentMonth == s.currentMonth && t.selectedDate == s.selectedDate
    ensures t.notes == s.notes && t.nextId == s.nextId
  {
    var title := if note.Some? then Some(note.value.title) else None;
    var date := if note.Some? then Some(note.value.date) else None;
    s.(showModal := true, editingNote := note,
       noteTitle := OrElse(title, ""),
       noteDate := OrElse(date, DateKey.FormattedDate(s.selectedDate)))
  }

  /** `closeModal`: the dialog closes and the drafts return to their
      defaults. */
  function CloseModal(s: State): (t: State)
    ensures !t.showModal && t.editingNote.None?
    ensures t.noteTitle == "" && t.noteDate == DateKey.FormattedDate(s.selectedDate)
    ensures t.currentMonth == s.currentMonth && t.selectedDate == s.selectedDate
    ensures t.notes == s.notes && t.nextId == s.nextId
  {
    s.(showModal := false, editingNote := None, noteTitle := "",
       noteDate := DateKey.FormattedDate(s.selectedDate))
  }

  /** `saveNote`: the drafts are committed to the store under a fresh
      identity, then the dialog closes. */
  function SaveNote(s: State): (t: State)
    ensures t.notes == Notes.SaveNote(s.notes, s.editingNote, s.noteDate, s.noteTitle, s.nextId)
    ensures t.nextId == s.nextId + 1
    ensures !t.showModal && t.editingNote.None?
    ensures t.noteTitle == "" && t.noteDate == DateKey.FormattedDate(s.selectedDate)
    ensures t.currentMonth == s.currentMonth && t.selectedDate == s.selectedDate
  {
    var stored := s.(notes := Notes.SaveNote(s.notes, s.editingNote, s.noteDate, s.noteTitle, s.nextId),
                     nextId := s.nextId + 1);
    CloseModal(stored)
  }

  /** `handleMonthChange(k)` with the corrected month arithmetic: the
      displayed month moves by exactly `k` and nothing else changes. */
  function HandleMonthChange(s: State, k: int): (t: State)
    ensures Navigation.MonthIndex(t.currentMonth) == Navigation.MonthIndex(s.currentMonth) + k
    ensures t == s.(currentMonth := t.currentMonth)
  {
    s.(currentMonth := Navigation.ShiftMonth(s.currentMonth, k))
  }

  /** `handleMonthChange(k)` as the source computes it: the displayed month
      moves by `k`, or by `k + 1` when the anchor's day overflows the target
      month; nothing else changes. */
  function HandleMonthChangeAsWritten(s: State, k: int): (t: State)
    ensures var a := s.currentMonth;
      Navigation.MonthIndex(t.currentMonth) == Navigation.MonthIndex(a) + k +
        (if a.day <= DaysInMonth(Navigation.TargetYear(a, k), Navigation.TargetMonth(a, k)) then 0 else 1)
    ensures t == s.(currentMonth := t.currentMonth)
  {
    s.(currentMonth := Navigation.ShiftMonthAsWritten(s.currentMonth, k))
  }

  /** The events that reach the handlers. The page raises all of them but
      `OpenExisting`: its only call of `openModal` passes no note, so
      `OpenExisting` stands for a call `openModal(note)` with a stored note,
      the only way into the edit branch of `saveNote`. */
  datatype Event =
    | SelectDate(date: Date)
    | ChangeMonth(increment: int)
    | OpenNew
    | OpenExisting(note: Note)
    | EditDate(text: string)
    | EditTitle(text: string)
    | Cancel
    | Save

  function Step(s: State, e: Event): State {
    match e
    case SelectDate(d) => s.(selectedDate := d)
    case ChangeMonth(k) => HandleMonthChange(s, k)
    case OpenNew => OpenModal(s, None)
    case OpenExisting(n) => OpenModal(s, Some(n))
    case EditDate(text) => s.(noteDate := text)
    case EditTitle(text) => s.(noteTitle := text)
    case Cancel => CloseModal(s)
    case Save => SaveNote(s)
  }

  /** While the dialog shows, its overlay takes the pointer, so the day
      cells cannot be clicked; the page's buttons ("<", ">" and "Add Event")
      keep the keyboard focus they can take and still fire, beside the
      dialog's inputs and buttons. While it is closed, the dialog is not
      rendered. An existing note can only be opened if it is stored. */
  ghost predicate Enabled(s: State, e: Event) {
    if s.showModal then
      e.EditDate? || e.EditTitle? || e.Cancel? || e.Save? || e.ChangeMonth? || e.OpenNew?
    else e.SelectDate? || e.ChangeMonth? || e.OpenNew? || (e.OpenExisting? && e.note in AllNotes(s.notes))
  }

  function Run(s: State, events: seq<Event>): State
    decreases |events|
  {
    if |events| == 0 then s else Run(Step(s, events[0]), events[1..])
  }

  ghost predicate AllEnabled(s: State, events: seq<Event>)
    decreases |events|
  {
    |events| == 0 || (Enabled(s, events[0]) && AllEnabled(Step(s, events[0]), events[1..]))
  }

  lemma RunTwo(s: State, a: Event, b: Event)
    ensures Run(s, [a, b]) == Step(Step(s, a), b)
  {
    var es, rest := [a, b], [b];
    assert es[1..] == rest && rest[1..] == [];
    assert Run(s, es) == Run(Step(s, a), rest);
    assert Run(Step(s, a), rest) == Run(Step(Step(s, a), b), []);
  }

  lemma RunThree(s: State, a: Event, b: Event, c: Event)
    ensures Run(s, [a, b, c]) == Step(Step(Step(s, a), b), c)
  {
    var es := [a, b, c];
    assert es[1..] == [b, c];
    assert Run(s, es) == Run(Step(s, a), [b, c]);
    RunTwo(Step(s, a), b, c);
  }

  /** What every reachable state satisfies: a well-formed store whose next
      identity is fresh, an edited note that is in the store, and no edit in
      progress while the dialog is closed. */
  ghost predicate Invariant(s: State) {
    && WellFormed(s.notes, s.nextId)
    && (s.editingNote.Some? ==> s.editingNote.value in AllNotes(s.notes))
    && (!s.showModal ==> s.editingNote.None? && s.noteTitle == "")
  }

  /** The mount state is a closed dialog whose drafts are exactly what
      `closeModal` would reset them to. */
  lemma InitialIsClosed(today: Date)
    ensures Invariant(Initial(today))
    ensures CloseModal(Initial(today)) == Initial(today)
  {
  }

  lemma StepKeepsInvariant(s: State, e: Event)
    requires Invariant(s) && Enabled(s, e)
    ensures Invariant(Step(s, e))
  {
    if e.Save? {
      SaveNoteKeepsWellFormed(s.notes, s.editingNote, s.noteDate, s.noteTitle, s.nextId);
    }
  }

  lemma {:induction false} RunKeepsInvariant(s: State, events: seq<Event>)
    requires Invariant(s) && AllEnabled(s, events)
    ensures Invariant(Run(s, events))
    decreases |events|
  {
    if |events| > 0 {
      StepKeepsInvariant(s, events[0]);
      RunKeepsInvariant(Step(s, events[0]), events[1..]);
    }
  }

  /** Every state the page can reach from mount satisfies the invariant. */
  lemma ReachableInvariant(today: Date, events: seq<Event>)
    requires AllEnabled(Initial(today), events)
    ensures Invariant(Run(Initial(today), events))
  {
    InitialIsClosed(today);
    RunKeepsInvariant(Initial(today), events);
  }

  /** In a reachable state, saving adds the drafted note and, when a note
      was being edited, removes that note; no other note changes. */
  lemma SaveReplacesEditedNote(s: State)
    requires Invariant(s)
    ensures var t := SaveNote(s);
      AllNotes(t.notes) ==
        (if s.editingNote.Some? then AllNotes(s.notes) - {s.editingNote.value} else AllNotes(s.notes)) +
        {Note(s.nextId, s.noteDate, s.noteTitle)}
  {
    SaveNoteContents(s.notes, s.editingNote, s.noteDate, s.noteTitle, s.nextId);
  }

  /** Only saving changes the store: any run of other events leaves it, and
      the supply of identities, as they were. */
  lemma {:induction false} OnlySaveChangesNotes(s: State, events: seq<Event>)
    requires forall i :: 0 <= i < |events| ==> !events[i].Save?
    ensures Run(s, events).notes == s.notes && Run(s, events).nextId == s.nextId
    decreases |events|
  {
    if |events| > 0 {
      assert !events[0].Save?;
      OnlySaveChangesNotes(Step(s, events[0]), events[1..]);
    }
  }

  /** Opening a note, retyping its title and cancelling leaves the store as
      it was, and closes the dialog with no edit in progress. */
  lemma CancelDiscardsDraft(s: State, n: Note, title: string)
    ensures var t := Run(s, [OpenExisting(n), EditTitle(title), Cancel]);
      t.notes == s.notes && !t.showModal && t.editingNote.None? && t.noteTitle == ""
  {
    CancelSteps(s, n, title);
  }

  lemma CancelSteps(s: State, n: Note, title: string)
    ensures Run(s, [OpenExisting(n), EditTitle(title), Cancel]) == CloseModal(OpenModal(s, Some(n)).(noteTitle := title))
  {
    RunThree(s, OpenExisting(n), EditTitle(title), Cancel);
    CancelChain(s, n, title);
  }

  lemma CancelChain(s: State, n: Note, title: string)
    ensures Step(Step(Step(s, OpenExisting(n)), EditTitle(title)), Cancel) == CloseModal(OpenModal(s, Some(n)).(noteTitle := title))
  {
  }

  /** Selecting a date and then navigating keeps the selection. */
  lemma NavigationKeepsSelection(s: State, d: Date, k: int)
    ensures Run(s, [SelectDate(d), ChangeMonth(k)]).selectedDate == d
  {
    RunTwo(s, SelectDate(d), ChangeMonth(k));
  }

  /** The titles a cell lists: the notes stored under its key, in order. */
  function CellTitles(notes: Store, c: Grid.Cell): (r: seq<string>)
    ensures c.Blank? ==> r == []
    ensures c.DayCell? ==> |r| == |NotesFor(notes, c.key)|
    ensures c.DayCell? ==> forall i :: 0 <= i < |r| ==> r[i] == NotesFor(notes, c.key)[i].title
  {
    if c.Blank? then []
    else
      var bucket := NotesFor(notes, c.key);
      seq(|bucket|, i requires 0 <= i < |bucket| => bucket[i].title)
  }

  /** After a save, the cell of the drafted date lists the drafted title
      last, and a cell whose date is neither the drafted one nor the edited
      note's lists what it listed before. */
  lemma SavedTitleShown(s: State, c: Grid.Cell)
    requires c.DayCell?
    ensures var t := SaveNote(s); var titles := CellTitles(t.notes, c);
      c.key == s.noteDate ==> |titles| > 0 && titles[|titles| - 1] == s.noteTitle
    ensures var t := SaveNote(s);
      c.key != s.noteDate && (s.editingNote.None? || c.key != s.editingNote.value.date) ==>
        CellTitles(t.notes, c) == CellTitles(s.notes, c)
  {
    var t := SaveNote(s);
    if c.key != s.noteDate && (s.editingNote.None? || c.key != s.editingNote.value.date) {
      assert NotesFor(t.notes, c.key) == NotesFor(s.notes, c.key);
    }
  }

  /** A note drafted for a day of the displayed month appears, after
      saving, as the last title of that day's cell in the grid (saving
      leaves the displayed month and the selection as they were). */
  lemma SavedNoteInGrid(s: State, day: int)
    requires 1 <= day <= DaysInMonth(s.currentMonth.year, s.currentMonth.month0)
    requires s.noteDate == DateKey.FormattedDate(Ymd(s.currentMonth.year, s.currentMonth.month0, day))
    ensures var cells := Grid.MonthCells(s.currentMonth, s.selectedDate);
      var c := cells[Grid.StartDay(s.currentMonth) + day - 1];
      var titles := CellTitles(SaveNote(s).notes, c);
      c.DayCell? && c.day == day && |titles| > 0 && titles[|titles| - 1] == s.noteTitle
  {
    var c := CellAt(s.currentMonth, s.selectedDate, day);
    assert c.key == s.noteDate;
    SavedTitleShown(s, c);
  }

  /** The grid cell of day `day` is that day's cell. */
  lemma CellAt(a: Date, selected: Date, day: int) returns (c: Grid.Cell)
    requires 1 <= day <= DaysInMonth(a.year, a.month0)
    ensures c == Grid.MonthCells(a, selected)[Grid.StartDay(a) + day - 1]
    ensures c == Grid.DayCellOf(a, day, DateKey.FormattedDate(selected))
  {
    var blanks, days := Grid.Blanks(Grid.StartDay(a)), Grid.MonthDays(a, selected);
    c := days[day - 1];
    assert (blanks + days)[|blanks| + day - 1] == c;
  }

  /** Opening a new note, typing a title and saving stores one new note on
      the selected date's key. */
  lemma CreateThroughDialog(s: State, title: string)
    ensures Step(Step(Step(s, OpenNew), EditTitle(title)), Save).notes ==
      Notes.SaveNote(s.notes, None, DateKey.FormattedDate(s.selectedDate), title, s.nextId)
  {
    var u := Step(Step(s, OpenNew), EditTitle(title));
    OpenedNew(s, title);
    SavedDrafts(u, s.notes, None, DateKey.FormattedDate(s.selectedDate), title, s.nextId);
  }

  /** After opening a new note and typing its title, the drafts hold that
      title, the selected date's key and no edited note. */
  lemma OpenedNew(s: State, title: string)
    ensures var u := Step(Step(s, OpenNew), EditTitle(title));
      && u.notes == s.notes && u.nextId == s.nextId && u.editingNote.None?
      && u.noteDate == DateKey.FormattedDate(s.selectedDate) && u.noteTitle == title
  {
  }

  lemma SavedDrafts(s: State, notes: Store, editing: Option<Note>, date: string, title: string, next: nat)
    requires s.notes == notes && s.editingNote == editing && s.noteDate == date
    requires s.noteTitle == title && s.nextId == next
    ensures Step(s, Save).notes == Notes.SaveNote(notes, editing, date, title, next)
  {
  }

  /** Opening an existing note, retyping its date and saving moves it. */
  lemma MoveThroughDialog(s: State, n: Note, date: string)
    ensures Step(Step(Step(s, OpenExisting(n)), EditDate(date)), Save).notes ==
      Notes.SaveNote(s.notes, Some(n), date, n.title, s.nextId)
  {
  }

  /** The two store examples, replayed through the dialog: a first note on
      a date, then an edit that moves it to the next day. */
  lemma DialogExamples(today: Date)
    requires DateKey.FormattedDate(today) == "2024-03-05"
    ensures var s := Step(Step(Step(Initial(today), OpenNew), EditTitle("Demo")), Save);
      NotesFor(s.notes, "2024-03-05") == [Note(0, "2024-03-05", "Demo")]
    ensures var n := Note(0, "2024-03-05", "Demo");
      var s := Initial(today).(notes := map["2024-03-05" := [n]], nextId := 1);
      var t := Step(Step(Step(s, OpenExisting(n)), EditDate("2024-03-06")), Save);
      NotesFor(t.notes, "2024-03-05") == [] && NotesFor(t.notes, "2024-03-06") == [Note(1, "2024-03-06", "Demo")]
  {
    CreateThroughDialog(Initial(today), "Demo");
    var n := Note(0, "2024-03-05", "Demo");
    MoveThroughDialog(Initial(today).(notes := map["2024-03-05" := [n]], nextId := 1), n, "2024-03-06");
    SaveNoteExamples();
  }
}
