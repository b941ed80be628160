/**
 The notes page: the list of the user's notes with the selected one, the
 reactions to a note being created, updated or deleted, the search box and the
 relative creation date shown under each note.
 */
module NotesPage {
  import opened Wrappers
  import opened Records
  import opened Text
  import opened Seqs

  /** The page's state: the loaded notes, the selected note, and whether the editor is creating a note. */
  datatype Page = Page(notes: seq<Note>, selected: Option<Note>, isCreating: bool)

  /* ---------------------------------------------------------------- create */

  /** `handleNoteCreated`: the new note goes in front and becomes the selection. */
  function NoteCreated(page: Page, note: Note): (r: Page)
    ensures |r.notes| == |page.notes| + 1 && r.notes[0] == note
    ensures forall i :: 0 <= i < |page.notes| ==> r.notes[i + 1] == page.notes[i]
    ensures r.selected == Some(note) && !r.isCreating
  {
    Page([note] + page.notes, Some(note), false)
  }

  /* ---------------------------------------------------------------- update */

  /** `notes.map(n => n.id === note.id ? note : n)`. */
  function ReplaceById(notes: seq<Note>, note: Note): (r: seq<Note>)
    ensures |r| == |notes|
    ensures forall i :: 0 <= i < |notes| ==> r[i].id == notes[i].id
    ensures forall i :: 0 <= i < |notes| && notes[i].id == note.id ==> r[i] == note
    ensures forall i :: 0 <= i < |notes| && notes[i].id != note.id ==> r[i] == notes[i]
    decreases |notes|
  {
    if notes == [] then []
    else [if notes[0].id == note.id then note else notes[0]] + ReplaceById(notes[1..], note)
  }

  /** `handleNoteUpdated`: the note replaces every note with its id and becomes the selection. */
  function NoteUpdated(page: Page, note: Note): (r: Page)
    ensures r.notes == ReplaceById(page.notes, note)
    ensures r.selected == Some(note) && r.isCreating == page.isCreating
  {
    page.(notes := ReplaceById(page.notes, note), selected := Some(note))
  }

  /** Replacing with the same note twice is the same as once. */
  lemma ReplaceByIdIdempotent(notes: seq<Note>, note: Note)
    ensures ReplaceById(ReplaceById(notes, note), note) == ReplaceById(notes, note)
  {
  }

  /* ---------------------------------------------------------------- delete */

  /**
   `notes.filter(n => n.id !== id)`: the notes with another id, in their order,
   each as often as in the list, and no note with the id.
   */
  function RemoveById(notes: seq<Note>, id: Id): (r: seq<Note>)
    ensures IsSubsequence(r, notes)
    ensures forall n: Note :: multiset(r)[n] == if n.id != id then multiset(notes)[n] else 0
  {
    Filter(notes, (n: Note) => n.id != id)
  }

  /** A note is left after removal exactly when it was in the list with another id. */
  lemma RemoveByIdSpec(notes: seq<Note>, id: Id)
    ensures forall n: Note :: n in RemoveById(notes, id) <==> n in notes && n.id != id
  {
    forall n: Note
      ensures n in RemoveById(notes, id) <==> n in notes && n.id != id
    {
      FilterMembership(notes, (n: Note) => n.id != id, n);
    }
  }

  /** Removing the same id twice is the same as once. */
  lemma RemoveByIdIdempotent(notes: seq<Note>, id: Id)
    ensures RemoveById(RemoveById(notes, id), id) == RemoveById(notes, id)
  {
    FilterIdempotent(notes, (n: Note) => n.id != id);
  }

  /** Deleting a note just created, whose id was new to the list, gives the old list back. */
  lemma CreateThenRemoveRestores(page: Page, note: Note)
    requires forall i :: 0 <= i < |page.notes| ==> page.notes[i].id != note.id
    ensures RemoveById(NoteCreated(page, note).notes, note.id) == page.notes
  {
    FilterAll(page.notes, (n: Note) => n.id != note.id);
    assert NoteCreated(page, note).notes[1..] == page.notes;
  }

  /** The result of `handleDeleteNote`: the page afterwards and whether the API was asked to delete. */
  datatype DeleteStep = DeleteStep(page: Page, requested: bool)

  /**
   `handleDeleteNote(id)` given the user's answer to the confirmation and whether
   the API call succeeded.
   */
  function HandleDelete(page: Page, id: Id, confirmed: bool, apiSucceeded: bool): (r: DeleteStep)
    ensures r.requested <==> confirmed
    ensures !(confirmed && apiSucceeded) ==> r.page == page
    ensures confirmed && apiSucceeded ==>
      && r.page.notes == RemoveById(page.notes, id)
      && r.page.isCreating == page.isCreating
      && (page.selected.Some? && page.selected.value.id == id ==> r.page.selected.None?)
      && (page.selected.None? || page.selected.value.id != id ==> r.page.selected == page.selected)
  {
    if !confirmed then DeleteStep(page, false)
    else if !apiSucceeded then DeleteStep(page, true)
    else
      var selected := if page.selected.Some? && page.selected.value.id == id then None else page.selected;
      DeleteStep(page.(notes := RemoveById(page.notes, id), selected := selected), true)
  }

  /* ---------------------------------------------------------------- search */

  /** The note's title or content contains the query, ignoring the case of ASCII letters. */
  predicate Matches(n: Note, query: string)
  {
    Includes(Lower(n.title), Lower(query)) || Includes(Lower(n.content), Lower(query))
  }

  /**
   `filteredNotes`: the matching notes in list order, each as often as in the
   list, and no other note.
   */
  function Search(notes: seq<Note>, query: string): (r: seq<Note>)
    ensures IsSubsequence(r, notes)
    ensures forall n :: multiset(r)[n] == if Matches(n, query) then multiset(notes)[n] else 0
  {
    Filter(notes, (n: Note) => Matches(n, query))
  }

  /** A note is shown exactly when it is in the list and matches the query. */
  lemma SearchSpec(notes: seq<Note>, query: string)
    ensures forall n :: n in Search(notes, query) <==> n in notes && Matches(n, query)
  {
    forall n
      ensures n in Search(notes, query) <==> n in notes && Matches(n, query)
    {
      FilterMembership(notes, (n: Note) => Matches(n, query), n);
    }
  }

  /** An empty search box shows every note. */
  lemma EmptyQueryKeepsAll(notes: seq<Note>)
    ensures Search(notes, "") == notes
  {
    forall i | 0 <= i < |notes|
      ensures Matches(notes[i], "")
    {
      IncludesEmpty(Lower(notes[i].title));
    }
    FilterAll(notes, (n: Note) => Matches(n, ""));
  }

  /** Typing more characters into the search box never brings back a note. */
  lemma SearchNarrows(notes: seq<Note>, query: string, more: string)
    ensures IsSubsequence(Search(notes, query + more), Search(notes, query))
  {
    LowerAppend(query, more);
    forall n | Matches(n, query + more)
      ensures Matches(n, query)
    {
      if Includes(Lower(n.title), Lower(query + more)) {
        IncludesPrefix(Lower(n.title), Lower(query), Lower(more));
      } else {
        IncludesPrefix(Lower(n.content), Lower(query), Lower(more));
      }
    }
    FilterNarrows(notes, (n: Note) => Matches(n, query + more), (n: Note) => Matches(n, query));
  }

  /** Queries that differ only in the case of ASCII letters find the same notes. */
  lemma SearchIgnoresCase(notes: seq<Note>, q1: string, q2: string)
    requires Lower(q1) == Lower(q2)
    ensures Search(notes, q1) == Search(notes, q2)
  {
    FilterCongruent(notes, (n: Note) => Matches(n, q1), (n: Note) => Matches(n, q2));
  }

  /* ---------------------------------------------------------------- dates */

  const MsPerDay := 1000 * 60 * 60 * 24

  /** The caption under a note; `CalendarDate` stands for the locale-formatted date. */
  datatype DayLabel = Today | Yesterday | DaysAgo(days: int) | CalendarDate

  /**
   `formatDate`, given `diff`, the milliseconds from the note's creation to now.
   `Math.floor` of a quotient by a positive divisor is Dafny's `/`.

   Each caption names the whole days elapsed: "Today" for less than a day,
   "Yesterday" for one to two days, "n days ago" for n whole days when 2 <= n < 7
   and for every negative n (a creation time in the future), the calendar date
   from seven days on.
   */
  function DayBucket(diff: int): (caption: DayLabel)
    ensures caption == Today <==> 0 <= diff < MsPerDay
    ensures caption == Yesterday <==> MsPerDay <= diff < 2 * MsPerDay
    ensures caption == CalendarDate <==> 7 * MsPerDay <= diff
    ensures caption.DaysAgo? ==>
      var n := caption.days;
      n * MsPerDay <= diff < (n + 1) * MsPerDay && n < 7 && n != 0 && n != 1
    ensures diff < 0 ==> caption.DaysAgo? && caption.days < 0
  {
    var days := diff / MsPerDay;
    assert diff == days * MsPerDay + diff % MsPerDay;
    assert 0 <= diff % MsPerDay < MsPerDay;
    assert days <= -1 ==> days * MsPerDay <= -MsPerDay;
    assert days >= 7 ==> days * MsPerDay >= 7 * MsPerDay;
    if days == 0 then Today
    else if days == 1 then Yesterday
    else if days < 7 then DaysAgo(days)
    else CalendarDate
  }

  /** The caption as text. */
  function DayText(caption: DayLabel): string
    requires !caption.CalendarDate?
  {
    match caption
    case Today => "Today"
    case Yesterday => "Yesterday"
    case DaysAgo(d) => IntToDecimal(d) + " days ago"
  }

  /** Two days back reads "2 days ago". */
  lemma TwoDaysAgoExample()
    ensures DayText(DayBucket(2 * MsPerDay)) == "2 days ago"
  {
    assert (2 * MsPerDay) / MsPerDay == 2;
    assert IntToDecimal(2) == "2";
  }

  /** A creation time one millisecond in the future reads "-1 days ago". */
  lemma FutureDateExample()
    ensures DayText(DayBucket(-1)) == "-1 days ago"
  {
    assert -1 / MsPerDay == -1;
    assert IntToDecimal(-1) == "-1";
  }

  /**
   The caption as evidently intended: a creation time slightly ahead of the
   browser's clock (the store stamps `created_at` with its own clock) counts as
   today instead of a negative number of days.
   */
  function DayBucketClamped(diff: int): (caption: DayLabel)
    ensures caption.DaysAgo? ==> 2 <= caption.days < 7
    ensures diff < MsPerDay ==> caption == Today
    ensures diff >= 0 ==> caption == DayBucket(diff)
  {
    if diff < 0 then Today else DayBucket(diff)
  }

  /** With the correction every caption states a number of whole days that have really passed. */
  lemma DayBucketClampedSpec(diff: int)
    ensures DayBucketClamped(diff) == Today <==> diff < MsPerDay
    ensures DayBucketClamped(diff) == Yesterday <==> MsPerDay <= diff < 2 * MsPerDay
    ensures DayBucketClamped(diff).DaysAgo? ==>
      var n := DayBucketClamped(diff).days;
      0 <= n * MsPerDay <= diff < (n + 1) * MsPerDay
  {
  }
}
