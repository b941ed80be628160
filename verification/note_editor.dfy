/**
 The note editor: the title and content being edited, the manual save button,
 the autosave that follows a pause in typing, and the "saved ... ago" caption.

 Time is an integer number of milliseconds. The debounce timer is the deadline
 `timer`; the effect that (re)arms it runs whenever the title, the content or
 the `note` prop changes, and arms nothing when there is no note. A request to
 the API is a `SaveCall`; the API itself is a parameter that answers a call with
 the saved note, or with `None` when the request fails.

 A save is two steps, the request leaving and its answer arriving, so that the
 `saving` and `autoSaving` flags are visible in between. After a successful save
 the page passes the returned note back down as the `note` prop, which the
 model folds into the editor state.
 */
module NoteEditor {
  import opened Wrappers
  import opened Records
  import opened Text
  import Routes

  const DebounceMs := 2000

  datatype SaveCall =
    | UpdateCall(id: Id, title: string, content: string)  // notesApi.update
    | CreateCall(title: string, content: string)           // notesApi.create

  /** The API's answer to a call: the note the server returned, or `None` if the request failed. */
  type Api = SaveCall -> Option<Note>

  datatype Editor = Editor(
    note: Option<Note>,        // the `note` prop: the last-known persisted note, if any
    title: string,
    content: string,
    saving: bool,
    autoSaving: bool,
    lastSaved: Option<Instant>,
    timer: Option<Instant>)    // when the armed debounce timer fires, if one is armed

  /** An editor state together with the requests issued on the way to it. */
  datatype Step = Step(editor: Editor, calls: seq<SaveCall>)

  /** The editor is mounted at `now` for `note`, or for a new note. */
  function Open(note: Option<Note>, now: Instant): (e: Editor)
    ensures e.note == note && !e.saving && !e.autoSaving
    ensures note.Some? ==> e.title == note.value.title && e.content == note.value.content
    ensures note.None? ==> e.title == "" && e.content == ""
    ensures e.lastSaved.Some? <==> note.Some?
    ensures e.timer.Some? <==> note.Some?
  {
    match note
    case Some(n) => Editor(note, n.title, n.content, false, false, Some(n.updatedAt), Some(now + DebounceMs))
    case None => Editor(None, "", "", false, false, None, None)
  }

  /** A keystroke at `at` leaves the fields as `title` and `content`. */
  function Type(e: Editor, at: Instant, title: string, content: string): (r: Editor)
    ensures r.title == title && r.content == content
    ensures r.note == e.note && r.lastSaved == e.lastSaved
    ensures title == e.title && content == e.content ==> r == e
    ensures title != e.title || content != e.content ==>
      r.timer == if e.note.Some? then Some(at + DebounceMs) else None
  {
    if title == e.title && content == e.content then e
    else e.(title := title, content := content, timer := if e.note.Some? then Some(at + DebounceMs) else None)
  }

  /** The fields differ from the persisted note: the condition the timer callback checks. */
  predicate Differs(e: Editor)
  {
    e.note.Some? && (e.title != e.note.value.title || e.content != e.note.value.content)
  }

  /**
   The page hands the mounted editor another `note` prop: another note is
   selected, "New Note" is clicked, or a saved note comes back. The component is
   not remounted, so the `useState` values (the fields, the flags, `lastSaved`)
   stay as they were; the debounce effect re-runs for the new prop, clearing the
   old timer and arming a new one only when there is a note.
   */
  function Select(e: Editor, note: Option<Note>, at: Instant): (r: Editor)
    ensures r.note == note
    ensures r.title == e.title && r.content == e.content && r.lastSaved == e.lastSaved
    ensures r.saving == e.saving && r.autoSaving == e.autoSaving
    ensures r.timer.Some? <==> note.Some?
    ensures note.Some? ==> r.timer == Some(at + DebounceMs)
  {
    e.(note := note, timer := if note.Some? then Some(at + DebounceMs) else None)
  }

  /**
   A save succeeded at `now`: the page passes the returned note back as the new
   `note` prop and the editor records the time. The editor is in step with the
   stored note exactly when the server stored the fields as they stand.
   */
  function Saved(e: Editor, saved: Note, now: Instant): (r: Editor)
    ensures r.note == Some(saved) && r.lastSaved == Some(now) && r.timer == Some(now + DebounceMs)
    ensures r.title == e.title && r.content == e.content
    ensures r.saving == e.saving && r.autoSaving == e.autoSaving
    ensures !Differs(r) <==> saved.title == e.title && saved.content == e.content
  {
    Select(e, Some(saved), now).(lastSaved := Some(now))
  }

  /* ---------------------------------------------------------------- autosave */

  /** The guard of `autoSave`: an existing note, and neither field blank once trimmed. */
  predicate MayAutoSave(e: Editor)
  {
    e.note.Some? && !IsBlank(e.title) && !IsBlank(e.content)
  }

  /** `autoSave` sends its request: an update of the existing note, or nothing at all. */
  function BeginAutoSave(e: Editor): (r: Step)
    ensures !MayAutoSave(e) ==> r == Step(e, [])
    ensures MayAutoSave(e) ==>
      r == Step(e.(autoSaving := true), [UpdateCall(e.note.value.id, e.title, e.content)])
    ensures forall c :: c in r.calls ==> c.UpdateCall?
  {
    if !MayAutoSave(e) then Step(e, [])
    else Step(e.(autoSaving := true), [UpdateCall(e.note.value.id, e.title, e.content)])
  }

  /** The answer to an autosave arrives at `now`; a failure is swallowed. */
  function FinishAutoSave(e: Editor, reply: Option<Note>, now: Instant): (r: Editor)
    ensures !r.autoSaving
    ensures r.title == e.title && r.content == e.content && r.saving == e.saving
    ensures reply.None? ==> r == e.(autoSaving := false)
    ensures reply.Some? ==> r.note == reply && r.lastSaved == Some(now)
  {
    var e' := e.(autoSaving := false);
    if reply.Some? then Saved(e', reply.value, now) else e'
  }

  /** An autosave whose answer arrives at once. */
  function AutoSave(e: Editor, api: Api, now: Instant): (s: Step)
    requires e.timer.None?
    ensures !MayAutoSave(e) ==> s == Step(e, [])
    ensures MayAutoSave(e) ==>
      var call := UpdateCall(e.note.value.id, e.title, e.content);
      && s.calls == [call]
      && !s.editor.autoSaving && s.editor.saving == e.saving
      && s.editor.title == e.title && s.editor.content == e.content
      && (api(call).None? ==> s.editor == e.(autoSaving := false))
      && (api(call).Some? ==> s.editor.note == api(call) && s.editor.lastSaved == Some(now))
    ensures s.editor.timer.None? || s.editor.timer == Some(now + DebounceMs)
    ensures |s.calls| <= 1
  {
    var begun := BeginAutoSave(e);
    if begun.calls == [] then begun
    else Step(FinishAutoSave(begun.editor, api(begun.calls[0]), now), begun.calls)
  }

  /** Time passes until `now`: the armed timer fires if its deadline has come, perhaps more than once. */
  function Advance(e: Editor, api: Api, now: Instant): (r: Step)
    ensures e.timer.None? || e.timer.value > now ==> r == Step(e, [])
    ensures r.editor.timer.None? || r.editor.timer.value > now
    ensures r.editor.title == e.title && r.editor.content == e.content && r.editor.saving == e.saving
    ensures forall c :: c in r.calls ==> c.UpdateCall? && c.title == e.title && c.content == e.content
    ensures e.note.None? ==> r.calls == [] && r.editor.note.None?
    decreases if e.timer.Some? && e.timer.value <= now then now - e.timer.value + 1 else 0
  {
    if e.timer.None? || e.timer.value > now then Step(e, [])
    else
      var at := e.timer.value;
      var fired := e.(timer := None);
      var first := if Differs(fired) then AutoSave(fired, api, at) else Step(fired, []);
      var rest := Advance(first.editor, api, now);
      Step(rest.editor, first.calls + rest.calls)
  }

  /** A keystroke: at time `at` the fields became `title` and `content`. */
  datatype Keystroke = Keystroke(at: Instant, title: string, content: string)

  /** `text` was on screen at some keystroke of `keys`. */
  ghost predicate Typed(keys: seq<Keystroke>, title: string, content: string)
  {
    exists i :: 0 <= i < |keys| && keys[i].title == title && keys[i].content == content
  }

  /**
   Keystrokes arrive in order; before each, and finally at `until`, due timers
   fire. The editor ends with the last keystroke's text, every request is an
   update, and a new note, never saved, sends nothing at all.
   */
  function Run(e: Editor, api: Api, keys: seq<Keystroke>, until: Instant): (r: Step)
    ensures r.editor.timer.None? || r.editor.timer.value > until
    ensures keys == [] ==> r.editor.title == e.title && r.editor.content == e.content
    ensures keys != [] ==>
      r.editor.title == keys[|keys| - 1].title && r.editor.content == keys[|keys| - 1].content
    ensures forall c :: c in r.calls ==> c.UpdateCall?
    ensures e.note.None? ==> r.calls == [] && r.editor.note.None?
    decreases |keys|
  {
    if keys == [] then Advance(e, api, until)
    else
      var before := Advance(e, api, keys[0].at);
      var typed := Type(before.editor, keys[0].at, keys[0].title, keys[0].content);
      var after := Run(typed, api, keys[1..], until);
      assert |keys| > 1 ==> keys[1..][|keys| - 2] == keys[|keys| - 1];
      assert forall c :: c in before.calls + after.calls ==> c in before.calls || c in after.calls;
      Step(after.editor, before.calls + after.calls)
  }

  /** Every request carries text that was on screen: at the start, or after some keystroke. */
  lemma {:induction false} RunSendsShownText(e: Editor, api: Api, keys: seq<Keystroke>, until: Instant)
    ensures forall c :: c in Run(e, api, keys, until).calls ==>
      (c.title == e.title && c.content == e.content) || Typed(keys, c.title, c.content)
    decreases |keys|
  {
    if keys != [] {
      var typed := Type(Advance(e, api, keys[0].at).editor, keys[0].at, keys[0].title, keys[0].content);
      RunSendsShownText(typed, api, keys[1..], until);
      TypedTail(keys, Run(typed, api, keys[1..], until).calls);
    }
  }

  lemma TypedTail(keys: seq<Keystroke>, calls: seq<SaveCall>)
    requires keys != []
    requires forall c :: c in calls ==>
      (c.title == keys[0].title && c.content == keys[0].content) || Typed(keys[1..], c.title, c.content)
    ensures forall c :: c in calls ==> Typed(keys, c.title, c.content)
  {
    forall c | c in calls
      ensures Typed(keys, c.title, c.content)
    {
      if !(c.title == keys[0].title && c.content == keys[0].content) {
        var i :| 0 <= i < |keys[1..]| && keys[1..][i].title == c.title && keys[1..][i].content == c.content;
        assert keys[i + 1] == keys[1..][i];
      }
    }
  }

  /** The server saves what it is sent: the returned note has the title and content of the call. */
  ghost predicate Echoes(api: Api)
  {
    forall c :: api(c).Some? ==> api(c).value.title == c.title && api(c).value.content == c.content
  }

  /** Every keystroke changes a field, and each comes less than the debounce delay after the previous one. */
  ghost predicate Burst(e: Editor, keys: seq<Keystroke>)
  {
    && keys != []
    && (keys[0].title != e.title || keys[0].content != e.content)
    && forall i :: 0 < i < |keys| ==>
         && keys[i - 1].at <= keys[i].at < keys[i - 1].at + DebounceMs
         && (keys[i].title != keys[i - 1].title || keys[i].content != keys[i - 1].content)
  }

  /** The autosave request a settled editor is due to send, if any. */
  function DueCall(e: Editor): seq<SaveCall>
  {
    if Differs(e) && MayAutoSave(e) then [UpdateCall(e.note.value.id, e.title, e.content)] else []
  }

  lemma QuietAdvance(e: Editor, api: Api, now: Instant)
    requires e.timer.None? || e.timer.value > now
    ensures Advance(e, api, now) == Step(e, [])
  {
  }

  /** Once the fields match the note, a firing timer sends nothing and disarms. */
  lemma InSyncAdvance(e: Editor, api: Api, now: Instant)
    requires !Differs(e)
    ensures Advance(e, api, now).calls == []
  {
    if e.timer.Some? && e.timer.value <= now {
      QuietAdvance(e.(timer := None), api, now);
    }
  }

  /** An autosave the server echoes leaves the editor in step with the note, unless it failed and disarmed. */
  lemma EchoedAutoSave(e: Editor, api: Api, at: Instant)
    requires e.timer.None? && MayAutoSave(e) && Echoes(api)
    ensures AutoSave(e, api, at).calls == [UpdateCall(e.note.value.id, e.title, e.content)]
    ensures AutoSave(e, api, at).editor.timer.None? || !Differs(AutoSave(e, api, at).editor)
  {
    var call := UpdateCall(e.note.value.id, e.title, e.content);
    if api(call).Some? {
      assert api(call).value.title == call.title && api(call).value.content == call.content;
    }
  }

  /** The timer fires at `at` and sends the due request; what follows sends nothing more. */
  lemma FireDue(e: Editor, api: Api, at: Instant, until: Instant)
    requires e.note.Some? && e.timer == Some(at) && at <= until && Echoes(api)
    requires Differs(e) && MayAutoSave(e)
    ensures Advance(e, api, until).calls == DueCall(e)
  {
    var fired := e.(timer := None);
    EchoedAutoSave(fired, api, at);
    var first := AutoSave(fired, api, at);
    if first.editor.timer.Some? {
      InSyncAdvance(first.editor, api, until);
    }
    FireOnce(e, api, until);
  }

  /** A due timer fires once: an autosave if the fields differ, then whatever falls due after it. */
  lemma FireOnce(e: Editor, api: Api, now: Instant)
    requires e.timer.Some? && e.timer.value <= now
    ensures var fired := e.(timer := None);
      var first := if Differs(fired) then AutoSave(fired, api, e.timer.value) else Step(fired, []);
      Advance(e, api, now).calls == first.calls + Advance(first.editor, api, now).calls
  {
  }

  /** An editor whose timer is armed for `d`: nothing before `d`, the due request (if any) after. */
  lemma SettledAdvance(e: Editor, api: Api, until: Instant)
    requires e.note.Some? && e.timer.Some? && Echoes(api)
    ensures until < e.timer.value ==> Advance(e, api, until).calls == []
    ensures until >= e.timer.value ==> Advance(e, api, until).calls == DueCall(e)
  {
    if until >= e.timer.value {
      var fired := e.(timer := None);
      if Differs(fired) && MayAutoSave(fired) {
        FireDue(e, api, e.timer.value, until);
      } else if Differs(fired) {
        QuietAdvance(AutoSave(fired, api, e.timer.value).editor, api, until);
      } else {
        QuietAdvance(fired, api, until);
      }
    }
  }

  /** The editor once the last keystroke of a burst is in, with the timer armed from it. */
  function Settle(e: Editor, last: Keystroke): Editor
  {
    e.(title := last.title, content := last.content, timer := Some(last.at + DebounceMs))
  }

  /** One keystroke of a burst on an existing note re-arms the timer; the rest of the burst is a burst again. */
  lemma BurstTail(e: Editor, keys: seq<Keystroke>)
    requires e.note.Some? && Burst(e, keys)
    ensures Type(e, keys[0].at, keys[0].title, keys[0].content) == Settle(e, keys[0])
    ensures |keys| > 1 ==> Burst(Settle(e, keys[0]), keys[1..])
    ensures |keys| > 1 ==> Settle(e, keys[0]).timer.value > keys[1].at
  {
    if |keys| > 1 {
      var tail := keys[1..];
      forall i | 0 < i < |tail|
        ensures tail[i - 1].at <= tail[i].at < tail[i - 1].at + DebounceMs
        ensures tail[i].title != tail[i - 1].title || tail[i].content != tail[i - 1].content
      {
        assert tail[i - 1] == keys[i] && tail[i] == keys[i + 1];
      }
    }
  }

  /** Running keystrokes, one step at a time. */
  lemma RunFirst(e: Editor, api: Api, keys: seq<Keystroke>, until: Instant)
    requires keys != [] && (e.timer.None? || e.timer.value > keys[0].at)
    ensures Run(e, api, keys, until) == Run(Type(e, keys[0].at, keys[0].title, keys[0].content), api, keys[1..], until)
  {
    QuietAdvance(e, api, keys[0].at);
    TypeOnce(e, api, keys, until);
  }

  /** The first keystroke of a run: due timers fire, then the keystroke, then the rest of the run. */
  lemma TypeOnce(e: Editor, api: Api, keys: seq<Keystroke>, until: Instant)
    requires keys != []
    ensures var before := Advance(e, api, keys[0].at);
      var after := Run(Type(before.editor, keys[0].at, keys[0].title, keys[0].content), api, keys[1..], until);
      Run(e, api, keys, until) == Step(after.editor, before.calls + after.calls)
  {
  }

  /** During a burst nothing fires; afterwards the editor holds the last keystroke with the timer armed from it. */
  lemma {:induction false} BurstRun(e: Editor, api: Api, keys: seq<Keystroke>, until: Instant)
    requires e.note.Some? && Burst(e, keys)
    requires e.timer.None? || e.timer.value > keys[0].at
    ensures Run(e, api, keys, until) == Run(Settle(e, keys[|keys| - 1]), api, [], until)
    decreases |keys|
  {
    RunFirst(e, api, keys, until);
    BurstTail(e, keys);
    if |keys| > 1 {
      BurstRun(Settle(e, keys[0]), api, keys[1..], until);
      assert keys[1..][|keys| - 2] == keys[|keys| - 1];
      assert Settle(Settle(e, keys[0]), keys[|keys| - 1]) == Settle(e, keys[|keys| - 1]);
    }
  }

  /**
   Debounce: a burst of keystrokes on an existing note, each within 2000 ms of the
   previous one, sends nothing until 2000 ms after the last keystroke and then at
   most one update, carrying the final title and content, and only if they differ
   from the note and neither is blank.
   */
  lemma DebounceSendsAtMostOnce(e: Editor, api: Api, keys: seq<Keystroke>, until: Instant)
    requires e.note.Some? && Burst(e, keys) && Echoes(api)
    requires e.timer.None? || e.timer.value > keys[0].at
    ensures var last := keys[|keys| - 1];
      var calls := Run(e, api, keys, until).calls;
      && |calls| <= 1
      && (until < last.at + DebounceMs ==> calls == [])
      && (until >= last.at + DebounceMs ==>
            (calls != [] <==>
               && (last.title != e.note.value.title || last.content != e.note.value.content)
               && !IsBlank(last.title) && !IsBlank(last.content)))
      && (calls != [] ==> calls == [UpdateCall(e.note.value.id, last.title, last.content)])
  {
    var last := keys[|keys| - 1];
    var settled := Settle(e, last);
    BurstRun(e, api, keys, until);
    assert Run(settled, api, [], until) == Advance(settled, api, until);
    SettledAdvance(settled, api, until);
    DueCallOfSettled(e, last);
  }

  /** The request due after a burst: the final text, if it differs from the note and is not blank. */
  lemma DueCallOfSettled(e: Editor, last: Keystroke)
    requires e.note.Some?
    ensures DueCall(Settle(e, last)) != [] <==>
      && (last.title != e.note.value.title || last.content != e.note.value.content)
      && !IsBlank(last.title) && !IsBlank(last.content)
    ensures DueCall(Settle(e, last)) != [] ==>
      DueCall(Settle(e, last)) == [UpdateCall(e.note.value.id, last.title, last.content)]
  {
  }

  /* ---------------------------------------------------------------- selection */

  /**
   Selecting note `b` while the editor holds other text, then waiting 2000 ms,
   writes that text into `b` although nothing was typed for `b`.
   */
  lemma SelectOverwritesOtherNote(e: Editor, b: Note, api: Api, at: Instant, until: Instant)
    requires Echoes(api) && at + DebounceMs <= until
    requires e.title != b.title || e.content != b.content
    requires !IsBlank(e.title) && !IsBlank(e.content)
    ensures Advance(Select(e, Some(b), at), api, until).calls == [UpdateCall(b.id, e.title, e.content)]
  {
    SettledAdvance(Select(e, Some(b), at), api, until);
  }

  /** "New Note" clicked while note `a` is open keeps `a`'s text, and saving then creates a copy of `a`. */
  lemma NewNoteKeepsOpenText(a: Note, mounted: Instant, at: Instant)
    requires !IsBlank(a.title) && !IsBlank(a.content)
    ensures Select(Open(Some(a), mounted), None, at).title == a.title
    ensures ClickSave(Select(Open(Some(a), mounted), None, at)).calls == [CreateCall(a.title, a.content)]
  {
  }

  /** Both props stand for the same note: both absent, or both with the same id. */
  predicate SameNote(a: Option<Note>, b: Option<Note>)
  {
    (a.None? && b.None?) || (a.Some? && b.Some? && a.value.id == b.value.id)
  }

  /**
   The selection as evidently intended: the editor is remounted whenever it is
   handed a different note (what a `key` of the note's id achieves), so it shows
   that note's text; a new copy of the same note is folded in as before.
   */
  function SelectKeyed(e: Editor, note: Option<Note>, at: Instant): (r: Editor)
    ensures r.note == note
    ensures SameNote(e.note, note) ==> r.title == e.title && r.content == e.content
    ensures !SameNote(e.note, note) ==> !Differs(r) && !r.saving && !r.autoSaving
    ensures !SameNote(e.note, note) && note.None? ==> r.title == "" && r.content == ""
  {
    if SameNote(e.note, note) then Select(e, note, at) else Open(note, at)
  }

  /**
   After switching to another note with the correction, every autosave request
   carries that note's own text or text typed after the switch, never the text of
   the note left behind; without typing nothing is sent.
   */
  lemma KeyedSelectSendsOnlyItsOwnText(e: Editor, note: Option<Note>, api: Api, keys: seq<Keystroke>, at: Instant, until: Instant)
    requires !SameNote(e.note, note)
    ensures forall c :: c in Run(SelectKeyed(e, note, at), api, keys, until).calls ==>
      && note.Some?
      && ((c.title == note.value.title && c.content == note.value.content) || Typed(keys, c.title, c.content))
    ensures keys == [] ==> Run(SelectKeyed(e, note, at), api, keys, until).calls == []
  {
    var r := SelectKeyed(e, note, at);
    RunSendsShownText(r, api, keys, until);
    if keys == [] {
      InSyncAdvance(r, api, until);
    }
  }

  /* ---------------------------------------------------------------- the server as the API */

  /**
   The API backed by the note routes: an update or create the server answers with
   200 or 201 resolves to the note in the body; any other status rejects.
   */
  function ServerApi(store: Store, uid: Id, fault: Option<string>, newId: Id, now: Instant): Api
    requires newId !in store
  {
    (c: SaveCall) =>
      var out :=
        if c.UpdateCall? then Routes.UpdateNote(store, uid, c.id, Routes.Payload(Some(c.title), Some(c.content)), fault)
        else Routes.CreateNote(store, uid, Routes.Payload(Some(c.title), Some(c.content)), fault, newId, now);
      if out.response.status in {200, 201} then Some(out.response.body.note) else None
  }

  /** The note routes store what they are sent, so the debounce lemmas' assumption holds of them. */
  lemma ServerApiEchoes(store: Store, uid: Id, fault: Option<string>, newId: Id, now: Instant)
    requires newId !in store
    ensures Echoes(ServerApi(store, uid, fault, newId, now))
  {
    var api := ServerApi(store, uid, fault, newId, now);
    forall c | api(c).Some?
      ensures api(c).value.title == c.title && api(c).value.content == c.content
    {
    }
  }

  /* ---------------------------------------------------------------- manual save */

  const FillBoth := "Please fill in both title and content"
  const SaveFailed := "Failed to save note. Please try again."

  /** The save button is enabled: neither a manual save nor an autosave is in flight. */
  predicate SaveEnabled(e: Editor)
  {
    !e.saving && !e.autoSaving
  }

  /**
   The button cannot send twice: a click that sends a request disables it, so a
   second click sends nothing until the answer arrives; a click while an autosave
   is in flight sends nothing either; and the answer re-enables it.
   */
  lemma SaveButtonBlocksDoubleSubmit(e: Editor, reply: Option<Note>, now: Instant)
    ensures ClickSave(e).calls != [] ==>
      !SaveEnabled(ClickSave(e).editor) && ClickSave(ClickSave(e).editor).calls == []
    ensures BeginAutoSave(e).calls != [] ==> ClickSave(BeginAutoSave(e).editor).calls == []
    ensures !e.autoSaving ==> SaveEnabled(FinishSave(e, reply, now).editor)
  {
  }

  /** A click on the save button: the requests sent and the alert shown, if any. */
  datatype Click = Click(editor: Editor, calls: seq<SaveCall>, alert: Option<string>)

  /** `handleSave` up to the request leaving; a disabled button ignores the click. */
  function ClickSave(e: Editor): (r: Click)
    ensures !SaveEnabled(e) ==> r == Click(e, [], None)
    ensures SaveEnabled(e) && (IsBlank(e.title) || IsBlank(e.content)) ==> r == Click(e, [], Some(FillBoth))
    ensures r.calls != [] <==> SaveEnabled(e) && !IsBlank(e.title) && !IsBlank(e.content)
    ensures r.calls != [] ==>
      && r.editor == e.(saving := true)
      && r.alert.None?
      && |r.calls| == 1
      && r.calls[0].title == e.title && r.calls[0].content == e.content
      && (r.calls[0].UpdateCall? <==> e.note.Some?)
      && (e.note.Some? ==> r.calls[0].id == e.note.value.id)
  {
    if !SaveEnabled(e) then Click(e, [], None)
    else if IsBlank(e.title) || IsBlank(e.content) then Click(e, [], Some(FillBoth))
    else
      var call := if e.note.Some? then UpdateCall(e.note.value.id, e.title, e.content)
                  else CreateCall(e.title, e.content);
      Click(e.(saving := true), [call], None)
  }

  /** The answer to a manual save arrives at `now`; a failure is reported and loses no input. */
  function FinishSave(e: Editor, reply: Option<Note>, now: Instant): (r: Click)
    ensures !r.editor.saving && r.calls == []
    ensures r.editor.title == e.title && r.editor.content == e.content
    ensures reply.None? ==> r.editor == e.(saving := false) && r.alert == Some(SaveFailed)
    ensures reply.Some? ==> r.editor.note == reply && r.editor.lastSaved == Some(now) && r.alert.None?
  {
    var e' := e.(saving := false);
    if reply.Some? then Click(Saved(e', reply.value, now), [], None)
    else Click(e', [], Some(SaveFailed))
  }

  /** `lastSaved` moves only when a save succeeds, and then to the moment it did. */
  lemma LastSavedOnlyOnSuccess(e: Editor, reply: Option<Note>, now: Instant)
    ensures FinishSave(e, reply, now).editor.lastSaved != e.lastSaved ==> reply.Some?
    ensures FinishAutoSave(e, reply, now).lastSaved != e.lastSaved ==> reply.Some?
    ensures reply.Some? ==> FinishSave(e, reply, now).editor.lastSaved == Some(now)
  {
  }

  /** What the editor sends always passes the server's check of the payload. */
  lemma EditorRequestsPassServerValidation(e: Editor)
    ensures forall c :: c in ClickSave(e).calls ==>
      Routes.Valid(Routes.Payload(Some(c.title), Some(c.content)))
    ensures forall c :: c in BeginAutoSave(e).calls ==>
      Routes.Valid(Routes.Payload(Some(c.title), Some(c.content)))
  {
    var click := ClickSave(e);
    var auto := BeginAutoSave(e);
    if click.calls != [] || auto.calls != [] {
      assert !IsBlank(e.title) && !IsBlank(e.content);
      NonBlankIsNonEmpty(e.title);
      NonBlankIsNonEmpty(e.content);
      assert Routes.Valid(Routes.Payload(Some(e.title), Some(e.content)));
    }
    assert forall c :: c in click.calls ==> c.title == e.title && c.content == e.content;
    assert forall c :: c in auto.calls ==> c.title == e.title && c.content == e.content;
  }

  /** The converse fails: the server accepts a title and content made only of white space, which the editor refuses. */
  lemma ServerAcceptsBlankFields()
    ensures Routes.Valid(Routes.Payload(Some(" "), Some(" ")))
    ensures ClickSave(Open(None, 0).(title := " ", content := " ")).calls == []
  {
    assert TrimStart(" ") == [];
    assert IsBlank(" ");
  }

  /* ---------------------------------------------------------------- caption */

  /** The "Saved ..." caption; `ClockTime` stands for the locale-formatted time of day. */
  datatype SavedCaption = NoCaption | JustNow | SecondsAgo(seconds: int) | MinutesAgo(minutes: int) | ClockTime

  /**
   `formatLastSaved` at `now`, with whole seconds taken by `Math.floor`. Each
   caption names the time elapsed since the save: under ten seconds "just now",
   then whole seconds below a minute, whole minutes below an hour, and the clock
   time from an hour on.
   */
  function SavedBucket(lastSaved: Option<Instant>, now: Instant): (c: SavedCaption)
    ensures c == NoCaption <==> lastSaved.None?
    ensures lastSaved.Some? ==>
      var elapsed := now - lastSaved.value;
      && (c == JustNow <==> elapsed < 10000)
      && (c == ClockTime <==> elapsed >= 3600000)
      && (c.SecondsAgo? ==> 10 <= c.seconds < 60 && c.seconds * 1000 <= elapsed < (c.seconds + 1) * 1000)
      && (c.MinutesAgo? ==> 1 <= c.minutes < 60 && c.minutes * 60000 <= elapsed < (c.minutes + 1) * 60000)
  {
    if lastSaved.None? then NoCaption
    else
      var elapsed := now - lastSaved.value;
      var diff := elapsed / 1000;
      assert elapsed == diff * 1000 + elapsed % 1000;
      var m := diff / 60;
      assert diff == m * 60 + diff % 60;
      assert diff < 10 ==> elapsed < 10000;
      assert diff >= 3600 ==> elapsed >= 3600000;
      assert m * 60000 == (m * 60) * 1000;
      assert (m + 1) * 60000 == (m * 60 + 60) * 1000;
      if diff < 10 then JustNow
      else if diff < 60 then SecondsAgo(diff)
      else if diff < 3600 then MinutesAgo(diff / 60)
      else ClockTime
  }

  function SavedText(caption: SavedCaption): string
    requires !caption.ClockTime?
  {
    match caption
    case NoCaption => ""
    case JustNow => "just now"
    case SecondsAgo(s) => IntToDecimal(s) + "s ago"
    case MinutesAgo(m) => IntToDecimal(m) + "m ago"
  }

  /** Forty-two seconds read "42s ago". */
  lemma SecondsExample()
    ensures SavedText(SavedBucket(Some(0), 42000)) == "42s ago"
  {
    assert NatToDecimal(42) == NatToDecimal(4) + [DigitChar(2)];
  }

  /** Ninety seconds read "1m ago". */
  lemma MinutesExample()
    ensures SavedText(SavedBucket(Some(0), 90000)) == "1m ago"
  {
    assert SavedBucket(Some(0), 90000) == MinutesAgo(1);
  }
}
