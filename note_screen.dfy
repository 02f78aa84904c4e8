/**
 * The note screen's remembered state as an object whose handlers update it in
 * place (MainActivity.kt, `NoteScreen`, lines 82-158), and the enrollment
 * effect that reacts to the same results (lines 62-74).
 *
 * Every handler is proved to move the object exactly as one step of
 * SessionMachine.Step does, so the trace lemmas about Step describe the
 * object too. Like Step, the object's "Log Out" is the corrected one: it also
 * forgets the collected result.
 */
module NoteScreenState {
  import opened Wrappers
  import opened BiometricResults
  import opened Enrollment
  import opened SessionMachine

  class NoteScreen {
    var authenticated: bool
    var note: string
    var store: Store
    var current: Option<BiometricResult>

    /** The object's state as a session value. */
    function Model(): Session
      reads this
    {
      Session(authenticated, note, store, current)
    }

    ghost predicate Valid()
      reads this
    {
      Consistent(Model())
    }

    /** First composition: locked, empty note, no result collected yet (lines 53-54, 88-89). */
    constructor (persisted: Store)
      ensures Valid()
      ensures Model() == Initial(persisted)
      ensures !authenticated && note == "" && store == persisted && current == None
    {
      authenticated := false;
      note := "";
      store := persisted;
      current := None;
    }

    /** The `when` over the latest result, run on every composition (lines 140-145). */
    method Recompose()
      modifies this
      ensures Model() == SessionMachine.Recompose(old(Model()))
    {
      if current == Some(AuthenticationSuccess) {
        authenticated := true;
      }
    }

    /**
     * A result is collected on a device running `sdkInt`. When it differs
     * from the latest one, both effects keyed on it run: the enrollment effect
     * returns the mask of the enrollment screen it launches, if any, and on a
     * success the session opens on the stored note.
     */
    method OnResult(r: BiometricResult, sdkInt: int) returns (enroll: Option<bv32>)
      requires Valid()
      modifies this
      ensures Valid()
      ensures Model() == Step(old(Model()), ResultArrives(r))
      ensures store == old(store)
      ensures r != AuthenticationSuccess ==> authenticated == old(authenticated) && note == old(note)
      ensures r == AuthenticationSuccess ==> authenticated
      ensures r == AuthenticationSuccess && old(current) != Some(r) ==> note == StoredNote(store)
      ensures enroll == if old(current) == Some(r) then None else EnrollmentRequest(Some(r), sdkInt)
    {
      enroll := None;
      if current != Some(r) {
        current := Some(r);
        enroll := EnrollmentRequest(current, sdkInt);
        if r == AuthenticationSuccess {
          authenticated := true;
          note := StoredNote(store);
        }
      }
      Recompose();
    }

    /** The text field's new value replaces the note (line 117). */
    method Edit(text: string)
      requires Valid() && authenticated
      modifies this
      ensures Valid()
      ensures Model() == Step(old(Model()), NoteEdited(text))
      ensures note == text
      ensures authenticated && store == old(store) && current == old(current)
    {
      note := text;
      Recompose();
    }

    /** "Save Note" writes the note under its key (lines 121-124). */
    method Save()
      requires Valid() && authenticated
      modifies this
      ensures Valid()
      ensures Model() == Step(old(Model()), SaveClicked)
      ensures NOTE_KEY in store && store[NOTE_KEY] == note
      ensures store - {NOTE_KEY} == old(store) - {NOTE_KEY}
      ensures authenticated && note == old(note) && current == old(current)
    {
      store := store[NOTE_KEY := note];
      Recompose();
    }

    /**
     * "Log Out" deletes the stored note, locks the screen and clears the note
     * (lines 130-135), and forgets the result that opened the session.
     */
    method LogOut()
      requires Valid() && authenticated
      modifies this
      ensures Valid()
      ensures Model() == Step(old(Model()), LogOutClicked)
      ensures !authenticated && note == "" && current == None
      ensures NOTE_KEY !in store && store == old(store) - {NOTE_KEY}
    {
      store := store - {NOTE_KEY};
      authenticated := false;
      note := "";
      current := None;
      Recompose();
    }

    /**
     * The status line for the latest result (lines 146-151): shown only for
     * an error or a failure, with the error's message or the failure text.
     */
    method Status() returns (t: Option<string>)
      ensures t.Some? <==> IsReported(current)
      ensures current == Some(AuthenticationFailed) ==> t == Some(FAILED_TEXT)
      ensures current.Some? && current.value.AuthenticationError? ==>
        t == Some(ERROR_PREFIX + current.value.error)
    {
      t := StatusText(current);
    }
  }

  /**
   * A usage example, not a model of any part of the app. A client of the
   * object: open a session on a store that holds a note,
   * edit, save, log out and authenticate again.
   */
  method SessionWalkthrough(sdkInt: int)
  {
    var other := "theme";
    assert other[0] != NOTE_KEY[0];
    var screen := new NoteScreen(map[NOTE_KEY := "old", other := "dark"]);
    var enroll := screen.OnResult(AuthenticationNotSet, sdkInt);
    assert enroll.Some? <==> sdkInt >= ENROLL_MIN_SDK;
    assert !screen.authenticated;
    enroll := screen.OnResult(AuthenticationSuccess, sdkInt);
    assert enroll == None && screen.authenticated && screen.note == "old";
    screen.Edit("secret");
    screen.Save();
    assert screen.store[NOTE_KEY] == "secret" && screen.store[other] == "dark";
    enroll := screen.OnResult(AuthenticationFailed, sdkInt);
    var status := screen.Status();
    assert status == Some(FAILED_TEXT);
    assert screen.authenticated && screen.note == "secret";
    screen.LogOut();
    assert NOTE_KEY !in screen.store && screen.store[other] == "dark";
    enroll := screen.OnResult(AuthenticationSuccess, sdkInt);
    assert screen.authenticated && screen.note == "";
  }
}
