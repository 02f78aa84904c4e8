/**
 * The note screen's session as a state machine over values
 * (MainActivity.kt, `NoteScreen`, lines 82-158).
 *
 * A session holds the two remembered state variables of the screen
 * (`isAuthenticated`, `note`), the key-value store behind the encrypted
 * preferences, and the latest biometric result the screen has collected
 * (null until the first prompt completes). Each event is one atomic step:
 * a handler followed by the recomposition it causes, in which the `when`
 * over the latest result runs again.
 */
module SessionMachine {
  import opened Wrappers
  import opened BiometricResults

  /** The preferences file, seen through its plain key-value interface. */
  type Store = map<string, string>

  /** The one key the screen reads, writes and removes. */
  const NOTE_KEY := "note"

  datatype Session = Session(
    authenticated: bool,
    note: string,
    store: Store,
    current: Option<BiometricResult>)

  /** What actually happens on the screen, one at a time. */
  datatype Event =
    | ResultArrives(result: BiometricResult)  // the prompt manager emits a result
    | AuthenticateClicked                     // the "Authenticate" button
    | NoteEdited(text: string)                // the text field's new value
    | SaveClicked                             // the "Save Note" button
    | LogOutClicked                           // the "Log Out" button

  /** `getString("note", "") ?: ""`: the stored note, or the empty string. */
  function StoredNote(store: Store): string {
    if NOTE_KEY in store then store[NOTE_KEY] else ""
  }

  /** The screen as first composed over an existing store. */
  function Initial(store: Store): Session {
    Session(false, "", store, None)
  }

  /**
   * The invariant of reachable sessions: while the latest result is a success
   * the session is authenticated.
   */
  predicate Consistent(s: Session) {
    s.current == Some(AuthenticationSuccess) ==> s.authenticated
  }

  /**
   * The note on screen is what a fresh authentication would load: nothing is
   * waiting to be saved.
   */
  predicate InSync(s: Session) {
    StoredNote(s.store) == s.note
  }

  // ---------------------------------------------------------------------
  // Handlers, as the code writes them
  // ---------------------------------------------------------------------

  /**
   * A result is collected. The effect keyed on the result runs only when the
   * collected value changes; on a success it marks the session authenticated
   * and loads the note (lines 92-97).
   */
  function OnResult(s: Session, r: BiometricResult): Session {
    if s.current == Some(r) then s
    else if r == AuthenticationSuccess then
      s.(current := Some(r), authenticated := true, note := StoredNote(s.store))
    else
      s.(current := Some(r))
  }

  /** The text field replaces the note (line 117). */
  function OnEdit(s: Session, text: string): Session {
    s.(note := text)
  }

  /** "Save Note" writes the note under its key (line 123). */
  function OnSave(s: Session): Session {
    s.(store := s.store[NOTE_KEY := s.note])
  }

  /**
   * "Log Out" as written: removes the stored note, clears the flag and the
   * note, and keeps the latest result (lines 130-135).
   */
  function OnLogOutAsWritten(s: Session): Session {
    s.(store := s.store - {NOTE_KEY}, authenticated := false, note := "")
  }

  /** "Log Out" that also forgets the result that opened the session. */
  function OnLogOut(s: Session): Session {
    OnLogOutAsWritten(s).(current := None)
  }

  /**
   * Every composition that sees a successful result sets the flag again
   * (lines 140-145).
   */
  function Recompose(s: Session): Session {
    if s.current == Some(AuthenticationSuccess) then s.(authenticated := true) else s
  }

  /**
   * Whether the screen offers the event: the prompt button only while
   * unauthenticated, the editor and its buttons only while authenticated
   * (lines 105-138); results arrive at any time.
   */
  predicate Offered(s: Session, e: Event) {
    match e
    case ResultArrives(_) => true
    case AuthenticateClicked => !s.authenticated
    case _ => s.authenticated
  }

  /** The handler the code runs for an event (the prompt itself is external). */
  function Handle(s: Session, e: Event): Session {
    match e
    case ResultArrives(r) => OnResult(s, r)
    case AuthenticateClicked => s
    case NoteEdited(text) => OnEdit(s, text)
    case SaveClicked => OnSave(s)
    case LogOutClicked => OnLogOutAsWritten(s)
  }

  /** One event of the screen as written; events it does not offer cannot happen. */
  function StepAsWritten(s: Session, e: Event): Session {
    if Offered(s, e) then Recompose(Handle(s, e)) else s
  }

  function RunAsWritten(s: Session, es: seq<Event>): Session
    decreases |es|
  {
    if es == [] then s else RunAsWritten(StepAsWritten(s, es[0]), es[1..])
  }

  /** One event of the screen with the corrected "Log Out". */
  function Step(s: Session, e: Event): Session {
    if !Offered(s, e) then s
    else if e.LogOutClicked? then Recompose(OnLogOut(s))
    else Recompose(Handle(s, e))
  }

  function Run(s: Session, es: seq<Event>): Session
    decreases |es|
  {
    if es == [] then s else Run(Step(s, es[0]), es[1..])
  }

  // ---------------------------------------------------------------------
  // One step
  // ---------------------------------------------------------------------

  /** The screen starts locked, with an empty note, offering only the prompt. */
  lemma InitialIsLocked(store: Store)
    ensures Consistent(Initial(store))
    ensures !Initial(store).authenticated && Initial(store).note == ""
    ensures Initial(store).store == store && Initial(store).current == None
    ensures Offered(Initial(store), AuthenticateClicked)
    ensures !Offered(Initial(store), SaveClicked) && !Offered(Initial(store), LogOutClicked)
  {
  }

  /** Every step keeps the invariant, and recomposition then changes nothing. */
  lemma StepKeepsConsistent(s: Session, e: Event)
    requires Consistent(s)
    ensures Consistent(Step(s, e))
    ensures Recompose(s) == s
  {
  }

  /**
   * The flag after one step: set by a success, cleared by "Log Out", kept by
   * everything else.
   */
  lemma StepAuthenticated(s: Session, e: Event)
    requires Consistent(s)
    ensures Step(s, e).authenticated ==
      if e == ResultArrives(AuthenticationSuccess) then true
      else if e.LogOutClicked? then false
      else s.authenticated
  {
  }

  /**
   * A success authenticates and keeps the store. The note is loaded from the
   * store unless the latest result already was a success, in which case the
   * effect does not run again and the note on screen stays.
   */
  lemma SuccessLoadsNote(s: Session)
    requires Consistent(s)
    ensures Step(s, ResultArrives(AuthenticationSuccess)).authenticated
    ensures Step(s, ResultArrives(AuthenticationSuccess)).store == s.store
    ensures Step(s, ResultArrives(AuthenticationSuccess)).note ==
      if s.current == Some(AuthenticationSuccess) then s.note else StoredNote(s.store)
  {
  }

  /** Any other result changes nothing but the status it shows. */
  lemma OtherResultKeepsSession(s: Session, r: BiometricResult)
    requires r != AuthenticationSuccess
    ensures Step(s, ResultArrives(r)) == s.(current := Some(r))
  {
  }

  /** Editing replaces the note and nothing else. */
  lemma EditReplacesNote(s: Session, text: string)
    requires s.authenticated
    ensures Step(s, NoteEdited(text)).note == text
    ensures Step(s, NoteEdited(text)) == s.(note := text)
  {
  }

  /** Saving stores the note under its key and leaves every other key alone. */
  lemma SaveStoresNote(s: Session)
    requires s.authenticated
    ensures NOTE_KEY in Step(s, SaveClicked).store
    ensures Step(s, SaveClicked).store[NOTE_KEY] == s.note
    ensures Step(s, SaveClicked).store - {NOTE_KEY} == s.store - {NOTE_KEY}
    ensures Step(s, SaveClicked).(store := s.store) == s
    ensures InSync(Step(s, SaveClicked))
  {
  }

  /**
   * Logging out locks the screen, clears the note on screen and deletes the
   * stored one, leaving every other key alone.
   */
  lemma LogOutClears(s: Session)
    requires s.authenticated
    ensures !Step(s, LogOutClicked).authenticated
    ensures Step(s, LogOutClicked).note == ""
    ensures NOTE_KEY !in Step(s, LogOutClicked).store
    ensures Step(s, LogOutClicked).store == s.store - {NOTE_KEY}
    ensures Offered(Step(s, LogOutClicked), AuthenticateClicked)
    ensures InSync(Step(s, LogOutClicked))
  {
  }

  /** A locked screen never writes to the store, and offers the prompt and no editor control. */
  lemma LockedScreenKeepsStore(s: Session, e: Event)
    requires !s.authenticated
    ensures Step(s, e).store == s.store
    ensures StepAsWritten(s, e).store == s.store
    ensures Offered(s, AuthenticateClicked)
    ensures forall text :: !Offered(s, NoteEdited(text))
    ensures !Offered(s, SaveClicked) && !Offered(s, LogOutClicked)
  {
  }

  /**
   * The prompt is offered exactly while the session is locked, and the
   * editor with its buttons exactly while it is authenticated.
   */
  lemma PromptOfferedIffLocked(s: Session)
    ensures Offered(s, AuthenticateClicked) <==> !s.authenticated
    ensures forall text :: Offered(s, NoteEdited(text)) <==> s.authenticated
    ensures Offered(s, SaveClicked) <==> s.authenticated
    ensures Offered(s, LogOutClicked) <==> s.authenticated
  {
  }

  // ---------------------------------------------------------------------
  // Traces
  // ---------------------------------------------------------------------

  ghost predicate NoLogOut(es: seq<Event>) {
    forall j :: 0 <= j < |es| ==> !es[j].LogOutClicked?
  }

  ghost predicate OnlyResults(es: seq<Event>) {
    forall j :: 0 <= j < |es| ==> es[j].ResultArrives?
  }

  /** Some success in the trace is not followed by a "Log Out". */
  ghost predicate UnlockedIn(es: seq<Event>) {
    exists i :: 0 <= i < |es| && es[i] == ResultArrives(AuthenticationSuccess) && NoLogOut(es[i + 1..])
  }

  lemma {:induction false} RunKeepsConsistent(s: Session, es: seq<Event>)
    requires Consistent(s)
    ensures Consistent(Run(s, es))
    decreases |es|
  {
    if es != [] {
      StepKeepsConsistent(s, es[0]);
      RunKeepsConsistent(Step(s, es[0]), es[1..]);
    }
  }

  /** How the two trace predicates split over the first event. */
  lemma TracePredicatesCons(es: seq<Event>)
    requires es != []
    ensures NoLogOut(es) <==> !es[0].LogOutClicked? && NoLogOut(es[1..])
    ensures UnlockedIn(es) <==>
      UnlockedIn(es[1..]) || (es[0] == ResultArrives(AuthenticationSuccess) && NoLogOut(es[1..]))
  {
  }

  /**
   * After any trace the session is authenticated exactly when some success in
   * the trace has not been followed by a "Log Out", or it started
   * authenticated and no "Log Out" happened.
   */
  lemma {:induction false} AuthenticatedIff(s: Session, es: seq<Event>)
    requires Consistent(s)
    ensures Run(s, es).authenticated <==> UnlockedIn(es) || (s.authenticated && NoLogOut(es))
    decreases |es|
  {
    if es != [] {
      StepKeepsConsistent(s, es[0]);
      StepAuthenticated(s, es[0]);
      AuthenticatedIff(Step(s, es[0]), es[1..]);
      TracePredicatesCons(es);
    }
  }

  /**
   * The store changes only under the note's key, whatever happens on the
   * screen.
   */
  lemma {:induction false} OtherKeysUntouched(s: Session, es: seq<Event>)
    ensures Run(s, es).store - {NOTE_KEY} == s.store - {NOTE_KEY}
    decreases |es|
  {
    if es != [] {
      var t := Step(s, es[0]);
      assert t.store - {NOTE_KEY} == s.store - {NOTE_KEY};
      OtherKeysUntouched(t, es[1..]);
    }
  }

  /** The invariant holds along every trace of the code as written too. */
  lemma {:induction false} RunAsWrittenKeepsConsistent(s: Session, es: seq<Event>)
    requires Consistent(s)
    ensures Consistent(RunAsWritten(s, es))
    decreases |es|
  {
    if es != [] {
      assert Consistent(StepAsWritten(s, es[0]));
      RunAsWrittenKeepsConsistent(StepAsWritten(s, es[0]), es[1..]);
    }
  }

  /** As written too, the store changes only under the note's key. */
  lemma {:induction false} OtherKeysUntouchedAsWritten(s: Session, es: seq<Event>)
    ensures RunAsWritten(s, es).store - {NOTE_KEY} == s.store - {NOTE_KEY}
    decreases |es|
  {
    if es != [] {
      var t := StepAsWritten(s, es[0]);
      assert t.store - {NOTE_KEY} == s.store - {NOTE_KEY};
      OtherKeysUntouchedAsWritten(t, es[1..]);
    }
  }

  /**
   * When nothing is waiting to be saved, results never change the note or
   * the store: a success reloads exactly the note that is on screen.
   */
  lemma {:induction false} ResultsKeepSyncedNote(s: Session, es: seq<Event>)
    requires Consistent(s) && InSync(s) && OnlyResults(es)
    ensures Run(s, es).note == s.note && Run(s, es).store == s.store
    decreases |es|
  {
    if es != [] {
      var t := Step(s, es[0]);
      StepKeepsConsistent(s, es[0]);
      assert t.note == s.note && t.store == s.store;
      assert OnlyResults(es[1..]) by {
        forall j | 0 <= j < |es[1..]| ensures es[1..][j].ResultArrives? {
          assert es[1..][j] == es[j + 1];
        }
      }
      ResultsKeepSyncedNote(t, es[1..]);
    }
  }

  /**
   * Round trip: after "Save Note", any later results, a new success among
   * them, give back exactly the saved note from the store.
   */
  lemma SaveThenResultsRoundTrip(s: Session, es: seq<Event>)
    requires Consistent(s) && s.authenticated && OnlyResults(es)
    ensures Run(Step(s, SaveClicked), es).note == s.note
    ensures StoredNote(Run(Step(s, SaveClicked), es).store) == s.note
  {
    SaveStoresNote(s);
    StepKeepsConsistent(s, SaveClicked);
    ResultsKeepSyncedNote(Step(s, SaveClicked), es);
  }

  /**
   * After "Log Out" the stored note is gone: later results, a new success
   * among them, load the empty note.
   */
  lemma LogOutThenResultsLoadEmpty(s: Session, es: seq<Event>)
    requires Consistent(s) && s.authenticated && OnlyResults(es)
    ensures Run(Step(s, LogOutClicked), es).note == ""
    ensures NOTE_KEY !in Run(Step(s, LogOutClicked), es).store
  {
    LogOutClears(s);
    StepKeepsConsistent(s, LogOutClicked);
    ResultsKeepSyncedNote(Step(s, LogOutClicked), es);
  }

  /** A new success after "Log Out" opens the session again, on an empty note. */
  lemma LogInAgainAfterLogOut(s: Session)
    requires Consistent(s) && s.authenticated
    ensures Run(s, [LogOutClicked, ResultArrives(AuthenticationSuccess)]).authenticated
    ensures Run(s, [LogOutClicked, ResultArrives(AuthenticationSuccess)]).note == ""
  {
  }

  /**
   * A whole session on an empty store: authenticate, type "hello", save, log
   * out. The store holds "hello" after saving, and nothing after logging out.
   */
  lemma HelloScenario()
    ensures var s0 := Initial(map[]);
      var s1 := Run(s0, [AuthenticateClicked, ResultArrives(AuthenticationSuccess)]);
      var s2 := Run(s1, [NoteEdited("hello"), SaveClicked]);
      var s3 := Step(s2, LogOutClicked);
      s1.authenticated && s1.note == "" &&
      s2.store == map[NOTE_KEY := "hello"] &&
      !s3.authenticated && s3.note == "" && s3.store == map[]
  {
  }

  // ---------------------------------------------------------------------
  // "Log Out" as written
  // ---------------------------------------------------------------------

  /**
   * As written, "Log Out" keeps the latest result, so while that result is a
   * success the recomposition it causes authenticates the session again, now
   * with an empty note and no stored note.
   */
  lemma LogOutUndoneAsWritten(s: Session)
    requires s.authenticated && s.current == Some(AuthenticationSuccess)
    ensures StepAsWritten(s, LogOutClicked).authenticated
    ensures StepAsWritten(s, LogOutClicked).note == ""
    ensures NOTE_KEY !in StepAsWritten(s, LogOutClicked).store
  {
  }

  /**
   * As written, once a success is the latest result the session stays
   * authenticated through any number of edits, saves and log-outs, until a
   * different result arrives.
   */
  lemma {:induction false} AsWrittenNeverLocks(s: Session, es: seq<Event>)
    requires s.authenticated && s.current == Some(AuthenticationSuccess)
    requires forall j :: 0 <= j < |es| ==> !es[j].ResultArrives?
    ensures RunAsWritten(s, es).authenticated
    ensures RunAsWritten(s, es).current == Some(AuthenticationSuccess)
    decreases |es|
  {
    if es != [] {
      var t := StepAsWritten(s, es[0]);
      assert t.authenticated && t.current == s.current;
      assert forall j :: 0 <= j < |es[1..]| ==> !es[1..][j].ResultArrives? by {
        forall j | 0 <= j < |es[1..]| ensures !es[1..][j].ResultArrives? {
          assert es[1..][j] == es[j + 1];
        }
      }
      AsWrittenNeverLocks(t, es[1..]);
    }
  }

  /**
   * As written, a later success cannot start a new session either: it equals
   * the success already collected, so the effect that loads the note does
   * not run.
   */
  lemma RepeatedSuccessIgnoredAsWritten(s: Session)
    requires s.current == Some(AuthenticationSuccess)
    ensures StepAsWritten(s, ResultArrives(AuthenticationSuccess)).note == s.note
  {
  }

  /**
   * With the corrected "Log Out" the screen locks, offers the prompt again,
   * and stays locked until a success arrives.
   */
  lemma LogOutLocks(s: Session, es: seq<Event>)
    requires Consistent(s) && s.authenticated
    requires forall j :: 0 <= j < |es| ==> es[j] != ResultArrives(AuthenticationSuccess)
    ensures !Run(Step(s, LogOutClicked), es).authenticated
    ensures Offered(Run(Step(s, LogOutClicked), es), AuthenticateClicked)
  {
    StepKeepsConsistent(s, LogOutClicked);
    AuthenticatedIff(Step(s, LogOutClicked), es);
  }
}
