# Biometric note screen — session model

The app keeps one free-text note in encrypted shared preferences and shows it
only after a biometric or device-credential prompt succeeds. What this
project models is the note screen's session logic in `MainActivity.kt`:

- the two remembered state variables (`isAuthenticated`, `note`), the
  preferences store as a `map<string, string>`, and the latest biometric
  result the screen has collected;
- the effect keyed on that result, which opens the session and loads the
  note on a success;
- the text field, "Save Note" and "Log Out" handlers;
- the `when` over the latest result that runs on every composition;
- the status line for the latest result;
- the decision to launch the system's enrollment screen, and its
  authenticator mask.

Files:

- `wrappers.dfy` holds `Option`.
- `results.dfy` (module `BiometricResults`) holds the result variants and the
  status text.
- `enrollment.dfy` (module `Enrollment`) holds the enrollment decision.
- `session.dfy` (module `SessionMachine`) holds the session as a pure state
  machine: one function per handler, `Step` and `Run` over event traces, and
  the lemmas about them.
- `note_screen.dfy` (module `NoteScreenState`) holds the class `NoteScreen`.
  Its fields are the screen's state and its methods update them in place.
  Each method is proved to move the object exactly as `SessionMachine.Step`
  does, so the trace lemmas about `Step` and `Run` also hold for the object.

Modelling decisions:

- Two machines are modelled. `StepAsWritten` and `RunAsWritten` are the
  code as it stands: "Log Out" keeps the collected result. `Step`, `Run` and
  the class `NoteScreen` use the corrected "Log Out", which also forgets the
  collected result (see "## Findings"). Everything else is the same in both.
  Lemmas about `Step` and `Run` describe the corrected machine. The code as
  written locks the screen only until the recomposition that follows.
- An event is one atomic step: the handler, then the recomposition it
  causes. An event that the screen does not offer cannot happen, and `Step`
  leaves the session unchanged for it. The screen offers "Authenticate" only
  while locked, and the editor, "Save Note" and "Log Out" only while
  authenticated. The class methods for those controls `require`
  `authenticated`.
- `LaunchedEffect(biometricResult)` runs again only when the collected
  result changes. Because results are compared by value, a success that
  follows a success does not reload the note.
- The authenticator mask uses the values from androidx.biometric:
  `BIOMETRIC_STRONG = 0x000F` and `DEVICE_CREDENTIAL = 0x8000`. Enrollment
  needs SDK 30 or later.
- "Log Out" deletes the stored note (`MainActivity.kt:132`, commented
  "removing the saved note"). It does not just end the session and keep the
  encrypted note for the next login. The model follows the code.
- A success that arrives while the session is already authenticated does
  not always read the store again. Because of the equality above, it rereads
  only if a different result came in between.

## Model

| member | source | states |
|---|---|---|
| `BiometricResults.StatusText` | app/src/main/java/com/plcoding/biometricauth/MainActivity.kt:140-156 | A status line is shown exactly for errors and failures. A failure shows "Authentication failed". An error shows "Authentication error: " followed by its message. Every other result shows nothing. |
| `BiometricResults.StatusTextIdentifiesResult` | app/src/main/java/com/plcoding/biometricauth/MainActivity.kt:146-151 | Two results that show the same status line are the same result. No error message can make an error look like a failure. |
| `Enrollment.EnrollmentRequest` | app/src/main/java/com/plcoding/biometricauth/MainActivity.kt:62-74 | Enrollment is requested exactly when the result is "not set" and the SDK is at least 30. The mask admits strong biometrics and the device credential, and no other bit. |
| `SessionMachine.InitialIsLocked` | app/src/main/java/com/plcoding/biometricauth/MainActivity.kt:88-89 | The screen starts unauthenticated, with an empty note, the store untouched and no result. It offers the prompt and not the editor controls. |
| `SessionMachine.StepKeepsConsistent` | app/src/main/java/com/plcoding/biometricauth/MainActivity.kt:140-145 | With the corrected logout: every step keeps the invariant "latest result is a success implies authenticated". Under that invariant the recomposition changes nothing. |
| `SessionMachine.StepAuthenticated` | app/src/main/java/com/plcoding/biometricauth/MainActivity.kt:92-135 | With the corrected logout: after one step the flag is set by a success, cleared by "Log Out", and otherwise unchanged. |
| `SessionMachine.SuccessLoadsNote` | app/src/main/java/com/plcoding/biometricauth/MainActivity.kt:92-97 | With the corrected logout: a success authenticates and leaves the store alone. The note becomes the stored note, or "" if none is stored, unless the latest result already was a success. |
| `SessionMachine.OtherResultKeepsSession` | app/src/main/java/com/plcoding/biometricauth/MainActivity.kt:140-156 | With the corrected logout: a result other than success changes only the latest result. The flag, the note and the store stay as they were. The handler for results is the same in both machines. |
| `SessionMachine.EditReplacesNote` | app/src/main/java/com/plcoding/biometricauth/MainActivity.kt:114-117 | With the corrected logout: editing while authenticated sets the note to the new text and changes nothing else. |
| `SessionMachine.SaveStoresNote` | app/src/main/java/com/plcoding/biometricauth/MainActivity.kt:121-124 | With the corrected logout: saving stores the note under "note" and keeps every other key. Only the store changes. Afterwards the stored note equals the note on screen. |
| `SessionMachine.LogOutClears` | app/src/main/java/com/plcoding/biometricauth/MainActivity.kt:130-135 | With the corrected logout: logging out locks the screen, clears the note and removes "note" from the store. It keeps every other key and offers the prompt again. The handler's own effects (remove, clear the flag, clear the note) are those of the code. |
| `SessionMachine.LockedScreenKeepsStore` | app/src/main/java/com/plcoding/biometricauth/MainActivity.kt:105-124 | While locked, no event changes the store, in either machine. The prompt is offered, and no editor control (an edit with any text, Save, Log Out) is. |
| `SessionMachine.PromptOfferedIffLocked` | app/src/main/java/com/plcoding/biometricauth/MainActivity.kt:105-138 | The prompt is offered exactly while the session is locked. The editor, "Save Note" and "Log Out" are offered exactly while it is authenticated. |
| `SessionMachine.RunAsWrittenKeepsConsistent` | app/src/main/java/com/plcoding/biometricauth/MainActivity.kt:88-145 | For the code as written, the invariant "latest result is a success implies authenticated" holds after any trace. |
| `SessionMachine.OtherKeysUntouchedAsWritten` | app/src/main/java/com/plcoding/biometricauth/MainActivity.kt:121-135 | For the code as written, no trace changes any key other than "note". |
| `SessionMachine.RunKeepsConsistent` | app/src/main/java/com/plcoding/biometricauth/MainActivity.kt:140-145 | With the corrected logout: the session invariant holds after any trace of events. |
| `SessionMachine.AuthenticatedIff` | app/src/main/java/com/plcoding/biometricauth/MainActivity.kt:88-135 | With the corrected logout: after any trace, the session is authenticated if and only if one of two things holds. Either some success in the trace is followed by no "Log Out". Or the session started authenticated and the trace has no "Log Out". This does not hold for the code as written (see "## Findings"). |
| `SessionMachine.OtherKeysUntouched` | app/src/main/java/com/plcoding/biometricauth/MainActivity.kt:121-135 | With the corrected logout: no trace changes any key other than "note". |
| `SessionMachine.ResultsKeepSyncedNote` | app/src/main/java/com/plcoding/biometricauth/MainActivity.kt:92-97 | With the corrected logout: start with nothing waiting to be saved. Then any sequence of results leaves the note and the store unchanged. |
| `SessionMachine.SaveThenResultsRoundTrip` | app/src/main/java/com/plcoding/biometricauth/MainActivity.kt:121-124 | With the corrected logout: after a save, any later results (a new success among them) leave the note equal to the saved note. The store still holds the saved note. |
| `SessionMachine.LogOutThenResultsLoadEmpty` | app/src/main/java/com/plcoding/biometricauth/MainActivity.kt:130-135 | With the corrected logout: after logging out, any later results (a new success among them) leave the note at "". "note" stays absent from the store. |
| `SessionMachine.LogInAgainAfterLogOut` | app/src/main/java/com/plcoding/biometricauth/MainActivity.kt:130-135 | With the corrected logout, a success after logging out authenticates again, on an empty note. |
| `SessionMachine.HelloScenario` | app/src/main/java/com/plcoding/biometricauth/MainActivity.kt:88-135 | With the corrected logout: start on an empty store. Authenticate: the note is "". Type "hello" and save: the store holds exactly "hello". Log out: the screen is locked, the note is "" and the store is empty. As written, the final recomposition would leave the screen authenticated. |
| `SessionMachine.LogOutUndoneAsWritten` | app/src/main/java/com/plcoding/biometricauth/MainActivity.kt:130-145 | As written, if the latest result is a success, logging out ends authenticated again because of the recomposition. The note is "" and no note is stored. |
| `SessionMachine.AsWrittenNeverLocks` | app/src/main/java/com/plcoding/biometricauth/MainActivity.kt:130-145 | As written, once a success is the latest result, no edit, save or logout locks the screen. This lasts until a different result arrives. |
| `SessionMachine.RepeatedSuccessIgnoredAsWritten` | app/src/main/java/com/plcoding/biometricauth/MainActivity.kt:92-98 | If the latest result already is a success, another success does not reload the note. |
| `SessionMachine.LogOutLocks` | app/src/main/java/com/plcoding/biometricauth/MainActivity.kt:130-135 | With the corrected logout, the screen stays locked and offers the prompt through any events until a success arrives. |
| `NoteScreenState.NoteScreen.constructor` | app/src/main/java/com/plcoding/biometricauth/MainActivity.kt:88-89 | The new object is the initial session on the given store: locked, empty note, no result. |
| `NoteScreenState.NoteScreen.Recompose` | app/src/main/java/com/plcoding/biometricauth/MainActivity.kt:140-145 | While the latest result is a success, the flag is set. Nothing else changes. |
| `NoteScreenState.NoteScreen.OnResult` | app/src/main/java/com/plcoding/biometricauth/MainActivity.kt:62-98 | The new state is one step of the session machine for the result. The store is unchanged. A non-success keeps the flag and the note. A new success loads the stored note. An enrollment mask is returned exactly when the result changed and calls for enrollment. |
| `NoteScreenState.NoteScreen.Edit` | app/src/main/java/com/plcoding/biometricauth/MainActivity.kt:115-117 | The note becomes the text. The flag, the store and the result stay. |
| `NoteScreenState.NoteScreen.Save` | app/src/main/java/com/plcoding/biometricauth/MainActivity.kt:121-124 | "note" holds the note and every other key keeps its value. The flag, the note and the result stay. |
| `NoteScreenState.NoteScreen.LogOut` | app/src/main/java/com/plcoding/biometricauth/MainActivity.kt:130-135 | The corrected logout (see "## Findings"): the screen is locked, the note is "", "note" is removed from the store with all other keys kept, and the collected result is forgotten. The app itself does not forget the result. |
| `NoteScreenState.NoteScreen.Status` | app/src/main/java/com/plcoding/biometricauth/MainActivity.kt:146-151 | Returns a status line exactly when the latest result is an error or a failure. For a failure it is "Authentication failed". For an error it is "Authentication error: " followed by the message. |

`NoteScreenState.SessionWalkthrough` is a usage example of the class (a
client run through a whole session). It does not model any part of the app.

## Left out

- Compose layout, theming, the `Text`/`TextField`/`Button` rendering and the preview function: UI only. Only which controls are on screen is modelled, as `Offered`.
- Creation of the `EncryptedSharedPreferences` and the master key, and the AES-SIV/AES-GCM encryption: a foreign library. The store is a plain map that cannot fail. A stored value that is not a string cannot occur in it.
- `BiometricPromptManager`, `showBiometricPrompt` and the platform prompt are not part of this model. "Authenticate" changes no state, and results arrive as events at any time. Result variants beyond the four the screen tests for are `Other`.
- Flow collection, effect scheduling and the asynchronous `apply()` commit: each event is one atomic step. The intermediate composition after "Log Out" is not modelled. In that composition the prompt button is drawn before the `when` re-authenticates.
- Launching the enrollment `Intent`, and the `println` of its activity result: fire-and-forget I/O. Only the decision and the mask are modelled.
- How many times the store is read per authentication: the model has no count of reads. It only says when the note is reloaded.

## Findings

| source | as written | input that shows it | evidently intended | confidence | as-written member | corrected member |
|---|---|---|---|---|---|---|
| app/src/main/java/com/plcoding/biometricauth/MainActivity.kt:130-145 | "Log Out" clears `isAuthenticated`, but the collected result is still the success. The `when` at line 144 runs on the recomposition and sets `isAuthenticated = true` again. A later success equals the collected one, so it does not restart the loading effect. | Authenticate successfully, then tap "Log Out". The editor comes back, now with an empty note and nothing stored. | "Log Out" returns to the locked screen until a new prompt succeeds. That new success opens the session again. | medium, not executed | `SessionMachine.LogOutUndoneAsWritten` (also `SessionMachine.AsWrittenNeverLocks`) | `SessionMachine.LogOutLocks` (also `SessionMachine.LogInAgainAfterLogOut`); `OnLogOut` forgets the collected result, and `Step` and `NoteScreen.LogOut` use it |
