# Face access gate: registration and verification decisions

A model of the decision logic of a camera-based door lock written with PyQt5
and OpenCV (`main.py`, class `FaceDetectionApp`). Users register with a name
and a unique id; the application keeps one folder per user, named
`<id>_<name>`, holding the user's `face.jpg`. On every camera frame that shows
a face, the stored faces are compared with the frame in directory-listing
order and the first match grants access; otherwise access is denied. Two
timestamps and a cooldown of 5 seconds keep the "granted" popup and the
"denied" status from repeating; pressing "Unlock" sets both timestamps to
10 seconds before the current time.

The camera, the Haar-cascade face detector and the template matcher are
oracles: whether a frame was read, how many faces it shows, which folders hold
a readable `face.jpg` (the set `faceFiles`), and which stored faces the current
frame matches (`matches: string -> bool`). The data directory is its listing,
a sequence of folder names. Time is whole seconds.

Modules:

- `Wrappers`: `Option`.
- `Text`: Python's `str.strip()` (with the whitespace set of `str.isspace()`),
  `str.startswith()` and the first index of a character.
- `FolderNames`: building a folder name from id and name, and reading the name
  back (`folder.split('_', 1)[1]`, or `"Unknown"`).
- `Registration`: the outcome of the "Take Photo" guard followed by the
  delayed registration step, and the listing afterwards.
- `Verification`: the cooldown test, the scan for the first match, the
  `verify_face` decision, the face-count gate of `update_frame`, and runs of
  frames with the cooldown properties proved over them.
- `App`: class `FaceDetectionApp` with the fields the handlers update
  (listing, face files, the two inputs, `is_registering`, the two
  timestamps); each handler is proved against the pure functions above.

Registration refuses a frame only when it shows no face at all. The
duplicate-id test is a prefix test over folder names: an id is refused when
some folder starts with `id + "_"`. Verification runs on every frame that
shows a face; "Unlock" only clears the inputs and resets the two timestamps.

Two consequences of the folder-name convention are proved rather than
hidden: an id holding `_` makes the name read back wrongly (id `a_b`, name
`c` is greeted as `b_c`, `FolderNames.NameOfIdWithSeparator`), and an id
that is a `_`-prefix of another user's folder is refused although it is not in
use (`Registration.PrefixTestRejectsOtherId`).

## Model

| member | source | states |
|---|---|---|
| `Text.Strip` | main.py:368-369 | the result is empty iff the input is all whitespace; otherwise it is the contiguous part of the input that starts and ends with non-whitespace, and everything outside it is whitespace |
| `Text.StartsWith` | main.py:408 | s starts with the prefix iff s is the prefix followed by some rest |
| `Text.IndexOf` | main.py:496 | None iff the character does not occur; otherwise the position of its first occurrence |
| `FolderNames.FolderName` | main.py:413 | the folder name starts with `id + "_"` and ends with the name |
| `FolderNames.NameOf` | main.py:496 | `"Unknown"` when the folder has no `_`; otherwise the part after the first `_` |
| `FolderNames.NameOfFolderName` | main.py:496 | reading the name back from the folder built for (id, name) gives name whenever id holds no `_` |
| `FolderNames.NameOfIdWithSeparator` | main.py:496 | with id `a_b` and name `c` the folder `a_b_c` reads back as `b_c`, not `c` |
| `Registration.ProcessOutcome` | main.py:389-416 | a failed frame read does nothing; zero faces is refused; the id is refused iff some folder starts with `id + "_"`; otherwise the new folder is `id_name` and was not in the listing |
| `Registration.IdTaken` | main.py:407-411 | any id whose own folder `id_name` is in the listing is taken (exact duplicates are always caught) |
| `Registration.InputsPresent` | main.py:371 | the guard passes iff neither the name nor the id is blank |
| `Registration.Register` | main.py:367-416 | "missing information" iff the name or the id is blank; a success creates `id_name` from the stripped inputs, a folder not yet in the listing |
| `Registration.StoreAfter` | main.py:413-416 | the old listing is kept as it was, with the new folder appended after it on success and nothing added otherwise |
| `Registration.BlankInputRejected` | main.py:367-373 | a name or id that is blank after stripping gives "missing information" and leaves the listing unchanged |
| `Registration.NoFrameOrNoFaceRejected` | main.py:393-404 | a failed frame read or zero detected faces never registers and leaves the listing unchanged |
| `Registration.RegisterAddsExactlyOneFolder` | main.py:407-416 | registration succeeds iff the inputs are present, a frame with a face was read and no folder starts with `id + "_"`; then exactly the folder `id_name`, new to the listing, is appended |
| `Registration.RegisterKeepsDistinct` | main.py:407-414 | a listing without repeated names stays so after any registration attempt |
| `Registration.RegisteredIdIsTaken` | main.py:407-413 | with non-blank inputs, a face and an unused id, registration succeeds; registering the same id again afterwards, under any name, is refused |
| `Registration.PrefixTestRejectsOtherId` | main.py:407-411 | the test is by prefix: folder `a_b_c` blocks the unused id `a` |
| `Registration.RegisteredNameReadsBack` | main.py:413 | with non-blank inputs, a face and an unused id, registration succeeds and the new folder reads back as the stripped name when the id holds no `_` |
| `Verification.CooldownElapsed` | main.py:478 | the test `now.secsTo(last) <= -cooldown_seconds` holds iff at least 5 seconds have passed since last |
| `Verification.WelcomeMessage` | main.py:501 | the greeting is "Welcome, " followed by the user's name and "! Access Granted." |
| `Verification.ResetStamps` | main.py:331-332 | after a reset both cooldowns have already elapsed at the reset time |
| `Verification.FirstMatch` | main.py:486-508 | the result is the first folder in listing order that has a stored face and matches; None iff no folder does; folders without a face are skipped |
| `Verification.FirstMatchIgnoresLater` | main.py:486-508 | folders after the first match do not affect which folder is picked |
| `Verification.VerifyFace` | main.py:473-516 | a grant iff some folder matches, with a popup iff the grant cooldown has elapsed, else a silent status update; a denial is shown iff nothing matches and the denial cooldown has elapsed, with the "no registered users" message iff the listing is empty; each timestamp becomes now exactly when its notification is shown |
| `Verification.OnFrame` | main.py:441-458 | a failed frame read or a frame without faces shows nothing and changes no timestamp |
| `Verification.OnFrameStamps` | main.py:499-515 | per kind: shown iff called for by the frame and its cooldown has elapsed; its timestamp moves to the frame's time iff shown |
| `Verification.ShownAfterStamp` | main.py:477-515 | every notification of a kind in a run of frames comes at least 5 seconds after that kind's starting timestamp |
| `Verification.ShownNotificationsSpaced` | main.py:477-515 | in any run of frames with no Unlock press between them, two shown notifications of the same kind are at least 5 seconds apart |
| `Verification.FirstDueIsShown` | main.py:499-515 | the first frame that calls for a notification of a kind shows it when that kind's timestamp is at least 5 seconds before every frame so far |
| `Verification.FirstAfterResetShown` | main.py:331-332 | after a scan start at t0, the first grant and the first denial at or after t0 are never suppressed |
| `Verification.RegisteredUserGreeted` | main.py:495-505 | a user registered as `id_name` (id without `_`) whose folder is the first match is greeted with name, by popup iff the grant cooldown has elapsed |
| `App.FaceDetectionApp.constructor` | main.py:265-273 | starts with empty inputs and both timestamps 10 seconds in the past |
| `App.FaceDetectionApp.EnterInputs` | main.py:142-161 | the user typing into the two `QLineEdit` fields built there (the code has no handler for typing): afterwards they hold what was typed |
| `App.FaceDetectionApp.StartUnlock` | main.py:323-332 | clears the inputs and resets both timestamps to now - 10; the listing is unchanged |
| `App.FaceDetectionApp.TakePhoto` | main.py:367-387 | the registration step is scheduled iff neither input is blank |
| `App.FaceDetectionApp.ProcessRegistrationPhoto` | main.py:389-422 | the outcome is `ProcessOutcome` of the stripped inputs; on success exactly the new folder is added (with its face file) and the inputs are cleared, otherwise nothing changes; timestamps are untouched and the listing keeps no repeated names |
| `App.FaceDetectionApp.UpdateFrame` | main.py:441-458 | emission and new timestamps are `OnFrame` of the old timestamps and this frame; the listing and inputs are unchanged |
| `App.FaceDetectionApp.VerifyFace` | main.py:473-516 | the scan loop with its skip and early exit emits and updates the timestamps exactly as `Verification.VerifyFace` decides |

## Left out

- Widget construction, stylesheets, button colours, `on_resize_event` and `closeEvent`: presentation only.
- Camera capture, frame flipping and colour conversion, Haar-cascade detection and `cv2.matchTemplate`: foreign library calls, represented only by their results (frame read or not, face count, match or not).
- The floating-point template score and its 0.6 threshold: the matcher's verdict is a given boolean per folder.
- File-system I/O (`os.listdir`, `os.makedirs`, `cv2.imwrite`, `cv2.imread`): the directory is a sequence of names plus the set of folders with a readable `face.jpg`; writing `face.jpg` is assumed to succeed, and a `face.jpg` that cannot be read is treated like a missing one.
- `App.FaceDetectionApp.ProcessRegistrationPhoto`: the new folder is appended to the listing; the real `os.listdir` order is file-system dependent, so where a new user lands in the scan order is not modelled.
- `Registration.Register`: assumes the inputs do not change during the 500 ms delay between the "Take Photo" guard and the registration step; the class method itself re-reads the fields, as the code does, and does not re-check them for emptiness.
- Registration.ProcessOutcome, Registration.Register, Registration.StoreAfter, Registration.RegisterAddsExactlyOneFolder, Registration.RegisteredIdIsTaken, Registration.RegisteredNameReadsBack, App.FaceDetectionApp.ProcessRegistrationPhoto: the folder `id_name` is one entry of a flat listing whose names are compared exactly. Ids or names holding a path separator, absolute paths and case-insensitive file systems are outside the model, because path resolution belongs to the operating system. Folder creation and the write of `face.jpg` are assumed to succeed: an exception from `os.makedirs` (a name too long for the file system, a permission error) is not modelled.
- QTimer timeouts (the 30 ms frame tick, the 500 ms registration delay, the 2000 ms and 3000 ms status resets): display timing, not decisions.
- Verification.ShownNotificationsSpaced, Verification.ShownAfterStamp, Verification.Run: each frame is handled in one step, with the grant timestamp written together with the popup. The program writes `access_granted_time` only after the modal popup closes, and Qt keeps delivering the 30 ms frame ticks while it is open; those nested ticks still see the old timestamp and can open further grant popups within the cooldown. The spacing is therefore proved for the one-step model only; for grant popups the program itself does not guarantee it. Denials are not modal and are unaffected. The same nesting can run a queued registration step inside the success dialog, before the inputs are cleared; that is not modelled either.
- Modal dialogs (`show_warning`, `show_success`, the popup of `show_access_granted`) and the wording of their titles and texts: the outcome of a registration is a datatype value; a grant popup is an emission value.
- `QDateTime` millisecond precision: time is whole seconds.
