/**
 * The application window's decision state: the listing of the user data
 * directory, the two text inputs of the registration form, and the two
 * notification timestamps. Its methods are the button and timer handlers,
 * each specified by the pure functions of Registration and Verification.
 */
module App {
  import opened Text
  import opened FolderNames
  import opened Registration
  import opened Verification

  class FaceDetectionApp {
    /** The listing of the user data directory, one folder per user. */
    var folders: seq<string>
    /** The folders holding a readable face.jpg. */
    var faceFiles: set<string>
    /** The text of the name and id input fields. */
    var nameInput: string
    var idInput: string
    var isRegistering: bool
    var accessDeniedTime: int
    var accessGrantedTime: int

    ghost predicate Valid()
      reads this
    {
      Distinct(folders)
    }

    /** The two notification timestamps as one value. */
    function Times(): Stamps
      reads this
    {
      Stamps(accessDeniedTime, accessGrantedTime)
    }

    /** Start-up at time now, over the existing contents of the data directory. */
    constructor (now: int, listing: seq<string>, withFace: set<string>)
      requires Distinct(listing)
      ensures Valid()
      ensures folders == listing && faceFiles == withFace
      ensures nameInput == "" && idInput == "" && !isRegistering
      ensures Times() == ResetStamps(now)
    {
      folders, faceFiles := listing, withFace;
      nameInput, idInput := "", "";
      isRegistering := false;
      accessDeniedTime := now - ResetOffset;
      accessGrantedTime := now - ResetOffset;
    }

    /** The user types into the two input fields. */
    method EnterInputs(name: string, id: string)
      modifies this`nameInput, this`idInput
      ensures nameInput == name && idInput == id
    {
      nameInput, idInput := name, id;
    }

    /** The "Unlock" button: clears the inputs and resets both timestamps into the past. */
    method StartUnlock(now: int)
      requires Valid()
      modifies this
      ensures Valid()
      ensures Times() == ResetStamps(now)
      ensures nameInput == "" && idInput == "" && !isRegistering
      ensures folders == old(folders) && faceFiles == old(faceFiles)
    {
      isRegistering := false;
      nameInput, idInput := "", "";
      accessDeniedTime := now - ResetOffset;
      accessGrantedTime := now - ResetOffset;
    }

    /** The "Take Photo" button: the registration step is scheduled only when both stripped inputs are non-empty. */
    method TakePhoto() returns (scheduled: bool)
      ensures scheduled <==> !Blank(nameInput) && !Blank(idInput)
    {
      var name := Strip(nameInput);
      var uniqueId := Strip(idInput);
      if name == [] || uniqueId == [] {
        return false;
      }
      scheduled := true;
    }

    /**
     * The delayed registration step: reads and strips the inputs again,
     * captures a frame, and creates the folder "<id>_<name>" with its
     * face.jpg unless the frame is missing, shows no face, or the id is in use.
     */
    method ProcessRegistrationPhoto(frameOk: bool, faceCount: nat) returns (outcome: Outcome)
      requires Valid()
      modifies this
      ensures Valid()
      ensures outcome == ProcessOutcome(old(folders), Strip(old(nameInput)), Strip(old(idInput)), frameOk, faceCount)
      ensures folders == StoreAfter(old(folders), outcome)
      ensures faceFiles == if outcome.Registered? then old(faceFiles) + {outcome.folder} else old(faceFiles)
      ensures outcome.Registered? ==> nameInput == "" && idInput == ""
      ensures !outcome.Registered? ==> nameInput == old(nameInput) && idInput == old(idInput)
      ensures Times() == old(Times()) && isRegistering == old(isRegistering)
    {
      var name := Strip(nameInput);
      var uniqueId := Strip(idInput);
      if !frameOk {
        return FrameUnavailable;
      }
      if faceCount == 0 {
        return NoFaceDetected;
      }
      for i := 0 to |folders|
        invariant forall j :: 0 <= j < i ==> !StartsWith(folders[j], uniqueId + [Separator])
      {
        if StartsWith(folders[i], uniqueId + [Separator]) {
          return IdAlreadyExists;
        }
      }
      var userFolder := FolderName(uniqueId, name);
      folders := folders + [userFolder];
      faceFiles := faceFiles + {userFolder};
      outcome := Registered(userFolder);
      nameInput, idInput := "", "";
      forall i, j | 0 <= i < j < |folders| ensures folders[i] != folders[j] {
        if j == |folders| - 1 {
          assert folders[i] == old(folders)[i];
        }
      }
    }

    /** The frame timer's tick: verification runs only when the frame was read and shows a face. */
    method UpdateFrame(now: int, frameOk: bool, faceCount: nat, matches: string -> bool) returns (e: Emission)
      requires Valid()
      modifies this
      ensures Valid()
      ensures (e, Times()) == OnFrame(old(Times()), Frame(now, frameOk, faceCount, old(folders), old(faceFiles), matches))
      ensures folders == old(folders) && faceFiles == old(faceFiles)
      ensures nameInput == old(nameInput) && idInput == old(idInput) && isRegistering == old(isRegistering)
    {
      e := Silent;
      if frameOk && faceCount > 0 {
        e := VerifyFace(now, matches);
      }
    }

    /**
     * Scans the listing in order for the first folder with a stored face that
     * the frame matches, and emits the greeting or the denial its cooldown allows.
     */
    method VerifyFace(now: int, matches: string -> bool) returns (e: Emission)
      modifies this`accessDeniedTime, this`accessGrantedTime
      ensures (e, Times()) == Verification.VerifyFace(old(Times()), now, folders, faceFiles, matches)
    {
      if folders == [] {
        e := Silent;
        if CooldownElapsed(now, accessDeniedTime) {
          e := DenialShown(NoUsersMessage);
          accessDeniedTime := now;
        }
        return;
      }
      e := Silent;
      var faceFound := false;
      var i := 0;
      while i < |folders|
        invariant 0 <= i <= |folders|
        invariant forall j :: 0 <= j < i ==> !Hit(folders[j], faceFiles, matches)
        invariant Times() == old(Times())
      {
        var folder := folders[i];
        if folder !in faceFiles {
          i := i + 1;
          continue;
        }
        if matches(folder) {
          var userName := NameOf(folder);
          if CooldownElapsed(now, accessGrantedTime) {
            e := GrantPopup(WelcomeMessage(userName));
            accessGrantedTime := now;
          } else {
            e := GrantStatusOnly(WelcomeMessage(userName));
          }
          faceFound := true;
          break;
        }
        i := i + 1;
      }
      if !faceFound {
        if CooldownElapsed(now, accessDeniedTime) {
          e := DenialShown(UnrecognizedMessage);
          accessDeniedTime := now;
        }
      }
    }
  }
}
