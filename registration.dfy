/**
 * Registering a user: the "Take Photo" button handler checks the two inputs,
 * then (after a short delay) the registration step captures a frame, asks the
 * face detector for faces, rejects an id that is already in use and creates
 * the user's folder. The store of users is the listing of the data directory,
 * a sequence of folder names.
 */
module Registration {
  import opened Text
  import opened FolderNames

  /** What a registration attempt ends in. */
  datatype Outcome =
    | MissingInformation        // name or id blank after stripping
    | FrameUnavailable          // the camera gave no frame: nothing happens
    | NoFaceDetected            // the detector found no face in the frame
    | IdAlreadyExists           // some folder already starts with "<id>_"
    | Registered(folder: string)

  /** No folder name occurs twice (a directory listing never repeats a name). */
  predicate Distinct(folders: seq<string>)
  {
    forall i, j :: 0 <= i < j < |folders| ==> folders[i] != folders[j]
  }

  /** The duplicate-id test: some folder starts with id followed by the separator. */
  predicate IdTaken(folders: seq<string>, id: string)
    ensures forall name :: FolderName(id, name) in folders ==> IdTaken(folders, id)
  {
    exists i :: 0 <= i < |folders| && StartsWith(folders[i], id + [Separator])
  }

  /** The guard of the "Take Photo" handler: both stripped inputs are non-empty. */
  predicate InputsPresent(nameText: string, idText: string)
    ensures InputsPresent(nameText, idText) <==> !Blank(nameText) && !Blank(idText)
  {
    Strip(nameText) != [] && Strip(idText) != []
  }

  /**
   * The registration step proper, on the already stripped name and id. It
   * does not check them for emptiness again: that is the handler's job.
   */
  function ProcessOutcome(folders: seq<string>, name: string, id: string, frameOk: bool, faceCount: nat): (r: Outcome)
    ensures r != MissingInformation
    ensures !frameOk ==> r == FrameUnavailable
    ensures frameOk && faceCount == 0 ==> r == NoFaceDetected
    ensures r == IdAlreadyExists <==> frameOk && faceCount > 0 && IdTaken(folders, id)
    ensures r.Registered? <==> frameOk && faceCount > 0 && !IdTaken(folders, id)
    ensures r.Registered? ==> r.folder == FolderName(id, name) && r.folder !in folders
  {
    if !frameOk then FrameUnavailable
    else if faceCount == 0 then NoFaceDetected
    else if IdTaken(folders, id) then IdAlreadyExists
    else
      Registered(FolderName(id, name))
  }

  /** The whole flow: the handler's guard, then the registration step with the same inputs. */
  function Register(folders: seq<string>, nameText: string, idText: string, frameOk: bool, faceCount: nat): (r: Outcome)
    ensures r == MissingInformation <==> Blank(nameText) || Blank(idText)
    ensures r.Registered? ==> r.folder == FolderName(Strip(idText), Strip(nameText)) && r.folder !in folders
  {
    if !InputsPresent(nameText, idText) then MissingInformation
    else ProcessOutcome(folders, Strip(nameText), Strip(idText), frameOk, faceCount)
  }

  /** The listing after an attempt: the new folder is added on success, nothing changes otherwise. */
  function StoreAfter(folders: seq<string>, r: Outcome): (after: seq<string>)
    ensures |after| == |folders| + (if r.Registered? then 1 else 0)
    ensures after[..|folders|] == folders
    ensures r.Registered? ==> after[|folders|] == r.folder
  {
    if r.Registered? then folders + [r.folder] else folders
  }

  /** A name or id that is blank after stripping is rejected before anything is captured. */
  lemma BlankInputRejected(folders: seq<string>, nameText: string, idText: string, frameOk: bool, faceCount: nat)
    requires Blank(nameText) || Blank(idText)
    ensures Register(folders, nameText, idText, frameOk, faceCount) == MissingInformation
    ensures StoreAfter(folders, Register(folders, nameText, idText, frameOk, faceCount)) == folders
  {
  }

  /** A failed frame read or a frame without a face leaves the store as it was. */
  lemma NoFrameOrNoFaceRejected(folders: seq<string>, nameText: string, idText: string, frameOk: bool, faceCount: nat)
    requires !frameOk || faceCount == 0
    ensures !Register(folders, nameText, idText, frameOk, faceCount).Registered?
    ensures StoreAfter(folders, Register(folders, nameText, idText, frameOk, faceCount)) == folders
  {
  }

  /**
   * Registration succeeds exactly when the inputs are present, a frame with a
   * face was captured and no folder starts with "<id>_"; it then adds exactly
   * the folder "<id>_<name>", which was not there before.
   */
  lemma RegisterAddsExactlyOneFolder(folders: seq<string>, nameText: string, idText: string, frameOk: bool, faceCount: nat)
    ensures var r := Register(folders, nameText, idText, frameOk, faceCount);
      && (r.Registered? <==> InputsPresent(nameText, idText) && frameOk && faceCount > 0 && !IdTaken(folders, Strip(idText)))
      && (r.Registered? ==>
            && r.folder == FolderName(Strip(idText), Strip(nameText))
            && StoreAfter(folders, r) == folders + [r.folder]
            && r.folder !in folders)
  {
  }

  /** Registration keeps the listing free of repeated names. */
  lemma {:induction false} RegisterKeepsDistinct(folders: seq<string>, nameText: string, idText: string, frameOk: bool, faceCount: nat)
    requires Distinct(folders)
    ensures Distinct(StoreAfter(folders, Register(folders, nameText, idText, frameOk, faceCount)))
  {
    var r := Register(folders, nameText, idText, frameOk, faceCount);
    if r.Registered? {
      var after := folders + [r.folder];
      forall i, j | 0 <= i < j < |after| ensures after[i] != after[j] {
        if j == |folders| {
          assert after[i] == folders[i];
        }
      }
    }
  }

  /** Once an id is registered, registering it again (under any name) is refused. */
  lemma {:induction false} RegisteredIdIsTaken(folders: seq<string>, nameText: string, idText: string, faceCount: nat,
                                              nameText': string, faceCount': nat)
    requires !Blank(nameText) && !Blank(idText) && !Blank(nameText')
    requires faceCount > 0 && faceCount' > 0 && !IdTaken(folders, Strip(idText))
    ensures Register(folders, nameText, idText, true, faceCount).Registered?
    ensures var after := StoreAfter(folders, Register(folders, nameText, idText, true, faceCount));
      Register(after, nameText', idText, true, faceCount') == IdAlreadyExists
  {
    var r := Register(folders, nameText, idText, true, faceCount);
    var after := folders + [r.folder];
    assert after[|folders|] == r.folder;
    assert IdTaken(after, Strip(idText));
  }

  /**
   * The duplicate test compares prefixes, not ids: a user registered with id
   * "a_b" (folder "a_b_c") blocks the different id "a".
   */
  lemma PrefixTestRejectsOtherId()
    ensures Register(["a_b_c"], "x", "a", true, 1) == IdAlreadyExists
  {
    assert Strip("a") == "a" by { assert LeadingSpace("a") == 0; }
    assert Strip("x") != [];
    assert StartsWith(["a_b_c"][0], "a" + [Separator]);
  }

  /** A registered user is greeted by the registered name whenever the id holds no separator. */
  lemma {:induction false} RegisteredNameReadsBack(folders: seq<string>, nameText: string, idText: string, faceCount: nat)
    requires !Blank(nameText) && !Blank(idText) && faceCount > 0 && !IdTaken(folders, Strip(idText))
    requires Separator !in Strip(idText)
    ensures Register(folders, nameText, idText, true, faceCount).Registered?
    ensures NameOf(Register(folders, nameText, idText, true, faceCount).folder) == Strip(nameText)
  {
    NameOfFolderName(Strip(idText), Strip(nameText));
  }
}
