/**
 * The verification decision taken on each camera frame, and the cooldown
 * that keeps the "granted" and "denied" notifications from repeating.
 * Time is in whole seconds. The camera, the face detector and the template
 * matcher are oracles: whether a frame was read, how many faces it shows,
 * which user folders hold a readable face.jpg, and which stored faces the
 * frame matches.
 */
module Verification {
  import opened Wrappers
  import opened FolderNames

  /** Seconds that must pass between two notifications of the same kind. */
  const CooldownSeconds: int := 5

  /** How far in the past both timestamps are put at start-up and on a scan start. */
  const ResetOffset: int := 10

  const NoUsersMessage: string := "No registered users found. Please register first."
  const UnrecognizedMessage: string := "Unrecognized face. Access denied."

  /** The greeting for a recognised user. */
  function WelcomeMessage(name: string): (message: string)
    ensures |message| == |name| + 26
    ensures message[..9] == "Welcome, " && message[9..9 + |name|] == name
    ensures message[9 + |name|..] == "! Access Granted."
  {
    "Welcome, " + name + "! Access Granted."
  }

  /** The two last-notified timestamps, access_denied_time and access_granted_time. */
  datatype Stamps = Stamps(denied: int, granted: int)

  /** The two kinds of notification, each with its own cooldown. */
  datatype Kind = Granted | Denied

  function StampOf(t: Stamps, k: Kind): int
  {
    match k
    case Granted => t.granted
    case Denied => t.denied
  }

  /** QDateTime.secsTo: the seconds from one instant to another. */
  function SecsTo(from: int, to: int): int
  {
    to - from
  }

  /** The cooldown test `now.secsTo(last) <= -cooldown_seconds`. */
  predicate CooldownElapsed(now: int, last: int)
    ensures CooldownElapsed(now, last) <==> now - last >= CooldownSeconds
  {
    SecsTo(now, last) <= -CooldownSeconds
  }

  /** Both timestamps set ResetOffset seconds before now. */
  function ResetStamps(now: int): (t: Stamps)
    ensures CooldownElapsed(now, t.granted) && CooldownElapsed(now, t.denied)
  {
    Stamps(now - ResetOffset, now - ResetOffset)
  }

  /** What a frame makes the user interface show. */
  datatype Emission =
    | Silent                             // nothing changes on screen
    | DenialShown(message: string)       // "Access Denied" status with a message
    | GrantPopup(message: string)        // "Access Granted" status and a popup
    | GrantStatusOnly(message: string)   // "Access Granted" status, no popup

  /** The notification of kind k was actually emitted (so its timestamp moves). */
  predicate Shown(e: Emission, k: Kind)
  {
    match k
    case Granted => e.GrantPopup?
    case Denied => e.DenialShown?
  }

  /** A folder holds a readable stored face and the template matcher reports a match for it. */
  predicate Hit(folder: string, faceFiles: set<string>, matches: string -> bool)
  {
    folder in faceFiles && matches(folder)
  }

  /**
   * The scan of the listing: the index of the first folder, in listing order,
   * that has a stored face and matches. Folders without a face are skipped.
   */
  function FirstMatch(folders: seq<string>, faceFiles: set<string>, matches: string -> bool): (r: Option<nat>)
    ensures r.Some? ==> r.value < |folders| && Hit(folders[r.value], faceFiles, matches)
    ensures r.Some? ==> forall i :: 0 <= i < r.value ==> !Hit(folders[i], faceFiles, matches)
    ensures r.None? ==> forall i :: 0 <= i < |folders| ==> !Hit(folders[i], faceFiles, matches)
  {
    if folders == [] then None
    else if Hit(folders[0], faceFiles, matches) then Some(0)
    else match FirstMatch(folders[1..], faceFiles, matches)
      case None => None
      case Some(k) => Some(k + 1)
  }

  /** Folders after the first match play no part: whatever follows it, the scan picks the same folder. */
  lemma {:induction false} FirstMatchIgnoresLater(folders: seq<string>, rest: seq<string>, faceFiles: set<string>, matches: string -> bool)
    requires FirstMatch(folders, faceFiles, matches).Some?
    ensures var k := FirstMatch(folders, faceFiles, matches).value;
      FirstMatch(folders[..k + 1] + rest, faceFiles, matches) == Some(k)
  {
    var k := FirstMatch(folders, faceFiles, matches).value;
    var s := folders[..k + 1] + rest;
    assert s[k] == folders[k];
  }

  /**
   * verify_face: with an empty listing, a "no registered users" denial;
   * otherwise a greeting for the first matching folder, or an
   * "unrecognized face" denial. Each notification is emitted only when its
   * cooldown has elapsed, and only an emitted one moves its timestamp to now;
   * a grant inside the cooldown still updates the status, without a popup.
   */
  function VerifyFace(t: Stamps, now: int, folders: seq<string>, faceFiles: set<string>, matches: string -> bool): (r: (Emission, Stamps))
    ensures r.0.GrantPopup? || r.0.GrantStatusOnly? <==> FirstMatch(folders, faceFiles, matches).Some?
    ensures r.0.GrantPopup? <==> FirstMatch(folders, faceFiles, matches).Some? && CooldownElapsed(now, t.granted)
    ensures r.0.DenialShown? <==> FirstMatch(folders, faceFiles, matches).None? && CooldownElapsed(now, t.denied)
    ensures r.0.GrantPopup? || r.0.GrantStatusOnly? ==>
              r.0.message == WelcomeMessage(NameOf(folders[FirstMatch(folders, faceFiles, matches).value]))
    ensures r.0.DenialShown? ==> r.0.message == if folders == [] then NoUsersMessage else UnrecognizedMessage
    ensures r.1.granted == if r.0.GrantPopup? then now else t.granted
    ensures r.1.denied == if r.0.DenialShown? then now else t.denied
  {
    if folders == [] then
      if CooldownElapsed(now, t.denied) then (DenialShown(NoUsersMessage), t.(denied := now)) else (Silent, t)
    else
      match FirstMatch(folders, faceFiles, matches)
      case Some(k) =>
        var message := WelcomeMessage(NameOf(folders[k]));
        if CooldownElapsed(now, t.granted) then (GrantPopup(message), t.(granted := now))
        else (GrantStatusOnly(message), t)
      case None =>
        if CooldownElapsed(now, t.denied) then (DenialShown(UnrecognizedMessage), t.(denied := now)) else (Silent, t)
  }

  /** One tick of the frame timer, with what the oracles report for it. */
  datatype Frame = Frame(
    now: int,
    frameOk: bool,                // the camera produced a frame
    faceCount: nat,               // faces the detector found in it
    folders: seq<string>,         // the listing of the data directory
    faceFiles: set<string>,       // folders holding a readable face.jpg
    matches: string -> bool)      // stored faces the template matcher accepts

  /** The face-count gate of update_frame: verification runs only on a frame that shows a face. */
  function OnFrame(t: Stamps, f: Frame): (r: (Emission, Stamps))
    ensures !f.frameOk || f.faceCount == 0 ==> r == (Silent, t)
  {
    if f.frameOk && f.faceCount > 0 then VerifyFace(t, f.now, f.folders, f.faceFiles, f.matches) else (Silent, t)
  }

  /** A notification of kind k is called for by this frame (whether or not the cooldown lets it through). */
  predicate Due(f: Frame, k: Kind)
  {
    && f.frameOk && f.faceCount > 0
    && (match k
        case Granted => FirstMatch(f.folders, f.faceFiles, f.matches).Some?
        case Denied => FirstMatch(f.folders, f.faceFiles, f.matches).None?)
  }

  /** Each timestamp moves exactly when its notification is shown, and then to the frame's time. */
  lemma OnFrameStamps(t: Stamps, f: Frame, k: Kind)
    ensures Shown(OnFrame(t, f).0, k) <==> Due(f, k) && CooldownElapsed(f.now, StampOf(t, k))
    ensures StampOf(OnFrame(t, f).1, k) == if Shown(OnFrame(t, f).0, k) then f.now else StampOf(t, k)
  {
  }

  /** The emissions of a run of frames, each frame starting from the stamps the previous one left. */
  function Run(t: Stamps, frames: seq<Frame>): (out: seq<Emission>)
    ensures |out| == |frames|
    decreases |frames|
  {
    if frames == [] then []
    else [OnFrame(t, frames[0]).0] + Run(OnFrame(t, frames[0]).1, frames[1..])
  }

  /** Every notification of kind k in a run comes at least CooldownSeconds after the stamp the run started from. */
  lemma {:induction false} ShownAfterStamp(t: Stamps, frames: seq<Frame>, k: Kind, j: nat)
    requires j < |frames| && Shown(Run(t, frames)[j], k)
    ensures frames[j].now - StampOf(t, k) >= CooldownSeconds
    decreases |frames|
  {
    OnFrameStamps(t, frames[0], k);
    if j > 0 {
      var t1 := OnFrame(t, frames[0]).1;
      assert Run(t, frames)[j] == Run(t1, frames[1..])[j - 1];
      ShownAfterStamp(t1, frames[1..], k, j - 1);
    }
  }

  /**
   * Within a scan, two notifications of the same kind are always at least
   * CooldownSeconds apart: no repeated popup or denial inside the cooldown.
   */
  lemma {:induction false} ShownNotificationsSpaced(t: Stamps, frames: seq<Frame>, k: Kind, i: nat, j: nat)
    requires i < j < |frames|
    requires Shown(Run(t, frames)[i], k) && Shown(Run(t, frames)[j], k)
    ensures frames[j].now - frames[i].now >= CooldownSeconds
    decreases |frames|
  {
    var t1 := OnFrame(t, frames[0]).1;
    assert Run(t, frames)[j] == Run(t1, frames[1..])[j - 1];
    if i == 0 {
      OnFrameStamps(t, frames[0], k);
      ShownAfterStamp(t1, frames[1..], k, j - 1);
    } else {
      assert Run(t, frames)[i] == Run(t1, frames[1..])[i - 1];
      ShownNotificationsSpaced(t1, frames[1..], k, i - 1, j - 1);
    }
  }

  /**
   * While no frame calls for a notification of kind k, its timestamp stays
   * put; so if it lies CooldownSeconds before every frame's time, the first
   * frame that calls for one shows it.
   */
  lemma {:induction false} FirstDueIsShown(t: Stamps, frames: seq<Frame>, k: Kind, j: nat)
    requires j < |frames| && Due(frames[j], k)
    requires forall i :: 0 <= i < j ==> !Due(frames[i], k)
    requires forall i :: 0 <= i <= j ==> frames[i].now - StampOf(t, k) >= CooldownSeconds
    ensures Shown(Run(t, frames)[j], k)
    decreases |frames|
  {
    OnFrameStamps(t, frames[0], k);
    if j > 0 {
      var t1 := OnFrame(t, frames[0]).1;
      assert Run(t, frames)[j] == Run(t1, frames[1..])[j - 1];
      FirstDueIsShown(t1, frames[1..], k, j - 1);
    }
  }

  /**
   * After a scan start at time t0, the first grant and the first denial are
   * never suppressed (as long as the clock does not go back past t0), since
   * ResetOffset is at least CooldownSeconds.
   */
  lemma {:induction false} FirstAfterResetShown(t0: int, frames: seq<Frame>, k: Kind, j: nat)
    requires j < |frames| && Due(frames[j], k)
    requires forall i :: 0 <= i < j ==> !Due(frames[i], k)
    requires forall i :: 0 <= i <= j ==> frames[i].now >= t0
    ensures Shown(Run(ResetStamps(t0), frames)[j], k)
  {
    FirstDueIsShown(ResetStamps(t0), frames, k, j);
  }

  /**
   * A registered user whose folder is the first one that matches is greeted
   * by name, with a popup when the grant cooldown has elapsed.
   */
  lemma {:induction false} RegisteredUserGreeted(t: Stamps, f: Frame, k: nat, id: string, name: string)
    requires f.frameOk && f.faceCount > 0
    requires k < |f.folders| && f.folders[k] == FolderName(id, name) && Separator !in id
    requires Hit(f.folders[k], f.faceFiles, f.matches)
    requires forall i :: 0 <= i < k ==> !Hit(f.folders[i], f.faceFiles, f.matches)
    ensures OnFrame(t, f).0 == if CooldownElapsed(f.now, t.granted) then GrantPopup(WelcomeMessage(name))
                               else GrantStatusOnly(WelcomeMessage(name))
  {
    NameOfFolderName(id, name);
    var r := FirstMatch(f.folders, f.faceFiles, f.matches);
    assert r.Some?;
    assert r.value == k;
  }
}
