/**
 * How a user is stored on disk: one folder per user under the data
 * directory, named "<id>_<name>", from which the greeting reads the name back.
 */
module FolderNames {
  import opened Wrappers
  import opened Text

  /** The character joining id and name in a folder name. */
  const Separator: char := '_'

  /** The name shown for a folder whose name holds no separator. */
  const UnknownName: string := "Unknown"

  /** The folder a registration creates: f"{unique_id}_{name}". */
  function FolderName(id: string, name: string): (folder: string)
    ensures StartsWith(folder, id + [Separator])
    ensures |folder| == |id| + 1 + |name| && folder[|id| + 1..] == name
  {
    id + [Separator] + name
  }

  /**
   * The name the greeting uses: folder.split('_', 1)[1], i.e. everything after
   * the FIRST separator, or "Unknown" when the folder holds none.
   */
  function NameOf(folder: string): (name: string)
    ensures Separator !in folder ==> name == UnknownName
    ensures Separator in folder ==>
              && |name| < |folder|
              && name == folder[|folder| - |name|..]
              && folder[|folder| - |name| - 1] == Separator
              && Separator !in folder[..|folder| - |name| - 1]
  {
    match IndexOf(folder, Separator)
    case None => UnknownName
    case Some(k) => folder[k + 1..]
  }

  /** Reading the name back from a folder built for (id, name) gives name, provided id holds no separator. */
  lemma {:induction false} NameOfFolderName(id: string, name: string)
    requires Separator !in id
    ensures NameOf(FolderName(id, name)) == name
  {
    var folder := FolderName(id, name);
    assert folder[|id|] == Separator;
    assert folder[..|id|] == id;
  }

  /** An id that holds the separator breaks the round trip: id "a_b" with name "c" reads back as "b_c". */
  lemma NameOfIdWithSeparator()
    ensures FolderName("a_b", "c") == "a_b_c"
    ensures NameOf(FolderName("a_b", "c")) == "b_c"
    ensures NameOf(FolderName("a_b", "c")) != "c"
  {
    var folder := FolderName("a_b", "c");
    assert folder[1] == Separator && folder[..1] == "a";
  }
}
