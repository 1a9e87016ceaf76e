/** The few Foundation notions the model needs: identifiers and file URLs. */
module FoundationTypes {

  /** A `UUID`. Fresh identifiers come from a counter owned by the object that creates them. */
  type UUID = nat

  /** A file URL, represented by its path. */
  type Url = string

  /** The index of the last `c` in `s`, or -1 when it has none. */
  function LastIndexOf(s: string, c: char): (i: int)
    ensures -1 <= i < |s|
    ensures i >= 0 ==> s[i] == c
    ensures forall j :: i < j < |s| ==> s[j] != c
    decreases |s|
  {
    if |s| == 0 then -1
    else if s[|s| - 1] == c then |s| - 1
    else LastIndexOf(s[..|s| - 1], c)
  }

  /** `lastPathComponent`: the text after the last '/' (the whole path when it has none). */
  function LastPathComponent(path: Url): string {
    path[LastIndexOf(path, '/') + 1..]
  }

  /** `deletingLastPathComponent()`: the directory part, up to and including the last '/'. */
  function DeletingLastPathComponent(path: Url): Url {
    path[..LastIndexOf(path, '/') + 1]
  }

  /** A path is its directory part followed by its last component. */
  lemma PathSplitsAtLastSlash(path: Url)
    ensures DeletingLastPathComponent(path) + LastPathComponent(path) == path
  {
    SplitAt(path, LastIndexOf(path, '/') + 1);
  }

  lemma SplitAt(s: string, k: nat)
    requires k <= |s|
    ensures s[..k] + s[k..] == s
  {
  }

  /** The last component holds no '/', and the directory part is empty or ends in one. */
  lemma LastPathComponentHasNoSlash(path: Url)
    ensures '/' !in LastPathComponent(path)
    ensures var dir := DeletingLastPathComponent(path); dir == [] || dir[|dir| - 1] == '/'
  {
    var i := LastIndexOf(path, '/');
    var name := path[i + 1..];
    forall k | 0 <= k < |name|
      ensures name[k] != '/'
    {
      assert name[k] == path[i + 1 + k];
    }
  }

  /** `appendingPathComponent(_:)`: joins with a '/' unless the directory already ends in one. */
  function AppendingPathComponent(dir: Url, name: string): Url {
    if dir == [] || dir[|dir| - 1] == '/' then dir + name else dir + "/" + name
  }

  /** The appended name is the last component of the result, and the directory its parent. */
  lemma AppendingPathComponentSplits(dir: Url, name: string)
    requires '/' !in name && name != []
    ensures LastPathComponent(AppendingPathComponent(dir, name)) == name
    ensures DeletingLastPathComponent(AppendingPathComponent(dir, name)) ==
      if dir == [] || dir[|dir| - 1] == '/' then dir else dir + "/"
  {
    var parent := if dir == [] || dir[|dir| - 1] == '/' then dir else dir + "/";
    var path := parent + name;
    assert AppendingPathComponent(dir, name) == path;
    var i := LastIndexOf(path, '/');
    assert forall j :: |parent| <= j < |path| ==> path[j] == name[j - |parent|];
    if parent != [] {
      assert path[|parent| - 1] == '/';
    }
    assert i == |parent| - 1;
  }

  /**
   * A last component split at its last '.', when that dot is neither its first nor its last
   * character; otherwise the whole name, with no extension.
   */
  function SplitExtension(name: string): (parts: (string, string))
    ensures '.' !in parts.1
    ensures parts.1 == "" ==> parts.0 == name
    ensures parts.1 != "" ==> parts.0 != "" && parts.0 + "." + parts.1 == name
  {
    var dot := LastIndexOf(name, '.');
    if dot > 0 && dot + 1 < |name| then
      assert name[..dot] + "." + name[dot + 1..] == name;
      (name[..dot], name[dot + 1..])
    else (name, "")
  }

  /** `pathExtension`. */
  function PathExtension(path: Url): string {
    SplitExtension(LastPathComponent(path)).1
  }

  /** `deletingPathExtension().lastPathComponent`. */
  function BaseName(path: Url): string {
    SplitExtension(LastPathComponent(path)).0
  }

  /** Splitting `name.ext` at its last dot gives back `name`, when `name` has no '.' of its own. */
  lemma ExtensionSplitsOff(name: string, ext: string)
    requires name != [] && '.' !in name && ext != [] && '.' !in ext
    ensures SplitExtension(name + "." + ext).0 == name
  {
    var file := name + "." + ext;
    assert forall j :: |name| < j < |file| ==> file[j] == ext[j - |name| - 1];
    assert file[|name|] == '.';
    var dot := LastIndexOf(file, '.');
    assert dot == |name|;
    assert file[..dot] == name;
  }
}
