/** `getFolderPath`: the directory part of a saved file's path, for both
    '/'-separated and '\'-separated path styles. */
module FolderPath {
  import opened JsString

  predicate IsSeparator(c: char)
  {
    c == '/' || c == '\\'
  }

  /** `Math.max` on two integers. */
  function Max(a: int, b: int): int
  {
    if a < b then b else a
  }

  /** With no separator at all the result is empty; otherwise it is the
      prefix that ends just before the last separator of either kind. */
  function GetFolderPath(filePath: string): (r: string)
    ensures (forall k :: 0 <= k < |filePath| ==> !IsSeparator(filePath[k])) ==> r == ""
    ensures (exists k :: 0 <= k < |filePath| && IsSeparator(filePath[k])) ==>
      |r| < |filePath| && r == filePath[..|r|] && IsSeparator(filePath[|r|])
      && forall k :: |r| < k < |filePath| ==> !IsSeparator(filePath[k])
  {
    var lastSlashIndex := LastIndexOf(filePath, '/');
    var lastBackslashIndex := LastIndexOf(filePath, '\\');
    var lastSeparatorIndex := Max(lastSlashIndex, lastBackslashIndex);
    if lastSeparatorIndex == -1 then "" else filePath[..lastSeparatorIndex]
  }

  /** The folder of `dir + "/" + name`, for a name without separators, is `dir`
      (and likewise with '\'). */
  lemma FolderOfJoinedPath(dir: string, sep: char, name: string)
    requires IsSeparator(sep)
    requires forall k :: 0 <= k < |name| ==> !IsSeparator(name[k])
    ensures GetFolderPath(dir + [sep] + name) == dir
  {
    var p := dir + [sep] + name;
    assert IsSeparator(p[|dir|]);
    forall k | |dir| < k < |p| ensures !IsSeparator(p[k]) {
      assert p[k] == name[k - |dir| - 1];
    }
    assert p[..|dir|] == dir;
  }
}
