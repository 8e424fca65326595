/** `os.path.basename` on a POSIX system, where `/` is the only separator. */
module PosixPath {

  /**
   * `os.path.basename(path)`: the text after the last `/`, or the whole path
   * when it has none. It is empty when the path is empty or ends in `/`.
   * The contract says: the result is the longest suffix of `path` without a `/`.
   */
  function Basename(path: string): (name: string)
    ensures '/' !in name
    ensures |name| <= |path| && path[|path| - |name|..] == name
    ensures |name| < |path| ==> path[|path| - |name| - 1] == '/'
    decreases |path|
  {
    if path == [] || path[|path| - 1] == '/' then []
    else Basename(path[..|path| - 1]) + [path[|path| - 1]]
  }

  /** The three properties in Basename's contract single out one string. */
  lemma BasenameUnique(path: string, name: string)
    requires '/' !in name
    requires |name| <= |path| && path[|path| - |name|..] == name
    requires |name| < |path| ==> path[|path| - |name| - 1] == '/'
    ensures name == Basename(path)
  {
  }

  /** The basename is empty exactly when the path is empty or ends in `/`. */
  lemma BasenameEmptyIff(path: string)
    ensures Basename(path) == [] <==> (path == [] || path[|path| - 1] == '/')
  {
    var b := Basename(path);
    if b != [] {
      assert b[|b| - 1] == path[|path| - 1];
    }
  }

}
