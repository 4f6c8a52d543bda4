/**
 * File names of the build: POSIX `os.path.join` and the output directory.
 */
module Paths {

  /** `BUILD_DIR`: every generated file lives below it. */
  const BuildDir: string := "build"

  /**
   * `os.path.join(a, b)` on POSIX: an absolute `b` replaces `a`; otherwise a separator
   * is inserted unless `a` is empty or already ends with one.
   */
  function Join(a: string, b: string): (r: string)
    ensures |b| <= |r| && r[|r| - |b|..] == b
    ensures b == [] || b[0] != '/' ==> a <= r
    ensures b != [] && b[0] == '/' ==> r == b
  {
    if b != [] && b[0] == '/' then b
    else if a == [] || a[|a| - 1] == '/' then a + b
    else a + "/" + b
  }

  /** A relative name joined below the build directory. */
  lemma JoinBuildDir(b: string)
    requires b == [] || b[0] != '/'
    ensures Join(BuildDir, b) == "build/" + b
  {
  }
}
