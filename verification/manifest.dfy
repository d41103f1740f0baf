/** The manifest that the tasks of the tracer fill in (src/manifest.h). */
module Manifests {

  datatype FileStatus =
    | Copy
    | Result
    | IgnoreDidNotExistBefore
    | IgnoreNoLongerExist
    | IgnoreNotAccessible
    | IgnoreDirectory

  type CopyFiles = map<string, FileStatus>

  datatype DebPackage = DebPackage(name: string, version: string)

  /** R packages are referred to by name. */
  class Manifest {
    var copyFiles: CopyFiles
    var symlinks: set<string>
    var rPackages: set<string>
    var debPackages: set<DebPackage>

    constructor ()
      ensures copyFiles == map[] && symlinks == {} && rPackages == {} && debPackages == {}
    {
      copyFiles, symlinks, rPackages, debPackages := map[], {}, {}, {};
    }
  }
}
