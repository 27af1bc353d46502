/** The file system as the core sees it: which paths exist. */
module FileSystem {

  /** The files that exist, by full path: what `File.Exists`, `File.Move` and `StreamWriter` see. */
  class Disk {
    var paths: set<string>

    constructor (paths: set<string>)
      ensures this.paths == paths
    {
      this.paths := paths;
    }
  }
}
