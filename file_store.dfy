/** The file system the scripts read and write, as an abstract store: the path of every existing
    file mapped to its modification time (`st_mtime`). */
module FileSystem {

  type Path = string

  class FileStore {
    /** A path is a key exactly when that file exists; the value is its modification time. */
    var mtimes: map<Path, int>

    constructor (initial: map<Path, int>)
      ensures mtimes == initial
    {
      mtimes := initial;
    }

    /** Writing a file (`Image.save`): afterwards it exists, last modified at `now`. */
    method Save(path: Path, now: int)
      modifies this
      ensures mtimes == old(mtimes)[path := now]
    {
      mtimes := mtimes[path := now];
    }

    /** `shutil.copy2(src, dst)`: the copy carries the source's modification time. */
    method Copy2(src: Path, dst: Path)
      requires src in mtimes
      modifies this
      ensures mtimes == old(mtimes)[dst := old(mtimes)[src]]
    {
      mtimes := mtimes[dst := mtimes[src]];
    }
  }
}
