/** The archive both scripts work on: a set of paths, changed only by
    `os.rename`. */
module Files {
  type Path = string

  /** The archive as the set of paths of the files it holds. */
  type FileSystem = set<Path>

  /** `os.rename(src, dst)`: `src` is gone, `dst` exists (replacing any file
      that was there). */
  function Rename(fs: FileSystem, src: Path, dst: Path): FileSystem {
    fs - {src} + {dst}
  }
}
