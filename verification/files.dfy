/** The filesystem as the player sees it: two yes/no questions about a path.
    `java.io.File.exists()` and `canRead()` become the two predicates of a
    `FileSystem` value, so every operation that consults the disk takes the
    filesystem it consults as a parameter. */
module Files {
  import JavaLang

  /** The name separator of the (Unix) paths the model works with. */
  const SEPARATOR: char := '/'

  datatype FileSystem = FileSystem(fileExists: string -> bool, canRead: string -> bool)
  {
    /** `file.exists() && file.canRead()`, the check every core operation uses. */
    predicate Readable(path: string) {
      fileExists(path) && canRead(path)
    }
  }

  /** `File.getName()`: the last name of a normalised path, after its last separator. */
  function FileName(path: string): (name: string)
    ensures |name| <= |path| && name == path[|path| - |name|..]
    ensures SEPARATOR !in name
    ensures |name| < |path| ==> path[|path| - |name| - 1] == SEPARATOR
  {
    path[JavaLang.LastIndexOf(path, SEPARATOR) + 1..]
  }
}
