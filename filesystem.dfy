/** The part of the file system the object store touches: regular files
    addressed by paths. A path is a sequence of segments from the file
    system root; `filepath.Join` is concatenation of segments. */
module FileSystem {
  import opened Bytes
  import opened Errors

  type Path = seq<string>

  /** The directory that contains `p`; the root is its own parent. */
  function Parent(p: Path): (q: Path)
    ensures p == [] ==> q == []
    ensures p != [] ==> q == p[..|p| - 1]
  {
    if p == [] then [] else p[..|p| - 1]
  }

  /** Files on disk. Writes to a path in `failing` fail with an I/O error
      (a missing directory, a full disk, no permission). */
  class Disk {
    var files: map<Path, seq<byte>>
    var failing: set<Path>

    constructor (files: map<Path, seq<byte>>, failing: set<Path>)
      ensures this.files == files && this.failing == failing
    {
      this.files := files;
      this.failing := failing;
    }

    /** atomic.WriteFile: the file at `p` is replaced as a whole by
        `content`, or nothing changes and an error is returned. */
    method AtomicWriteFile(p: Path, content: seq<byte>) returns (err: Option<Error>)
      modifies this
      ensures failing == old(failing)
      ensures p in failing ==> err == Some(WriteFailed(p)) && files == old(files)
      ensures p !in failing ==> err == None && files == old(files)[p := content]
    {
      if p in failing {
        err := Some(WriteFailed(p));
      } else {
        files := files[p := content];
        err := None;
      }
    }
  }
}
