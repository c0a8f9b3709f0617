/** pkg/repository: locating a repository, where its objects live, and the
    object store's write and read paths. */
module Repository {
  import opened Bytes
  import opened Errors
  import opened Strconv
  import opened Hex
  import opened Streams
  import opened FileSystem
  import opened Codec
  import Object

  /** The parsed INI configuration: section -> key -> value. Its parsing is
      not part of this model. */
  datatype Config = Config(sections: map<string, map<string, string>>)

  /** What ini.Load makes of the file at a path: a configuration, or the
      reason it could not be read or parsed. */
  datatype ConfigFile = Parsed(config: Config) | Malformed(message: string)

  /** ini.Load, left abstract. */
  type ConfigLoader = Path -> ConfigFile

  /** Repository: the work tree, its `.git` directory and its configuration. */
  datatype Repository = Repository(worktree: Path, gitDir: Path, config: Config)
  {
    /** GitPath: a path inside this repository's `.git` directory. */
    function GitPath(ss: seq<string>): (p: Path)
      ensures |p| == |worktree| + 1 + |ss|
      ensures p[..|worktree| + 1] == worktree + [GitDirName]
      ensures p[|worktree| + 1..] == ss
    {
      RepoPath(worktree, ss)
    }

    /** Find (the object-name resolver): returns `name` unchanged; names are
        taken to be full hashes already. */
    function Find(name: string, objectType: string, follow: bool): (resolved: string)
      ensures resolved == name
    {
      name
    }
  }

  const GitDirName: string := ".git"

  /** repoPath: `path/.git/segments...`. */
  function RepoPath(path: Path, segments: seq<string>): (p: Path)
    ensures |p| == |path| + 1 + |segments|
    ensures p[..|path|] == path && p[|path|] == GitDirName
    ensures p[|path| + 1..] == segments
  {
    path + [GitDirName] + segments
  }

  /** Where the object with hash `sha` is stored: `.git/objects/sha[0:2]/sha[2:]`. */
  function ObjectPath(worktree: Path, sha: string): (p: Path)
    requires |sha| >= 2
    ensures |p| == |worktree| + 4
    ensures p[..|worktree| + 1] == worktree + [GitDirName]
  {
    RepoPath(worktree, ["objects", sha[..2], sha[2..]])
  }

  /** Distinct hashes are stored at distinct paths of a repository. */
  lemma ObjectPathInjective(worktree: Path, sha1: string, sha2: string)
    requires |sha1| >= 2 && |sha2| >= 2
    requires ObjectPath(worktree, sha1) == ObjectPath(worktree, sha2)
    ensures sha1 == sha2
  {
    var p1, p2 := ObjectPath(worktree, sha1), ObjectPath(worktree, sha2);
    var n := |worktree|;
    assert p1[n + 2] == sha1[..2] && p2[n + 2] == sha2[..2];
    assert p1[n + 3] == sha1[2..] && p2[n + 3] == sha2[2..];
    assert sha1 == sha1[..2] + sha1[2..];
    assert sha2 == sha2[..2] + sha2[2..];
  }

  // ---------------------------------------------------------------------
  // Locating a repository

  /** Load (after filepath.Abs): the repository rooted at `path`, provided
      its configuration loads; a configuration error is passed on. */
  function Load(path: Path, loadConfig: ConfigLoader): (r: Result<Repository>)
    ensures r.Ok? ==> r.value.worktree == path && r.value.gitDir == RepoPath(path, [])
    ensures r.Ok? <==> loadConfig(RepoPath(path, ["config"])).Parsed?
    ensures r.Err? ==> r.error == ConfigError(loadConfig(RepoPath(path, ["config"])).message)
    ensures r.Ok? ==> r.value.config == loadConfig(RepoPath(path, ["config"])).config
  {
    match loadConfig(RepoPath(path, ["config"]))
    case Malformed(message) => Err(ConfigError(message))
    case Parsed(config) => Ok(Repository(path, RepoPath(path, []), config))
  }

  /** Find: the repository at `path` or at the nearest ancestor that has a
      `.git` directory; `isDir` stands for os.Stat(...).IsDir(). The walk
      stops with an error when the parent of a path is the path itself. */
  function Find(path: Path, isDir: Path -> bool, loadConfig: ConfigLoader): (r: Result<Repository>)
    ensures r.Ok? ==> |r.value.worktree| <= |path| && r.value.worktree == path[..|r.value.worktree|]
    ensures r.Ok? ==> isDir(r.value.worktree + [GitDirName])
    ensures r.Err? ==> r.error == NoRepositoryFound || r.error.ConfigError?
    ensures r.Err? && r.error == NoRepositoryFound ==> !isDir(path + [GitDirName])
    decreases |path|
  {
    if isDir(path + [GitDirName]) then Load(path, loadConfig)
    else
      var parent := Parent(path);
      if parent == path then Err(NoRepositoryFound)
      else Find(parent, isDir, loadConfig)
  }

  /** `p[..k]` is the nearest ancestor-or-self of `p` with a `.git` directory. */
  ghost predicate IsNearestRepo(p: Path, k: nat, isDir: Path -> bool) {
    && k <= |p|
    && isDir(p[..k] + [GitDirName])
    && forall j :: k < j <= |p| ==> !isDir(p[..j] + [GitDirName])
  }

  /** Find opens the nearest ancestor-or-self that has a `.git` directory;
      a configuration error there is returned, not skipped. */
  lemma {:induction false} FindNearest(p: Path, k: nat, isDir: Path -> bool, loadConfig: ConfigLoader)
    requires IsNearestRepo(p, k, isDir)
    ensures Find(p, isDir, loadConfig) == Load(p[..k], loadConfig)
    decreases |p|
  {
    if k == |p| {
      assert p[..k] == p;
    } else {
      assert !isDir(p[..|p|] + [GitDirName]);
      assert p[..|p|] == p;
      var parent := Parent(p);
      assert parent != p;
      forall j | k < j <= |parent| ensures !isDir(parent[..j] + [GitDirName]) {
        assert parent[..j] == p[..j];
      }
      assert parent[..k] == p[..k];
      FindNearest(parent, k, isDir, loadConfig);
    }
  }

  /** With no `.git` directory on the way up to the root, Find fails. */
  lemma {:induction false} FindNone(p: Path, isDir: Path -> bool, loadConfig: ConfigLoader)
    requires forall k :: 0 <= k <= |p| ==> !isDir(p[..k] + [GitDirName])
    ensures Find(p, isDir, loadConfig) == Err(NoRepositoryFound)
    decreases |p|
  {
    assert p[..|p|] == p;
    if p != [] {
      var parent := Parent(p);
      forall k | 0 <= k <= |parent| ensures !isDir(parent[..k] + [GitDirName]) {
        assert parent[..k] == p[..k];
      }
      FindNone(parent, isDir, loadConfig);
    }
  }

  /** Whatever Find returns is one of the two outcomes above: a repository
      found is the nearest one, with `worktree` set to that directory. */
  lemma {:induction false} FindFound(p: Path, isDir: Path -> bool, loadConfig: ConfigLoader)
    requires Find(p, isDir, loadConfig).Ok?
    ensures var r := Find(p, isDir, loadConfig).value;
            && |r.worktree| <= |p| && r.worktree == p[..|r.worktree|]
            && IsNearestRepo(p, |r.worktree|, isDir)
            && loadConfig(RepoPath(r.worktree, ["config"])) == Parsed(r.config)
    decreases |p|
  {
    assert p[..|p|] == p;
    if !isDir(p + [GitDirName]) {
      var parent := Parent(p);
      FindFound(parent, isDir, loadConfig);
      var r := Find(parent, isDir, loadConfig).value;
      var k := |r.worktree|;
      forall j | k < j <= |p| ensures !isDir(p[..j] + [GitDirName]) {
        if j < |p| {
          assert parent[..j] == p[..j];
        }
      }
      assert parent[..k] == p[..k];
    }
  }

  /** Find fails with NoRepositoryFound only when no directory on the way
      up to the root has a `.git` directory (the converse of FindNone). */
  lemma {:induction false} FindNoneOnlyWithoutRepo(p: Path, isDir: Path -> bool, loadConfig: ConfigLoader)
    requires Find(p, isDir, loadConfig) == Err(NoRepositoryFound)
    ensures forall k :: 0 <= k <= |p| ==> !isDir(p[..k] + [GitDirName])
    decreases |p|
  {
    assert p[..|p|] == p;
    if p != [] {
      var parent := Parent(p);
      FindNoneOnlyWithoutRepo(parent, isDir, loadConfig);
      forall k | 0 <= k <= |p| ensures !isDir(p[..k] + [GitDirName]) {
        if k < |p| {
          assert parent[..k] == p[..k];
        }
      }
    }
  }

  // ---------------------------------------------------------------------
  // Hashing and the store

  /** A SHA-1 sum: 20 bytes. */
  type Sha1Sum = s: seq<byte> | |s| == 20 witness seq(20, i => 0)

  /** crypto/sha1, left abstract: any function from messages to sums. */
  type Sha1 = seq<byte> -> Sha1Sum

  /** zlib compression and decompression, left abstract; decompression
      fails on bytes that are not a zlib stream. */
  type Compress = seq<byte> -> seq<byte>
  type Decompress = seq<byte> -> Option<seq<byte>>

  /** The hash of an object: the hex SHA-1 of its uncompressed record. */
  function ObjectHash(sha1: Sha1, of: ObjectFile): (h: string)
    ensures |h| == 40
  {
    HexEncode(sha1(Record(of)))
  }

  /** Objects whose records have different SHA-1 sums get different hashes,
      and so (ObjectPathInjective) different files. */
  lemma ObjectHashDistinguishes(sha1: Sha1, a: ObjectFile, b: ObjectFile)
    requires sha1(Record(a)) != sha1(Record(b))
    ensures ObjectHash(sha1, a) != ObjectHash(sha1, b)
  {
    if ObjectHash(sha1, a) == ObjectHash(sha1, b) {
      HexEncodeInjective(sha1(Record(a)), sha1(Record(b)));
    }
  }

  /** Hash: writes the record into a SHA-1 hasher and hex-encodes the sum;
      the storage key of the object. */
  method Hash(sha1: Sha1, of: ObjectFile) returns (h: string)
    ensures h == ObjectHash(sha1, of)
    ensures |h| == 40
  {
    var hasher := new Writer.Unbounded();
    assert hasher.Accepts(|Record(of)|) == |Record(of)|;
    var total, _ := Write(of, hasher);
    assert hasher.written == Record(of) by {
      assert Record(of)[..total] == Record(of);
    }
    h := HexEncode(sha1(hasher.written));
  }

  /** WriteObject: writes the record through the compressor, takes the hash
      of the uncompressed record (the value Hash returns) and stores the
      compressed bytes at that hash's path. The hash is returned even when
      the file write fails. */
  method WriteObject(r: Repository, of: ObjectFile, sha1: Sha1, compress: Compress, disk: Disk)
    returns (hash: string, err: Option<Error>)
    modifies disk
    ensures hash == ObjectHash(sha1, of)
    ensures disk.failing == old(disk.failing)
    ensures var p := ObjectPath(r.worktree, hash);
            && (p !in disk.failing ==> err == None && disk.files == old(disk.files)[p := compress(Record(of))])
            && (p in disk.failing ==> err == Some(WriteFailed(p)) && disk.files == old(disk.files))
  {
    // The zlib writer over a bytes.Buffer takes every byte, so the
    // source's early return on a write error cannot be taken here.
    var buf := new Writer.Unbounded();
    assert buf.Accepts(|Record(of)|) == |Record(of)|;
    var total, _ := Write(of, buf);
    assert buf.written == Record(of) by {
      assert Record(of)[..total] == Record(of);
    }
    var compressed := compress(buf.written);
    hash := Hash(sha1, of);
    var f := r.GitPath(["objects", hash[..2], hash[2..]]);
    err := disk.AtomicWriteFile(f, compressed);
  }

  /** What LoadObject yields for the stored files, with the error of
      ReadObjectFile returned (see LoadObjectAsWritten for the source). */
  function LoadObjectResult(files: map<Path, seq<byte>>, worktree: Path, sha: string,
                            objectType: seq<byte>, decompress: Decompress): (r: Result<seq<byte>>)
    requires |sha| >= 2
    ensures ObjectPath(worktree, sha) !in files ==> r == Err(ObjectNotFound(sha))
    ensures r.Ok? ==>
              && ObjectPath(worktree, sha) in files
              && decompress(files[ObjectPath(worktree, sha)]).Some?
              && Decode(decompress(files[ObjectPath(worktree, sha)]).value) == Ok(ObjectFile(objectType, r.value))
    ensures ObjectPath(worktree, sha) in files && decompress(files[ObjectPath(worktree, sha)]).Some? ==>
              var d := Decode(decompress(files[ObjectPath(worktree, sha)]).value);
              d.Ok? && d.value.objectType == objectType ==> r == Ok(d.value.data)
  {
    var p := ObjectPath(worktree, sha);
    if p !in files then Err(ObjectNotFound(sha))
    else match decompress(files[p])
      case None => Err(DecompressFailed)
      case Some(raw) =>
        match Decode(raw)
        case Err(e) => Err(e)
        case Ok(of) =>
          if of.objectType != objectType then Err(WrongObjectType(of.objectType, objectType))
          else if of.objectType == BlobType then Ok(of.data)
          else Err(UnsupportedObjectType(of.objectType))
  }

  /** LoadObject: opens the file at the hash's path, decompresses it,
      decodes the record, checks its type against the requested one and
      returns a blob holding the data. */
  method LoadObject(r: Repository, sha: string, objectType: seq<byte>, decompress: Decompress, disk: Disk)
    returns (o: Object.Blob?, err: Option<Error>)
    requires |sha| >= 2
    ensures match LoadObjectResult(disk.files, r.worktree, sha, objectType, decompress)
            case Ok(data) => err == None && o != null && fresh(o) && o.Serialize() == data
            case Err(e) => err == Some(e) && o == null
  {
    var p := r.GitPath(["objects", sha[..2], sha[2..]]);
    if p !in disk.files {
      return null, Some(ObjectNotFound(sha));
    }
    var zr := decompress(disk.files[p]);
    if zr.None? {
      return null, Some(DecompressFailed);
    }
    var reader := new Reader(zr.value);
    var of := ReadObjectFile(reader);
    if of.Err? {
      return null, Some(of.error);
    }
    if of.value.objectType != objectType {
      return null, Some(WrongObjectType(of.value.objectType, objectType));
    }
    // validObjectType holds "blob" only, so the source's `default` case
    // ("unsupported object type") cannot be reached here.
    assert of.value.objectType == BlobType;
    o := new Object.Blob.NewBlob(of.value.data);
    err := None;
  }

  /** Round trip through the store: the object WriteObject stores under the
      hash it returns loads back, as a blob, with the same data, provided
      decompression undoes compression on that record. */
  lemma LoadObjectAfterWriteObject(files: map<Path, seq<byte>>, worktree: Path, sha1: Sha1,
                                   compress: Compress, decompress: Decompress, data: seq<byte>)
    requires |data| <= Int64Max
    requires var rec := Record(ObjectFile(BlobType, data)); decompress(compress(rec)) == Some(rec)
    ensures var of := ObjectFile(BlobType, data);
            var h := ObjectHash(sha1, of);
            LoadObjectResult(files[ObjectPath(worktree, h) := compress(Record(of))], worktree, h, BlobType, decompress)
              == Ok(data)
  {
    DecodeRecord(ObjectFile(BlobType, data));
  }

  /** Asking for another type than the one stored fails. */
  lemma LoadObjectWrongType(files: map<Path, seq<byte>>, worktree: Path, sha: string,
                            objectType: seq<byte>, decompress: Decompress, raw: seq<byte>)
    requires |sha| >= 2
    requires ObjectPath(worktree, sha) in files
    requires decompress(files[ObjectPath(worktree, sha)]) == Some(raw)
    requires Decode(raw).Ok? && Decode(raw).value.objectType != objectType
    ensures LoadObjectResult(files, worktree, sha, objectType, decompress)
              == Err(WrongObjectType(Decode(raw).value.objectType, objectType))
  {
  }

  // ---------------------------------------------------------------------
  // LoadObject as written

  /** The outcomes of LoadObject as the source has it: a return, or a
      run-time panic. */
  datatype LoadOutcome = Returned(result: Result<seq<byte>>) | NilDereference

  /** LoadObject as written: the error from ReadObjectFile is dropped and
      the nil *ObjectFile that comes with it is dereferenced. */
  function LoadObjectAsWritten(files: map<Path, seq<byte>>, worktree: Path, sha: string,
                               objectType: seq<byte>, decompress: Decompress): (o: LoadOutcome)
    requires |sha| >= 2
    ensures o.NilDereference? <==>
              && ObjectPath(worktree, sha) in files
              && decompress(files[ObjectPath(worktree, sha)]).Some?
              && Decode(decompress(files[ObjectPath(worktree, sha)]).value).Err?
    ensures o.Returned? ==> o.result == LoadObjectResult(files, worktree, sha, objectType, decompress)
  {
    var p := ObjectPath(worktree, sha);
    if p !in files then Returned(Err(ObjectNotFound(sha)))
    else match decompress(files[p])
      case None => Returned(Err(DecompressFailed))
      case Some(raw) =>
        match Decode(raw)
        case Err(_) => NilDereference
        case Ok(of) =>
          if of.objectType != objectType then Returned(Err(WrongObjectType(of.objectType, objectType)))
          else if of.objectType == BlobType then Returned(Ok(of.data))
          else Returned(Err(UnsupportedObjectType(of.objectType)))
  }

  /** Every stored record that fails to decode makes the source's
      LoadObject panic. */
  lemma LoadObjectAsWrittenPanics(files: map<Path, seq<byte>>, worktree: Path, sha: string,
                                  objectType: seq<byte>, decompress: Decompress, raw: seq<byte>)
    requires |sha| >= 2
    requires ObjectPath(worktree, sha) in files
    requires decompress(files[ObjectPath(worktree, sha)]) == Some(raw)
    requires Decode(raw).Err?
    ensures LoadObjectAsWritten(files, worktree, sha, objectType, decompress) == NilDereference
  {
  }

  /** The corrected LoadObject returns the decoding error instead. */
  lemma LoadObjectReportsDecodeError(files: map<Path, seq<byte>>, worktree: Path, sha: string,
                                     objectType: seq<byte>, decompress: Decompress, raw: seq<byte>)
    requires |sha| >= 2
    requires ObjectPath(worktree, sha) in files
    requires decompress(files[ObjectPath(worktree, sha)]) == Some(raw)
    requires Decode(raw).Err?
    ensures LoadObjectResult(files, worktree, sha, objectType, decompress) == Err(Decode(raw).error)
  {
  }

  /** A concrete case: the stored record "blob 5\x00ab" declares five bytes
      but holds two. */
  lemma LoadObjectAsWrittenPanicsOnShortRecord(worktree: Path, sha: string)
    requires |sha| >= 2
    ensures var raw := BlobType + [SP] + FormatInt(5) + [NUL] + [0x61, 0x62];
            var files := map[ObjectPath(worktree, sha) := raw];
            var identity: Decompress := bs => Some(bs);
            && LoadObjectAsWritten(files, worktree, sha, BlobType, identity) == NilDereference
            && LoadObjectResult(files, worktree, sha, BlobType, identity) == Err(SizeMismatch(2, 5))
  {
    DecodeRejectsSizeMismatch(BlobType, 5, [0x61, 0x62]);
  }
}
