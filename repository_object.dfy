/** pkg/repository/object: a second object layer over the repository, the
    one `cat-file` reads objects through. It writes records through its own
    header builder and reads them with a decoder that never compares the
    declared size with the data. */
module RepositoryObject {
  import opened Bytes
  import opened Errors
  import opened Strconv
  import opened Hex
  import opened Streams
  import opened FileSystem
  import opened Codec
  import Repository

  class Blob {
    var data: seq<byte>

    /** NewBlob: a blob holding everything left in the reader. */
    constructor NewBlob(r: Reader)
      requires r.Valid()
      modifies r
      ensures r.Valid() && r.buf == old(r.buf) && r.Rest() == []
      ensures Serialize() == old(r.Rest())
    {
      var bs := r.ReadAll();
      data := bs;
    }

    /** Deserialize: replaces the data by `bs`; never fails. */
    method Deserialize(bs: seq<byte>) returns (err: Option<Error>)
      modifies this
      ensures Serialize() == bs
      ensures err == None
    {
      data := bs;
      err := None;
    }

    /** Serialize: a blob's serialized form is its data, with no header. */
    function Serialize(): (s: seq<byte>)
      reads this
      ensures s == data
    {
      data
    }

    /** Type: the tag of a blob, one the record decoder accepts. */
    function Type(): (t: seq<byte>)
      ensures t in ValidObjectTypes
      ensures t == BlobType
    {
      BlobType
    }
  }

  /** Object: the values `Write` may be handed. Blob is the only kind the
      package defines; any other implementation is known by its Go type name. */
  datatype Object = BlobObject(blob: Blob) | OtherObject(goType: string)

  /** createHeader: the record header built up in a bytes.Buffer. Followed
      by the data it is exactly the record the repository encoder writes. */
  method CreateHeader(typeID: seq<byte>, data: seq<byte>) returns (header: seq<byte>)
    ensures header == typeID + [SP] + FormatInt(|data|) + [NUL]
    ensures header + data == Record(ObjectFile(typeID, data))
  {
    var b := new Writer.Unbounded();
    var _, _ := b.Write(typeID);
    var _, _ := b.Write([SP]);
    var _, _ := b.Write(FormatInt(|data|));
    var _, _ := b.Write([NUL]);
    header := b.written;
  }

  /** Write: only a Blob is accepted, under the type "blob". The header and
      the data are hashed together, and exactly those bytes are stored,
      uncompressed, under the hash's path. */
  method Write(repo: Repository.Repository, o: Object, sha1: Repository.Sha1, disk: Disk)
    returns (err: Option<Error>)
    modifies disk
    ensures disk.failing == old(disk.failing)
    ensures o.OtherObject? ==> err == Some(UnknownObjectType(o.goType)) && disk.files == old(disk.files)
    ensures o.BlobObject? ==>
              var content := Record(ObjectFile(BlobType, o.blob.Serialize()));
              var p := Repository.ObjectPath(repo.worktree, HexEncode(sha1(content)));
              && (p !in disk.failing ==> err == None && disk.files == old(disk.files)[p := content])
              && (p in disk.failing ==> err == Some(WriteFailed(p)) && disk.files == old(disk.files))
  {
    var typeID: seq<byte>;
    match o {
      case BlobObject(_) =>
        typeID := BlobType;
      case OtherObject(t) =>
        return Some(UnknownObjectType(t));
    }
    var data := o.blob.Serialize();
    var header := CreateHeader(typeID, data);

    var hasher := new Writer.Unbounded();
    assert hasher.Accepts(|header|) == |header|;
    var _, _ := hasher.Write(header);
    assert hasher.Accepts(|data|) == |data|;
    var _, _ := hasher.Write(data);
    assert hasher.written == header + data by {
      assert header[..|header|] == header && data[..|data|] == data;
    }
    var hash := HexEncode(sha1(hasher.written));

    var f := repo.GitPath(["objects", hash[..2], hash[2..]]);
    err := disk.AtomicWriteFile(f, header + data);
  }

  /** The header parse of Load as a function of the decompressed stream: the
      tag up to the first 0x20, the size text up to the next 0x00 (which must
      parse as a base-10 int64), then a switch on the tag. A blob's data is
      everything after the 0x00, whatever size was declared. */
  function LoadDecode(s: seq<byte>): (r: Result<seq<byte>>)
    ensures r.Ok? ==> |r.value| < |s| && s[|s| - |r.value|..] == r.value
  {
    var i := FirstIndex(s, SP);
    if i == |s| then Err(MissingObjectType)
    else
      var tag := s[..i];
      var rest := s[i + 1..];
      var j := FirstIndex(rest, NUL);
      if j == |rest| then Err(MissingObjectSize)
      else if ParseInt(rest[..j]).None? then Err(InvalidSize(rest[..j]))
      else if tag == BlobType then Ok(rest[j + 1..])
      else Err(InvalidObjectTag(tag))
  }

  /** What Load yields for the stored files. */
  function LoadResult(files: map<Path, seq<byte>>, worktree: Path, sha: string,
                      decompress: Repository.Decompress): (r: Result<seq<byte>>)
    requires |sha| >= 2
    ensures Repository.ObjectPath(worktree, sha) !in files ==> r == Err(ObjectNotFound(sha))
    ensures r.Ok? ==>
              && Repository.ObjectPath(worktree, sha) in files
              && decompress(files[Repository.ObjectPath(worktree, sha)]).Some?
              && r == LoadDecode(decompress(files[Repository.ObjectPath(worktree, sha)]).value)
  {
    var p := Repository.ObjectPath(worktree, sha);
    if p !in files then Err(ObjectNotFound(sha))
    else match decompress(files[p])
      case None => Err(DecompressFailed)
      case Some(raw) => LoadDecode(raw)
  }

  /** Load: opens the object file, decompresses it and hands the stream
      to a buffered reader (ReadHeaderAndBlob). */
  method Load(r: Repository.Repository, sha: string, decompress: Repository.Decompress, disk: Disk)
    returns (o: Blob?, err: Option<Error>)
    requires |sha| >= 2
    ensures match LoadResult(disk.files, r.worktree, sha, decompress)
            case Ok(data) => err == None && o != null && fresh(o) && o.Serialize() == data
            case Err(e) => err == Some(e) && o == null
  {
    var p := r.GitPath(["objects", sha[..2], sha[2..]]);
    if p !in disk.files {
      return null, Some(ObjectNotFound(sha));
    }
    var zr := decompress(disk.files[p]);
    if zr.None? {
      return null, Some(DecompressFailed);
    }
    var br := new Reader(zr.value);
    o, err := ReadHeaderAndBlob(br);
  }

  /** The header reads of Load: the tag up to the first 0x20 and the size
      text up to the next 0x00, each without its delimiter. */
  method ReadHeader(br: Reader) returns (ot: seq<byte>, text: seq<byte>, err: Option<Error>)
    requires br.Valid()
    modifies br
    ensures br.Valid() && br.buf == old(br.buf)
    ensures var s := old(br.Rest());
            var i := FirstIndex(s, SP);
            if i == |s| then err == Some(MissingObjectType)
            else
              var rest := s[i + 1..];
              var j := FirstIndex(rest, NUL);
              if j == |rest| then err == Some(MissingObjectSize)
              else err == None && ot == s[..i] && text == rest[..j] && br.Rest() == rest[j + 1..]
  {
    ghost var s := br.Rest();
    ghost var i := FirstIndex(s, SP);
    var bs, e := br.ReadBytes(SP);
    if e.Some? {
      return [], [], Some(MissingObjectType);
    }
    ot := bs[..|bs| - 1];
    assert ot == s[..i];
    ghost var rest := br.Rest();
    assert rest == s[i + 1..];
    ghost var j := FirstIndex(rest, NUL);
    bs, e := br.ReadBytes(NUL);
    if e.Some? {
      return [], [], Some(MissingObjectSize);
    }
    text := bs[..|bs| - 1];
    assert text == rest[..j];
    err := None;
  }

  /** The rest of Load: reads the header, checks that the size parses,
      switches on the tag, and a blob takes what is left. */
  method ReadHeaderAndBlob(br: Reader) returns (o: Blob?, err: Option<Error>)
    requires br.Valid()
    modifies br
    ensures br.Valid() && br.buf == old(br.buf)
    ensures err == None ==> br.Rest() == []
    ensures match LoadDecode(old(br.Rest()))
            case Ok(data) => err == None && o != null && fresh(o) && o.Serialize() == data
            case Err(e) => err == Some(e) && o == null
  {
    var ot, text, e := ReadHeader(br);
    if e.Some? {
      return null, e;
    }
    if ParseInt(text).None? {
      return null, Some(InvalidSize(text));
    }
    if ot == BlobType {
      o := new Blob.NewBlob(br);
      err := None;
    } else {
      return null, Some(InvalidObjectTag(ot));
    }
  }

  /** Find: returns `name` unchanged; names are taken to be full hashes. */
  function Find(r: Repository.Repository, name: string, objectType: string, follow: bool): (resolved: string)
    ensures resolved == name
  {
    name
  }

  // ---------------------------------------------------------------------
  // Load's decoder against the repository's

  /** Whatever ReadObjectFile accepts, Load accepts with the same data. */
  lemma LoadDecodeAcceptsDecoded(s: seq<byte>)
    requires Decode(s).Ok?
    ensures LoadDecode(s) == Ok(Decode(s).value.data)
  {
  }

  /** For a stream that has both delimiters, Load's verdict
      depends only on the size text and the tag, in that order. */
  lemma LoadDecodeHeader(tag: seq<byte>, text: seq<byte>, data: seq<byte>)
    requires SP !in tag && NUL !in text
    ensures LoadDecode(tag + [SP] + text + [NUL] + data)
              == if ParseInt(text).None? then Err(InvalidSize(text))
                 else if tag == BlobType then Ok(data)
                 else Err(InvalidObjectTag(tag))
  {
    var rest := text + [NUL] + data;
    var s := tag + [SP] + rest;
    assert tag + [SP] + text + [NUL] + data == s;
    FirstIndexAfter(tag, SP, rest);
    assert s[..|tag|] == tag && s[|tag| + 1..] == rest;
    FirstIndexAfter(text, NUL, data);
    assert rest[..|text|] == text && rest[|text| + 1..] == data;
  }

  /** Load never checks the declared size: a blob record with any size
      decodes to everything after the 0x00, while ReadObjectFile accepts it
      only when the size is right. */
  lemma LoadDecodeIgnoresSize(size: nat, data: seq<byte>)
    requires size <= Int64Max
    ensures LoadDecode(BlobType + [SP] + FormatInt(size) + [NUL] + data) == Ok(data)
    ensures Decode(BlobType + [SP] + FormatInt(size) + [NUL] + data).Ok? <==> size == |data|
  {
    if size == |data| {
      DecodeRecord(ObjectFile(BlobType, data));
    } else {
      DecodeRejectsSizeMismatch(BlobType, size, data);
    }
    ValidObjectTypeShape(BlobType);
    FormatIntHasNoNul(size);
    ParseFormatInt(size);
    LoadDecodeHeader(BlobType, FormatInt(size), data);
  }

  /** Load parses the size before it looks at the tag, so a record with
      both an unknown tag and a bad size fails on the size, where
      ReadObjectFile fails on the tag. */
  lemma LoadDecodeChecksSizeFirst(tag: seq<byte>, text: seq<byte>, data: seq<byte>)
    requires SP !in tag && tag !in ValidObjectTypes
    requires NUL !in text && ParseInt(text).None?
    ensures LoadDecode(tag + [SP] + text + [NUL] + data) == Err(InvalidSize(text))
    ensures Decode(tag + [SP] + text + [NUL] + data) == Err(InvalidObjectType(tag))
  {
    assert tag + [SP] + text + [NUL] + data == tag + [SP] + (text + [NUL] + data);
    DecodeRejectsUnknownType(tag, text + [NUL] + data);
    LoadDecodeHeader(tag, text, data);
  }

  /** The program's own round trip, `hash-object -w` then `cat-file`: a
      blob stored by the repository's WriteObject under the hash it returns
      is loaded back by this layer's Load with the same data, provided
      decompression undoes compression on that record. */
  lemma LoadAfterWriteObject(files: map<Path, seq<byte>>, worktree: Path, sha1: Repository.Sha1,
                             compress: Repository.Compress, decompress: Repository.Decompress,
                             data: seq<byte>)
    requires |data| <= Int64Max
    requires var rec := Record(ObjectFile(BlobType, data)); decompress(compress(rec)) == Some(rec)
    ensures var of := ObjectFile(BlobType, data);
            var h := Repository.ObjectHash(sha1, of);
            LoadResult(files[Repository.ObjectPath(worktree, h) := compress(Record(of))], worktree, h, decompress)
              == Ok(data)
  {
    var of := ObjectFile(BlobType, data);
    DecodeRecord(of);
    LoadDecodeAcceptsDecoded(Record(of));
  }

  /** A well-formed header with a tag other than "blob" is refused. */
  lemma LoadDecodeRejectsTag(tag: seq<byte>, size: nat, data: seq<byte>)
    requires SP !in tag && tag != BlobType && size <= Int64Max
    ensures LoadDecode(tag + [SP] + FormatInt(size) + [NUL] + data) == Err(InvalidObjectTag(tag))
  {
    FormatIntHasNoNul(size);
    ParseFormatInt(size);
    LoadDecodeHeader(tag, FormatInt(size), data);
  }
}
