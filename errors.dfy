/** Results and the error values the object store reports. */
module Errors {
  import opened Bytes

  datatype Option<T> = None | Some(value: T)

  datatype Result<T> = Ok(value: T) | Err(error: Error)

  datatype Error =
    /** io.EOF: a reader ran out before the delimiter it was asked for. */
    | EndOfStream
    /** io.ErrShortWrite: a writer accepted fewer bytes than it was given. */
    | ShortWrite
    /** atomic.WriteFile could not replace the file at `path`. */
    | WriteFailed(path: seq<string>)
    /** "couldn't read object type": no 0x20 in the record. */
    | MissingObjectType
    /** "invalid object type": the tag is not in validObjectType. */
    | InvalidObjectType(objectType: seq<byte>)
    /** "couldn't read object size": no 0x00 after the tag. */
    | MissingObjectSize
    /** "invalid size": the size text is not a base-10 int64. */
    | InvalidSize(text: seq<byte>)
    /** "len(data) == remaining, want declared". */
    | SizeMismatch(remaining: nat, declared: int)
    /** "error loading object": no file at the object's path. */
    | ObjectNotFound(sha: string)
    /** The stored bytes are not a zlib stream. */
    | DecompressFailed
    /** "wrong object type": decoded type differs from the requested one. */
    | WrongObjectType(decoded: seq<byte>, wanted: seq<byte>)
    /** "unsupported object type". */
    | UnsupportedObjectType(objectType: seq<byte>)
    /** "invalid object tag" from the pkg/repository/object loader. */
    | InvalidObjectTag(tag: seq<byte>)
    /** "unknown object type: %T": an Object that is not a Blob. */
    | UnknownObjectType(goType: string)
    /** "could not find parent git directory". */
    | NoRepositoryFound
    /** An error from loading the INI configuration, passed on unchanged. */
    | ConfigError(message: string)
}
