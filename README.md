# got: the loose-object store, modelled in Dafny

`got` is a small Git clone written in Go. Its core is a content-addressed
object store. An object is written as a *loose-object record*:

    <object type> 0x20 <decimal size> 0x00 <data>

The store hashes that record with SHA-1 and writes it, zlib-compressed, to
`<worktree>/.git/objects/<hash[0:2]>/<hash[2:]>`. Reading reverses this: open the
file at the hash's path, decompress it, decode the record, check its type.
The only object type is `blob`: an opaque byte string whose serialized form
is the data itself. A repository is found by walking up from a directory
until one of its ancestors has a `.git` directory.

This project models that core:

- `codec.dfy` (module `Codec`) holds the record and its two directions. `Write` is the encoder `ObjectFile.Write`, an imperative method. It writes five pieces in turn to an `io.Writer` and adds up the bytes written. `ReadObjectFile` is the decoder, also a method. It consumes a `bufio.Reader` and is proved equal to the pure function `Decode`. Lemmas prove the round trip and each rejection case.
- `repository.dfy` (module `Repository`) holds the rest of `pkg/repository`: the `.git` path helpers, `Load`, and the upward `Find`, modelled as recursion over path segments. It also holds `Hash`, `WriteObject` and `LoadObject`.
- `repository_object.dfy` (module `RepositoryObject`) is the `pkg/repository/object` layer. `cat-file` reads every object through its `Load` (cmd/catFile.go:29), and `hash-object -w` stores objects through the repository's `WriteObject` (cmd/hashObject.go:52). The layer has its own header builder (`createHeader`) and writer, and a weaker decoder inside `Load`.
- `object.dfy` (module `Object`) is `pkg/object`'s `Blob`, a class whose `data` field `Deserialize` overwrites.
- `bytes.dfy`, `strconv.dfy`, `hex.dfy`, `streams.dfy`, `filesystem.dfy` and `errors.dfy` model what the core uses from Go's standard library:
  - delimiter search
  - `strconv.FormatInt` and `strconv.ParseInt`
  - `hex.EncodeToString`
  - `io.Writer` and `bufio.Reader`
  - atomic file replacement
  - the error values

Collaborators that the model cannot see become parameters:

- SHA-1 is any function from byte strings to 20-byte sums (`Repository.Sha1`).
- zlib is a pair of functions (`Compress`, `Decompress`). Decompression may fail.
- `os.Stat(...).IsDir()` on `<dir>/.git` is a predicate on paths.
- Loading the INI configuration is a function that returns a `Config` or a message saying why the file could not be read or parsed. That message comes back as a configuration error.

Paths are sequences of segments starting at the file-system root, and
`filepath.Join` is concatenation of segments.

The model follows the code where it does less than a Git object store
usually does:

- `WriteObject` does not create the `objects/<hash[0:2]>` directory before writing.
- Name resolution (`Find(name, ...)`) returns its input unchanged.
- `pkg/repository/object`'s `Load` never checks the declared size.

## Model

| member | source | states |
|---|---|---|
| `Bytes.FirstIndex` | pkg/repository/repository.go:223 | the position `ReadBytes` stops at is the first occurrence of the delimiter, or the end when there is none |
| `Strconv.FormatInt` | pkg/repository/repository.go:268 | the size is spelled with decimal digits only, at least one, with no leading zero except for 0 itself |
| `Strconv.ParseInt` | pkg/repository/repository.go:235 | an accepted size text is non-empty and its value lies in the int64 range |
| `Strconv.DigitsValueFormatInt` | pkg/repository/repository.go:268 | the digits FormatInt writes spell exactly the number |
| `Strconv.ParseFormatInt` | pkg/repository/repository.go:235 | ParseInt reads back every size FormatInt writes for a non-negative int64 |
| `Strconv.FormatIntInjective` | pkg/repository/repository.go:268 | different sizes are written differently |
| `Strconv.FormatIntHasNoNul` | pkg/repository/repository.go:268 | a written size contains neither 0x00 nor 0x20, so it cannot end the tag or the size early |
| `Strconv.ParseIntAcceptsNonCanonical` | pkg/repository/repository.go:235 | ParseInt also accepts a sign and leading zeros ("+007" is 7) |
| `Hex.HexEncode` | pkg/repository/repository.go:203 | the hash text has two lower-case hex digits per byte of the sum |
| `Hex.HexEncodeInjective` | pkg/repository/repository.go:203 | hex encoding loses no information |
| `Codec.Record` | pkg/repository/repository.go:252-284 | the record is the tag, 0x20, the decimal size, 0x00 and the data. The data is its suffix, byte for byte, and its length is the sum of the five parts |
| `Codec.Write` | pkg/repository/repository.go:252-284 | after `ObjectFile.Write` the writer holds its old content followed by the first `total` bytes of `type 0x20 decimal(len) 0x00 data`. `total` is the number of bytes the writer accepted, and a bounded writer has lost exactly that much room. The error is nil exactly when the whole record was written; otherwise it is the writer's short-write error |
| `Codec.Decode` | pkg/repository/repository.go:222-250 | an accepted stream carries a tag from `validObjectType` and ends with the returned data |
| `Codec.ReadObjectFile` | pkg/repository/repository.go:222-250 | reading the record step by step from the reader gives exactly `Decode` of the bytes that were left in it. The reader's bytes are unchanged, and a decoded record leaves nothing unread |
| `Codec.ValidObjectTypeShape` | pkg/repository/repository.go:217-219 | every tag in `validObjectType` is non-empty and contains no 0x20 or 0x00 |
| `Codec.DecodeRecord` | pkg/repository/repository.go:222-284 | round trip: decoding what `Write` emits for an accepted type gives back the same type and data, whatever bytes the data holds |
| `Codec.DecodeOk` | pkg/repository/repository.go:222-250 | an accepted stream is `tag 0x20 text 0x00 data`, where the tag has no 0x20, the text has no 0x00 and ParseInt reads the text as `len(data)` |
| `Codec.DecodeRejectsMissingSpace` | pkg/repository/repository.go:223-226 | a stream with no 0x20 is rejected with "couldn't read object type" |
| `Codec.DecodeRejectsUnknownType` | pkg/repository/repository.go:227-230 | a tag outside `validObjectType` is rejected, whatever follows it |
| `Codec.DecodeRejectsMissingNul` | pkg/repository/repository.go:231-234 | an accepted tag with no 0x00 after it is rejected with "couldn't read object size" |
| `Codec.DecodeRejectsBadSize` | pkg/repository/repository.go:235-238 | a size text that is not a base-10 int64 is rejected with "invalid size" |
| `Codec.DecodeRejectsSizeMismatch` | pkg/repository/repository.go:239-245 | a declared size that differs from the number of remaining bytes is rejected, whether too few or too many bytes remain |
| `Codec.DecodeRejectsTrailingBytes` | pkg/repository/repository.go:243-245 | a record with any bytes appended no longer decodes |
| `Codec.DecodeRejectsTruncation` | pkg/repository/repository.go:243-245 | a record with its last byte removed no longer decodes |
| `Codec.DecodeAcceptsNonCanonicalSize` | pkg/repository/repository.go:235-245 | the decoder accepts size spellings the encoder never writes ("blob +0\x00" is the empty blob) |
| `Repository.RepoPath` | pkg/repository/repository.go:113-115 | `repoPath(path, segments...)` is the path, then `.git`, then the segments unchanged |
| `Repository.Repository.GitPath` | pkg/repository/repository.go:32-35 | a Git path is the work tree, then `.git`, then the given segments |
| `Repository.ObjectPath` | pkg/repository/repository.go:194 | an object's file lies four segments below the work tree, inside its `.git` directory |
| `Repository.ObjectPathInjective` | pkg/repository/repository.go:162 | two different hashes never share a file: the `hash[0:2]` / `hash[2:]` split loses nothing |
| `Repository.Load` | pkg/repository/repository.go:96-111 | a repository opens exactly when its config loads. Its work tree is the path and its Git directory is `path/.git`. Its config is the one loaded from `path/.git/config`. A config that cannot be loaded is reported as a configuration error |
| `FileSystem.Parent` | pkg/repository/repository.go:135-139 | the parent of a path drops its last segment. The root is its own parent, which is where `Find` stops |
| `Repository.Find` | pkg/repository/repository.go:118-143 | a repository `Find` returns lies at an ancestor-or-self of the start path that has a `.git` directory. A failure is either "could not find parent git directory" or a configuration error. The first of these is never reported when the start path itself has a `.git` directory |
| `Repository.FindNearest` | pkg/repository/repository.go:117-143 | `Find` opens the nearest ancestor-or-self that has a `.git` directory. A config error there is returned, not skipped |
| `Repository.FindNone` | pkg/repository/repository.go:135-141 | with no `.git` directory on the way up to the root, `Find` fails with "could not find parent git directory" |
| `Repository.FindNoneOnlyWithoutRepo` | pkg/repository/repository.go:118-141 | the converse of `FindNone`: "could not find parent git directory" means that no directory on the way up to the root has a `.git` directory |
| `Repository.FindFound` | pkg/repository/repository.go:118-134 | a repository `Find` returns has its work tree set to an ancestor-or-self of the start path. No nearer ancestor has a `.git` directory, and its config is the one loaded there |
| `Repository.Repository.Find` | pkg/repository/repository.go:206-209 | name resolution returns the name unchanged |
| `Repository.ObjectHash` | pkg/repository/repository.go:199-204 | an object's hash is 40 hex characters |
| `Repository.ObjectHashDistinguishes` | pkg/repository/repository.go:199-204 | records with different SHA-1 sums get different hashes |
| `Repository.Hash` | pkg/repository/repository.go:199-204 | `Hash` writes the uncompressed record into the hasher and returns the hex SHA-1 of exactly that record |
| `Repository.WriteObject` | pkg/repository/repository.go:183-197 | `WriteObject` returns the same hash as `Hash`, taken over the uncompressed record. The compressed record replaces the file at `objects/hash[0:2]/hash[2:]`, or nothing changes and the write error is returned together with the hash |
| `Repository.LoadObjectResult` | pkg/repository/repository.go:160-181 | corrected `LoadObject` as a function of the stored files. A missing file gives "error loading object". A success means the file exists, decompresses and decodes to a record of the requested type holding the returned data. Every such record is returned |
| `Repository.LoadObject` | pkg/repository/repository.go:160-181 | `LoadObject` reads the file at `objects/sha[0:2]/sha[2:]`. It fails when the file is missing, does not decompress, does not decode, or has another type than the one requested. Otherwise it returns a new blob whose `Serialize()` is the decoded data |
| `Repository.LoadObjectAfterWriteObject` | pkg/repository/repository.go:160-197 | round trip through the store: a blob stored by `WriteObject` loads back, under the returned hash, with the same data, provided decompression undoes compression |
| `Repository.LoadObjectWrongType` | pkg/repository/repository.go:172-174 | asking for a type other than the stored one fails with "wrong object type" |
| `Repository.LoadObjectAsWritten` | pkg/repository/repository.go:160-181 | `LoadObject` as written panics exactly when the stored file exists, decompresses completely, and then does not decode. Whenever it returns, it returns what the corrected `LoadObjectResult` returns |
| `Repository.LoadObjectAsWrittenPanics` | pkg/repository/repository.go:171-172 | as written, every stored record that fails to decode makes `LoadObject` dereference a nil `*ObjectFile` |
| `Repository.LoadObjectReportsDecodeError` | pkg/repository/repository.go:171-174 | corrected, `LoadObject` returns the decoding error instead |
| `Repository.LoadObjectAsWrittenPanicsOnShortRecord` | pkg/repository/repository.go:171-172 | the stored record "blob 5\x00ab" makes the source panic, while the corrected model reports the size mismatch |
| `Object.Blob.NewBlob` | pkg/object/object.go:9-12 | `NewBlob(bs).Serialize()` is `bs` |
| `Object.Blob.Serialize` | pkg/object/object.go:20-23 | a blob's serialized form is its data, with no header |
| `Object.Blob.Deserialize` | pkg/object/object.go:14-18 | after `Deserialize(bs)`, `Serialize()` is `bs`, whatever the blob held before. The error is always nil |
| `Object.ReDeserialize` | pkg/object/object.go:14-23 | `Deserialize(Serialize())` leaves the blob as it was and succeeds |
| `RepositoryObject.Blob.NewBlob` | pkg/repository/object/object.go:105-111 | the new blob holds everything that was left in the reader, and the reader is drained |
| `RepositoryObject.Blob.Deserialize` | pkg/repository/object/object.go:115-119 | after `Deserialize(bs)`, `Serialize()` is `bs`. The error is always nil |
| `RepositoryObject.Blob.Serialize` | pkg/repository/object/object.go:121-124 | a blob's serialized form is its data, with no header |
| `RepositoryObject.Blob.Type` | pkg/repository/object/object.go:126-128 | a blob's type is "blob", a tag the record decoder accepts |
| `RepositoryObject.CreateHeader` | pkg/repository/object/object.go:89-98 | the header is `type 0x20 decimal(len(data)) 0x00`. Header followed by data is exactly the record the repository's encoder writes |
| `RepositoryObject.Write` | pkg/repository/object/object.go:66-87 | only a Blob is accepted, typed "blob". Any other object is refused and nothing is written. The bytes hashed, header then data, are exactly the bytes stored, uncompressed, under that hash's path |
| `RepositoryObject.LoadDecode` | pkg/repository/object/object.go:38-63 | a blob's data is a suffix of the stream |
| `RepositoryObject.ReadHeader` | pkg/repository/object/object.go:39-47 | the tag is everything before the first 0x20 and the size text everything between it and the next 0x00. A missing 0x20 or 0x00 gives "couldn't read object type" or "couldn't read object size". On success the reader is left just past the 0x00 |
| `RepositoryObject.ReadHeaderAndBlob` | pkg/repository/object/object.go:38-63 | reading the header step by step and taking the rest as the blob gives exactly `LoadDecode` of the stream. The reader's bytes are unchanged, and a loaded blob leaves nothing unread |
| `RepositoryObject.LoadResult` | pkg/repository/object/object.go:28-64 | `Load` as a function of the stored files. A missing file gives "error loading object". A success means the file exists, decompresses, and `LoadDecode` accepts the decompressed bytes |
| `RepositoryObject.Load` | pkg/repository/object/object.go:28-64 | `Load` fails when the object file is missing or does not decompress. Otherwise its result is `LoadDecode` of the decompressed bytes, returned as a new blob |
| `RepositoryObject.Find` | pkg/repository/object/object.go:130-133 | name resolution returns the name unchanged |
| `RepositoryObject.LoadDecodeHeader` | pkg/repository/object/object.go:39-63 | once both delimiters are present, the verdict depends first on whether the size parses and then on whether the tag is "blob". A blob's data is everything after the 0x00 |
| `RepositoryObject.LoadDecodeAcceptsDecoded` | pkg/repository/object/object.go:44-54 | every stream `ReadObjectFile` accepts, `Load` accepts with the same data |
| `RepositoryObject.LoadDecodeIgnoresSize` | pkg/repository/object/object.go:48-54 | `Load` returns everything after the 0x00 whatever size is declared, while `ReadObjectFile` accepts only the right size |
| `RepositoryObject.LoadDecodeChecksSizeFirst` | pkg/repository/object/object.go:44-62 | `Load` parses the size before it checks the tag, so the two decoders report different errors for the same stream |
| `RepositoryObject.LoadAfterWriteObject` | pkg/repository/object/object.go:28-64 | the program's round trip, `hash-object -w` then `cat-file`: a blob the repository's `WriteObject` stores under the hash it returns is loaded back by this layer's `Load` with the same data, provided decompression undoes compression |
| `RepositoryObject.LoadDecodeRejectsTag` | pkg/repository/object/object.go:52-63 | a well-formed header whose tag is not "blob" is refused with "invalid object tag" |
| `Streams.Reader.ReadBytes` | pkg/repository/repository.go:223 | `bufio.Reader.ReadBytes` returns everything up to and including the first delimiter and moves past it. Without a delimiter it returns everything left, with an end-of-stream error, and drains the reader |
| `Streams.Reader.ReadAll` | pkg/repository/repository.go:239 | `io.ReadAll` returns everything left in the reader and drains it |
| `Streams.Writer.Write` | pkg/repository/repository.go:258-278 | a writer takes as many bytes as it has room for and appends them. The error is nil exactly when it took them all |
| `FileSystem.Disk.AtomicWriteFile` | pkg/repository/repository.go:195 | `atomic.WriteFile` either replaces the whole file with the new content or changes nothing and returns an error |

## Findings

| source | as written | input that shows it | evidently intended | confidence | as-written member | corrected member |
|---|---|---|---|---|---|---|
| pkg/repository/repository.go:171-172 | the error from `ReadObjectFile` is dropped, and `of.ObjectType` is then read through the nil `*ObjectFile` that comes with it, which panics | an object file whose decompressed content is `blob 5\x00ab` (five bytes declared, two present) | return the decoding error to the caller | high; not executed | `Repository.LoadObjectAsWrittenPanicsOnShortRecord` | `Repository.LoadObjectReportsDecodeError` |

`Repository.LoadObject` and `Repository.LoadObjectResult` follow the corrected behaviour.

## Left out

- zlib compression (RFC 1950) is abstract. `Compress` and `Decompress` are parameters. The round-trip lemma assumes decompression undoes compression on the record concerned. A stream that is corrupt past its header shows up as `DecompressFailed`, not as a read error inside the decoder.
- `Repository.LoadObjectAsWritten`: `zlib.NewReader` reads only the two-byte zlib header. So the source also panics at pkg/repository/repository.go:172 when a stored file has a valid zlib header and a damaged or truncated body: the first `ReadBytes` returns the inflate error, and `ReadObjectFile` returns a nil `*ObjectFile`. The model cannot fail part-way through decompression. It reports that case as `DecompressFailed`, and the panic there is not modelled.
- SHA-1 is abstract: any function to 20-byte sums. Collision resistance is not modelled, so "different content, different hash" is stated only for records whose sums differ.
- File-system access is modelled only as a map from paths to contents, plus a set of paths whose writes fail. The model leaves out `os.Stat`, `os.Open`, `os.Mkdir`/`MkdirAll`, `ioutil.ReadDir`, `filepath.Abs` and the cleaning that `filepath.Join` does.
- `Init` and `defaultConfig` are left out. `Init` refuses a path that is a file or a non-empty directory, creates the path when it is missing, and then creates the `.git` directories, marker files and an INI file. The model has no directories to check or create.
- INI parsing and writing are left out, since they belong to a third-party library. `Config` is an opaque section/key/value map.
- The command-line layer (`cmd/hashObject.go`, `cmd/catFile.go`, `cmd/showRef.go`) is left out.
- `Repository.WriteObject`: the zlib writer over a `bytes.Buffer` accepts every byte. So the source's early return on an encoder error cannot happen here and is not modelled.
- `Repository.WriteObject` does not create the `objects/<hash[0:2]>` directory, and neither does the source. Whether the write then fails depends on `atomic.WriteFile`, which is not part of this model. Such a failure shows up as a path in `failing`.
- `RepositoryObject.Write` stores the record uncompressed, but `RepositoryObject.Load` expects zlib. The model keeps both as written and states no store/load round trip for that layer.
- `Repository.LoadObject` and `RepositoryObject.Load` require `|sha| >= 2`. The source's `sha[:2]` panics on shorter names.
- `RepositoryObject.Object`: a Go interface value can hold a nil `*Blob`. It matches `case *Blob` (pkg/repository/object/object.go:70), and `Serialize` then panics on the nil receiver. `BlobObject` always holds a non-null blob, so that panic is not modelled.
- `Repository.ObjectPath`, `Repository.LoadObject` and `RepositoryObject.Load`: Go's `sha[:2]` slices bytes of the UTF-8 encoding, while the model slices characters. For a name with non-ASCII characters (which `cat-file` passes through the identity `Find`), the directory split and the length at which the source panics differ. For the 40-character hex hashes `WriteObject` produces the two agree.
- `RepositoryObject.Blob.NewBlob`: the source's reader can fail inside `ioutil.ReadAll`. The in-memory reader here cannot.
- `Object.Blob.Deserialize` and `RepositoryObject.Blob.Deserialize`: Go byte slices alias the caller's array, and the model's byte sequences are values. Later mutation of a slice the caller still holds is not captured.
- `Codec.Write`: `total` is unbounded here. The source's `int64` cannot overflow for any slice that fits in memory.
- `Codec.DecodeRecord` and `Strconv.ParseFormatInt` require the data length to be at most 2^63 - 1. That is the largest length a Go slice can have.
- Decoding errors are values of one `Error` type. The source's wrapped error messages are not modelled.
