/** The loose-object record of pkg/repository/repository.go:
      <object type> 0x20 <decimal size> 0x00 <data>
    its encoder `ObjectFile.Write`, its decoder `ReadObjectFile`, and what
    one says about the other. */
module Codec {
  import opened Bytes
  import opened Errors
  import opened Strconv
  import opened Streams

  datatype ObjectFile = ObjectFile(objectType: seq<byte>, data: seq<byte>)

  /** "blob" */
  const BlobType: seq<byte> := [0x62, 0x6C, 0x6F, 0x62]

  /** validObjectType: the tags the decoder accepts. */
  const ValidObjectTypes: set<seq<byte>> := {BlobType}

  /** The record for `of`, byte for byte. */
  function Record(of: ObjectFile): (r: seq<byte>)
    ensures |r| == |of.objectType| + 2 + |FormatInt(|of.data|)| + |of.data|
    ensures r[..|of.objectType|] == of.objectType && r[|of.objectType|] == SP
    ensures r[|r| - |of.data| - 1] == NUL && r[|r| - |of.data|..] == of.data
  {
    of.objectType + [SP] + FormatInt(|of.data|) + [NUL] + of.data
  }

  /** What has been written so far: the writer holds the first `total`
      bytes of `rec` after `base`, and a bounded writer has lost exactly
      that much room. */
  ghost predicate Progress(w: Writer, base: seq<byte>, rec: seq<byte>, total: nat, room0: Option<nat>)
    reads w
  {
    && total <= |rec|
    && w.written == base + rec[..total]
    && (room0.None? ==> w.room.None?)
    && (room0.Some? ==> total <= room0.value && w.room == Some(room0.value - total))
  }

  /** One write of ObjectFile.Write: hand `part`, the next slice of the
      record, to the writer and add what it took to `total`. */
  method WriteNext(w: Writer, part: seq<byte>, total: nat,
                   ghost base: seq<byte>, ghost rec: seq<byte>, ghost room0: Option<nat>)
    returns (total': nat, err: Option<Error>)
    requires Progress(w, base, rec, total, room0)
    requires total + |part| <= |rec| && rec[total..total + |part|] == part
    modifies w
    ensures Progress(w, base, rec, total', room0)
    ensures err.None? ==> total' == total + |part|
    ensures err.Some? ==> total' < total + |part| && room0.Some? && total' == room0.value
    ensures err.Some? ==> err.value == ShortWrite
  {
    var n;
    n, err := w.Write(part);
    total' := total + n;
    assert rec[..total'] == rec[..total] + part[..n];
  }

  /** ObjectFile.Write: the five writes of the record in order, stopping at
      the first writer error. `total` counts the bytes the writer took, so
      whatever happens the writer holds the first `total` bytes of the record. */
  method Write(of: ObjectFile, w: Writer) returns (total: nat, err: Option<Error>)
    modifies w
    ensures total == old(w.Accepts(|Record(of)|))
    ensures w.written == old(w.written) + Record(of)[..total]
    ensures err.None? <==> total == |Record(of)|
    ensures err.Some? ==> err.value == ShortWrite
    ensures w.room == if old(w.room).None? then None else Some(old(w.room).value - total)
  {
    ghost var base, room0 := w.written, w.room;
    ghost var size := FormatInt(|of.data|);
    ghost var rec := Record(of);
    ghost var t := |of.objectType|;
    assert rec[..0] == [];
    assert rec[0..t] == of.objectType;
    total, err := WriteNext(w, of.objectType, 0, base, rec, room0);
    if err.Some? {
      return;
    }
    assert rec[t..t + 1] == [SP];
    total, err := WriteNext(w, [SP], total, base, rec, room0);
    if err.Some? {
      return;
    }
    assert rec[t + 1..t + 1 + |size|] == size;
    total, err := WriteNext(w, FormatInt(|of.data|), total, base, rec, room0);
    if err.Some? {
      return;
    }
    assert rec[t + 1 + |size|..t + 2 + |size|] == [NUL];
    total, err := WriteNext(w, [NUL], total, base, rec, room0);
    if err.Some? {
      return;
    }
    // io.Copy from a bytes.Reader hands the whole slice to one Write call.
    assert rec[t + 2 + |size|..] == of.data;
    total, err := WriteNext(w, of.data, total, base, rec, room0);
  }

  /** ReadObjectFile, as a function of the whole stream: the tag up to the
      first 0x20, checked against validObjectType; the size text up to the
      next 0x00, parsed as a base-10 int64; and everything after it as the
      data, which must be exactly that long. */
  function Decode(s: seq<byte>): (r: Result<ObjectFile>)
    ensures r.Ok? ==> r.value.objectType in ValidObjectTypes
    ensures r.Ok? ==> |r.value.data| < |s| && s[|s| - |r.value.data|..] == r.value.data
  {
    var i := FirstIndex(s, SP);
    if i == |s| then Err(MissingObjectType)
    else
      var objectType := s[..i];
      if objectType !in ValidObjectTypes then Err(InvalidObjectType(objectType))
      else
        var rest := s[i + 1..];
        var j := FirstIndex(rest, NUL);
        if j == |rest| then Err(MissingObjectSize)
        else
          match ParseInt(rest[..j])
          case None => Err(InvalidSize(rest[..j]))
          case Some(size) =>
            var data := rest[j + 1..];
            if |data| != size then Err(SizeMismatch(|data|, size))
            else Ok(ObjectFile(objectType, data))
  }

  /** ReadObjectFile: the decoder as the source writes it, consuming a
      buffered reader step by step. */
  method ReadObjectFile(r: Reader) returns (res: Result<ObjectFile>)
    requires r.Valid()
    modifies r
    ensures r.Valid() && r.buf == old(r.buf)
    ensures res.Ok? ==> r.Rest() == []
    ensures res == Decode(old(r.Rest()))
  {
    ghost var s := r.Rest();
    ghost var i := FirstIndex(s, SP);
    var bs, err := r.ReadBytes(SP);
    if err.Some? {
      assert i == |s|;
      return Err(MissingObjectType);
    }
    assert i < |s| && bs == s[..i + 1];
    var objectType := bs[..|bs| - 1];
    assert objectType == s[..i];
    if objectType !in ValidObjectTypes {
      return Err(InvalidObjectType(objectType));
    }
    ghost var rest := r.Rest();
    assert rest == s[i + 1..];
    ghost var j := FirstIndex(rest, NUL);
    bs, err := r.ReadBytes(NUL);
    if err.Some? {
      assert j == |rest|;
      return Err(MissingObjectSize);
    }
    assert j < |rest| && bs == rest[..j + 1];
    var text := bs[..|bs| - 1];
    assert text == rest[..j];
    var size := ParseInt(text);
    if size.None? {
      return Err(InvalidSize(text));
    }
    var data := r.ReadAll();
    if |data| != size.value {
      return Err(SizeMismatch(|data|, size.value));
    }
    return Ok(ObjectFile(objectType, data));
  }

  // ---------------------------------------------------------------------
  // Properties of the record format

  /** Every accepted tag is non-empty and free of the two delimiters. */
  lemma ValidObjectTypeShape(t: seq<byte>)
    requires t in ValidObjectTypes
    ensures |t| > 0 && SP !in t && NUL !in t
  {
    assert t == BlobType;
  }

  /** Round trip: decoding the record of any object with an accepted tag
      gives that object back, whatever bytes (spaces, NULs) the data holds.
      The bound is Go's: a slice length is an int. */
  lemma DecodeRecord(of: ObjectFile)
    requires of.objectType in ValidObjectTypes
    requires |of.data| <= Int64Max
    ensures Decode(Record(of)) == Ok(of)
  {
    var size := FormatInt(|of.data|);
    ValidObjectTypeShape(of.objectType);
    var rec := Record(of);
    var rest := size + [NUL] + of.data;
    assert rec == of.objectType + [SP] + rest;
    FirstIndexAfter(of.objectType, SP, rest);
    assert rec[..|of.objectType|] == of.objectType;
    assert rec[|of.objectType| + 1..] == rest;
    FormatIntHasNoNul(|of.data|);
    FirstIndexAfter(size, NUL, of.data);
    assert rest[..|size|] == size;
    assert rest[|size| + 1..] == of.data;
    ParseFormatInt(|of.data|);
  }

  /** What an accepted record looks like: an accepted tag, 0x20, a size
      text free of 0x00 that ParseInt reads as the data length, 0x00, the data.
      The size text need not be the one Write produces (see
      DecodeAcceptsNonCanonicalSize). */
  lemma DecodeOk(s: seq<byte>)
    requires Decode(s).Ok?
    ensures var of := Decode(s).value;
            var n := |of.objectType|;
            && n + 2 + |of.data| <= |s|
            && var text := s[n + 1..|s| - |of.data| - 1];
            && s == of.objectType + [SP] + text + [NUL] + of.data
            && SP !in of.objectType
            && NUL !in text
            && ParseInt(text) == Some(|of.data|)
  {
    var of := Decode(s).value;
    var i := FirstIndex(s, SP);
    var rest := s[i + 1..];
    var j := FirstIndex(rest, NUL);
    var n := |of.objectType|;
    assert n == i;
    var text := s[n + 1..|s| - |of.data| - 1];
    assert text == rest[..j];
    assert s == s[..i] + [SP] + rest;
    assert rest == rest[..j] + [NUL] + rest[j + 1..];
    assert SP !in of.objectType by {
      forall k | 0 <= k < n ensures of.objectType[k] != SP {
        assert of.objectType[k] == s[k];
      }
    }
    assert NUL !in text by {
      forall k | 0 <= k < |text| ensures text[k] != NUL {
        assert text[k] == rest[k];
      }
    }
  }

  /** No 0x20 anywhere: "couldn't read object type". */
  lemma DecodeRejectsMissingSpace(s: seq<byte>)
    requires SP !in s
    ensures Decode(s) == Err(MissingObjectType)
  {
    FirstIndexAbsent(s, SP);
  }

  /** A tag outside validObjectType is rejected, whatever follows it. */
  lemma DecodeRejectsUnknownType(t: seq<byte>, rest: seq<byte>)
    requires SP !in t && t !in ValidObjectTypes
    ensures Decode(t + [SP] + rest) == Err(InvalidObjectType(t))
  {
    FirstIndexAfter(t, SP, rest);
    assert (t + [SP] + rest)[..|t|] == t;
  }

  /** An accepted tag followed by bytes without 0x00: "couldn't read
      object size". */
  lemma DecodeRejectsMissingNul(t: seq<byte>, rest: seq<byte>)
    requires t in ValidObjectTypes && NUL !in rest
    ensures Decode(t + [SP] + rest) == Err(MissingObjectSize)
  {
    ValidObjectTypeShape(t);
    FirstIndexAfter(t, SP, rest);
    var s := t + [SP] + rest;
    assert s[..|t|] == t && s[|t| + 1..] == rest;
    FirstIndexAbsent(rest, NUL);
  }

  /** A size text that is not a base-10 int64: "invalid size". */
  lemma DecodeRejectsBadSize(t: seq<byte>, text: seq<byte>, data: seq<byte>)
    requires t in ValidObjectTypes && NUL !in text && ParseInt(text).None?
    ensures Decode(t + [SP] + text + [NUL] + data) == Err(InvalidSize(text))
  {
    ValidObjectTypeShape(t);
    var rest := text + [NUL] + data;
    var s := t + [SP] + rest;
    assert t + [SP] + text + [NUL] + data == s;
    FirstIndexAfter(t, SP, rest);
    assert s[..|t|] == t && s[|t| + 1..] == rest;
    FirstIndexAfter(text, NUL, data);
    assert rest[..|text|] == text;
  }

  /** A declared size other than the number of bytes that follow is
      rejected, both when too few and when too many bytes remain. */
  lemma DecodeRejectsSizeMismatch(t: seq<byte>, size: nat, data: seq<byte>)
    requires t in ValidObjectTypes && size <= Int64Max && size != |data|
    ensures Decode(t + [SP] + FormatInt(size) + [NUL] + data) == Err(SizeMismatch(|data|, size))
  {
    ValidObjectTypeShape(t);
    var text := FormatInt(size);
    var rest := text + [NUL] + data;
    var s := t + [SP] + rest;
    assert t + [SP] + text + [NUL] + data == s;
    FirstIndexAfter(t, SP, rest);
    assert s[..|t|] == t && s[|t| + 1..] == rest;
    FormatIntHasNoNul(size);
    FirstIndexAfter(text, NUL, data);
    assert rest[..|text|] == text && rest[|text| + 1..] == data;
    ParseFormatInt(size);
  }

  /** The record has no room for trailing bytes: appending anything to a
      record makes it undecodable. */
  lemma DecodeRejectsTrailingBytes(of: ObjectFile, extra: seq<byte>)
    requires of.objectType in ValidObjectTypes && |of.data| <= Int64Max
    requires |extra| > 0
    ensures Decode(Record(of) + extra) == Err(SizeMismatch(|of.data| + |extra|, |of.data|))
  {
    assert Record(of) + extra == of.objectType + [SP] + FormatInt(|of.data|) + [NUL] + (of.data + extra);
    DecodeRejectsSizeMismatch(of.objectType, |of.data|, of.data + extra);
  }

  /** Nor can a record lose its last byte: a truncated record is undecodable. */
  lemma DecodeRejectsTruncation(of: ObjectFile)
    requires of.objectType in ValidObjectTypes && |of.data| <= Int64Max
    requires |of.data| > 0
    ensures Decode(Record(of)[..|Record(of)| - 1]) == Err(SizeMismatch(|of.data| - 1, |of.data|))
  {
    var short := of.data[..|of.data| - 1];
    assert Record(of)[..|Record(of)| - 1] == of.objectType + [SP] + FormatInt(|of.data|) + [NUL] + short;
    DecodeRejectsSizeMismatch(of.objectType, |of.data|, short);
  }

  /** The decoder is not canonical: "blob +0\x00" is accepted as the empty
      blob although Write spells that size "0". */
  lemma DecodeAcceptsNonCanonicalSize()
    ensures Decode(BlobType + [SP, Plus, Zero, NUL]) == Ok(ObjectFile(BlobType, []))
  {
    var s := BlobType + [SP, Plus, Zero, NUL];
    assert s == BlobType + [SP] + ([Plus, Zero] + [NUL] + []);
    FirstIndexAfter(BlobType, SP, [Plus, Zero] + [NUL] + []);
    assert s[..4] == BlobType;
    var rest := s[5..];
    assert rest == [Plus, Zero] + [NUL] + [];
    FirstIndexAfter([Plus, Zero], NUL, []);
    assert rest[..2] == [Plus, Zero];
    assert ParseInt([Plus, Zero]) == Some(0) by {
      assert [Plus, Zero][1..] == [Zero];
      assert [Zero][..0] == [];
      assert DigitsValue([Zero]) == 0;
    }
  }
}
