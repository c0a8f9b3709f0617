/** pkg/object: the blob, an object whose serialized form is its data. */
module Object {
  import opened Bytes
  import opened Errors

  class Blob {
    var data: seq<byte>

    /** NewBlob: a blob holding `bs`. */
    constructor NewBlob(bs: seq<byte>)
      ensures Serialize() == bs
    {
      data := bs;
    }

    /** Deserialize: replaces whatever the blob held by `bs`; never fails. */
    method Deserialize(bs: seq<byte>) returns (err: Option<Error>)
      modifies this
      ensures Serialize() == bs
      ensures err == None
    {
      data := bs;
      err := None;
    }

    /** Serialize: the bytes last stored; reading them changes nothing. */
    function Serialize(): (s: seq<byte>)
      reads this
      ensures s == data
    {
      data
    }
  }

  /** Storing back what the blob serializes to leaves it as it was. */
  method ReDeserialize(b: Blob) returns (err: Option<Error>)
    modifies b
    ensures b.Serialize() == old(b.Serialize())
    ensures err == None
  {
    var bs := b.Serialize();
    err := b.Deserialize(bs);
  }
}
