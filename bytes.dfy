/** Bytes as the Go code sees them: `[]byte` slices and the two delimiters
    of the loose-object record. */
module Bytes {

  type byte = b: int | 0 <= b < 256

  /** 0x20, ends the object type in a record. */
  const SP: byte := 0x20
  /** 0x00, ends the decimal size in a record. */
  const NUL: byte := 0x00

  /** Position of the first `d` in `s`, or `|s|` when `d` does not occur:
      the byte count that `bufio.Reader.ReadBytes(d)` consumes before the
      delimiter. */
  function FirstIndex(s: seq<byte>, d: byte): (i: nat)
    ensures i <= |s|
    ensures i < |s| ==> s[i] == d
    ensures forall k :: 0 <= k < i ==> s[k] != d
  {
    if |s| == 0 then 0
    else if s[0] == d then 0
    else 1 + FirstIndex(s[1..], d)
  }

  /** The three properties of FirstIndex single out one position. */
  lemma FirstIndexUnique(s: seq<byte>, d: byte, i: nat)
    requires i <= |s|
    requires i < |s| ==> s[i] == d
    requires forall k :: 0 <= k < i ==> s[k] != d
    ensures FirstIndex(s, d) == i
  {
  }

  /** In `a + [d] + b` with no `d` inside `a`, the first `d` is the one
      placed right after `a`. */
  lemma FirstIndexAfter(a: seq<byte>, d: byte, b: seq<byte>)
    requires d !in a
    ensures FirstIndex(a + [d] + b, d) == |a|
  {
    var s := a + [d] + b;
    assert s[|a|] == d;
    forall k | 0 <= k < |a| ensures s[k] != d {
      assert s[k] == a[k];
    }
    FirstIndexUnique(s, d, |a|);
  }

  /** No `d` at all: FirstIndex runs to the end. */
  lemma FirstIndexAbsent(s: seq<byte>, d: byte)
    requires d !in s
    ensures FirstIndex(s, d) == |s|
  {
    FirstIndexUnique(s, d, |s|);
  }
}
