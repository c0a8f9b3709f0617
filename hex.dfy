/** encoding/hex.EncodeToString: two lower-case hexadecimal digits per
    byte, high nibble first. */
module Hex {
  import opened Bytes

  predicate IsLowerHex(c: char) {
    '0' <= c <= '9' || 'a' <= c <= 'f'
  }

  function HexDigit(n: int): (c: char)
    requires 0 <= n < 16
    ensures IsLowerHex(c)
  {
    if n < 10 then ('0' as int + n) as char else ('a' as int + n - 10) as char
  }

  function HexEncode(bs: seq<byte>): (s: string)
    ensures |s| == 2 * |bs|
    ensures forall i :: 0 <= i < |s| ==> IsLowerHex(s[i])
  {
    if |bs| == 0 then ""
    else [HexDigit(bs[0] / 16), HexDigit(bs[0] % 16)] + HexEncode(bs[1..])
  }

  /** Hex encoding loses nothing: different byte strings give different
      digests' text. */
  lemma {:induction false} HexEncodeInjective(a: seq<byte>, b: seq<byte>)
    requires HexEncode(a) == HexEncode(b)
    ensures a == b
  {
    if |a| > 0 {
      var ea, eb := HexEncode(a), HexEncode(b);
      assert |b| == |a|;
      assert HexDigit(a[0] / 16) == ea[0] == eb[0] == HexDigit(b[0] / 16);
      assert HexDigit(a[0] % 16) == ea[1] == eb[1] == HexDigit(b[0] % 16);
      assert a[0] == b[0];
      assert ea[2..] == HexEncode(a[1..]);
      assert eb[2..] == HexEncode(b[1..]);
      HexEncodeInjective(a[1..], b[1..]);
      assert a == [a[0]] + a[1..];
      assert b == [b[0]] + b[1..];
    }
  }
}
