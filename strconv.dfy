/** The two conversions of Go's strconv package that the record format
    uses: FormatInt(n, 10) for writing the size and ParseInt(s, 10, 64)
    for reading it back. */
module Strconv {
  import opened Bytes
  import opened Errors

  /** math.MaxInt64; math.MinInt64 is -Int64Max - 1. */
  const Int64Max: int := 0x7FFF_FFFF_FFFF_FFFF

  const Zero: byte := 0x30
  const Plus: byte := 0x2B
  const Minus: byte := 0x2D

  predicate IsDigit(b: byte) {
    Zero <= b <= Zero + 9
  }

  predicate AllDigits(s: seq<byte>) {
    forall i :: 0 <= i < |s| ==> IsDigit(s[i])
  }

  /** strconv.FormatInt(n, 10) for a non-negative n (a slice length):
      the shortest decimal spelling, without sign and without leading zeros. */
  function FormatInt(n: nat): (s: seq<byte>)
    ensures 1 <= |s|
    ensures AllDigits(s)
    ensures s[0] == Zero <==> n == 0
    ensures n == 0 ==> s == [Zero]
  {
    if n < 10 then [Zero + n] else FormatInt(n / 10) + [Zero + n % 10]
  }

  /** The number a run of decimal digits spells, most significant first. */
  function DigitsValue(s: seq<byte>): nat
    requires AllDigits(s)
  {
    if |s| == 0 then 0 else 10 * DigitsValue(s[..|s| - 1]) + (s[|s| - 1] - Zero)
  }

  /** strconv.ParseInt(s, 10, 64): an optional '+' or '-', then at least one
      decimal digit and nothing else (base 10 allows no underscores), and
      the value must lie in the int64 range. Leading zeros are accepted. */
  function ParseInt(s: seq<byte>): (r: Option<int>)
    ensures r.Some? ==> -Int64Max - 1 <= r.value <= Int64Max
    ensures r.Some? ==> 1 <= |s|
  {
    if |s| == 0 then None
    else
      var neg := s[0] == Minus;
      var digits := if s[0] == Plus || s[0] == Minus then s[1..] else s;
      if |digits| == 0 || !AllDigits(digits) then None
      else
        var u: int := DigitsValue(digits);
        if neg then (if u <= Int64Max + 1 then Some(-u) else None)
        else (if u <= Int64Max then Some(u) else None)
  }

  /** Reading back the digits FormatInt wrote gives the number. */
  lemma {:induction false} DigitsValueFormatInt(n: nat)
    ensures DigitsValue(FormatInt(n)) == n
  {
    if n >= 10 {
      var s := FormatInt(n);
      assert s[..|s| - 1] == FormatInt(n / 10);
      DigitsValueFormatInt(n / 10);
    }
  }

  /** A decimal spelling holds neither record delimiter. */
  lemma FormatIntHasNoNul(n: nat)
    ensures NUL !in FormatInt(n) && SP !in FormatInt(n)
  {
    var s := FormatInt(n);
    forall k | 0 <= k < |s| ensures s[k] != NUL && s[k] != SP {
      assert IsDigit(s[k]);
    }
  }

  /** ParseInt inverts FormatInt on every non-negative int64. */
  lemma ParseFormatInt(n: nat)
    requires n <= Int64Max
    ensures ParseInt(FormatInt(n)) == Some(n)
  {
    DigitsValueFormatInt(n);
  }

  /** FormatInt is one-to-one: different sizes are spelled differently. */
  lemma FormatIntInjective(m: nat, n: nat)
    requires FormatInt(m) == FormatInt(n)
    ensures m == n
  {
    DigitsValueFormatInt(m);
    DigitsValueFormatInt(n);
  }

  /** ParseInt also accepts spellings FormatInt never produces: a sign and
      leading zeros ("+007" reads as 7). */
  lemma ParseIntAcceptsNonCanonical()
    ensures ParseInt([Plus, Zero, Zero, Zero + 7]) == Some(7)
  {
    var digits := [Zero, Zero, Zero + 7];
    assert [Plus, Zero, Zero, Zero + 7][1..] == digits;
    assert DigitsValue([Zero]) == 0 by {
      assert [Zero][..0] == [];
    }
    assert DigitsValue([Zero, Zero]) == 0 by {
      assert [Zero, Zero][..1] == [Zero];
    }
    assert DigitsValue(digits) == 7 by {
      assert digits[..2] == [Zero, Zero];
    }
  }
}
