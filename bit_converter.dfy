/** System.BitConverter on a little-endian machine: integers to and from
    their two's-complement byte strings. */
module BitConverter {
  import opened Runtime

  function Pow256(n: nat): nat
  {
    if n == 0 then 1 else 256 * Pow256(n - 1)
  }

  lemma Pow256Widths()
    ensures Pow256(4) == TwoTo32
    ensures Pow256(8) == TwoTo32 * TwoTo32
  {
    assert Pow256(2) == 0x1_0000;
    assert Pow256(4) == TwoTo32;
    assert Pow256(6) == 0x1_0000_0000_0000;
  }

  /** The unsigned value of a little-endian byte string. */
  function LeValue(s: seq<byte>): (r: nat)
    ensures r < Pow256(|s|)
  {
    if s == [] then 0 else s[0] as nat + 256 * LeValue(s[1..])
  }

  /** The n-byte little-endian string of an unsigned value that fits. */
  function LeBytes(u: nat, n: nat): (s: seq<byte>)
    requires u < Pow256(n)
    ensures |s| == n && LeValue(s) == u
  {
    if n == 0 then [] else
      var s := [(u % 256) as byte] + LeBytes(u / 256, n - 1);
      assert s[1..] == LeBytes(u / 256, n - 1);
      s
  }

  /** Decoding and re-encoding a byte string gives the string back. */
  lemma {:induction false} LeBytesOfValue(s: seq<byte>)
    ensures LeBytes(LeValue(s), |s|) == s
  {
    if s != [] {
      LeBytesOfValue(s[1..]);
      var v := LeValue(s);
      assert v % 256 == s[0] as nat && v / 256 == LeValue(s[1..]);
    }
  }

  /** A string of zero bytes has value 0. */
  lemma {:induction false} LeValueOfZeros(s: seq<byte>)
    requires forall i :: 0 <= i < |s| ==> s[i] == 0
    ensures LeValue(s) == 0
  {
    if s != [] {
      LeValueOfZeros(s[1..]);
    }
  }

  /** Four zero bytes read as the int32 0. */
  lemma ToInt32OfZeros(s: seq<byte>)
    requires |s| >= 4 && forall i :: 0 <= i < |s| ==> s[i] == 0
    ensures ToInt32(s) == 0
  {
    LeValueOfZeros(s[..4]);
  }

  /** BitConverter.ToInt32: the first four bytes as a signed 32-bit value. */
  function ToInt32(s: seq<byte>): (r: int)
    requires |s| >= 4
    ensures IsI32(r)
  {
    Pow256Widths();
    var u := LeValue(s[..4]);
    if u <= I32Max then u else u - TwoTo32
  }

  /** BitConverter.GetBytes(int). */
  function GetBytes32(x: int): (s: seq<byte>)
    requires IsI32(x)
    ensures |s| == 4 && ToInt32(s) == x
  {
    Pow256Widths();
    var s := LeBytes(if x >= 0 then x else x + TwoTo32, 4);
    assert s[..4] == s;
    s
  }

  /** BitConverter.ToInt64: the first eight bytes as a signed 64-bit value. */
  function ToInt64(s: seq<byte>): (r: int)
    requires |s| >= 8
    ensures IsI64(r)
  {
    Pow256Widths();
    var u := LeValue(s[..8]);
    if u <= I64Max then u else u - TwoTo32 * TwoTo32
  }

  /** BitConverter.GetBytes(long). */
  function GetBytes64(x: int): (s: seq<byte>)
    requires IsI64(x)
    ensures |s| == 8 && ToInt64(s) == x
  {
    Pow256Widths();
    var s := LeBytes(if x >= 0 then x else x + TwoTo32 * TwoTo32, 8);
    assert s[..8] == s;
    s
  }

  /** Every four bytes are the encoding of the int32 they decode to. */
  lemma GetBytes32OfToInt32(s: seq<byte>)
    requires |s| == 4
    ensures GetBytes32(ToInt32(s)) == s
  {
    Pow256Widths();
    assert s[..4] == s;
    LeBytesOfValue(s);
  }

  /** Every eight bytes are the encoding of the int64 they decode to. */
  lemma GetBytes64OfToInt64(s: seq<byte>)
    requires |s| == 8
    ensures GetBytes64(ToInt64(s)) == s
  {
    Pow256Widths();
    assert s[..8] == s;
    LeBytesOfValue(s);
  }
}
