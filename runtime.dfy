/** The .NET runtime behaviour the shared-memory transport relies on: bytes,
    unchecked 32-bit arithmetic, range slicing that throws, and exceptions
    modelled as failure values. */
module Runtime {

  newtype byte = x: int | 0 <= x < 256

  const I32Min: int := -0x8000_0000
  const I32Max: int := 0x7fff_ffff
  const I64Min: int := -0x8000_0000_0000_0000
  const I64Max: int := 0x7fff_ffff_ffff_ffff
  const TwoTo32: int := 0x1_0000_0000

  predicate IsI32(x: int) { I32Min <= x <= I32Max }
  predicate IsI64(x: int) { I64Min <= x <= I64Max }

  /** C# `int` arithmetic is unchecked: a result is brought back into the
      32-bit two's-complement range by adding or removing multiples of 2^32. */
  function Wrap32(x: int): (r: int)
    ensures IsI32(r)
    ensures IsI32(x) ==> r == x
    decreases if x > I32Max then x - I32Max else if x < I32Min then I32Min - x else 0
  {
    if x > I32Max then Wrap32(x - TwoTo32)
    else if x < I32Min then Wrap32(x + TwoTo32)
    else x
  }

  /** Wrapping ignores one multiple of 2^32. */
  lemma Wrap32Step(x: int)
    ensures Wrap32(x + TwoTo32) == Wrap32(x)
    ensures Wrap32(x - TwoTo32) == Wrap32(x)
  {
  }

  /** Wrapping depends only on the residue modulo 2^32. */
  lemma {:induction false} Wrap32Shift(x: int, k: int)
    ensures Wrap32(x + k * TwoTo32) == Wrap32(x)
    decreases if k >= 0 then k else -k
  {
    if k > 0 {
      Wrap32Shift(x, k - 1);
      Wrap32Step(x + (k - 1) * TwoTo32);
    } else if k < 0 {
      Wrap32Shift(x, k + 1);
      Wrap32Step(x + (k + 1) * TwoTo32);
    }
  }

  /** Subtracting after a wrapped addition is the same as wrapping once. */
  lemma {:induction false} Wrap32Sub(x: int, c: int)
    ensures Wrap32(Wrap32(x) - c) == Wrap32(x - c)
    decreases if x > I32Max then x - I32Max else if x < I32Min then I32Min - x else 0
  {
    if x > I32Max {
      Wrap32Sub(x - TwoTo32, c);
      Wrap32Step(x - c);
    } else if x < I32Min {
      Wrap32Sub(x + TwoTo32, c);
      Wrap32Step(x - c);
    }
  }

  /** A value at most one multiple of 2^32 outside the int32 range wraps once. */
  lemma Wrap32Once(x: int)
    requires I32Min - TwoTo32 <= x <= I32Max + TwoTo32
    ensures Wrap32(x) == if x > I32Max then x - TwoTo32 else if x < I32Min then x + TwoTo32 else x
  {
  }

  /** The exceptions the core can raise: the explicit OverflowException of the
      ring buffer, and the argument exceptions thrown by range slicing, view
      accessors and BitConverter. */
  datatype Fault = OverflowError | RangeError

  datatype Result<T> = Ok(value: T) | Err(fault: Fault) {
    predicate IsFailure() { Err? }

    function PropagateFailure<U>(): Result<U>
      requires Err?
    {
      Err(fault)
    }

    function Extract(): T
      requires Ok?
    {
      value
    }
  }

  datatype Option<T> = None | Some(value: T)

  /** A slice of a slice is a slice of the whole. */
  lemma SliceOfSlice<T>(a: seq<T>, lo: int, hi: int, i: int, j: int)
    requires 0 <= lo <= hi <= |a| && 0 <= i <= j <= hi - lo
    ensures a[lo..hi][i..j] == a[lo + i..lo + j]
  {
    var outer := a[lo..hi];
    assert |outer[i..j]| == |a[lo + i..lo + j]|;
    forall k | 0 <= k < j - i
      ensures outer[i..j][k] == a[lo + i..lo + j][k]
    {
      assert outer[i..j][k] == outer[i + k];
      assert outer[i + k] == a[lo + i + k];
    }
  }

  /** C# range slicing `s[lo..hi]` on an array or span: throws unless
      0 <= lo <= hi <= |s|. */
  function Slice<T>(s: seq<T>, lo: int, hi: int): Result<seq<T>>
  {
    if 0 <= lo <= hi <= |s| then Ok(s[lo..hi]) else Err(RangeError)
  }
}
