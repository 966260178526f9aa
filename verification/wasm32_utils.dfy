/** The WebAssembly SIMD128 helpers of the convolution back-end: loads that pack pixel
    data from a buffer into a v128 register, and two lane multiplications that stand in
    for the x86 instructions `mulhi_epu16` and `mul_epi32`. Each helper is a pure
    function of a buffer and an index, or of two registers. */
module Wasm32Utils {
  import opened LittleEndian
  import opened Simd128

  // ---------------------------------------------------------------------------
  // Buffers
  // ---------------------------------------------------------------------------

  /** A Rust slice `&[T]` as the bytes it occupies: `size` is `size_of::<T>()`, and
      an index into the slice counts elements of T. */
  datatype Slice = Slice(bytes: seq<byte>, size: nat)

  /** The slice holds n bytes from element `index` on. The helpers read through
      `get_unchecked` and raw pointers, so reading past the end is undefined
      behaviour that every caller must rule out. */
  predicate CanRead(s: Slice, index: nat, n: nat)
  {
    index * s.size + n <= |s.bytes|
  }

  /** The n bytes from element `index` on: what an unaligned read of an n-byte
      value through `buf.get_unchecked(index..).as_ptr()` sees. */
  function Read(s: Slice, index: nat, n: nat): (bs: seq<byte>)
    requires CanRead(s, index, n)
    ensures |bs| == n
  {
    s.bytes[index * s.size .. index * s.size + n]
  }

  /** A slice of unsigned n-byte integers: `&[u8]`, `&[u16]`, `&[u32]` or `&[u64]`. */
  function WordSlice(ws: seq<nat>, n: nat): Slice
  {
    Slice(Pack(ws, n), n)
  }

  /** A `&[u8]`. */
  function U8Slice(buf: seq<byte>): Slice
  {
    Slice(buf, 1)
  }

  /** The bit patterns of i16 values. */
  function I16Patterns(buf: seq<i16>): (ps: seq<nat>)
    ensures |ps| == |buf|
    ensures forall k :: 0 <= k < |buf| ==> ps[k] < 0x1_0000 && ToSigned(ps[k], 2) == buf[k]
  {
    var ps := seq(|buf|, k requires 0 <= k < |buf| => ToUnsigned(buf[k], 2));
    assert forall k :: 0 <= k < |buf| ==> ToSigned(ps[k], 2) == buf[k] by {
      forall k | 0 <= k < |buf|
        ensures ToSigned(ps[k], 2) == buf[k]
      {
        SignedOfUnsigned(buf[k], 2);
      }
    }
    ps
  }

  /** A `&[i16]`: each value stored as its two-byte two's-complement pattern. */
  function I16Slice(buf: seq<i16>): Slice
  {
    WordSlice(I16Patterns(buf), 2)
  }

  /** The pixel `U8x4`: four 8-bit channels, channel 0 first in memory. */
  type U8x4 = p: seq<byte> | |p| == 4 witness [0, 0, 0, 0]

  /** The pixel `U8x3`: three 8-bit channels. */
  type U8x3 = p: seq<byte> | |p| == 3 witness [0, 0, 0]

  /** Reading an n-byte signed integer and storing it back in lane 0 of an
      otherwise-zero register copies the n bytes unchanged. */
  lemma ReadLow(bs: seq<byte>, n: nat)
    requires LaneWidth(n) && |bs| == n
    ensures InSignedRange(ToSigned(LE(bs), n), n)
    ensures ConstLow(ToSigned(LE(bs), n), n) == bs + Zeros(16 - n)
  {
    LEBound(bs);
    UnsignedOfSigned(LE(bs), n);
    ToLELE(bs);
  }

  // ---------------------------------------------------------------------------
  // Loads
  // ---------------------------------------------------------------------------

  /** `load_v128`: the sixteen bytes from element `index` on. */
  function LoadV128(s: Slice, index: nat): (v: V128)
    requires CanRead(s, index, 16)
    ensures v == Read(s, index, 16)
  {
    Load(s.bytes, index * s.size)
  }

  /** `loadl_i64`: the eight bytes from element `index` on in the low half, zero above. */
  function LoadlI64(s: Slice, index: nat): (v: V128)
    requires CanRead(s, index, 8)
    ensures v == Read(s, index, 8) + Zeros(8)
  {
    var bs := Read(s, index, 8);
    ReadLow(bs, 8);
    ConstLow(ToSigned(LE(bs), 8), 8)
  }

  /** `loadl_i32`: the four bytes from element `index` on in lane 0, zero above. */
  function LoadlI32(s: Slice, index: nat): (v: V128)
    requires CanRead(s, index, 4)
    ensures v == Read(s, index, 4) + Zeros(12)
  {
    var bs := Read(s, index, 4);
    ReadLow(bs, 4);
    ConstLow(ToSigned(LE(bs), 4), 4)
  }

  /** `loadl_i16`: the two bytes from element `index` on in lane 0, zero above. */
  function LoadlI16(s: Slice, index: nat): (v: V128)
    requires CanRead(s, index, 2)
    ensures v == Read(s, index, 2) + Zeros(14)
  {
    var bs := Read(s, index, 2);
    ReadLow(bs, 2);
    ConstLow(ToSigned(LE(bs), 2), 2)
  }

  /** `i32x4_v128_from_u8`: the four bytes `buf[index..index + 4]` in lane 0, zero above. */
  function I32x4V128FromU8(buf: seq<byte>, index: nat): (v: V128)
    requires index + 4 <= |buf|
    ensures v == buf[index .. index + 4] + Zeros(12)
  {
    var bs := buf[index .. index + 4];
    ReadLow(bs, 4);
    ConstLow(ToSigned(LE(bs), 4), 4)
  }

  /** Slot m of the bytes read from element `index` of an i16 slice is the pattern
      of value index + m. */
  lemma I16Window(buf: seq<i16>, index: nat, k: nat, m: nat)
    requires index + k <= |buf| && m < k
    ensures CanRead(I16Slice(buf), index, 2 * k)
    ensures Read(I16Slice(buf), index, 2 * k)[2 * m .. 2 * m + 2] == ToLE(I16Patterns(buf)[index + m], 2)
  {
    WordWindow(I16Patterns(buf), 2, index + m);
    ReadWithin(I16Slice(buf), index, 2 * k, m);
  }

  /** Element index + m of a slice of two-byte elements is bytes 2m and 2m + 1 of
      a read from element index on. */
  lemma ReadWithin(s: Slice, index: nat, len: nat, m: nat)
    requires s.size == 2 && CanRead(s, index, len) && 2 * m + 2 <= len
    ensures CanRead(s, index + m, 2)
    ensures Read(s, index, len)[2 * m .. 2 * m + 2] == Read(s, index + m, 2)
  {
    SubSlice(s.bytes, 2 * index, len, 2 * m, 2);
  }

  /** The i16 values index..index + k - 1 (k = 4 or 2) read as one 2k-byte word. */
  function I16Word(buf: seq<i16>, index: nat, k: nat): (x: int)
    requires k == 2 || k == 4
    requires index + k <= |buf|
    ensures InSignedRange(x, 2 * k)
    ensures ToLE(ToUnsigned(x, 2 * k), 2 * k) == Read(I16Slice(buf), index, 2 * k)
  {
    I16Window(buf, index, k, 0);
    var bs := Read(I16Slice(buf), index, 2 * k);
    LEBound(bs);
    UnsignedOfSigned(LE(bs), 2 * k);
    ToLELE(bs);
    ToSigned(LE(bs), 2 * k)
  }

  /** i16 lane j of a splat of that word is value index + j mod k: the k values
      repeat across all eight i16 lanes. */
  lemma Set1Lane(buf: seq<i16>, index: nat, k: nat, j: nat)
    requires k == 2 || k == 4
    requires index + k <= |buf| && j < 8
    ensures SLane(Splat(I16Word(buf, index, k), 2 * k), 2, j) == buf[index + j % k]
  {
    var n := 2 * k;
    var x := I16Word(buf, index, k);
    var r := j % k;
    var bs := Read(I16Slice(buf), index, n);
    assert n / 2 == k;
    assert ToLE(ToUnsigned(x, n), n) == bs;
    SplatI16Slot(x, n, j);
    assert Splat(x, n)[2 * j .. 2 * j + 2] == bs[2 * r .. 2 * r + 2];
    I16Window(buf, index, k, r);
    LEToLE(I16Patterns(buf)[index + r], 2);
  }

  /** `ptr_i16_to_set1_i64`: the four i16 values from `index` on, read as one i64 and
      splatted, so that the four-value pattern fills the register twice. */
  function PtrI16ToSet1I64(buf: seq<i16>, index: nat): (v: V128)
    requires index + 4 <= |buf|
    ensures forall j :: 0 <= j < 8 ==> SLane(v, 2, j) == buf[index + j % 4]
  {
    var v := Splat(I16Word(buf, index, 4), 8);
    assert forall j :: 0 <= j < 8 ==> SLane(v, 2, j) == buf[index + j % 4] by {
      forall j | 0 <= j < 8
        ensures SLane(v, 2, j) == buf[index + j % 4]
      {
        Set1Lane(buf, index, 4, j);
      }
    }
    v
  }

  /** `ptr_i16_to_set1_i32`: the two i16 values from `index` on, read as one i32 and
      splatted, so that the two-value pattern fills the register four times. */
  function PtrI16ToSet1I32(buf: seq<i16>, index: nat): (v: V128)
    requires index + 2 <= |buf|
    ensures forall j :: 0 <= j < 8 ==> SLane(v, 2, j) == buf[index + j % 2]
  {
    var v := Splat(I16Word(buf, index, 2), 4);
    assert forall j :: 0 <= j < 8 ==> SLane(v, 2, j) == buf[index + j % 2] by {
      forall j | 0 <= j < 8
        ensures SLane(v, 2, j) == buf[index + j % 2]
      {
        Set1Lane(buf, index, 2, j);
      }
    }
    v
  }

  /** `i32x4_extend_low_ptr_u8`: the bytes `buf[index..index + 4]`, each zero-extended
      to an i32 lane. A full sixteen bytes are loaded, so sixteen must be in bounds. */
  function I32x4ExtendLowPtrU8(buf: seq<byte>, index: nat): (v: V128)
    requires index + 16 <= |buf|
    ensures forall k :: 0 <= k < 4 ==> Lane(v, 4, k) == buf[index + k]
  {
    var loaded := Load(buf, index);
    assert loaded == buf[index .. index + 16];
    var v := ExtendLowU16x8(ExtendLowU8x16(loaded));
    assert forall k :: 0 <= k < 4 ==> Lane(loaded, 1, k) == buf[index + k] by {
      forall k | 0 <= k < 4
        ensures Lane(loaded, 1, k) == buf[index + k]
      {
        ByteLane(loaded, k);
      }
    }
    v
  }

  /** `i32x4_extend_low_ptr_u8x4`: the channels of pixel `buf[index]`, each
      zero-extended to an i32 lane, channel k in lane k. */
  function I32x4ExtendLowPtrU8x4(buf: seq<U8x4>, index: nat): (v: V128)
    requires index < |buf|
    ensures forall k :: 0 <= k < 4 ==> Lane(v, 4, k) == buf[index][k]
  {
    var pixel := buf[index];
    var bits := LE(pixel);
    LEBound(pixel);
    var packed := FromLanes([bits, 0, 0, 0], 4);
    assert packed[0 .. 4] == pixel by {
      FromLanesSlot([bits, 0, 0, 0], 4, 0);
      ToLELE(pixel);
    }
    assert forall k :: 0 <= k < 4 ==> Lane(packed, 1, k) == pixel[k] by {
      forall k | 0 <= k < 4
        ensures Lane(packed, 1, k) == pixel[k]
      {
        ByteLane(packed, k);
      }
    }
    ExtendLowU16x8(ExtendLowU8x16(packed))
  }

  /** `i32x4_extend_low_ptr_u8x3`: the channels of pixel `buf[index]` in i32 lanes
      0 to 2, and zero in lane 3. */
  function I32x4ExtendLowPtrU8x3(buf: seq<U8x3>, index: nat): (v: V128)
    requires index < |buf|
    ensures forall k :: 0 <= k < 3 ==> Lane(v, 4, k) == buf[index][k]
    ensures Lane(v, 4, 3) == 0
  {
    var pixel := buf[index];
    var xs := [pixel[0], pixel[1], pixel[2], 0];
    Const(xs, 4)
  }

  // ---------------------------------------------------------------------------
  // Lane multiplications
  // ---------------------------------------------------------------------------

  /** The shuffle indices 1, 3, 5, .., 15 of `u16x8_mul_hi`: the odd i16 lanes of the
      low products followed by those of the high products. */
  function OddI16Lanes(): seq<nat>
  {
    seq(8, k => 2 * k + 1)
  }

  /** `u16x8_mul_hi`: the high 16 bits of each unsigned 16-bit lane product. The
      shuffle takes the upper half (odd 16-bit lane) of each 32-bit product, lanes
      0-3 from the low products and lanes 4-7 from the high ones. */
  function U16x8MulHi(a: V128, b: V128): (v: V128)
    ensures forall i :: 0 <= i < 8 ==> Lane(v, 2, i) == Lane(a, 2, i) * Lane(b, 2, i) / 0x1_0000
  {
    var v := Shuffle16(ExtMulLowU16x8(a, b), ExtMulHighU16x8(a, b), OddI16Lanes());
    MulHiLanes(a, b);
    v
  }

  /** The odd 16-bit lanes of the 32-bit products are the high halves. */
  lemma MulHiLanes(a: V128, b: V128)
    ensures forall i :: 0 <= i < 8 ==>
      Lane(Shuffle16(ExtMulLowU16x8(a, b), ExtMulHighU16x8(a, b), OddI16Lanes()), 2, i)
      == Lane(a, 2, i) * Lane(b, 2, i) / 0x1_0000
  {
    forall i | 0 <= i < 8
      ensures Lane(Shuffle16(ExtMulLowU16x8(a, b), ExtMulHighU16x8(a, b), OddI16Lanes()), 2, i)
        == Lane(a, 2, i) * Lane(b, 2, i) / 0x1_0000
    {
      MulHiLane(a, b, i);
    }
  }

  /** Lane i of the shuffled products is the upper half of product i. */
  lemma MulHiLane(a: V128, b: V128, i: nat)
    requires i < 8
    ensures Lane(Shuffle16(ExtMulLowU16x8(a, b), ExtMulHighU16x8(a, b), OddI16Lanes()), 2, i)
      == Lane(a, 2, i) * Lane(b, 2, i) / 0x1_0000
  {
    var lo, hi := ExtMulLowU16x8(a, b), ExtMulHighU16x8(a, b);
    var idx := OddI16Lanes();
    assert idx[i] == 2 * i + 1;
    if i < 4 {
      assert Lane(lo, 4, i) == Lane(a, 2, i) * Lane(b, 2, i);
      UpperHalf(lo, i);
    } else {
      assert Lane(hi, 4, i - 4) == Lane(a, 2, i) * Lane(b, 2, i);
      UpperHalf(hi, i - 4);
    }
  }

  /** The odd i16 lane 2k + 1 of a register is the upper half of its i32 lane k. */
  lemma UpperHalf(v: V128, k: nat)
    requires k < 4
    ensures Lane(v, 2, 2 * k + 1) == Lane(v, 4, k) / 0x1_0000
  {
    LaneHalves(v, k);
    HighHalf(Lane(v, 4, k), Lane(v, 2, 2 * k), Lane(v, 2, 2 * k + 1));
  }

  /** The high half of a 32-bit value split into two 16-bit halves. */
  lemma HighHalf(p: nat, lo: nat, hi: nat)
    requires p == lo + 0x1_0000 * hi && lo < 0x1_0000
    ensures p / 0x1_0000 == hi
  {
  }

  /** The byte mask of `i64x2_mul_lo`: bytes 0-3 and 8-11 (i32 lanes 0 and 2), then
      eight -1 bytes, which index out of range. */
  function MulLoMask(): V128
  {
    Const([0, 1, 2, 3, 8, 9, 10, 11, -1, -1, -1, -1, -1, -1, -1, -1], 1)
  }

  /** The mask's bytes: the -1 entries are stored as 255. */
  lemma MulLoMaskBytes()
    ensures MulLoMask() == [0, 1, 2, 3, 8, 9, 10, 11, 255, 255, 255, 255, 255, 255, 255, 255]
  {
    var mask := MulLoMask();
    var xs: seq<int> := [0, 1, 2, 3, 8, 9, 10, 11, -1, -1, -1, -1, -1, -1, -1, -1];
    forall j | 0 <= j < 16
      ensures mask[j] == ToUnsigned(xs[j], 1)
    {
      ByteLane(mask, j);
    }
  }

  /** Swizzling by the mask gathers bytes 0-3 and 8-11 and zeroes the rest. */
  lemma MulLoSwizzle(a: V128)
    ensures Swizzle(a, MulLoMask()) == a[0 .. 4] + a[8 .. 12] + Zeros(8)
  {
    MulLoMaskBytes();
  }

  /** Swizzling by the mask moves i32 lanes 0 and 2 into lanes 0 and 1 and clears
      lanes 2 and 3. */
  lemma MulLoMaskLanes(a: V128)
    ensures Lane(Swizzle(a, MulLoMask()), 4, 0) == Lane(a, 4, 0)
    ensures Lane(Swizzle(a, MulLoMask()), 4, 1) == Lane(a, 4, 2)
    ensures Lane(Swizzle(a, MulLoMask()), 4, 2) == 0
    ensures Lane(Swizzle(a, MulLoMask()), 4, 3) == 0
  {
    var x := Swizzle(a, MulLoMask());
    MulLoSwizzle(a);
    assert x[0 .. 4] == a[0 .. 4];
    assert x[4 .. 8] == a[8 .. 12];
    assert x[8 .. 12] == Zeros(4);
    assert x[12 .. 16] == Zeros(4);
    LEZeros(4);
  }

  /** `i64x2_mul_lo`: the exact signed 64-bit products of i32 lanes 0 and 2. */
  function I64x2MulLo(a: V128, b: V128): (v: V128)
    ensures SLane(v, 8, 0) == SLane(a, 4, 0) * SLane(b, 4, 0)
    ensures SLane(v, 8, 1) == SLane(a, 4, 2) * SLane(b, 4, 2)
  {
    MulLoMaskLanes(a);
    MulLoMaskLanes(b);
    ExtMulLowI32x4S(Swizzle(a, MulLoMask()), Swizzle(b, MulLoMask()))
  }

  // ---------------------------------------------------------------------------
  // Reference definitions and the properties that relate them to the helpers
  // ---------------------------------------------------------------------------

  /** Element `index` of a word slice is the n bytes read there. */
  lemma WordWindow(ws: seq<nat>, n: nat, index: nat)
    requires index < |ws|
    ensures CanRead(WordSlice(ws, n), index, n)
    ensures Read(WordSlice(ws, n), index, n) == ToLE(ws[index], n)
  {
    PackSlot(ws, n, index);
  }

  /** `load_v128` on a slice of n-byte integers puts the 16 / n elements from
      `index` on into the n-byte lanes, in order. */
  lemma LoadV128Words(ws: seq<nat>, n: nat, index: nat)
    requires LaneWidth(n) && index + Lanes(n) <= |ws|
    requires forall k :: 0 <= k < |ws| ==> ws[k] < Pow256(n)
    ensures CanRead(WordSlice(ws, n), index, 16)
    ensures forall k :: 0 <= k < Lanes(n) ==> Lane(LoadV128(WordSlice(ws, n), index), n, k) == ws[index + k]
  {
    MulSlot(index + Lanes(n) - 1, |ws|, n);
    Distrib(index, Lanes(n) - 1, n);
    var v := LoadV128(WordSlice(ws, n), index);
    forall k | 0 <= k < Lanes(n)
      ensures Lane(v, n, k) == ws[index + k]
    {
      LoadV128Word(ws, n, index, k);
    }
  }

  /** Lane k of that load is element index + k. */
  lemma LoadV128Word(ws: seq<nat>, n: nat, index: nat, k: nat)
    requires LaneWidth(n) && index + Lanes(n) <= |ws| && k < Lanes(n)
    requires ws[index + k] < Pow256(n)
    requires CanRead(WordSlice(ws, n), index, 16)
    ensures Lane(LoadV128(WordSlice(ws, n), index), n, k) == ws[index + k]
  {
    WordWindow(ws, n, index + k);
    LEToLE(ws[index + k], n);
    LoadLane(WordSlice(ws, n), index, k);
  }

  /** Lane k of a `load_v128` from a slice of n-byte elements is element index + k. */
  lemma LoadLane(s: Slice, index: nat, k: nat)
    requires LaneWidth(s.size) && k < Lanes(s.size)
    requires CanRead(s, index, 16) && CanRead(s, index + k, s.size)
    ensures Lane(LoadV128(s, index), s.size, k) == LE(Read(s, index + k, s.size))
  {
    var n, start := s.size, index * s.size;
    assert k * n + n <= 16 by {
      LaneSlot(n, k);
    }
    assert (index + k) * n == start + k * n by {
      Distrib(index, k, n);
    }
    SubSlice(s.bytes, start, 16, k * n, n);
  }

  /** A register holding the n bytes bs in its low lane and zero elsewhere has
      lane 0 equal to the value of bs and every other n-byte lane zero. */
  lemma LowLane(v: V128, bs: seq<byte>, n: nat)
    requires LaneWidth(n) && |bs| == n && v == bs + Zeros(16 - n)
    ensures Lane(v, n, 0) == LE(bs)
    ensures forall i :: 1 <= i < Lanes(n) ==> Lane(v, n, i) == 0
  {
    LowPlacedLane(bs, n, 0);
    forall i | 1 <= i < Lanes(n)
      ensures Lane(v, n, i) == 0
    {
      LowPlacedLane(bs, n, i);
    }
  }

  /** `loadl_i64` on a `&[i64]`-shaped slice: element `index` in lane 0, zero in lane 1. */
  lemma LoadlI64Lanes(ws: seq<nat>, index: nat)
    requires index < |ws| && ws[index] < Pow256(8)
    ensures CanRead(WordSlice(ws, 8), index, 8)
    ensures Lane(LoadlI64(WordSlice(ws, 8), index), 8, 0) == ws[index]
    ensures Lane(LoadlI64(WordSlice(ws, 8), index), 8, 1) == 0
  {
    WordWindow(ws, 8, index);
    LowLane(LoadlI64(WordSlice(ws, 8), index), Read(WordSlice(ws, 8), index, 8), 8);
    LEToLE(ws[index], 8);
  }

  /** `loadl_i32` on a `&[i32]`-shaped slice: element `index` in lane 0, zero in lanes 1-3. */
  lemma LoadlI32Lanes(ws: seq<nat>, index: nat)
    requires index < |ws| && ws[index] < Pow256(4)
    ensures CanRead(WordSlice(ws, 4), index, 4)
    ensures Lane(LoadlI32(WordSlice(ws, 4), index), 4, 0) == ws[index]
    ensures forall i :: 1 <= i < 4 ==> Lane(LoadlI32(WordSlice(ws, 4), index), 4, i) == 0
  {
    WordWindow(ws, 4, index);
    LowLane(LoadlI32(WordSlice(ws, 4), index), Read(WordSlice(ws, 4), index, 4), 4);
    LEToLE(ws[index], 4);
  }

  /** `loadl_i16` on an i16 slice: value `index` in i16 lane 0, zero in lanes 1-7. */
  lemma LoadlI16Lanes(buf: seq<i16>, index: nat)
    requires index < |buf|
    ensures CanRead(I16Slice(buf), index, 2)
    ensures SLane(LoadlI16(I16Slice(buf), index), 2, 0) == buf[index]
    ensures forall i :: 1 <= i < 8 ==> Lane(LoadlI16(I16Slice(buf), index), 2, i) == 0
  {
    var bs := Read(I16Slice(buf), index, 2);
    assert LE(bs) == I16Patterns(buf)[index] by {
      I16Window(buf, index, 1, 0);
      assert bs[0 .. 2] == bs;
      LEToLE(I16Patterns(buf)[index], 2);
    }
    LowLane(LoadlI16(I16Slice(buf), index), bs, 2);
  }

  /** `i32x4_v128_from_u8` is `loadl_i32` on a `&[u8]`. */
  lemma V128FromU8IsLoadlI32(buf: seq<byte>, index: nat)
    requires index + 4 <= |buf|
    ensures CanRead(U8Slice(buf), index, 4)
    ensures I32x4V128FromU8(buf, index) == LoadlI32(U8Slice(buf), index)
  {
  }

  /** The bytes of a `&[u8]` in byte lanes: `buf[index + k]` in lane k for k < 4, zero above. */
  lemma V128FromU8Bytes(buf: seq<byte>, index: nat)
    requires index + 4 <= |buf|
    ensures forall k :: 0 <= k < 16 ==> Lane(I32x4V128FromU8(buf, index), 1, k) == if k < 4 then buf[index + k] else 0
  {
    var v := I32x4V128FromU8(buf, index);
    forall k | 0 <= k < 16
      ensures Lane(v, 1, k) == if k < 4 then buf[index + k] else 0
    {
      ByteLane(v, k);
    }
  }

  /** Four bytes zero-extended into the four i32 lanes: the common result of the
      three `i32x4_extend_low_ptr_*` helpers. */
  function WidenU8x4(bs: seq<byte>): (v: V128)
    requires |bs| == 4
    ensures forall k :: 0 <= k < 4 ==> SLane(v, 4, k) == bs[k]
  {
    FromLanes([bs[0], bs[1], bs[2], bs[3]], 4)
  }

  /** `i32x4_extend_low_ptr_u8` widens `buf[index..index + 4]`. */
  lemma ExtendLowPtrU8IsWiden(buf: seq<byte>, index: nat)
    requires index + 16 <= |buf|
    ensures I32x4ExtendLowPtrU8(buf, index) == WidenU8x4(buf[index .. index + 4])
  {
    LanesDetermine(I32x4ExtendLowPtrU8(buf, index), WidenU8x4(buf[index .. index + 4]), 4);
  }

  /** Of the sixteen bytes `i32x4_extend_low_ptr_u8` loads, only the first four
      reach the result: it agrees with widening the four-byte load. */
  lemma ExtendLowPtrU8ReadsFour(buf: seq<byte>, index: nat)
    requires index + 16 <= |buf|
    ensures I32x4ExtendLowPtrU8(buf, index) == ExtendLowU16x8(ExtendLowU8x16(I32x4V128FromU8(buf, index)))
  {
    var w := I32x4V128FromU8(buf, index);
    V128FromU8Bytes(buf, index);
    LanesDetermine(I32x4ExtendLowPtrU8(buf, index), ExtendLowU16x8(ExtendLowU8x16(w)), 4);
  }

  /** `i32x4_extend_low_ptr_u8x4` widens the four channels of the pixel. */
  lemma ExtendLowPtrU8x4IsWiden(buf: seq<U8x4>, index: nat)
    requires index < |buf|
    ensures I32x4ExtendLowPtrU8x4(buf, index) == WidenU8x4(buf[index])
  {
    LanesDetermine(I32x4ExtendLowPtrU8x4(buf, index), WidenU8x4(buf[index]), 4);
  }

  /** `i32x4_extend_low_ptr_u8x3` widens the three channels of the pixel and a zero. */
  lemma ExtendLowPtrU8x3IsWiden(buf: seq<U8x3>, index: nat)
    requires index < |buf|
    ensures I32x4ExtendLowPtrU8x3(buf, index) == WidenU8x4(buf[index] + [0])
  {
    LanesDetermine(I32x4ExtendLowPtrU8x3(buf, index), WidenU8x4(buf[index] + [0]), 4);
  }

  /** The i16 values index..index + k - 1 repeated across the eight i16 lanes. */
  function RepeatI16(buf: seq<i16>, index: nat, k: nat): (v: V128)
    requires k == 2 || k == 4
    requires index + k <= |buf|
    ensures forall j :: 0 <= j < 8 ==> Lane(v, 2, j) == ToUnsigned(buf[index + j % k], 2)
  {
    Const(seq(8, j requires 0 <= j < 8 => buf[index + j % k]), 2)
  }

  /** Equal signed lanes are equal lanes. */
  lemma SameI16Lanes(u: V128, v: V128)
    requires forall j :: 0 <= j < 8 ==> SLane(u, 2, j) == SLane(v, 2, j)
    ensures u == v
  {
    forall j | 0 <= j < 8
      ensures Lane(u, 2, j) == Lane(v, 2, j)
    {
      assert SLane(u, 2, j) == SLane(v, 2, j);
      UnsignedOfSigned(Lane(u, 2, j), 2);
      UnsignedOfSigned(Lane(v, 2, j), 2);
    }
    LanesDetermine(u, v, 2);
  }

  /** `ptr_i16_to_set1_i64` is the four-value pattern repeated twice. */
  lemma Set1I64IsRepeat(buf: seq<i16>, index: nat)
    requires index + 4 <= |buf|
    ensures PtrI16ToSet1I64(buf, index) == RepeatI16(buf, index, 4)
  {
    var r := RepeatI16(buf, index, 4);
    forall j | 0 <= j < 8
      ensures SLane(r, 2, j) == buf[index + j % 4]
    {
      SignedOfUnsigned(buf[index + j % 4], 2);
    }
    SameI16Lanes(PtrI16ToSet1I64(buf, index), r);
  }

  /** `ptr_i16_to_set1_i32` is the two-value pattern repeated four times. */
  lemma Set1I32IsRepeat(buf: seq<i16>, index: nat)
    requires index + 2 <= |buf|
    ensures PtrI16ToSet1I32(buf, index) == RepeatI16(buf, index, 2)
  {
    var r := RepeatI16(buf, index, 2);
    forall j | 0 <= j < 8
      ensures SLane(r, 2, j) == buf[index + j % 2]
    {
      SignedOfUnsigned(buf[index + j % 2], 2);
    }
    SameI16Lanes(PtrI16ToSet1I32(buf, index), r);
  }

  /** Both i64 lanes of `ptr_i16_to_set1_i64` are equal. */
  lemma Set1I64LanesEqual(buf: seq<i16>, index: nat)
    requires index + 4 <= |buf|
    ensures Lane(PtrI16ToSet1I64(buf, index), 8, 0) == Lane(PtrI16ToSet1I64(buf, index), 8, 1)
  {
    UnsignedOfSigned(Lane(PtrI16ToSet1I64(buf, index), 8, 0), 8);
    UnsignedOfSigned(Lane(PtrI16ToSet1I64(buf, index), 8, 1), 8);
  }

  /** All four i32 lanes of `ptr_i16_to_set1_i32` are equal. */
  lemma Set1I32LanesEqual(buf: seq<i16>, index: nat)
    requires index + 2 <= |buf|
    ensures forall i :: 0 <= i < 4 ==> Lane(PtrI16ToSet1I32(buf, index), 4, i) == Lane(PtrI16ToSet1I32(buf, index), 4, 0)
  {
    forall i | 0 <= i < 4
      ensures Lane(PtrI16ToSet1I32(buf, index), 4, i) == Lane(PtrI16ToSet1I32(buf, index), 4, 0)
    {
      UnsignedOfSigned(Lane(PtrI16ToSet1I32(buf, index), 4, i), 4);
      UnsignedOfSigned(Lane(PtrI16ToSet1I32(buf, index), 4, 0), 4);
    }
  }

  /** x86 `_mm_mulhi_epu16`: the high 16 bits of each unsigned 16-bit product. */
  function MulhiEpu16(a: V128, b: V128): (v: V128)
    ensures forall i :: 0 <= i < 8 ==> Lane(v, 2, i) == Lane(a, 2, i) * Lane(b, 2, i) / 0x1_0000
  {
    var hs := seq(8, i requires 0 <= i < 8 => Lane(a, 2, i) * Lane(b, 2, i) / 0x1_0000);
    assert forall i :: 0 <= i < 8 ==> hs[i] < Pow256(2) by {
      forall i | 0 <= i < 8
        ensures hs[i] < Pow256(2)
      {
        ProductU16(Lane(a, 2, i), Lane(b, 2, i));
      }
    }
    FromLanes(hs, 2)
  }

  /** `u16x8_mul_hi` computes exactly `_mm_mulhi_epu16`. */
  lemma MulHiIsMulhiEpu16(a: V128, b: V128)
    ensures U16x8MulHi(a, b) == MulhiEpu16(a, b)
  {
    LanesDetermine(U16x8MulHi(a, b), MulhiEpu16(a, b), 2);
  }

  /** `u16x8_mul_hi` does not depend on the order of its operands. */
  lemma MulHiCommutes(a: V128, b: V128)
    ensures U16x8MulHi(a, b) == U16x8MulHi(b, a)
  {
    forall i | 0 <= i < 8
      ensures Lane(U16x8MulHi(a, b), 2, i) == Lane(U16x8MulHi(b, a), 2, i)
    {
      assert Lane(a, 2, i) * Lane(b, 2, i) == Lane(b, 2, i) * Lane(a, 2, i);
    }
    LanesDetermine(U16x8MulHi(a, b), U16x8MulHi(b, a), 2);
  }

  /** No lane of `u16x8_mul_hi` exceeds 65534, the high half of 65535 * 65535. */
  lemma MulHiBound(a: V128, b: V128)
    ensures forall i :: 0 <= i < 8 ==> Lane(U16x8MulHi(a, b), 2, i) <= 0xFFFE
  {
    forall i | 0 <= i < 8
      ensures Lane(U16x8MulHi(a, b), 2, i) <= 0xFFFE
    {
      ProductU16(Lane(a, 2, i), Lane(b, 2, i));
    }
  }

  /** x86 `_mm_mul_epi32`: the signed 64-bit products of i32 lanes 0 and 2. */
  function MulEpi32(a: V128, b: V128): (v: V128)
    ensures SLane(v, 8, 0) == SLane(a, 4, 0) * SLane(b, 4, 0)
    ensures SLane(v, 8, 1) == SLane(a, 4, 2) * SLane(b, 4, 2)
  {
    UnsignedOfSigned(Lane(a, 4, 0), 4);
    UnsignedOfSigned(Lane(b, 4, 0), 4);
    UnsignedOfSigned(Lane(a, 4, 2), 4);
    UnsignedOfSigned(Lane(b, 4, 2), 4);
    ProductI32(SLane(a, 4, 0), SLane(b, 4, 0));
    ProductI32(SLane(a, 4, 2), SLane(b, 4, 2));
    Const([SLane(a, 4, 0) * SLane(b, 4, 0), SLane(a, 4, 2) * SLane(b, 4, 2)], 8)
  }

  /** `i64x2_mul_lo` computes exactly `_mm_mul_epi32`. */
  lemma MulLoIsMulEpi32(a: V128, b: V128)
    ensures I64x2MulLo(a, b) == MulEpi32(a, b)
  {
    var u, v := I64x2MulLo(a, b), MulEpi32(a, b);
    forall i | 0 <= i < 2
      ensures Lane(u, 8, i) == Lane(v, 8, i)
    {
      UnsignedOfSigned(Lane(u, 8, i), 8);
      UnsignedOfSigned(Lane(v, 8, i), 8);
    }
    LanesDetermine(u, v, 8);
  }

  /** `i64x2_mul_lo` ignores i32 lanes 1 and 3 of both operands. */
  lemma MulLoIgnoresOddLanes(a: V128, a': V128, b: V128, b': V128)
    requires Lane(a, 4, 0) == Lane(a', 4, 0) && Lane(a, 4, 2) == Lane(a', 4, 2)
    requires Lane(b, 4, 0) == Lane(b', 4, 0) && Lane(b, 4, 2) == Lane(b', 4, 2)
    ensures I64x2MulLo(a, b) == I64x2MulLo(a', b')
  {
    MulLoIsMulEpi32(a, b);
    MulLoIsMulEpi32(a', b');
  }
}
