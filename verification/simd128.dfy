/** The 128-bit vector type of WebAssembly and the vector instructions that the
    wasm32 helper layer composes, following section 4.4.3 (Vector Instructions) of
    the WebAssembly Core Specification 2.0. A register is its sixteen bytes; every
    lane view reads them little-endian, as the specification's `lanes` function does. */
module Simd128 {
  import opened LittleEndian

  type V128 = v: seq<byte> | |v| == 16
    witness [0, 0, 0, 0, 0, 0, 0, 0, 0, 0, 0, 0, 0, 0, 0, 0]

  /** Lane widths in bytes: i8x16, i16x8, i32x4 and i64x2. */
  predicate LaneWidth(n: nat)
  {
    n == 1 || n == 2 || n == 4 || n == 8
  }

  /** The number of lanes of n bytes. */
  function Lanes(n: nat): (k: nat)
    requires LaneWidth(n)
    ensures k * n == 16
  {
    match n
    case 1 => 16
    case 2 => 8
    case 4 => 4
    case 8 => 2
  }

  /** Lane i of v, read as n-byte lanes, as an unsigned value. */
  function Lane(v: V128, n: nat, i: nat): (x: nat)
    requires LaneWidth(n) && i < Lanes(n)
    ensures x < Pow256(n)
  {
    LaneSlot(n, i);
    LEBound(v[i * n .. i * n + n]);
    Unpack(v, n, i)
  }

  /** Lane i of n bytes lies within the register. */
  lemma LaneSlot(n: nat, i: nat)
    requires LaneWidth(n) && i < Lanes(n)
    ensures i * n + n <= 16
  {
    MulSlot(i, Lanes(n), n);
  }

  /** Lane i of v, read as n-byte lanes, as a two's-complement value. */
  function SLane(v: V128, n: nat, i: nat): int
    requires LaneWidth(n) && i < Lanes(n)
  {
    ToSigned(Lane(v, n, i), n)
  }

  /** The register whose n-byte lanes hold the given bit patterns, lane 0 first. */
  function FromLanes(ls: seq<nat>, n: nat): (v: V128)
    requires LaneWidth(n) && |ls| == Lanes(n)
    requires forall i :: 0 <= i < |ls| ==> ls[i] < Pow256(n)
    ensures forall i :: 0 <= i < |ls| ==> Lane(v, n, i) == ls[i]
  {
    PackAll(ls, n);
    Pack(ls, n)
  }

  /** Every lane of a packed register holds its word. */
  lemma PackAll(ls: seq<nat>, n: nat)
    requires LaneWidth(n) && |ls| == Lanes(n)
    requires forall i :: 0 <= i < |ls| ==> ls[i] < Pow256(n)
    ensures |Pack(ls, n)| == 16
    ensures forall i :: 0 <= i < |ls| ==> Lane(Pack(ls, n), n, i) == ls[i]
  {
    forall i | 0 <= i < |ls|
      ensures Lane(Pack(ls, n), n, i) == ls[i]
    {
      PackSlot(ls, n, i);
      LEToLE(ls[i], n);
    }
  }

  /** Lane i of the register built from ls holds the n-byte encoding of ls[i]. */
  lemma FromLanesSlot(ls: seq<nat>, n: nat, i: nat)
    requires LaneWidth(n) && |ls| == Lanes(n) && i < |ls|
    requires forall i :: 0 <= i < |ls| ==> ls[i] < Pow256(n)
    ensures i * n + n <= 16
    ensures FromLanes(ls, n)[i * n .. i * n + n] == ToLE(ls[i], n)
  {
    PackSlot(ls, n, i);
  }

  /** `v128.const` as Rust's `i8x16(..)`, `i16x8(..)`, `i32x4(..)` and `i64x2(..)`
      build it: one signed value per n-byte lane, stored in two's complement. */
  function Const(xs: seq<int>, n: nat): (v: V128)
    requires LaneWidth(n) && |xs| == Lanes(n)
    requires forall i :: 0 <= i < |xs| ==> InSignedRange(xs[i], n)
    ensures forall i :: 0 <= i < |xs| ==> Lane(v, n, i) == ToUnsigned(xs[i], n)
    ensures forall i :: 0 <= i < |xs| ==> SLane(v, n, i) == xs[i]
  {
    var ls := seq(|xs|, i requires 0 <= i < |xs| => ToUnsigned(xs[i], n));
    AllSignedOfUnsigned(xs, n);
    FromLanes(ls, n)
  }

  /** The constructor call `i16x8(x, 0, ..)`, `i32x4(x, 0, 0, 0)` or `i64x2(x, 0)`:
      x in lane 0 and zero in every other lane, which leaves x's bit pattern in the
      low n bytes and zero in the rest. */
  function ConstLow(x: int, n: nat): (v: V128)
    requires LaneWidth(n) && InSignedRange(x, n)
    ensures v == ToLE(ToUnsigned(x, n), n) + Zeros(16 - n)
  {
    var v := Const([x] + seq(Lanes(n) - 1, _ => 0), n);
    ConstLowBytes(x, n);
    v
  }

  /** The bytes of the constant built by ConstLow. */
  lemma ConstLowBytes(x: int, n: nat)
    requires LaneWidth(n) && InSignedRange(x, n)
    ensures Const([x] + seq(Lanes(n) - 1, _ => 0), n) == ToLE(ToUnsigned(x, n), n) + Zeros(16 - n)
  {
    var xs := [x] + seq(Lanes(n) - 1, _ => 0);
    var v := Const(xs, n);
    var u := ToUnsigned(x, n);
    var h := ToLE(u, n);
    assert LE(h) == u by {
      LEToLE(u, n);
    }
    forall i | 0 <= i < Lanes(n)
      ensures Lane(v, n, i) == if i == 0 then LE(h) else 0
    {
      assert xs[i] == if i == 0 then x else 0;
    }
    LowPlacedDetermine(v, h, n);
  }

  /** A register whose lane 0 holds the value of h and whose other lanes are zero
      is h followed by zeros. */
  lemma LowPlacedDetermine(v: V128, h: seq<byte>, n: nat)
    requires LaneWidth(n) && |h| == n
    requires forall i :: 0 <= i < Lanes(n) ==> Lane(v, n, i) == if i == 0 then LE(h) else 0
    ensures v == h + Zeros(16 - n)
  {
    var w: V128 := h + Zeros(16 - n);
    forall i | 0 <= i < Lanes(n)
      ensures Lane(v, n, i) == Lane(w, n, i)
    {
      LowPlacedLane(h, n, i);
    }
    LanesDetermine(v, w, n);
  }

  /** Lane i of an n-byte string followed by zeros: the string's value in lane 0,
      zero in every other lane. */
  lemma LowPlacedLane(h: seq<byte>, n: nat, i: nat)
    requires LaneWidth(n) && |h| == n && i < Lanes(n)
    ensures i * n + n <= 16
    ensures Lane(h + Zeros(16 - n), n, i) == if i == 0 then LE(h) else 0
  {
    if i == 0 {
      assert (h + Zeros(16 - n))[0 .. n] == h;
    } else {
      HighLaneZero(h, n, i);
    }
  }

  /** Every lane above lane 0 of an n-byte string followed by zeros is zero. */
  lemma HighLaneZero(h: seq<byte>, n: nat, i: nat)
    requires LaneWidth(n) && |h| == n && 0 < i < Lanes(n)
    ensures Lane(h + Zeros(16 - n), n, i) == 0
  {
    var w: V128 := h + Zeros(16 - n);
    LaneSlot(n, i);
    assert n <= i * n by {
      MulLe(1, i, n);
    }
    var x := w[i * n .. i * n + n];
    forall t | 0 <= t < n
      ensures x[t] == Zeros(n)[t]
    {
      assert x[t] == w[i * n + t];
    }
    assert x == Zeros(n);
    LEZeros(n);
  }

  /** Every lane of a constant list satisfies the signed round trip. */
  lemma AllSignedOfUnsigned(xs: seq<int>, n: nat)
    requires forall i :: 0 <= i < |xs| ==> InSignedRange(xs[i], n)
    ensures forall i :: 0 <= i < |xs| ==> ToSigned(ToUnsigned(xs[i], n), n) == xs[i]
  {
    forall i | 0 <= i < |xs| {
      SignedOfUnsigned(xs[i], n);
    }
  }

  /** `i32x4.splat` and `i64x2.splat`: the signed value x in every n-byte lane. */
  function Splat(x: int, n: nat): (v: V128)
    requires LaneWidth(n) && InSignedRange(x, n)
    ensures forall i :: 0 <= i < Lanes(n) ==> SLane(v, n, i) == x
  {
    SignedOfUnsigned(x, n);
    FromLanes(seq(Lanes(n), _ => ToUnsigned(x, n)), n)
  }

  /** Every lane of a splat holds the bit pattern of x, byte for byte. */
  lemma SplatSlot(x: int, n: nat, i: nat)
    requires LaneWidth(n) && InSignedRange(x, n) && i < Lanes(n)
    ensures i * n + n <= 16
    ensures Splat(x, n)[i * n .. i * n + n] == ToLE(ToUnsigned(x, n), n)
  {
    var ls := seq(Lanes(n), _ => ToUnsigned(x, n));
    FromLanesSlot(ls, n, i);
  }

  /** i16 lane j of a splat of an n-byte value is the i16 slot j mod (n / 2) of
      the value's bit pattern. */
  lemma SplatI16Slot(x: int, n: nat, j: nat)
    requires (n == 4 || n == 8) && InSignedRange(x, n) && j < 8
    ensures 2 * (j % (n / 2)) + 2 <= n
    ensures Splat(x, n)[2 * j .. 2 * j + 2]
      == ToLE(ToUnsigned(x, n), n)[2 * (j % (n / 2)) .. 2 * (j % (n / 2)) + 2]
  {
    var k := n / 2;
    var q, r := j / k, j % k;
    assert q * n + 2 * r == 2 * j && q < Lanes(n) by {
      LaneInWord(j, k);
    }
    SplatSlot(x, n, q);
    SubSlice(Splat(x, n), q * n, n, 2 * r, 2);
  }

  /** i16 lane j sits at i16 offset j mod k of the 2k-byte lane j / k. */
  lemma LaneInWord(j: nat, k: nat)
    requires k == 2 || k == 4
    ensures j / k * (2 * k) + 2 * (j % k) == 2 * j
    ensures j < 8 ==> j / k < Lanes(2 * k)
  {
  }

  /** An i8x16 lane is the byte itself. */
  lemma ByteLane(v: V128, k: nat)
    requires k < 16
    ensures Lane(v, 1, k) == v[k]
  {
    assert v[k .. k + 1] == [v[k]];
  }

  /** `v128.load`: the sixteen bytes of memory from address addr on. */
  function Load(mem: seq<byte>, addr: nat): V128
    requires addr + 16 <= |mem|
  {
    mem[addr .. addr + 16]
  }

  /** `i16x8.extend_low_i8x16_u`: the low eight byte lanes, zero-extended to 16 bits. */
  function ExtendLowU8x16(a: V128): (v: V128)
    ensures forall i :: 0 <= i < 8 ==> Lane(v, 2, i) == Lane(a, 1, i)
  {
    FromLanes(seq(8, i requires 0 <= i < 8 => Lane(a, 1, i)), 2)
  }

  /** `i32x4.extend_low_i16x8_u`: the low four 16-bit lanes, zero-extended to 32 bits. */
  function ExtendLowU16x8(a: V128): (v: V128)
    ensures forall i :: 0 <= i < 4 ==> Lane(v, 4, i) == Lane(a, 2, i)
  {
    FromLanes(seq(4, i requires 0 <= i < 4 => Lane(a, 2, i)), 4)
  }

  /** The product of two u16 values always fits in 32 bits. */
  lemma ProductU16(x: nat, y: nat)
    requires x < 0x1_0000 && y < 0x1_0000
    ensures x * y <= 0xFFFF * 0xFFFF
  {
    MulLe(x, 0xFFFF, y);
    MulLe(y, 0xFFFF, 0xFFFF);
  }

  /** The products of 16-bit lanes k..k+3 of a and b, wrapped to 32 bits as the
      specification's `imul` does. */
  function ProductsU16(a: V128, b: V128, k: nat): (ps: seq<nat>)
    requires k == 0 || k == 4
    ensures |ps| == 4 && forall i :: 0 <= i < 4 ==> ps[i] < Pow256(4)
  {
    [ProductU16At(a, b, k), ProductU16At(a, b, k + 1), ProductU16At(a, b, k + 2), ProductU16At(a, b, k + 3)]
  }

  /** The product of 16-bit lane j of a and b, wrapped to 32 bits. */
  function ProductU16At(a: V128, b: V128, j: nat): (p: nat)
    requires j < 8
    ensures p < Pow256(4)
  {
    Wrap(Lane(a, 2, j) * Lane(b, 2, j), 4)
  }

  /** The 32-bit wrap of a product of two u16 values never takes effect. */
  lemma ProductsU16Exact(a: V128, b: V128, k: nat)
    requires k == 0 || k == 4
    ensures forall i :: 0 <= i < 4 ==> ProductsU16(a, b, k)[i] == Lane(a, 2, k + i) * Lane(b, 2, k + i)
  {
    forall i | 0 <= i < 4
      ensures ProductsU16(a, b, k)[i] == Lane(a, 2, k + i) * Lane(b, 2, k + i)
    {
      assert ProductsU16(a, b, k)[i] == ProductU16At(a, b, k + i);
      ProductU16AtExact(a, b, k + i);
    }
  }

  /** The wrap of one product never takes effect. */
  lemma ProductU16AtExact(a: V128, b: V128, j: nat)
    requires j < 8
    ensures ProductU16At(a, b, j) == Lane(a, 2, j) * Lane(b, 2, j)
  {
    var x, y := Lane(a, 2, j), Lane(b, 2, j);
    ProductU16(x, y);
    WrapSmall(x * y);
  }

  /** Wrapping a value that already fits in 32 bits leaves it unchanged. */
  lemma WrapSmall(x: nat)
    requires x < 0x1_0000_0000
    ensures Wrap(x, 4) == x
  {
  }

  /** `i32x4.extmul_low_i16x8_u`: the full products of the low four u16 lanes. */
  function ExtMulLowU16x8(a: V128, b: V128): (v: V128)
    ensures forall i :: 0 <= i < 4 ==> Lane(v, 4, i) == Lane(a, 2, i) * Lane(b, 2, i)
  {
    ProductsU16Exact(a, b, 0);
    FromLanes(ProductsU16(a, b, 0), 4)
  }

  /** `i32x4.extmul_high_i16x8_u`: the full products of the high four u16 lanes. */
  function ExtMulHighU16x8(a: V128, b: V128): (v: V128)
    ensures forall i :: 0 <= i < 4 ==> Lane(v, 4, i) == Lane(a, 2, i + 4) * Lane(b, 2, i + 4)
  {
    ProductsU16Exact(a, b, 4);
    FromLanes(ProductsU16(a, b, 4), 4)
  }

  /** The product of two i32 values always fits in 64 signed bits. */
  lemma ProductI32(x: int, y: int)
    requires InSignedRange(x, 4) && InSignedRange(y, 4)
    ensures InSignedRange(x * y, 8)
  {
    var m := 0x8000_0000;
    var ax: nat := if x < 0 then -x else x;
    var ay: nat := if y < 0 then -y else y;
    assert ax <= m && ay <= m;
    assert ax * ay <= m * m by {
      MulLe(ax, m, ay);
      MulLe(ay, m, m);
    }
    assert x * y == ax * ay || x * y == -(ax * ay) by {
      SignedProduct(x, y);
    }
  }

  /** The magnitude of a product is the product of the magnitudes. */
  lemma SignedProduct(x: int, y: int)
    ensures x * y == (if x < 0 then -x else x) * (if y < 0 then -y else y)
      || x * y == -((if x < 0 then -x else x) * (if y < 0 then -y else y))
  {
    if x < 0 && y >= 0 {
      assert x * y == -((-x) * y);
    } else if x >= 0 && y < 0 {
      assert x * y == -(x * (-y));
    } else if x < 0 && y < 0 {
      assert x * y == (-x) * (-y);
    }
  }

  /** Wrapping a representable signed value to 64 bits stores its two's complement. */
  lemma WrapSigned(x: int)
    requires InSignedRange(x, 8)
    ensures Wrap(x, 8) == ToUnsigned(x, 8)
  {
  }

  /** The signed products of the low two i32 lanes of a and b, wrapped to 64 bits as
      the specification's `imul` does. */
  function ProductsI32(a: V128, b: V128): (ps: seq<nat>)
    ensures |ps| == 2 && forall i :: 0 <= i < 2 ==> ps[i] < Pow256(8)
  {
    seq(2, i requires 0 <= i < 2 => Wrap(SLane(a, 4, i) * SLane(b, 4, i), 8))
  }

  /** The 64-bit wrap of a product of two i32 values never takes effect. */
  lemma ProductsI32Exact(a: V128, b: V128)
    ensures forall i :: 0 <= i < 2 ==> ToSigned(ProductsI32(a, b)[i], 8) == SLane(a, 4, i) * SLane(b, 4, i)
  {
    forall i | 0 <= i < 2
      ensures ToSigned(ProductsI32(a, b)[i], 8) == SLane(a, 4, i) * SLane(b, 4, i)
    {
      var x, y := SLane(a, 4, i), SLane(b, 4, i);
      UnsignedOfSigned(Lane(a, 4, i), 4);
      UnsignedOfSigned(Lane(b, 4, i), 4);
      ProductI32(x, y);
      WrapSigned(x * y);
      SignedOfUnsigned(x * y, 8);
    }
  }

  /** `i64x2.extmul_low_i32x4_s`: the full signed products of the low two i32 lanes. */
  function ExtMulLowI32x4S(a: V128, b: V128): (v: V128)
    ensures forall i :: 0 <= i < 2 ==> SLane(v, 8, i) == SLane(a, 4, i) * SLane(b, 4, i)
  {
    ProductsI32Exact(a, b);
    FromLanes(ProductsI32(a, b), 8)
  }

  /** `i8x16.shuffle`: byte j of the result is byte s[j] of the 32 bytes of a followed by b. */
  function Shuffle(a: V128, b: V128, s: seq<nat>): V128
    requires |s| == 16 && forall j :: 0 <= j < 16 ==> s[j] < 32
  {
    seq(16, j requires 0 <= j < 16 => (a + b)[s[j]])
  }

  /** `i8x16.swizzle`: byte j of the result is byte s[j] of a, or zero when that index
      is 16 or more (including every index whose byte is negative as an i8). */
  function Swizzle(a: V128, s: V128): V128
  {
    seq(16, j requires 0 <= j < 16 => if s[j] < 16 then a[s[j]] else 0)
  }

  /** Rust's `i16x8_shuffle::<I0, .., I7>`, which lowers to `i8x16.shuffle` with byte
      indices 2*Ik and 2*Ik + 1: lane k of the result is 16-bit lane Ik of a followed by b. */
  function Shuffle16(a: V128, b: V128, s: seq<nat>): (v: V128)
    requires |s| == 8 && forall k :: 0 <= k < 8 ==> s[k] < 16
    ensures forall k :: 0 <= k < 8 ==>
      Lane(v, 2, k) == if s[k] < 8 then Lane(a, 2, s[k]) else Lane(b, 2, s[k] - 8)
  {
    var bytes := seq(16, j requires 0 <= j < 16 => 2 * s[j / 2] + j % 2);
    var v := Shuffle(a, b, bytes);
    Shuffle16Slots(a, b, s, bytes);
    v
  }

  /** Each 16-bit slot of the expanded byte shuffle copies one whole 16-bit lane. */
  lemma Shuffle16Slots(a: V128, b: V128, s: seq<nat>, bytes: seq<nat>)
    requires |s| == 8 && forall k :: 0 <= k < 8 ==> s[k] < 16
    requires bytes == seq(16, j requires 0 <= j < 16 => 2 * s[j / 2] + j % 2)
    ensures forall k :: 0 <= k < 8 ==>
      Lane(Shuffle(a, b, bytes), 2, k) == if s[k] < 8 then Lane(a, 2, s[k]) else Lane(b, 2, s[k] - 8)
  {
    forall k | 0 <= k < 8
      ensures Lane(Shuffle(a, b, bytes), 2, k) == if s[k] < 8 then Lane(a, 2, s[k]) else Lane(b, 2, s[k] - 8)
    {
      Shuffle16Slot(a, b, s, bytes, k);
    }
  }

  /** Slot k of the expanded byte shuffle copies 16-bit lane s[k] of a followed by b. */
  lemma Shuffle16Slot(a: V128, b: V128, s: seq<nat>, bytes: seq<nat>, k: nat)
    requires |s| == 8 && forall k :: 0 <= k < 8 ==> s[k] < 16
    requires bytes == seq(16, j requires 0 <= j < 16 => 2 * s[j / 2] + j % 2)
    requires k < 8
    ensures Lane(Shuffle(a, b, bytes), 2, k) == if s[k] < 8 then Lane(a, 2, s[k]) else Lane(b, 2, s[k] - 8)
  {
    var v := Shuffle(a, b, bytes);
    assert bytes[2 * k] == 2 * s[k] && bytes[2 * k + 1] == 2 * s[k] + 1;
    ShortLane(v, k);
    if s[k] < 8 {
      ShortLane(a, s[k]);
    } else {
      ShortLane(b, s[k] - 8);
    }
  }

  /** An i16 lane is its low byte plus 256 times its high byte. */
  lemma ShortLane(v: V128, k: nat)
    requires k < 8
    ensures Lane(v, 2, k) == v[2 * k] as int + 256 * v[2 * k + 1] as int
  {
    var w := v[2 * k .. 2 * k + 2];
    assert w[1..] == [v[2 * k + 1]];
    assert LE(w[1..]) == v[2 * k + 1] + 256 * LE(w[1..][1..]);
  }

  // ---------------------------------------------------------------------------
  // Lane views
  // ---------------------------------------------------------------------------

  /** A register is determined by its lanes of any one width. */
  lemma LanesDetermine(u: V128, v: V128, n: nat)
    requires LaneWidth(n)
    requires forall i :: 0 <= i < Lanes(n) ==> Lane(u, n, i) == Lane(v, n, i)
    ensures u == v
  {
    forall t | 0 <= t < 16
      ensures u[t] == v[t]
    {
      var i, o := t / n, t % n;
      LaneDiv(n, t);
      ByteOfLane(u, n, i, o);
      ByteOfLane(v, n, i, o);
    }
  }

  /** Byte o of n-byte lane i of a register is byte o of the lane's encoding. */
  lemma ByteOfLane(v: V128, n: nat, i: nat, o: nat)
    requires LaneWidth(n) && i < Lanes(n) && o < n
    ensures i * n + o < 16
    ensures v[i * n + o] == ToLE(Lane(v, n, i), n)[o]
  {
    LaneSlot(n, i);
    ToLELE(v[i * n .. i * n + n]);
  }

  /** Division of a byte position by a lane width. */
  lemma LaneDiv(n: nat, t: nat)
    requires LaneWidth(n) && t < 16
    ensures t / n < Lanes(n) && t % n < n && (t / n) * n + t % n == t
  {
    match n
    case 1 =>
    case 2 =>
    case 4 =>
    case 8 =>
  }

  /** An i32 lane is its low i16 half plus 65536 times its high i16 half. */
  lemma LaneHalves(v: V128, i: nat)
    requires i < 4
    ensures Lane(v, 4, i) == Lane(v, 2, 2 * i) + 0x1_0000 * Lane(v, 2, 2 * i + 1)
  {
    var lo := v[4 * i .. 4 * i + 2];
    var hi := v[4 * i + 2 .. 4 * i + 4];
    assert v[4 * i .. 4 * i + 4] == lo + hi;
    LEAppend(lo, hi);
  }
}
