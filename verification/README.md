# WebAssembly SIMD128 helpers of the convolution back-end

This project models, in Dafny, `src/wasm32_utils.rs` of the image resizer. The file holds
the small helpers that its WebAssembly back-end uses to move pixel data and filter
coefficients into 128-bit vector registers (`v128`), plus two multiplications:

- `load_v128` loads sixteen bytes from a buffer.
- `loadl_i64`, `loadl_i32` and `loadl_i16` load eight, four or two bytes into the low
  lane and zero the rest of the register.
- `ptr_i16_to_set1_i64` and `ptr_i16_to_set1_i32` read four or two consecutive i16
  coefficients as one word and broadcast that word to every lane.
- `i32x4_extend_low_ptr_u8`, `i32x4_extend_low_ptr_u8x4` and `i32x4_extend_low_ptr_u8x3`
  widen four bytes, one four-channel pixel or one three-channel pixel into four i32 lanes.
- `i32x4_v128_from_u8` puts four bytes of a `&[u8]` into i32 lane 0.
- `u16x8_mul_hi` stands in for the x86 instruction `_mm_mulhi_epu16`: it keeps the high
  16 bits of each unsigned 16-bit lane product.
- `i64x2_mul_lo` stands in for `_mm_mul_epi32`: it gives the signed 64-bit products of
  i32 lanes 0 and 2.

The model has three modules.

- `LittleEndian` gives the byte image of integers: little-endian encoding and decoding,
  two's-complement readings, and wrap-around to n bytes.
- `Simd128` defines a `v128` as sixteen bytes, with unsigned (`Lane`) and signed (`SLane`)
  lane views. It also defines the vector instructions the helpers use, following section
  4.4.3 ("Vector Instructions") of the WebAssembly Core Specification 2.0. These are
  `v128.load`, `v128.const`, `splat`, `extend_low_u`, `extmul_low/high` (unsigned
  16-bit and signed 32-bit), `i8x16.shuffle` and `i8x16.swizzle`. Rust's
  `i16x8_shuffle` is modelled as the byte shuffle it lowers to.
- `Wasm32Utils` holds the helpers.

A Rust slice `&[T]` is modelled as the bytes it occupies together with `size_of::<T>()`.
An index counts elements, so the byte offset is `index * size`. Each helper is a pure
function. A `requires` states what the raw pointer reads leave to the caller: the bytes
read must lie inside the slice.

Each helper is paired with a reference definition and an all-inputs lemma that connects
the two:

- the loads with the slice elements they place in the lanes;
- the extend helpers with one common widening of four bytes;
- the set1 helpers with a repeated i16 pattern;
- the two multiplications with independent definitions of the x86 instructions they
  replace.

## Model

| member | source | states |
|---|---|---|
| Wasm32Utils.LoadV128 | src/wasm32_utils.rs:6-8 | the register is exactly the sixteen bytes from element `index` of the slice on |
| Wasm32Utils.LoadLane | src/wasm32_utils.rs:6-8 | for a slice of n-byte elements, n-byte lane k of the load is the little-endian value of element index + k |
| Wasm32Utils.LoadV128Words | src/wasm32_utils.rs:6-8 | on a `&[u8]`, `&[u16]`, `&[u32]` or `&[u64]`, the load puts elements index to index + 16/n - 1 into the lanes in order |
| Wasm32Utils.LoadV128Word | src/wasm32_utils.rs:6-8 | lane k of a load from an unsigned integer slice is element index + k |
| Wasm32Utils.ReadLow | src/wasm32_utils.rs:12-13 | reading n bytes as a signed integer and storing it in lane 0 of an otherwise-zero constant gives back the same n bytes, followed by zeros |
| Wasm32Utils.LoadlI64 | src/wasm32_utils.rs:11-14 | the register is the eight bytes from element `index` on, followed by eight zero bytes |
| Wasm32Utils.LoadlI64Lanes | src/wasm32_utils.rs:11-14 | on a slice of 64-bit integers, i64 lane 0 is element `index` and lane 1 is zero |
| Wasm32Utils.LoadlI32 | src/wasm32_utils.rs:17-20 | the register is the four bytes from element `index` on, followed by twelve zero bytes |
| Wasm32Utils.LoadlI32Lanes | src/wasm32_utils.rs:17-20 | on a slice of 32-bit integers, i32 lane 0 is element `index` and lanes 1-3 are zero |
| Wasm32Utils.LoadlI16 | src/wasm32_utils.rs:23-26 | the register is the two bytes from element `index` on, followed by fourteen zero bytes |
| Wasm32Utils.LoadlI16Lanes | src/wasm32_utils.rs:23-26 | on an `&[i16]`, signed i16 lane 0 is `buf[index]` and lanes 1-7 are zero |
| Wasm32Utils.I16Window | src/wasm32_utils.rs:29-36 | the i16 slot m of the bytes read from element `index` of an `&[i16]` holds the bit pattern of `buf[index + m]` |
| Wasm32Utils.I16Word | src/wasm32_utils.rs:29-36 | the i64 (or i32) read through the i16 pointer is a representable signed value whose bit pattern is the 8 (or 4) bytes from element `index` |
| Wasm32Utils.Set1Lane | src/wasm32_utils.rs:29-36 | i16 lane j of the splat of that word is `buf[index + j mod k]`, for k = 4 or 2 |
| Wasm32Utils.PtrI16ToSet1I64 | src/wasm32_utils.rs:29-31 | signed i16 lane j of the result is `buf[index + j mod 4]`, for every j < 8 |
| Wasm32Utils.Set1I64IsRepeat | src/wasm32_utils.rs:29-31 | the result equals the constant whose eight i16 lanes repeat `buf[index..index + 4]` twice |
| Wasm32Utils.PtrI16ToSet1I32 | src/wasm32_utils.rs:34-36 | signed i16 lane j of the result is `buf[index + j mod 2]`, for every j < 8 |
| Wasm32Utils.Set1I32IsRepeat | src/wasm32_utils.rs:34-36 | the result equals the constant whose eight i16 lanes repeat `buf[index..index + 2]` four times |
| Wasm32Utils.Set1I64LanesEqual | src/wasm32_utils.rs:29-31 | both i64 lanes of the result are equal, for every slice holding four values from `index` on |
| Wasm32Utils.Set1I32LanesEqual | src/wasm32_utils.rs:34-36 | all four i32 lanes of the result are equal, for every slice holding two values from `index` on |
| Wasm32Utils.RepeatI16 | src/wasm32_utils.rs:29-36 | reference register: i16 lane j holds the bit pattern of `buf[index + j mod k]` |
| Wasm32Utils.I32x4ExtendLowPtrU8 | src/wasm32_utils.rs:39-42 | i32 lane k is `buf[index + k]` zero-extended, for k < 4; sixteen bytes must be in bounds because a full `v128` is loaded |
| Wasm32Utils.ExtendLowPtrU8IsWiden | src/wasm32_utils.rs:39-42 | the result is the four bytes `buf[index..index + 4]` widened into the four i32 lanes |
| Wasm32Utils.ExtendLowPtrU8ReadsFour | src/wasm32_utils.rs:39-42 | only four of the sixteen loaded bytes reach the result: it equals the same widening applied to a four-byte load |
| Wasm32Utils.I32x4ExtendLowPtrU8x4 | src/wasm32_utils.rs:45-48 | i32 lane k is channel k of pixel `buf[index]` zero-extended |
| Wasm32Utils.ExtendLowPtrU8x4IsWiden | src/wasm32_utils.rs:45-48 | the result is the pixel's four channels widened into the four i32 lanes |
| Wasm32Utils.I32x4ExtendLowPtrU8x3 | src/wasm32_utils.rs:51-54 | i32 lanes 0-2 are the three channels of pixel `buf[index]`, and lane 3 is zero |
| Wasm32Utils.ExtendLowPtrU8x3IsWiden | src/wasm32_utils.rs:51-54 | the result is the pixel's three channels and a zero byte, widened into the four i32 lanes |
| Wasm32Utils.WidenU8x4 | src/wasm32_utils.rs:39-54 | reference register for the three extend helpers: i32 lane k is byte k as a non-negative value |
| Wasm32Utils.I32x4V128FromU8 | src/wasm32_utils.rs:57-60 | the register is `buf[index..index + 4]` followed by twelve zero bytes |
| Wasm32Utils.V128FromU8IsLoadlI32 | src/wasm32_utils.rs:57-60 | the result is `loadl_i32` on the same `&[u8]` and index |
| Wasm32Utils.V128FromU8Bytes | src/wasm32_utils.rs:57-60 | byte lane k is `buf[index + k]` for k < 4, and zero for the other twelve lanes |
| Wasm32Utils.U16x8MulHi | src/wasm32_utils.rs:63-67 | u16 lane i of the result is `a[i] * b[i] div 65536`, the high half of the unsigned 32-bit product |
| Wasm32Utils.MulHiLanes | src/wasm32_utils.rs:64-66 | shuffling the odd i16 lanes out of the low and high 32-bit products gives the high halves of all eight products, in order |
| Wasm32Utils.MulHiLane | src/wasm32_utils.rs:64-66 | shuffled lane i is the high half of the product of u16 lanes i of a and b, for each i < 8 |
| Wasm32Utils.UpperHalf | src/wasm32_utils.rs:66 | odd i16 lane 2k + 1 of a register is the high 16 bits of its i32 lane k |
| Wasm32Utils.MulhiEpu16 | src/wasm32_utils.rs:62-67 | reference definition of `_mm_mulhi_epu16`: u16 lane i is the high half of the product of lane i of a and b |
| Wasm32Utils.MulHiIsMulhiEpu16 | src/wasm32_utils.rs:63-67 | `u16x8_mul_hi(a, b)` equals `_mm_mulhi_epu16(a, b)` for every pair of registers |
| Wasm32Utils.MulHiCommutes | src/wasm32_utils.rs:63-67 | `u16x8_mul_hi(a, b) == u16x8_mul_hi(b, a)` |
| Wasm32Utils.MulHiBound | src/wasm32_utils.rs:63-67 | no lane of the result exceeds 65534, the high half of 65535 * 65535 |
| Wasm32Utils.MulLoMaskBytes | src/wasm32_utils.rs:71 | the mask constant stores its -1 entries as byte 255 |
| Wasm32Utils.MulLoSwizzle | src/wasm32_utils.rs:71-72 | swizzling by the mask gathers bytes 0-3 and 8-11 into the low half and zeroes the high half |
| Wasm32Utils.MulLoMaskLanes | src/wasm32_utils.rs:71-72 | after the swizzle, i32 lanes 0 and 1 are the operand's i32 lanes 0 and 2, and lanes 2 and 3 are zero |
| Wasm32Utils.I64x2MulLo | src/wasm32_utils.rs:70-73 | i64 lane 0 is the exact signed product of the i32 lanes 0 of a and b; i64 lane 1 is that of the i32 lanes 2 |
| Wasm32Utils.MulEpi32 | src/wasm32_utils.rs:69-73 | reference definition of `_mm_mul_epi32`: the signed 64-bit products of i32 lanes 0 and of i32 lanes 2 |
| Wasm32Utils.MulLoIsMulEpi32 | src/wasm32_utils.rs:70-73 | `i64x2_mul_lo(a, b)` equals `_mm_mul_epi32(a, b)` for every pair of registers |
| Wasm32Utils.MulLoIgnoresOddLanes | src/wasm32_utils.rs:70-73 | operands that agree on i32 lanes 0 and 2 give the same result, whatever lanes 1 and 3 hold |
| Simd128.Const | src/wasm32_utils.rs:53 | `i32x4(..)` and the other constructors: unsigned lane i is the two's-complement pattern of value i, and signed lane i is value i |
| Simd128.ConstLow | src/wasm32_utils.rs:13 | `i64x2(x, 0)`, `i32x4(x, 0, 0, 0)` and `i16x8(x, 0, ..)` put x's n-byte pattern in the low bytes and zero in the rest |
| Simd128.Splat | src/wasm32_utils.rs:30 | `i64x2_splat` and `i32x4_splat`: every signed lane is x |
| Simd128.SplatI16Slot | src/wasm32_utils.rs:30 | i16 lane j of a splat of an n-byte value is i16 slot j mod (n/2) of the value's bytes |
| Simd128.ExtendLowU8x16 | src/wasm32_utils.rs:41 | `i16x8_extend_low_u8x16`: u16 lane i is byte lane i, for i < 8 |
| Simd128.ExtendLowU16x8 | src/wasm32_utils.rs:47 | `u32x4_extend_low_u16x8`: u32 lane i is u16 lane i, for i < 4 |
| Simd128.ExtMulLowU16x8 | src/wasm32_utils.rs:64 | `u32x4_extmul_low_u16x8`: u32 lane i is the full product of u16 lanes i, for i < 4 |
| Simd128.ExtMulHighU16x8 | src/wasm32_utils.rs:65 | `u32x4_extmul_high_u16x8`: u32 lane i is the full product of u16 lanes i + 4 |
| Simd128.Shuffle16 | src/wasm32_utils.rs:66 | `i16x8_shuffle`: lane k is 16-bit lane `s[k]` of a followed by b |
| Simd128.ExtMulLowI32x4S | src/wasm32_utils.rs:72 | `i64x2_extmul_low_i32x4`: signed i64 lane i is the exact product of the signed i32 lanes i, for i < 2 |
| Simd128.ProductsI32Exact | src/wasm32_utils.rs:72 | the 64-bit wrap of a product of two i32 values never changes its signed value |
| Simd128.ProductsU16Exact | src/wasm32_utils.rs:64-65 | the 32-bit wrap of a product of two u16 values never changes it |

## Left out

- `benches/bench_resize.rs`, the benchmark harness that drives the resizer, is not part of this model. It only times the resizer.
- The resizer types and entry points (`Resizer`, `ResizeAlg`, `FilterType`, `set_cpu_extensions`) and the convolution loops that call these helpers are not part of this model.
- `src/pixels.rs` is not part of this model. `U8x4` and `U8x3` are modelled as their four or three channel bytes, channel 0 first.
- Rust's memory model is not modelled: `get_unchecked`, unaligned raw-pointer reads and `transmute`. A read is a slice of the slice's bytes, and the `requires` clauses demand the in-bounds condition that the unchecked reads leave to the caller. Alignment is not modelled. Only `v128_load` (lines 7 and 40-41) accepts any address. The dereferences through `*const i64`, `*const i32` and `*const i16` (lines 12-13, 18-19, 24-25, 30, 35 and 58-59) require the address to be aligned to the pointee in Rust, and a misaligned call is undefined behaviour: for example, `loadl_i64` on a `&[u8]` at index 1, or `ptr_i16_to_set1_i64` on an `&[i16]`, which is only 2-aligned. The model reads those bytes as an unaligned little-endian load, as WebAssembly's `i64.load` would, so its results for misaligned calls describe behaviour the source does not define.
- The WebAssembly instructions are defined from section 4.4.3 of the WebAssembly Core Specification 2.0 and taken as given. The code generation of the Rust compiler and the wasm runtime are not modelled.
- Performance and the `#[inline(always)]` hints are not modelled.
