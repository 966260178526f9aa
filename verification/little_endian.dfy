/** Little-endian byte images of unsigned and two's-complement integers: the memory
    representation every WebAssembly lane view and every unaligned pointer read rests on. */
module LittleEndian {

  type byte = x: int | 0 <= x < 256

  /** 256^n: the number of distinct values of an n-byte word. */
  function Pow256(n: nat): (p: nat)
    ensures p >= 1
  {
    if n == 0 then 1 else 256 * Pow256(n - 1)
  }

  /** The unsigned value of a little-endian byte string (least significant byte first). */
  function LE(bs: seq<byte>): nat
  {
    if |bs| == 0 then 0 else bs[0] + 256 * LE(bs[1..])
  }

  /** The n-byte little-endian encoding of x, truncated to its low n bytes. */
  function ToLE(x: nat, n: nat): (bs: seq<byte>)
    ensures |bs| == n
  {
    if n == 0 then [] else [x % 256] + ToLE(x / 256, n - 1)
  }

  /** The n-byte words `ws` laid end to end in little-endian order, as in a Rust
      `&[T]` of an n-byte integer type or the lanes of a vector register. */
  function Pack(ws: seq<nat>, n: nat): (bs: seq<byte>)
    ensures |bs| == |ws| * n
  {
    if |ws| == 0 then [] else ToLE(ws[0], n) + Pack(ws[1..], n)
  }

  /** Word i of a byte string read as consecutive n-byte little-endian words. */
  function Unpack(bs: seq<byte>, n: nat, i: nat): nat
    requires i * n + n <= |bs|
  {
    LE(bs[i * n .. i * n + n])
  }

  /** Two's-complement reading of an n-byte unsigned bit pattern. */
  function ToSigned(u: nat, n: nat): int
  {
    if 2 * u >= Pow256(n) then u - Pow256(n) else u
  }

  /** x is representable as a signed n-byte integer. */
  predicate InSignedRange(x: int, n: nat)
  {
    0 <= Pow256(n) + 2 * x < 2 * Pow256(n)
  }

  /** The n-byte two's-complement bit pattern of a representable signed value. */
  function ToUnsigned(x: int, n: nat): (u: nat)
    requires InSignedRange(x, n)
    ensures u < Pow256(n)
  {
    if x < 0 then x + Pow256(n) else x
  }

  /** Wrap-around to n bytes: the low n bytes of x as an unsigned value. */
  function Wrap(x: int, n: nat): (u: nat)
    ensures u < Pow256(n)
  {
    x % Pow256(n)
  }

  type i16 = x: int | -0x8000 <= x < 0x8000

  /** k zero bytes. */
  function Zeros(k: nat): (zs: seq<byte>)
    ensures |zs| == k
  {
    seq(k, _ => 0)
  }

  // ---------------------------------------------------------------------------
  // Lemmas
  // ---------------------------------------------------------------------------

  /** An n-byte string never encodes a value of 256^n or more. */
  lemma {:induction false} LEBound(bs: seq<byte>)
    ensures LE(bs) < Pow256(|bs|)
  {
    if |bs| > 0 {
      LEBound(bs[1..]);
    }
  }

  /** Decoding an encoding gives the value back, when it fits. */
  lemma {:induction false} LEToLE(x: nat, n: nat)
    requires x < Pow256(n)
    ensures LE(ToLE(x, n)) == x
  {
    if n > 0 {
      assert x / 256 < Pow256(n - 1);
      LEToLE(x / 256, n - 1);
      assert ToLE(x, n)[1..] == ToLE(x / 256, n - 1);
    }
  }

  /** Encoding a decoded byte string gives the same bytes back. */
  lemma {:induction false} ToLELE(bs: seq<byte>)
    ensures ToLE(LE(bs), |bs|) == bs
  {
    if |bs| > 0 {
      var x := LE(bs);
      assert x % 256 == bs[0] && x / 256 == LE(bs[1..]);
      ToLELE(bs[1..]);
    }
  }

  /** A slice of a slice is a slice of the whole. */
  lemma SubSlice(a: seq<byte>, s: nat, len: nat, off: nat, m: nat)
    requires s + len <= |a| && off + m <= len
    ensures a[s .. s + len][off .. off + m] == a[s + off .. s + off + m]
  {
    var x := a[s .. s + len][off .. off + m];
    assert forall t :: 0 <= t < m ==> x[t] == a[s + off + t];
  }

  /** The value of a concatenation: the second part sits above the first. */
  lemma {:induction false} LEAppend(a: seq<byte>, b: seq<byte>)
    ensures LE(a + b) == LE(a) + Pow256(|a|) * LE(b)
  {
    if |a| > 0 {
      assert (a + b)[1..] == a[1..] + b;
      LEAppend(a[1..], b);
      ShiftByte(a[0], LE(a[1..]), Pow256(|a| - 1), LE(b));
    } else {
      assert a + b == b;
    }
  }

  /** One more low byte: the arithmetic step of LEAppend. */
  lemma ShiftByte(c: int, l: int, p: int, m: int)
    ensures c + 256 * (l + p * m) == (c + 256 * l) + (256 * p) * m
  {
  }

  /** A string of zero bytes has value zero. */
  lemma {:induction false} LEZeros(k: nat)
    ensures LE(Zeros(k)) == 0
  {
    if k > 0 {
      assert Zeros(k)[1..] == Zeros(k - 1);
      LEZeros(k - 1);
    }
  }

  /** Multiplication by a natural number is monotone. */
  lemma {:induction false} MulLe(a: nat, b: nat, n: nat)
    requires a <= b
    ensures a * n <= b * n
  {
    if a < b {
      MulLe(a, b - 1, n);
      assert b * n == (b - 1) * n + n;
    }
  }

  /** Slot i of k slots of n bytes ends within the k * n bytes. */
  lemma MulSlot(i: nat, k: nat, n: nat)
    requires i < k
    ensures i * n + n <= k * n
  {
    MulLe(i + 1, k, n);
    assert (i + 1) * n == i * n + n;
  }

  /** Slot i of a packed string holds exactly the encoding of word i. */
  lemma {:induction false} PackSlot(ws: seq<nat>, n: nat, i: nat)
    requires i < |ws|
    ensures i * n + n <= |ws| * n
    ensures Pack(ws, n)[i * n .. i * n + n] == ToLE(ws[i], n)
  {
    MulSlot(i, |ws|, n);
    if i > 0 {
      var j := (i - 1) * n;
      PackSlot(ws[1..], n, i - 1);
      Distrib(i - 1, 1, n);
      AppendSlice(ToLE(ws[0], n), Pack(ws[1..], n), j, n);
    }
  }

  /** A slice of the second part of a concatenation. */
  lemma AppendSlice(h: seq<byte>, t: seq<byte>, j: nat, m: nat)
    requires j + m <= |t|
    ensures (h + t)[|h| + j .. |h| + j + m] == t[j .. j + m]
  {
    var x := (h + t)[|h| + j .. |h| + j + m];
    assert forall u :: 0 <= u < m ==> x[u] == t[j + u];
  }

  /** Multiplication distributes over addition. */
  lemma Distrib(a: nat, b: nat, n: nat)
    ensures (a + b) * n == a * n + b * n
  {
  }

  /** Reading back the bit pattern of a representable value gives the value. */
  lemma SignedOfUnsigned(x: int, n: nat)
    requires InSignedRange(x, n)
    ensures ToSigned(ToUnsigned(x, n), n) == x
  {
  }

  /** Storing the signed reading of a bit pattern gives the pattern back. */
  lemma UnsignedOfSigned(u: nat, n: nat)
    requires u < Pow256(n)
    ensures InSignedRange(ToSigned(u, n), n)
    ensures ToUnsigned(ToSigned(u, n), n) == u
  {
  }
}
