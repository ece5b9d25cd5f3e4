/**
 * YUV_420_888 to RGBA conversion (YuvUtils.kt): the NV21 array is assembled
 * from the three plane buffers, then every pixel is converted with the
 * BT.601 limited-range formula into four RGBA bytes.
 *
 * An index past the end of a buffer throws in the source; here every such
 * case yields None, which the camera callback treats as "drop this frame".
 */
module YuvUtils {
  import opened Bytes
  import opened Arith

  // ---------------------------------------------------------------------
  // NV21 assembly
  // ---------------------------------------------------------------------

  /** Index of chroma sample k in a buffer whose samples lie `stride` bytes apart. */
  function SampleIndex(k: int, stride: int): int
  {
    k * stride
  }

  /** The de-interleaving loop can run `count` iterations without throwing:
      each reads both chroma buffers at SampleIndex(k, stride) and writes two
      bytes into the uSize + vSize chroma bytes after the luma plane. */
  predicate DeinterleaveFits(uSize: nat, vSize: nat, stride: int, count: nat)
  {
    2 * count <= uSize + vSize &&
    forall k :: 0 <= k < count ==> 0 <= SampleIndex(k, stride) < uSize && SampleIndex(k, stride) < vSize
  }

  /** Byte k of the de-interleaved chroma region: V of sample k/2, then its U. */
  function PairByte(u: seq<byte>, v: seq<byte>, stride: int, k: nat): byte
    requires 0 <= SampleIndex(k / 2, stride) < |u| && SampleIndex(k / 2, stride) < |v|
  {
    if k % 2 == 0 then v[SampleIndex(k / 2, stride)] else u[SampleIndex(k / 2, stride)]
  }

  /** The `2 * count` bytes the de-interleaving loop writes. */
  function Pairs(u: seq<byte>, v: seq<byte>, stride: int, count: nat): (r: seq<byte>)
    requires DeinterleaveFits(|u|, |v|, stride, count)
  {
    seq(2 * count, k requires 0 <= k < 2 * count => PairByte(u, v, stride, k))
  }

  /** The NV21 array after `count` de-interleaving iterations (None: the loop throws).
      Bytes the loop does not reach keep the zero the array was created with. */
  function Interleaved(y: seq<byte>, u: seq<byte>, v: seq<byte>, stride: int, count: nat): (r: Option<seq<byte>>)
    ensures r.Some? <==> DeinterleaveFits(|u|, |v|, stride, count)
    ensures r.Some? ==> |r.value| == |y| + |u| + |v| && r.value[..|y|] == y
  {
    if DeinterleaveFits(|u|, |v|, stride, count) then
      Some(y + Pairs(u, v, stride, count) + Zeros(|u| + |v| - 2 * count))
    else None
  }

  /** NV21 assembly as YuvUtils.kt writes it: a planar copy (V plane, then U
      plane) for pixel stride 1, otherwise |u| de-interleaving iterations. */
  function Nv21AsWritten(y: seq<byte>, u: seq<byte>, v: seq<byte>, stride: int): (r: Option<seq<byte>>)
    ensures stride == 1 ==> r.Some?
    ensures r.Some? ==> |r.value| == |y| + |u| + |v| && r.value[..|y|] == y
  {
    if stride == 1 then Some(y + v + u) else Interleaved(y, u, v, stride, |u|)
  }

  /** Number of samples in a chroma buffer of `size` bytes whose samples lie
      `stride` apart (the last sample carries no padding after it). */
  function SampleCount(size: nat, stride: nat): (n: nat)
    requires stride >= 1
    ensures forall k :: 0 <= k < n ==> 0 <= SampleIndex(k, stride) < size
    ensures n * stride >= size
  {
    var n := (size + stride - 1) / stride;
    forall k | 0 <= k < n
      ensures 0 <= SampleIndex(k, stride) < size
    {
      SampleBelowSize(size, stride, k);
    }
    n
  }

  lemma SampleBelowSize(size: nat, stride: nat, k: nat)
    requires stride >= 1 && k < (size + stride - 1) / stride
    ensures 0 <= k * stride < size
  {
    var n := (size + stride - 1) / stride;
    assert n * stride <= size + stride - 1;
    assert k * stride <= (n - 1) * stride by {
      assert k <= n - 1;
      MulLeft(k, n - 1, stride);
    }
    assert (n - 1) * stride == n * stride - stride;
  }


  /** NV21 assembly as intended: one V,U pair per chroma sample, whatever the stride. */
  function Nv21Corrected(y: seq<byte>, u: seq<byte>, v: seq<byte>, stride: nat): (r: Option<seq<byte>>)
    requires stride >= 1
    ensures r.Some? ==> |r.value| == |y| + |u| + |v| && r.value[..|y|] == y
  {
    Interleaved(y, u, v, stride, SampleCount(|u|, stride))
  }

  /** The `pos++` loop: for k < count, nv21[start + 2k] := v[k * stride] and
      nv21[start + 2k + 1] := u[k * stride]; returns false where the source
      throws (a read past a chroma buffer or a write past nv21). */
  method Deinterleave(nv21: array<byte>, start: nat, u: array<byte>, v: array<byte>, stride: int, count: nat)
    returns (ok: bool)
    requires nv21.Length == start + u.Length + v.Length
    modifies nv21
    ensures ok == DeinterleaveFits(u.Length, v.Length, stride, count)
    ensures ok ==> nv21[..] == old(nv21[..start]) + Pairs(u[..], v[..], stride, count) + old(nv21[start + 2 * count..])
  {
    var pos := start;
    var i := 0;
    while i < count
      invariant 0 <= i <= count
      invariant pos == start + 2 * i <= nv21.Length
      invariant forall k :: 0 <= k < i ==> 0 <= SampleIndex(k, stride) < u.Length && SampleIndex(k, stride) < v.Length
      invariant forall k :: 0 <= k < start ==> nv21[k] == old(nv21[k])
      invariant forall k :: pos <= k < nv21.Length ==> nv21[k] == old(nv21[k])
      invariant forall k :: 0 <= k < 2 * i ==> nv21[start + k] == PairByte(u[..], v[..], stride, k)
    {
      var idx := SampleIndex(i, stride);
      if !(0 <= idx < v.Length) || pos >= nv21.Length {
        return false;
      }
      nv21[pos] := v[idx];
      pos := pos + 1;
      if !(0 <= idx < u.Length) || pos >= nv21.Length {
        return false;
      }
      nv21[pos] := u[idx];
      pos := pos + 1;
      i := i + 1;
    }
    ok := true;
    assert DeinterleaveFits(u.Length, v.Length, stride, count);
    PairsPlaced(nv21[..], old(nv21[..]), start, u[..], v[..], stride, count);
  }

  /** A buffer that agrees with `before` outside [start, start + 2 * count)
      and holds the pair bytes inside it is the de-interleaved layout. */
  lemma PairsPlaced(after: seq<byte>, before: seq<byte>, start: nat, u: seq<byte>, v: seq<byte>, stride: int, count: nat)
    requires DeinterleaveFits(|u|, |v|, stride, count)
    requires |after| == |before| == start + |u| + |v|
    requires forall k :: 0 <= k < start ==> after[k] == before[k]
    requires forall k :: start + 2 * count <= k < |after| ==> after[k] == before[k]
    requires forall k :: 0 <= k < 2 * count ==> after[start + k] == PairByte(u, v, stride, k)
    ensures after == before[..start] + Pairs(u, v, stride, count) + before[start + 2 * count..]
  {
    var want := before[..start] + Pairs(u, v, stride, count) + before[start + 2 * count..];
    assert |want| == |after|;
    forall k | 0 <= k < |after|
      ensures after[k] == want[k]
    {
      if start <= k < start + 2 * count {
        assert want[k] == PairByte(u, v, stride, k - start);
      }
    }
  }

  /** Copies `src` into nv21 from `at` on (a bulk ByteBuffer.get). */
  method CopyInto(nv21: array<byte>, at: nat, src: array<byte>)
    requires at + src.Length <= nv21.Length
    modifies nv21
    ensures forall k :: 0 <= k < nv21.Length && !(at <= k < at + src.Length) ==> nv21[k] == old(nv21[k])
    ensures forall k :: 0 <= k < src.Length ==> nv21[at + k] == src[k]
  {
    forall k | 0 <= k < src.Length {
      nv21[at + k] := src[k];
    }
  }

  /** The NV21 assembly of yuv420ToRGBA exactly as written. */
  method Nv21FromPlanes(yBuf: array<byte>, uBuf: array<byte>, vBuf: array<byte>, pixelStride: int)
    returns (res: Option<array<byte>>)
    ensures var layout := Nv21AsWritten(yBuf[..], uBuf[..], vBuf[..], pixelStride);
            res.Some? == layout.Some? && (res.Some? ==> res.value[..] == layout.value)
  {
    var ySize, uSize, vSize := yBuf.Length, uBuf.Length, vBuf.Length;
    var nv21 := new byte[ySize + uSize + vSize](_ => 0);
    CopyInto(nv21, 0, yBuf);
    if pixelStride == 1 {
      CopyInto(nv21, ySize, vBuf);
      CopyInto(nv21, ySize + vSize, uBuf);
      ghost var want := yBuf[..] + vBuf[..] + uBuf[..];
      forall k | 0 <= k < nv21.Length
        ensures nv21[k] == want[k]
      {
        if k < ySize {
        } else if k < ySize + vSize {
          assert nv21[ySize + (k - ySize)] == vBuf[k - ySize];
        } else {
          assert nv21[ySize + vSize + (k - ySize - vSize)] == uBuf[k - ySize - vSize];
        }
      }
      assert nv21[..] == want;
      return Some(nv21);
    }
    ghost var before := nv21[..];
    var ok := Deinterleave(nv21, ySize, uBuf, vBuf, pixelStride, uSize);
    if !ok {
      return None;
    }
    FinishLayout(nv21[..], before, yBuf[..], uBuf[..], vBuf[..], pixelStride, uSize);
    return Some(nv21);
  }

  /** The pieces the two assembly methods leave in nv21 form the Interleaved layout. */
  lemma FinishLayout(nv21: seq<byte>, before: seq<byte>, y: seq<byte>, u: seq<byte>, v: seq<byte>, stride: int, count: nat)
    requires |before| == |y| + |u| + |v|
    requires before[..|y|] == y
    requires forall k :: |y| <= k < |before| ==> before[k] == 0
    requires DeinterleaveFits(|u|, |v|, stride, count)
    requires nv21 == before[..|y|] + Pairs(u, v, stride, count) + before[|y| + 2 * count..]
    ensures Interleaved(y, u, v, stride, count) == Some(nv21)
  {
    assert before[|y| + 2 * count..] == Zeros(|u| + |v| - 2 * count);
  }

  /** The NV21 assembly with the de-interleaving loop bounded by the number of
      chroma samples, used for every stride. */
  method Nv21FromPlanesFixed(yBuf: array<byte>, uBuf: array<byte>, vBuf: array<byte>, pixelStride: nat)
    returns (res: Option<array<byte>>)
    requires pixelStride >= 1
    ensures var layout := Nv21Corrected(yBuf[..], uBuf[..], vBuf[..], pixelStride);
            res.Some? == layout.Some? && (res.Some? ==> res.value[..] == layout.value)
  {
    var ySize, uSize, vSize := yBuf.Length, uBuf.Length, vBuf.Length;
    var nv21 := new byte[ySize + uSize + vSize](_ => 0);
    CopyInto(nv21, 0, yBuf);
    var count := SampleCount(uSize, pixelStride);
    ghost var before := nv21[..];
    var ok := Deinterleave(nv21, ySize, uBuf, vBuf, pixelStride, count);
    if !ok {
      return None;
    }
    FinishLayout(nv21[..], before, yBuf[..], uBuf[..], vBuf[..], pixelStride, count);
    return Some(nv21);
  }

  // ---------------------------------------------------------------------
  // Properties of the NV21 layouts
  // ---------------------------------------------------------------------

  /** Where de-interleaving succeeds, byte |y| + 2k is V of sample k and the
      next byte its U; the luma plane comes first, verbatim. */
  lemma {:induction false} InterleavedPairAt(y: seq<byte>, u: seq<byte>, v: seq<byte>, stride: int, count: nat, k: nat)
    requires Interleaved(y, u, v, stride, count).Some? && k < count
    ensures var nv21 := Interleaved(y, u, v, stride, count).value;
            |nv21| == |y| + |u| + |v| && nv21[..|y|] == y &&
            0 <= SampleIndex(k, stride) < |u| && SampleIndex(k, stride) < |v| &&
            nv21[|y| + 2 * k] == v[SampleIndex(k, stride)] &&
            nv21[|y| + 2 * k + 1] == u[SampleIndex(k, stride)]
  {
    var nv21 := Interleaved(y, u, v, stride, count).value;
    var pairs := Pairs(u, v, stride, count);
    assert nv21 == y + pairs + Zeros(|u| + |v| - 2 * count);
    assert nv21[|y| + 2 * k] == pairs[2 * k] == PairByte(u, v, stride, 2 * k);
    assert nv21[|y| + 2 * k + 1] == pairs[2 * k + 1] == PairByte(u, v, stride, 2 * k + 1);
  }

  /** As written, any pixel stride of 2 or more with at least two bytes in the
      U buffer throws: the loop runs |u| times, so its last read is at
      (|u| - 1) * stride, which lies past the end of the U buffer. */
  lemma StrideTwoAlwaysThrows(y: seq<byte>, u: seq<byte>, v: seq<byte>, stride: int)
    requires stride >= 2 && |u| >= 2
    ensures Nv21AsWritten(y, u, v, stride) == None
  {
    var last := |u| - 1;
    MulLeft(2, stride, last);
    assert SampleIndex(last, stride) >= |u|;
  }

  /** As written, pixel stride 1 leaves the V plane and then the U plane side
      by side, so the byte nv21ToRGBA reads as U for the first pixel block is
      the second V sample; the corrected layout holds the first U sample there. */
  lemma PlanarCopyMisplacesU(y: seq<byte>, u: seq<byte>, v: seq<byte>)
    requires |v| >= 2 && |u| <= |v|
    ensures Nv21AsWritten(y, u, v, 1).value[|y| + 1] == v[1]
    ensures Nv21Corrected(y, u, v, 1).Some? && Nv21Corrected(y, u, v, 1).value[|y| + 1] == (if |u| == 0 then 0 else u[0])
  {
    CorrectedNeverThrows(y, u, v, 1);
    if |u| == 0 {
      assert Nv21Corrected(y, u, v, 1).value == y + [] + Zeros(|v|);
    } else {
      InterleavedPairAt(y, u, v, 1, SampleCount(|u|, 1), 0);
    }
  }

  /** The corrected assembly never throws when the V buffer is at least as long
      as the U buffer, and visits every chroma sample of the U buffer. */
  lemma CorrectedNeverThrows(y: seq<byte>, u: seq<byte>, v: seq<byte>, stride: nat)
    requires stride >= 1 && |u| <= |v|
    ensures Nv21Corrected(y, u, v, stride).Some?
    ensures SampleCount(|u|, stride) <= |u|
  {
    var n := SampleCount(|u|, stride);
    if n > |u| {
      assert SampleIndex(|u|, stride) < |u|;
      MulLeft(1, stride, |u|);
      assert false;
    }
  }

  /** A planar chroma pair (stride 1) and the same samples interleaved with
      stride 2 (each buffer then holds 2n - 1 bytes) give the same NV21 bytes
      up to the end of the n chroma pairs. */
  lemma StridesAgree(y: seq<byte>, u1: seq<byte>, v1: seq<byte>, u2: seq<byte>, v2: seq<byte>)
    requires |u1| == |v1| >= 1 && |u2| == |v2| == 2 * |u1| - 1
    requires forall k :: 0 <= k < |u1| ==> u2[2 * k] == u1[k] && v2[2 * k] == v1[k]
    ensures Nv21Corrected(y, u1, v1, 1).Some? && Nv21Corrected(y, u2, v2, 2).Some?
    ensures var end := |y| + 2 * |u1|;
            end <= |Nv21Corrected(y, u1, v1, 1).value| && end <= |Nv21Corrected(y, u2, v2, 2).value| &&
            Nv21Corrected(y, u1, v1, 1).value[..end] == Nv21Corrected(y, u2, v2, 2).value[..end]
  {
    var n := |u1|;
    CorrectedNeverThrows(y, u1, v1, 1);
    CorrectedNeverThrows(y, u2, v2, 2);
    assert SampleCount(n, 1) == n;
    assert SampleCount(2 * n - 1, 2) == n;
    var a := Nv21Corrected(y, u1, v1, 1).value;
    var b := Nv21Corrected(y, u2, v2, 2).value;
    var end := |y| + 2 * n;
    forall k | 0 <= k < end
      ensures a[k] == b[k]
    {
      if k >= |y| {
        var m := (k - |y|) / 2;
        InterleavedPairAt(y, u1, v1, 1, n, m);
        InterleavedPairAt(y, u2, v2, 2, n, m);
        assert SampleIndex(m, 2) == 2 * m;
      }
    }
    assert a[..end] == b[..end];
  }

  // ---------------------------------------------------------------------
  // Colour conversion (BT.601 limited range, coefficients scaled by 1000)
  // ---------------------------------------------------------------------

  /** One output pixel; alpha is always 255 in this converter. */
  datatype Rgba = Rgba(r: byte, g: byte, b: byte, a: byte)

  /** Byte c (0 = red … 3 = alpha) of a pixel as it is laid out in memory. */
  function Channel(px: Rgba, c: nat): byte
    requires c < 4
  {
    if c == 0 then px.r else if c == 1 then px.g else if c == 2 then px.b else px.a
  }

  /** Float.toInt() of n / 1000: the quotient truncated toward zero. */
  function TruncScaled(n: int): (q: int)
    ensures 0 <= n ==> 0 <= q && 1000 * q <= n < 1000 * (q + 1)
    ensures n < 0 ==> q <= 0 && 1000 * (q - 1) < n <= 1000 * q
  {
    if n >= 0 then n / 1000 else -((-n) / 1000)
  }

  /** Distance between two integers. */
  function Dist(a: int, b: int): nat
  {
    if a <= b then b - a else a - b
  }

  /** coerceIn(0, 255): the byte value nearest to x. */
  function Clamp(x: int): (b: byte)
    ensures forall c :: 0 <= c < 256 ==> Dist(b as int, x) <= Dist(c, x)
    ensures 0 <= x < 256 ==> b as int == x
  {
    if x < 0 then 0 else if x > 255 then 255 else x as byte
  }

  /** The three scaled channel sums of one pixel, before truncation. */
  function RedSum(y: byte, v: byte): (s: int)
    ensures v == 128 ==> s == 1164 * (y as int - 16)
    ensures -222912 <= s <= 480888
  {
    1164 * (y as int - 16) + 1596 * (v as int - 128)
  }

  function GreenSum(y: byte, u: byte, v: byte): (s: int)
    ensures u == 128 && v == 128 ==> s == 1164 * (y as int - 16)
    ensures -18624 - 813 * 127 - 391 * 127 <= s <= 278196 + 813 * 128 + 391 * 128
  {
    1164 * (y as int - 16) - 813 * (v as int - 128) - 391 * (u as int - 128)
  }

  function BlueSum(y: byte, u: byte): (s: int)
    ensures u == 128 ==> s == 1164 * (y as int - 16)
    ensures -18624 - 2018 * 128 <= s <= 278196 + 2018 * 127
  {
    1164 * (y as int - 16) + 2018 * (u as int - 128)
  }

  /** One pixel: truncate each channel, clamp it to a byte, alpha 255. */
  function ConvertPixel(y: byte, u: byte, v: byte): (px: Rgba)
    ensures px.a == 255
  {
    Rgba(Clamp(TruncScaled(RedSum(y, v))), Clamp(TruncScaled(GreenSum(y, u, v))), Clamp(TruncScaled(BlueSum(y, u))), 255)
  }

  /** Truncation and flooring agree once the value is clamped, so the choice
      between toward-zero and Euclidean division does not show in the output. */
  lemma {:induction false} TruncateThenClampIsFloor(n: int)
    ensures Clamp(TruncScaled(n)) == Clamp(n / 1000)
  {
    if n < 0 {
      assert TruncScaled(n) <= 0 && n / 1000 < 0;
      assert Clamp(TruncScaled(n)) == 0 == Clamp(n / 1000);
    }
  }

  /** Black point: y = 16 with neutral chroma is opaque black. */
  lemma BlackPoint()
    ensures ConvertPixel(16, 128, 128) == Rgba(0, 0, 0, 255)
  {
  }

  /** White point: y = 235 with neutral chroma is 254 on every channel
      (1.164 * 219 = 254.916, truncated). */
  lemma WhitePoint()
    ensures ConvertPixel(235, 128, 128) == Rgba(254, 254, 254, 255)
  {
  }

  /** Neutral chroma gives a grey whose level never decreases with luma. */
  lemma NeutralChromaIsGrey(y1: byte, y2: byte)
    requires y1 <= y2
    ensures var p1, p2 := ConvertPixel(y1, 128, 128), ConvertPixel(y2, 128, 128);
            p1.r == p1.g == p1.b && p2.r == p2.g == p2.b && p1.r <= p2.r
  {
  }

  // ---------------------------------------------------------------------
  // Pixel addressing in NV21
  // ---------------------------------------------------------------------

  /** Index of the V byte of pixel (i, j): frameSize + (j shr 1) * w + (i and 1.inv()).
      For the non-negative indices used here, shr 1 is / 2 and clearing bit 0 is i - i % 2. */
  function ChromaIndex(w: nat, h: nat, i: nat, j: nat): (c: nat)
    ensures c >= w * h
  {
    w * h + (j / 2) * w + (i - i % 2)
  }

  /** Index of the V byte of the pixel stored at row-major position p. */
  function PixelChroma(w: nat, h: nat, p: nat): nat
    requires w > 0
  {
    ChromaIndex(w, h, p % w, p / w)
  }

  /** Pixel p's reads (luma at p, V and U at PixelChroma) stay inside nv21. */
  predicate PixelReadable(n: nat, w: nat, h: nat, p: nat)
    requires w > 0
  {
    PixelChroma(w, h, p) + 1 < n
  }

  /** No read of the conversion loop leaves an nv21 array of n bytes. */
  predicate ReadsInBounds(n: nat, w: nat, h: nat)
  {
    w == 0 || forall p :: 0 <= p < w * h ==> PixelReadable(n, w, h, p)
  }

  /** The pixel stored at row-major position p. */
  function PixelAt(nv21: seq<byte>, w: nat, h: nat, p: nat): (px: Rgba)
    requires w > 0 && p < w * h && PixelReadable(|nv21|, w, h, p)
    ensures px.a == 255
    ensures nv21[PixelChroma(w, h, p)] == 128 && nv21[PixelChroma(w, h, p) + 1] == 128 ==> px.r == px.g == px.b
  {
    var c := PixelChroma(w, h, p);
    ConvertPixel(nv21[p], nv21[c + 1], nv21[c])
  }

  /** Byte k of the RGBA output: channel k % 4 of pixel k / 4. */
  function RgbaByte(nv21: seq<byte>, w: nat, h: nat, k: nat): byte
    requires w > 0 && k < w * h * 4 && PixelReadable(|nv21|, w, h, k / 4)
  {
    Channel(PixelAt(nv21, w, h, k / 4), k % 4)
  }

  /** The RGBA array nv21ToRGBA returns when no read fails. */
  function RgbaImage(nv21: seq<byte>, w: nat, h: nat): (img: seq<byte>)
    requires ReadsInBounds(|nv21|, w, h)
    ensures |img| == w * h * 4
    ensures forall k :: 0 <= k < |img| && k % 4 == 3 ==> img[k] == 255
  {
    seq(w * h * 4, k requires 0 <= k < w * h * 4 => RgbaByte(nv21, w, h, k))
  }

  /** Row-major position j * w + i is pixel (i, j). */
  lemma {:induction false} RowCol(w: nat, i: nat, j: nat)
    requires i < w
    ensures (j * w + i) / w == j && (j * w + i) % w == i
    ensures j * w + i < (j + 1) * w
  {
    var p := j * w + i;
    var q, r := p / w, p % w;
    assert p == q * w + r && 0 <= r < w;
    assert (j - q) * w == r - i;
    if j > q {
      MulLeft(1, j - q, w);
      assert false;
    } else if j < q {
      MulLeft(1, q - j, w);
      assert false;
    }
  }

  /** Pixel (i, j) of a w × h frame lies inside the frame. */
  lemma PixelInFrame(w: nat, h: nat, i: nat, j: nat)
    requires i < w && j < h
    ensures j * w + i < w * h
  {
    RowCol(w, i, j);
    MulLeft(j + 1, h, w);
  }

  /** Pixel (i, j) sits at row-major position j * w + i inside the frame,
      and its V byte is the one PixelChroma gives for that position. */
  lemma PixelAddress(w: nat, h: nat, i: nat, j: nat)
    requires i < w && j < h
    ensures j * w + i < w * h && PixelChroma(w, h, j * w + i) == ChromaIndex(w, h, i, j)
  {
    PixelInFrame(w, h, i, j);
    RowCol(w, i, j);
  }

  // ---------------------------------------------------------------------
  // nv21ToRGBA
  // ---------------------------------------------------------------------

  /** The first `done` pixels (row-major) have been read without leaving
      nv21 and their bytes in rgba hold their converted channels. */
  predicate Converted(rgba: seq<byte>, nv21: seq<byte>, w: nat, h: nat, done: nat)
  {
    done <= w * h && |rgba| == w * h * 4 && (done > 0 ==> w > 0) &&
    (forall p :: 0 <= p < done ==> PixelReadable(|nv21|, w, h, p)) &&
    (forall k :: 0 <= k < done * 4 ==> rgba[k] == RgbaByte(nv21, w, h, k))
  }

  lemma ConvertedStep(before: seq<byte>, after: seq<byte>, nv21: seq<byte>, w: nat, h: nat, p: nat)
    requires Converted(before, nv21, w, h, p) && w > 0 && p < w * h && PixelReadable(|nv21|, w, h, p)
    requires var px := PixelAt(nv21, w, h, p);
             after == before[..p * 4] + [px.r, px.g, px.b, px.a] + before[p * 4 + 4..]
    ensures Converted(after, nv21, w, h, p + 1)
  {
    forall k | 0 <= k < (p + 1) * 4
      ensures after[k] == RgbaByte(nv21, w, h, k)
    {
      if k >= p * 4 {
        assert k / 4 == p;
      }
    }
  }

  lemma ConvertedAll(rgba: seq<byte>, nv21: seq<byte>, w: nat, h: nat)
    requires w > 0 && Converted(rgba, nv21, w, h, w * h)
    ensures ReadsInBounds(|nv21|, w, h) && rgba == RgbaImage(nv21, w, h)
  {
  }

  /** Stores the four bytes of one pixel at rgba[p * 4 .. p * 4 + 3]. */
  method StorePixel(rgba: array<byte>, p: nat, px: Rgba)
    requires p * 4 + 4 <= rgba.Length
    modifies rgba
    ensures rgba[..] == old(rgba[..p * 4]) + [px.r, px.g, px.b, px.a] + old(rgba[p * 4 + 4..])
  {
    var index := p * 4;
    rgba[index] := px.r;
    rgba[index + 1] := px.g;
    rgba[index + 2] := px.b;
    rgba[index + 3] := px.a;
    assert rgba[..] == old(rgba[..p * 4]) + [px.r, px.g, px.b, px.a] + old(rgba[p * 4 + 4..]);
  }

  /** The inner loop of nv21ToRGBA over row j: converts its pixels in
      order, or reports the first read that would leave nv21. */
  method ConvertRow(nv21: array<byte>, rgba: array<byte>, width: nat, height: nat, j: nat) returns (ok: bool)
    requires rgba != nv21 && width > 0 && j < height
    requires Converted(rgba[..], nv21[..], width, height, j * width)
    modifies rgba
    ensures ok ==> Converted(rgba[..], nv21[..], width, height, j * width + width)
    ensures !ok ==> !ReadsInBounds(nv21.Length, width, height)
  {
    var i := 0;
    var p := j * width;
    while i < width
      invariant 0 <= i <= width && p == j * width + i
      invariant Converted(rgba[..], nv21[..], width, height, p)
    {
      PixelAddress(width, height, i, j);
      var ci := ChromaIndex(width, height, i, j);
      if p >= nv21.Length || ci >= nv21.Length || ci + 1 >= nv21.Length {
        assert !PixelReadable(nv21.Length, width, height, p);
        return false;
      }
      var y := nv21[p];
      var v := nv21[ci];
      var u := nv21[ci + 1];
      var px := ConvertPixel(y, u, v);
      assert px == PixelAt(nv21[..], width, height, p);
      ghost var before := rgba[..];
      StorePixel(rgba, p, px);
      ConvertedStep(before, rgba[..], nv21[..], width, height, p);
      i := i + 1;
      p := p + 1;
    }
    return true;
  }

  /** The nested pixel loop of nv21ToRGBA. It returns None where the source
      throws (a read past nv21), and otherwise the RGBA image. */
  method Nv21ToRgba(nv21: array<byte>, width: nat, height: nat) returns (res: Option<array<byte>>)
    ensures res.Some? <==> ReadsInBounds(nv21.Length, width, height)
    ensures res.Some? ==> res.value[..] == RgbaImage(nv21[..], width, height)
  {
    var rgba := new byte[width * height * 4](_ => 0);
    if width == 0 {
      assert rgba[..] == RgbaImage(nv21[..], width, height);
      return Some(rgba);
    }
    var j := 0;
    while j < height
      invariant 0 <= j <= height
      invariant Converted(rgba[..], nv21[..], width, height, j * width)
    {
      var ok := ConvertRow(nv21, rgba, width, height, j);
      if !ok {
        return None;
      }
      assert (j + 1) * width == j * width + width;
      j := j + 1;
    }
    assert height * width == width * height;
    ConvertedAll(rgba[..], nv21[..], width, height);
    return Some(rgba);
  }

  // ---------------------------------------------------------------------
  // Properties of the RGBA image
  // ---------------------------------------------------------------------

  /** Pixel (i, j) takes luma from nv21[j * w + i] and V, U from the pair at
      ChromaIndex, and its channels land in rgba[(j * w + i) * 4 + c]. */
  lemma {:induction false} RgbaAtPixel(nv21: seq<byte>, w: nat, h: nat, i: nat, j: nat, c: nat)
    requires ReadsInBounds(|nv21|, w, h) && i < w && j < h && c < 4
    ensures j * w + i < w * h && ChromaIndex(w, h, i, j) + 1 < |nv21| &&
            (j * w + i) * 4 + c < |RgbaImage(nv21, w, h)| &&
            RgbaImage(nv21, w, h)[(j * w + i) * 4 + c] ==
              Channel(ConvertPixel(nv21[j * w + i], nv21[ChromaIndex(w, h, i, j) + 1], nv21[ChromaIndex(w, h, i, j)]), c)
  {
    var p := j * w + i;
    PixelInFrame(w, h, i, j);
    RowCol(w, i, j);
    assert PixelChroma(w, h, p) == ChromaIndex(w, h, i, j);
    RgbaAtIndex(nv21, w, h, p, c);
  }

  lemma RgbaAtIndex(nv21: seq<byte>, w: nat, h: nat, p: nat, c: nat)
    requires ReadsInBounds(|nv21|, w, h) && w > 0 && p < w * h && c < 4
    ensures PixelReadable(|nv21|, w, h, p) && p * 4 + c < |RgbaImage(nv21, w, h)| &&
            RgbaImage(nv21, w, h)[p * 4 + c] == Channel(PixelAt(nv21, w, h, p), c)
  {
    var k := p * 4 + c;
    assert k / 4 == p && k % 4 == c;
  }

  /** Every pixel of the output is opaque. */
  lemma OpaqueAlpha(nv21: seq<byte>, w: nat, h: nat, i: nat, j: nat)
    requires ReadsInBounds(|nv21|, w, h) && i < w && j < h
    ensures (j * w + i) * 4 + 3 < |RgbaImage(nv21, w, h)| && RgbaImage(nv21, w, h)[(j * w + i) * 4 + 3] == 255
  {
    RgbaAtPixel(nv21, w, h, i, j, 3);
  }

  /** Distinct (pixel, channel) pairs write distinct output bytes ... */
  lemma {:induction false} ByteWrittenOnce(w: nat, i1: nat, j1: nat, c1: nat, i2: nat, j2: nat, c2: nat)
    requires i1 < w && i2 < w && c1 < 4 && c2 < 4
    requires (j1 * w + i1) * 4 + c1 == (j2 * w + i2) * 4 + c2
    ensures i1 == i2 && j1 == j2 && c1 == c2
  {
    assert j1 * w + i1 == j2 * w + i2;
    RowCol(w, i1, j1);
    RowCol(w, i2, j2);
  }

  /** ... and every byte of a w × h × 4 output is written by one of them. */
  lemma {:induction false} ByteHasOwner(w: nat, h: nat, k: nat)
    requires k < w * h * 4
    ensures w > 0
    ensures var p := k / 4;
            p % w < w && p / w < h && (p / w * w + p % w) * 4 + k % 4 == k
  {
    var p := k / 4;
    assert w > 0;
    assert p == p / w * w + p % w;
    if p / w >= h {
      MulLeft(h, p / w, w);
      assert false;
    }
  }

  /** The four pixels of an aligned 2 × 2 block read the same V and U bytes. */
  lemma BlockSharesChroma(w: nat, h: nat, i: nat, j: nat)
    requires i % 2 == 0 && j % 2 == 0
    ensures ChromaIndex(w, h, i + 1, j) == ChromaIndex(w, h, i, j)
    ensures ChromaIndex(w, h, i, j + 1) == ChromaIndex(w, h, i, j)
    ensures ChromaIndex(w, h, i + 1, j + 1) == ChromaIndex(w, h, i, j)
  {
  }

  /** On an even width, pixel (i, j) reads the V,U pair of chroma sample
      (j / 2) * (w / 2) + i / 2, the sample of its 2 × 2 block. */
  lemma {:induction false} ChromaPairOfPixel(w: nat, h: nat, i: nat, j: nat)
    requires w % 2 == 0
    ensures ChromaIndex(w, h, i, j) == w * h + 2 * ((j / 2) * (w / 2) + i / 2)
  {
    assert w == 2 * (w / 2);
    assert (j / 2) * w == 2 * ((j / 2) * (w / 2));
  }

  /** The last pixel reads furthest: no pixel's V byte lies after its. */
  lemma {:induction false} LastPixelReadsFurthest(w: nat, h: nat, i: nat, j: nat)
    requires i < w && j < h
    ensures ChromaIndex(w, h, i, j) <= ChromaIndex(w, h, w - 1, h - 1)
  {
    MulLeft(j / 2, (h - 1) / 2, w);
  }

  /** Pixel p's V byte lies no further than the last pixel's. */
  lemma {:induction false} PixelChromaAtMostLast(w: nat, h: nat, p: nat)
    requires w > 0 && p < w * h
    ensures PixelChroma(w, h, p) <= ChromaIndex(w, h, w - 1, h - 1)
  {
    ByteHasOwner(w, h, p * 4);
    assert (p * 4) / 4 == p;
    LastPixelReadsFurthest(w, h, p % w, p / w);
  }

  /** The last row-major position is pixel (w - 1, h - 1). */
  lemma {:induction false} LastPixelChroma(w: nat, h: nat)
    requires w > 0 && h > 0
    ensures (h - 1) * w + (w - 1) < w * h
    ensures PixelChroma(w, h, (h - 1) * w + (w - 1)) == ChromaIndex(w, h, w - 1, h - 1)
  {
    RowCol(w, w - 1, h - 1);
    PixelInFrame(w, h, w - 1, h - 1);
  }

  /** The conversion reads inside nv21 exactly when the last pixel's U byte is inside. */
  lemma {:induction false} ReadsInBoundsIffLastPixel(n: nat, w: nat, h: nat)
    requires w > 0 && h > 0
    ensures ReadsInBounds(n, w, h) <==> ChromaIndex(w, h, w - 1, h - 1) + 1 < n
  {
    var last := (h - 1) * w + (w - 1);
    LastPixelChroma(w, h);
    if ReadsInBounds(n, w, h) {
      assert PixelReadable(n, w, h, last);
    } else {
      var p :| 0 <= p < w * h && !PixelReadable(n, w, h, p);
      PixelChromaAtMostLast(w, h, p);
    }
  }

  /** For even dimensions the last pixel's V byte sits two bytes before the
      end of a w * h + w * h / 2 byte NV21 array. */
  lemma {:induction false} LastChromaEven(w: nat, h: nat)
    requires w > 0 && h > 0 && w % 2 == 0 && h % 2 == 0
    ensures ChromaIndex(w, h, w - 1, h - 1) == w * h + w * h / 2 - 2
  {
    var hh := h / 2;
    assert (h - 1) / 2 == hh - 1;
    assert (w - 1) - (w - 1) % 2 == w - 2;
    assert (hh - 1) * w == hh * w - w;
    assert hh * w == w * h / 2 by {
      assert h == 2 * hh;
      assert w * h == 2 * (hh * w);
    }
  }

  /** For even dimensions the conversion needs exactly the NV21 size
      w * h + w * h / 2 bytes. */
  lemma {:induction false} ReadsInBoundsIffNv21Size(n: nat, w: nat, h: nat)
    requires w > 0 && h > 0 && w % 2 == 0 && h % 2 == 0
    ensures ReadsInBounds(n, w, h) <==> n >= w * h + w * h / 2
  {
    ReadsInBoundsIffLastPixel(n, w, h);
    LastChromaEven(w, h);
  }

  // ---------------------------------------------------------------------
  // yuv420ToRGBA
  // ---------------------------------------------------------------------

  /** A YUV_420_888 image: its size, the remaining bytes of the three plane
      buffers, and the chroma pixel stride (taken from the U plane). */
  datatype Image = Image(width: nat, height: nat, yPlane: array<byte>, uPlane: array<byte>, vPlane: array<byte>, pixelStride: nat)

  /** yuv420ToRGBA: NV21 assembly (with the sample-count loop bound) followed
      by the pixel conversion; None where the source throws and the camera
      callback drops the frame. */
  method Yuv420ToRgba(image: Image) returns (res: Option<array<byte>>)
    requires image.pixelStride >= 1
    ensures var nv21 := Nv21Corrected(image.yPlane[..], image.uPlane[..], image.vPlane[..], image.pixelStride);
            (res.Some? <==> nv21.Some? && ReadsInBounds(|nv21.value|, image.width, image.height)) &&
            (res.Some? ==> res.value[..] == RgbaImage(nv21.value, image.width, image.height))
  {
    var nv21 := Nv21FromPlanesFixed(image.yPlane, image.uPlane, image.vPlane, image.pixelStride);
    if nv21.None? {
      return None;
    }
    res := Nv21ToRgba(nv21.value, image.width, image.height);
  }

  /** yuv420ToRGBA as written: NV21 assembly with the `uSize`-iteration loop
      and the planar copy, followed by the pixel conversion. */
  method Yuv420ToRgbaAsWritten(image: Image) returns (res: Option<array<byte>>)
    ensures var nv21 := Nv21AsWritten(image.yPlane[..], image.uPlane[..], image.vPlane[..], image.pixelStride);
            (res.Some? <==> nv21.Some? && ReadsInBounds(|nv21.value|, image.width, image.height)) &&
            (res.Some? ==> res.value[..] == RgbaImage(nv21.value, image.width, image.height))
  {
    var nv21 := Nv21FromPlanes(image.yPlane, image.uPlane, image.vPlane, image.pixelStride);
    if nv21.None? {
      return None;
    }
    res := Nv21ToRgba(nv21.value, image.width, image.height);
  }

  /** The first output pixel takes luma from nv21[0] and V, U from the
      first two bytes after the luma plane. */
  lemma FirstPixel(nv21: seq<byte>, w: nat, h: nat, c: nat)
    requires w > 0 && ReadsInBounds(|nv21|, w, h) && h > 0 && c < 4
    ensures w * h + 1 < |nv21| && c < |RgbaImage(nv21, w, h)|
    ensures RgbaImage(nv21, w, h)[c] == Channel(ConvertPixel(nv21[0], nv21[w * h + 1], nv21[w * h]), c)
  {
    assert 0 < w * h;
    assert PixelChroma(w, h, 0) == w * h;
    RgbaAtIndex(nv21, w, h, 0, c);
  }

  /** As written with pixel stride 1, the first pixel of the converted image
      takes the second V sample as its U value. */
  lemma PlanarFirstPixelReadsV(y: seq<byte>, u: seq<byte>, v: seq<byte>, w: nat, h: nat, c: nat)
    requires w > 0 && h > 0 && |y| == w * h && |v| >= 2 && c < 4
    requires ReadsInBounds(|y| + |u| + |v|, w, h)
    ensures RgbaImage(Nv21AsWritten(y, u, v, 1).value, w, h)[c] == Channel(ConvertPixel(y[0], v[1], v[0]), c)
  {
    var nv21 := Nv21AsWritten(y, u, v, 1).value;
    assert nv21 == y + v + u;
    FirstPixel(nv21, w, h, c);
  }

  /** With the corrected assembly the first pixel takes the first U sample
      as its U value. */
  lemma PlanarFirstPixelReadsU(y: seq<byte>, u: seq<byte>, v: seq<byte>, w: nat, h: nat, c: nat)
    requires w > 0 && h > 0 && |y| == w * h && 1 <= |u| <= |v| && c < 4
    requires ReadsInBounds(|y| + |u| + |v|, w, h)
    ensures Nv21Corrected(y, u, v, 1).Some?
    ensures RgbaImage(Nv21Corrected(y, u, v, 1).value, w, h)[c] == Channel(ConvertPixel(y[0], u[0], v[0]), c)
  {
    CorrectedNeverThrows(y, u, v, 1);
    InterleavedPairAt(y, u, v, 1, SampleCount(|u|, 1), 0);
    var nv21 := Nv21Corrected(y, u, v, 1).value;
    assert nv21[0] == y[0];
    FirstPixel(nv21, w, h, c);
  }

  /** The planes of a well-formed frame of even size (full luma plane,
      w * h / 4 chroma samples per plane, `stride` bytes apart) hold at
      least as many bytes as the conversion reads. */
  lemma {:induction false} WellFormedSize(y: seq<byte>, u: seq<byte>, v: seq<byte>, stride: nat, w: nat, h: nat)
    requires w > 0 && h > 0 && w % 2 == 0 && h % 2 == 0 && stride >= 1
    requires |y| == w * h && |u| == |v| == (w * h / 4 - 1) * stride + 1
    ensures w * h / 4 >= 1 && |u| >= w * h / 4
    ensures ReadsInBounds(|y| + |u| + |v|, w, h)
  {
    var n := w * h / 4;
    var hw, hh := w / 2, h / 2;
    assert w * h == 4 * (hw * hh) by {
      assert w == 2 * hw && h == 2 * hh;
    }
    assert n == hw * hh;
    MulLeft(1, hw, hh);
    assert n >= 1;
    MulLeft(1, stride, n - 1);
    assert |u| >= n;
    assert |y| + |u| + |v| >= w * h + w * h / 2;
    ReadsInBoundsIffNv21Size(|y| + |u| + |v|, w, h);
  }

  /** With the corrected assembly, a well-formed frame of even size converts
      without an exception, whatever its chroma pixel stride. */
  lemma {:induction false} WellFormedFrameConverts(y: seq<byte>, u: seq<byte>, v: seq<byte>, stride: nat, w: nat, h: nat)
    requires w > 0 && h > 0 && w % 2 == 0 && h % 2 == 0 && stride >= 1
    requires |y| == w * h && |u| == |v| == (w * h / 4 - 1) * stride + 1
    ensures Nv21Corrected(y, u, v, stride).Some?
    ensures ReadsInBounds(|Nv21Corrected(y, u, v, stride).value|, w, h)
  {
    CorrectedNeverThrows(y, u, v, stride);
    WellFormedSize(y, u, v, stride, w, h);
  }

  /** As written, the same well-formed frame converts (with its chroma
      misplaced) at pixel stride 1, and is always dropped at any larger stride
      once it has two or more chroma samples. */
  lemma {:induction false} WellFormedFrameAsWritten(y: seq<byte>, u: seq<byte>, v: seq<byte>, stride: nat, w: nat, h: nat)
    requires w > 0 && h > 0 && w % 2 == 0 && h % 2 == 0 && stride >= 1
    requires |y| == w * h && |u| == |v| == (w * h / 4 - 1) * stride + 1
    ensures stride == 1 ==> Nv21AsWritten(y, u, v, stride).Some? &&
                            ReadsInBounds(|Nv21AsWritten(y, u, v, stride).value|, w, h)
    ensures stride >= 2 && w * h / 4 >= 2 ==> Nv21AsWritten(y, u, v, stride).None?
  {
    WellFormedSize(y, u, v, stride, w, h);
    if stride >= 2 && w * h / 4 >= 2 {
      MulLeft(1, w * h / 4 - 1, stride);
      StrideTwoAlwaysThrows(y, u, v, stride);
    }
  }
}
