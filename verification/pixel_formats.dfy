/**
  Host-side pixel layout conversions: the encoder's YUV420ToNV12
  (NvVideoEncoder.cpp), planar 4:2:0 to semi-planar NV12, and the decoder's
  TransferToYUV (NvVideoDecoder.cpp), semi-planar to planar with a right
  shift for high bit depth.

  Buffers are arrays of samples and raw pointers become offsets into them.
  Sample `col` of row `row` in a plane whose rows are `stride` samples apart
  sits at `Pos(stride, row, col)`.
 */
module PixelFormats {
  import opened CInt

  function Pos(stride: nat, row: nat, col: nat): nat {
    stride * row + col
  }

  // ---------------------------------------------------------------------------
  // Arithmetic on positions

  lemma MulAtLeast(d: int, n: int)
    requires d >= 1 && n > 0
    ensures d * n >= n
  {
    if d > 1 {
      MulAtLeast(d - 1, n);
      assert d * n == (d - 1) * n + n;
    }
  }

  lemma DivModUnique(x: int, q: int, r: int, n: int)
    requires n > 0 && 0 <= r < n && x == q * n + r
    ensures x / n == q && x % n == r
  {
    var q', r' := x / n, x % n;
    assert x == q' * n + r';
    if q > q' {
      MulAtLeast(q - q', n);
      MulSub(q, q', n);
      assert false;
    } else if q < q' {
      MulAtLeast(q' - q, n);
      MulSub(q', q, n);
      assert false;
    }
  }

  lemma MulSub(a: int, b: int, n: int)
    ensures (a - b) * n == a * n - b * n
  {
  }

  lemma PosDivMod(stride: nat, row: nat, col: nat)
    requires col < stride
    ensures Pos(stride, row, col) / stride == row && Pos(stride, row, col) % stride == col
  {
    DivModUnique(Pos(stride, row, col), row, col, stride);
  }

  /** `Shr` is C's `>>` on a non-negative value: division by 2^n, rounding down. */
  lemma {:induction false} ShrIsDiv(v: nat, n: nat)
    ensures Shr(v, n) == v / Pow2(n)
  {
    if n > 0 {
      ShrIsDiv(v / 2, n - 1);
      var p, h := Pow2(n - 1), v / 2;
      var q, r := h / p, h % p;
      assert h == q * p + r;
      assert q * (2 * p) == 2 * (q * p);
      DivModUnique(v, q, 2 * r + v % 2, 2 * p);
    }
  }

  /** A sample of an earlier row lies before the start of a later row. */
  lemma RowBefore(stride: nat, r: nat, col: nat, y: nat)
    requires r < y && col < stride
    ensures Pos(stride, r, col) < Pos(stride, y, 0)
  {
    MulAtLeast(y - r, stride);
    assert stride * y - stride * r == (y - r) * stride;
  }

  /** The first `n <= stride` samples of row `y < rows` lie within the first `rows` rows. */
  lemma RowWithin(stride: nat, y: nat, n: nat, rows: nat)
    requires y < rows && n <= stride
    ensures Pos(stride, y, n) <= stride * rows
  {
    if stride > 0 {
      MulAtLeast(rows - y, stride);
      assert stride * rows - stride * y == (rows - y) * stride;
    }
  }

  lemma NextRow(stride: nat, y: nat)
    ensures Pos(stride, y, stride) == Pos(stride, y + 1, 0) == stride * y + stride
  {
  }

  lemma MulMono(s: nat, a: nat, b: nat)
    requires a <= b
    ensures s * a <= s * b
  {
    if a < b && s > 0 {
      MulAtLeast(b - a, s);
      assert s * b - s * a == (b - a) * s;
    }
  }

  /** A position below `w * h` is sample `i % w` of row `i / w`, with `i / w < h`. */
  lemma IndexAsPos(i: nat, w: nat, h: nat)
    requires i < w * h
    ensures w > 0 && i / w < h && i % w < w && i == Pos(w, i / w, i % w)
  {
    if w == 0 {
      assert false;
    }
    assert i == w * (i / w) + i % w;
    if i / w >= h {
      MulMono(w, h, i / w);
    }
  }

  /** A stride of 0 stands for the width. */
  function EffectiveStride(stride: nat, width: nat): (s: nat)
    ensures stride != 0 ==> s == stride
    ensures stride == 0 ==> s == width
  {
    if stride == 0 then width else stride
  }

  // ---------------------------------------------------------------------------
  // Planar 4:2:0 to NV12 (YUV420ToNV12)

  /** Row `y` of the source luma plane is copied verbatim into row `y` of the destination. */
  ghost predicate LumaCopied(d: seq<nat>, luma: seq<nat>, w: nat, h: nat, ss: nat, ds: nat) {
    forall y, i :: 0 <= y < h && 0 <= i < w ==>
      && Pos(ds, y, i) < |d| && Pos(ss, y, i) < |luma|
      && d[Pos(ds, y, i)] == luma[Pos(ss, y, i)]
  }

  /**
    Chroma row `y` of the destination (from offset `off`) alternates Cb and Cr:
    for each even `x < w`, position `x` holds Cb sample `x/2` and `x+1` holds
    Cr sample `x/2` of source chroma row `y`, whose rows are `ss/2` apart.
   */
  ghost predicate ChromaInterleaved(d: seq<nat>, cb: seq<nat>, cr: seq<nat>, off: nat, w: nat, h: nat, ss: nat, ds: nat) {
    forall y, x :: 0 <= y < h / 2 && 0 <= x < w && x % 2 == 0 ==>
      && off + Pos(ds, y, x) + 1 < |d|
      && Pos(ss / 2, y, x / 2) < |cb| && Pos(ss / 2, y, x / 2) < |cr|
      && d[off + Pos(ds, y, x)] == cb[Pos(ss / 2, y, x / 2)]
      && d[off + Pos(ds, y, x) + 1] == cr[Pos(ss / 2, y, x / 2)]
  }

  /** Position `j` lies in the first `w` samples of one of the first `rows` luma rows. */
  ghost predicate InLumaRows(j: nat, w: nat, rows: nat, ds: nat) {
    ds > 0 && j < ds * rows && j % ds < w
  }

  /** Position `j` lies in the first `w + w % 2` samples of one of the first `rows` chroma rows. */
  ghost predicate InChromaRows(j: nat, off: nat, w: nat, rows: nat, ds: nat) {
    ds > 0 && off <= j < off + ds * rows && (j - off) % ds < w + w % 2
  }

  /**
    What the conversion needs of its buffers: each destination row holds the
    `w` luma samples and the `w + w % 2` interleaved chroma samples, the
    chroma plane starts after the last luma row, and every sample read or
    written is inside its buffer.
   */
  ghost predicate Nv12Fits(lumaLen: nat, cbLen: nat, crLen: nat, dstLen: nat,
                           off: nat, w: nat, h: nat, ss: nat, ds: nat) {
    && w + w % 2 <= ds
    && ds * h <= off
    && off + ds * (h / 2) <= dstLen
    && (w > 0 && h > 0 ==> Pos(ss, h - 1, w) <= lumaLen)
    && (w > 0 && h / 2 > 0 ==> Pos(ss / 2, h / 2 - 1, (w - 1) / 2) < cbLen)
    && (w > 0 && h / 2 > 0 ==> Pos(ss / 2, h / 2 - 1, (w - 1) / 2) < crLen)
  }

  /** The memcpy of one row: `n` samples of row `y` of `src` into row `y` of `dst`. */
  method CopyRow(src: array<nat>, ss: nat, dst: array<nat>, ds: nat, y: nat, n: nat)
    requires src != dst
    requires n > 0 ==> Pos(ss, y, n) <= src.Length
    requires Pos(ds, y, n) <= dst.Length
    modifies dst
    ensures forall i :: 0 <= i < n ==> dst[Pos(ds, y, i)] == src[Pos(ss, y, i)]
    ensures forall j :: 0 <= j < dst.Length && !(Pos(ds, y, 0) <= j < Pos(ds, y, n)) ==> dst[j] == old(dst[j])
  {
    for i := 0 to n
      invariant forall k :: 0 <= k < i ==> dst[Pos(ds, y, k)] == src[Pos(ss, y, k)]
      invariant forall j :: 0 <= j < dst.Length && !(Pos(ds, y, 0) <= j < Pos(ds, y, i)) ==> dst[j] == old(dst[j])
    {
      dst[Pos(ds, y, i)] := src[Pos(ss, y, i)];
    }
  }

  /** One chroma row of YUV420ToNV12: Cb and Cr samples written alternately, two per step. */
  method InterleaveRow(cb: array<nat>, cr: array<nat>, cs: nat, dst: array<nat>, off: nat, ds: nat, y: nat, w: nat)
    requires dst != cb && dst != cr
    requires w > 0 ==> Pos(cs, y, (w - 1) / 2) < cb.Length && Pos(cs, y, (w - 1) / 2) < cr.Length
    requires off + Pos(ds, y, w + w % 2) <= dst.Length
    modifies dst
    ensures forall x :: 0 <= x < w && x % 2 == 0 ==>
              && dst[off + Pos(ds, y, x)] == cb[Pos(cs, y, x / 2)]
              && dst[off + Pos(ds, y, x) + 1] == cr[Pos(cs, y, x / 2)]
    ensures forall j :: 0 <= j < dst.Length && !(off + Pos(ds, y, 0) <= j < off + Pos(ds, y, w + w % 2)) ==>
              dst[j] == old(dst[j])
  {
    var x := 0;
    ghost var k := 0;
    while x < w
      invariant x == 2 * k && x <= w + w % 2
      invariant forall i :: 0 <= i < k ==>
                  && dst[off + Pos(ds, y, 2 * i)] == cb[Pos(cs, y, i)]
                  && dst[off + Pos(ds, y, 2 * i) + 1] == cr[Pos(cs, y, i)]
      invariant forall j :: 0 <= j < dst.Length && !(off + Pos(ds, y, 0) <= j < off + Pos(ds, y, x)) ==>
                  dst[j] == old(dst[j])
    {
      assert x / 2 == k;
      dst[off + Pos(ds, y, x)] := cb[Pos(cs, y, x / 2)];
      dst[off + Pos(ds, y, x) + 1] := cr[Pos(cs, y, x / 2)];
      x, k := x + 2, k + 1;
    }
    forall xx | 0 <= xx < w && xx % 2 == 0
      ensures && dst[off + Pos(ds, y, xx)] == cb[Pos(cs, y, xx / 2)]
              && dst[off + Pos(ds, y, xx) + 1] == cr[Pos(cs, y, xx / 2)]
    {
      assert xx == 2 * (xx / 2);
    }
  }

  /** The luma loop of YUV420ToNV12: `h` rows of `w` samples. */
  method CopyLumaPlane(luma: array<nat>, ss: nat, nv12: array<nat>, ds: nat, w: nat, h: nat)
    requires nv12 != luma
    requires w <= ds && ds * h <= nv12.Length
    requires w > 0 && h > 0 ==> Pos(ss, h - 1, w) <= luma.Length
    modifies nv12
    ensures forall r, i :: 0 <= r < h && 0 <= i < w ==>
              && Pos(ds, r, i) < nv12.Length && Pos(ss, r, i) < luma.Length
              && nv12[Pos(ds, r, i)] == luma[Pos(ss, r, i)]
    ensures forall j :: 0 <= j < nv12.Length && !InLumaRows(j, w, h, ds) ==> nv12[j] == old(nv12[j])
  {
    var y := 0;
    while y < h
      invariant 0 <= y <= h
      invariant forall r, i :: 0 <= r < y && 0 <= i < w ==>
                  && Pos(ds, r, i) < nv12.Length && Pos(ss, r, i) < luma.Length
                  && nv12[Pos(ds, r, i)] == luma[Pos(ss, r, i)]
      invariant forall j :: 0 <= j < nv12.Length && !InLumaRows(j, w, y, ds) ==> nv12[j] == old(nv12[j])
    {
      RowWithin(ds, y, w, h);
      if w > 0 {
        MulMono(ss, y, h - 1);
      }
      ghost var before := nv12[..];
      CopyRow(luma, ss, nv12, ds, y, w);
      forall r, i | 0 <= r < y && 0 <= i < w
        ensures && Pos(ds, r, i) < nv12.Length && Pos(ss, r, i) < luma.Length
                && nv12[Pos(ds, r, i)] == luma[Pos(ss, r, i)]
      {
        RowBefore(ds, r, i, y);
      }
      forall j | 0 <= j < nv12.Length && !InLumaRows(j, w, y + 1, ds)
        ensures nv12[j] == old(nv12[j])
      {
        NextRow(ds, y);
        if Pos(ds, y, 0) <= j < Pos(ds, y, w) {
          PosDivMod(ds, y, j - ds * y);
          assert false;
        }
        assert nv12[j] == before[j];
      }
      y := y + 1;
    }
  }

  /** The first `y` chroma rows from `off` hold Cb and Cr interleaved, Cb at the even columns. */
  ghost predicate ChromaRowsDone(d: seq<nat>, cb: seq<nat>, cr: seq<nat>, cs: nat, off: nat, ds: nat, w: nat, y: nat) {
    forall r, x :: 0 <= r < y && 0 <= x < w && x % 2 == 0 ==>
      && off + Pos(ds, r, x) + 1 < |d|
      && Pos(cs, r, x / 2) < |cb| && Pos(cs, r, x / 2) < |cr|
      && d[off + Pos(ds, r, x)] == cb[Pos(cs, r, x / 2)]
      && d[off + Pos(ds, r, x) + 1] == cr[Pos(cs, r, x / 2)]
  }

  /** Row `y` written on top of `y` finished rows, with nothing outside it changed, gives `y + 1` finished rows. */
  lemma ChromaRowAdded(d0: seq<nat>, d1: seq<nat>, cb: seq<nat>, cr: seq<nat>, cs: nat, off: nat, ds: nat, w: nat, y: nat)
    requires ChromaRowsDone(d0, cb, cr, cs, off, ds, w, y)
    requires w + w % 2 <= ds && |d1| == |d0| && off + Pos(ds, y, w + w % 2) <= |d1|
    requires forall x :: 0 <= x < w && x % 2 == 0 ==>
               && Pos(cs, y, x / 2) < |cb| && Pos(cs, y, x / 2) < |cr|
               && d1[off + Pos(ds, y, x)] == cb[Pos(cs, y, x / 2)]
               && d1[off + Pos(ds, y, x) + 1] == cr[Pos(cs, y, x / 2)]
    requires forall j :: 0 <= j < |d1| && !(off + Pos(ds, y, 0) <= j < off + Pos(ds, y, w + w % 2)) ==> d1[j] == d0[j]
    ensures ChromaRowsDone(d1, cb, cr, cs, off, ds, w, y + 1)
  {
    forall r, x | 0 <= r < y + 1 && 0 <= x < w && x % 2 == 0
      ensures && off + Pos(ds, r, x) + 1 < |d1|
              && Pos(cs, r, x / 2) < |cb| && Pos(cs, r, x / 2) < |cr|
              && d1[off + Pos(ds, r, x)] == cb[Pos(cs, r, x / 2)]
              && d1[off + Pos(ds, r, x) + 1] == cr[Pos(cs, r, x / 2)]
    {
      if r < y {
        RowBefore(ds, r, x + 1, y);
      } else {
        assert x + 1 < w + w % 2;
      }
    }
  }

  /** Changing only row `y` keeps every sample outside the first `y + 1` chroma rows at its original value. */
  lemma ChromaFrameAdded(d0: seq<nat>, d1: seq<nat>, orig: seq<nat>, off: nat, ds: nat, w: nat, y: nat)
    requires |d0| == |d1| == |orig| && w + w % 2 <= ds
    requires forall j :: 0 <= j < |d0| && !InChromaRows(j, off, w, y, ds) ==> d0[j] == orig[j]
    requires forall j :: 0 <= j < |d1| && !(off + Pos(ds, y, 0) <= j < off + Pos(ds, y, w + w % 2)) ==> d1[j] == d0[j]
    ensures forall j :: 0 <= j < |d1| && !InChromaRows(j, off, w, y + 1, ds) ==> d1[j] == orig[j]
  {
    forall j | 0 <= j < |d1| && !InChromaRows(j, off, w, y + 1, ds)
      ensures d1[j] == orig[j]
    {
      NextRow(ds, y);
      if off + Pos(ds, y, 0) <= j < off + Pos(ds, y, w + w % 2) {
        PosDivMod(ds, y, j - off - ds * y);
        assert false;
      }
    }
  }

  /** The chroma loop of YUV420ToNV12: `rows` interleaved rows starting at `off`. */
  method InterleaveChromaPlane(cb: array<nat>, cr: array<nat>, cs: nat, nv12: array<nat>, off: nat,
                               ds: nat, w: nat, rows: nat)
    requires nv12 != cb && nv12 != cr
    requires w + w % 2 <= ds && off + ds * rows <= nv12.Length
    requires w > 0 && rows > 0 ==> Pos(cs, rows - 1, (w - 1) / 2) < cb.Length
    requires w > 0 && rows > 0 ==> Pos(cs, rows - 1, (w - 1) / 2) < cr.Length
    modifies nv12
    ensures forall r, x :: 0 <= r < rows && 0 <= x < w && x % 2 == 0 ==>
              && off + Pos(ds, r, x) + 1 < nv12.Length
              && Pos(cs, r, x / 2) < cb.Length && Pos(cs, r, x / 2) < cr.Length
              && nv12[off + Pos(ds, r, x)] == cb[Pos(cs, r, x / 2)]
              && nv12[off + Pos(ds, r, x) + 1] == cr[Pos(cs, r, x / 2)]
    ensures forall j :: 0 <= j < nv12.Length && !InChromaRows(j, off, w, rows, ds) ==> nv12[j] == old(nv12[j])
  {
    var y := 0;
    while y < rows
      invariant 0 <= y <= rows
      invariant ChromaRowsDone(nv12[..], cb[..], cr[..], cs, off, ds, w, y)
      invariant forall j :: 0 <= j < nv12.Length && !InChromaRows(j, off, w, y, ds) ==> nv12[j] == old(nv12[j])
    {
      RowWithin(ds, y, w + w % 2, rows);
      if w > 0 {
        MulMono(cs, y, rows - 1);
      }
      ghost var before := nv12[..];
      InterleaveRow(cb, cr, cs, nv12, off, ds, y, w);
      ChromaRowAdded(before, nv12[..], cb[..], cr[..], cs, off, ds, w, y);
      ChromaFrameAdded(before, nv12[..], old(nv12[..]), off, ds, w, y);
      y := y + 1;
    }
  }

  /**
    YUV420ToNV12: writes the luma rows and the interleaved chroma rows of the
    NV12 surface `nv12` (chroma plane at `chromaOffset`) and nothing else. A
    zero stride stands for the width.
   */
  method Yuv420ToNv12(yuvLuma: array<nat>, yuvCb: array<nat>, yuvCr: array<nat>,
                      nv12: array<nat>, chromaOffset: nat,
                      width: nat, height: nat, srcStride: nat, dstStride: nat)
    requires nv12 != yuvLuma && nv12 != yuvCb && nv12 != yuvCr
    requires Nv12Fits(yuvLuma.Length, yuvCb.Length, yuvCr.Length, nv12.Length, chromaOffset, width, height,
                      EffectiveStride(srcStride, width), EffectiveStride(dstStride, width))
    modifies nv12
    ensures LumaCopied(nv12[..], yuvLuma[..], width, height,
                       EffectiveStride(srcStride, width), EffectiveStride(dstStride, width))
    ensures ChromaInterleaved(nv12[..], yuvCb[..], yuvCr[..], chromaOffset, width, height,
                              EffectiveStride(srcStride, width), EffectiveStride(dstStride, width))
    ensures forall j :: 0 <= j < nv12.Length
                        && !InLumaRows(j, width, height, EffectiveStride(dstStride, width))
                        && !InChromaRows(j, chromaOffset, width, height / 2, EffectiveStride(dstStride, width)) ==>
              nv12[j] == old(nv12[j])
  {
    var ss := EffectiveStride(srcStride, width);
    var ds := EffectiveStride(dstStride, width);
    CopyLumaPlane(yuvLuma, ss, nv12, ds, width, height);
    ghost var afterLuma := nv12[..];
    assert LumaCopied(afterLuma, yuvLuma[..], width, height, ss, ds);
    InterleaveChromaPlane(yuvCb, yuvCr, ss / 2, nv12, chromaOffset, ds, width, height / 2);
    assert ChromaInterleaved(nv12[..], yuvCb[..], yuvCr[..], chromaOffset, width, height, ss, ds);
    forall r, i | 0 <= r < height && 0 <= i < width
      ensures Pos(ds, r, i) < chromaOffset && nv12[Pos(ds, r, i)] == afterLuma[Pos(ds, r, i)]
    {
      RowWithin(ds, r, i + 1, height);
    }
  }

  // ---------------------------------------------------------------------------
  // NV12 (or P016) to planar (TransferToYUV)

  /** The right shift applied to every sample: none at 8 bits, else 8 - bit_depth_minus8. */
  function ShiftFor(bitDepthMinus8: nat): (rsh: nat)
    requires bitDepthMinus8 <= 8
    ensures bitDepthMinus8 == 0 ==> rsh == 0
    ensures bitDepthMinus8 != 0 ==> rsh + bitDepthMinus8 == 8
  {
    if bitDepthMinus8 != 0 then 8 - bitDepthMinus8 else 0
  }

  /** Luma sample (y, x) of the dense `w`-wide plane is source sample (y, x) shifted right. */
  ghost predicate LumaShifted(dstY: seq<nat>, src: seq<nat>, w: nat, h: nat, p: nat, rsh: nat) {
    forall y, x :: 0 <= y < h && 0 <= x < w ==>
      && Pos(w, y, x) < |dstY| && Pos(p, y, x) < |src|
      && dstY[Pos(w, y, x)] == Shr(src[Pos(p, y, x)], rsh)
  }

  /**
    Chroma sample (y, x) of the dense `w2`-wide U and V planes is the even and
    the odd sample at 2x of interleaved row y (starting at `cs`), shifted right.
   */
  ghost predicate ChromaDeinterleaved(dstU: seq<nat>, dstV: seq<nat>, src: seq<nat>,
                                      cs: nat, w2: nat, h2: nat, p: nat, rsh: nat) {
    forall y, x :: 0 <= y < h2 && 0 <= x < w2 ==>
      && Pos(w2, y, x) < |dstU| && Pos(w2, y, x) < |dstV| && cs + Pos(p, y, 2 * x) + 1 < |src|
      && dstU[Pos(w2, y, x)] == Shr(src[cs + Pos(p, y, 2 * x)], rsh)
      && dstV[Pos(w2, y, x)] == Shr(src[cs + Pos(p, y, 2 * x) + 1], rsh)
  }

  /**
    What TransferToYUV needs of its buffers (sizes in samples): the planar
    outputs hold w*h and (w/2)*(h/2) samples, and every source sample read,
    luma rows `p` apart and chroma rows from `cs`, is inside the source.
   */
  ghost predicate TransferFits(srcLen: nat, yLen: nat, uLen: nat, vLen: nat,
                               w: nat, h: nat, p: nat, cs: nat) {
    && w * h <= yLen
    && (w / 2) * (h / 2) <= uLen
    && (w / 2) * (h / 2) <= vLen
    && (w > 0 && h > 0 ==> Pos(p, h - 1, w) <= srcLen)
    && (w / 2 > 0 && h / 2 > 0 ==> cs + Pos(p, h / 2 - 1, 2 * (w / 2)) <= srcLen)
  }

  /** One luma row of TransferToYUV. */
  method ShiftRow(src: array<nat>, ss: nat, dst: array<nat>, ds: nat, y: nat, n: nat, rsh: nat)
    requires src != dst
    requires n > 0 ==> Pos(ss, y, n) <= src.Length
    requires Pos(ds, y, n) <= dst.Length
    modifies dst
    ensures forall x :: 0 <= x < n ==> dst[Pos(ds, y, x)] == Shr(src[Pos(ss, y, x)], rsh)
    ensures forall j :: 0 <= j < dst.Length && !(Pos(ds, y, 0) <= j < Pos(ds, y, n)) ==> dst[j] == old(dst[j])
  {
    for x := 0 to n
      invariant forall k :: 0 <= k < x ==> dst[Pos(ds, y, k)] == Shr(src[Pos(ss, y, k)], rsh)
      invariant forall j :: 0 <= j < dst.Length && !(Pos(ds, y, 0) <= j < Pos(ds, y, x)) ==> dst[j] == old(dst[j])
    {
      dst[Pos(ds, y, x)] := Shr(src[Pos(ss, y, x)], rsh);
    }
  }

  /** One chroma row of TransferToYUV: even samples to U, odd samples to V. */
  method DeinterleaveRow(src: array<nat>, cs: nat, p: nat, dstU: array<nat>, dstV: array<nat>,
                         w2: nat, y: nat, rsh: nat)
    requires src != dstU && src != dstV && dstU != dstV
    requires w2 > 0 ==> cs + Pos(p, y, 2 * w2) <= src.Length
    requires Pos(w2, y, w2) <= dstU.Length && Pos(w2, y, w2) <= dstV.Length
    modifies dstU, dstV
    ensures forall x :: 0 <= x < w2 ==>
              && dstU[Pos(w2, y, x)] == Shr(src[cs + Pos(p, y, 2 * x)], rsh)
              && dstV[Pos(w2, y, x)] == Shr(src[cs + Pos(p, y, 2 * x) + 1], rsh)
    ensures forall j :: 0 <= j < dstU.Length && !(Pos(w2, y, 0) <= j < Pos(w2, y, w2)) ==> dstU[j] == old(dstU[j])
    ensures forall j :: 0 <= j < dstV.Length && !(Pos(w2, y, 0) <= j < Pos(w2, y, w2)) ==> dstV[j] == old(dstV[j])
  {
    for x := 0 to w2
      invariant forall k :: 0 <= k < x ==>
                  && dstU[Pos(w2, y, k)] == Shr(src[cs + Pos(p, y, 2 * k)], rsh)
                  && dstV[Pos(w2, y, k)] == Shr(src[cs + Pos(p, y, 2 * k) + 1], rsh)
      invariant forall j :: 0 <= j < dstU.Length && !(Pos(w2, y, 0) <= j < Pos(w2, y, x)) ==> dstU[j] == old(dstU[j])
      invariant forall j :: 0 <= j < dstV.Length && !(Pos(w2, y, 0) <= j < Pos(w2, y, x)) ==> dstV[j] == old(dstV[j])
    {
      dstU[Pos(w2, y, x)] := Shr(src[cs + Pos(p, y, 2 * x)], rsh);
      dstV[Pos(w2, y, x)] := Shr(src[cs + Pos(p, y, 2 * x) + 1], rsh);
    }
  }

  /** The luma loop of TransferToYUV: `h` rows of `w` samples, source rows `p` apart. */
  method ShiftLumaPlane(src: array<nat>, p: nat, dstY: array<nat>, w: nat, h: nat, rsh: nat)
    requires src != dstY
    requires w * h <= dstY.Length
    requires w > 0 && h > 0 ==> Pos(p, h - 1, w) <= src.Length
    modifies dstY
    ensures forall r, x :: 0 <= r < h && 0 <= x < w ==>
              && Pos(w, r, x) < dstY.Length && Pos(p, r, x) < src.Length
              && dstY[Pos(w, r, x)] == Shr(src[Pos(p, r, x)], rsh)
    ensures forall j :: w * h <= j < dstY.Length ==> dstY[j] == old(dstY[j])
  {
    var y := 0;
    while y < h
      invariant 0 <= y <= h
      invariant forall r, x :: 0 <= r < y && 0 <= x < w ==>
                  && Pos(w, r, x) < dstY.Length && Pos(p, r, x) < src.Length
                  && dstY[Pos(w, r, x)] == Shr(src[Pos(p, r, x)], rsh)
      invariant forall j :: Pos(w, y, 0) <= j < dstY.Length ==> dstY[j] == old(dstY[j])
    {
      RowWithin(w, y, w, h);
      if w > 0 {
        MulMono(p, y, h - 1);
      }
      ShiftRow(src, p, dstY, w, y, w, rsh);
      forall r, x | 0 <= r < y && 0 <= x < w
        ensures dstY[Pos(w, r, x)] == Shr(src[Pos(p, r, x)], rsh)
      {
        RowBefore(w, r, x, y);
      }
      NextRow(w, y);
      y := y + 1;
    }
  }

  /** The chroma loop of TransferToYUV: `h2` rows of `w2` sample pairs from offset `cs`. */
  method SplitChromaPlane(src: array<nat>, cs: nat, p: nat, dstU: array<nat>, dstV: array<nat>,
                          w2: nat, h2: nat, rsh: nat)
    requires src != dstU && src != dstV && dstU != dstV
    requires w2 * h2 <= dstU.Length && w2 * h2 <= dstV.Length
    requires w2 > 0 && h2 > 0 ==> cs + Pos(p, h2 - 1, 2 * w2) <= src.Length
    modifies dstU, dstV
    ensures forall r, x :: 0 <= r < h2 && 0 <= x < w2 ==>
              && Pos(w2, r, x) < dstU.Length && Pos(w2, r, x) < dstV.Length
              && cs + Pos(p, r, 2 * x) + 1 < src.Length
              && dstU[Pos(w2, r, x)] == Shr(src[cs + Pos(p, r, 2 * x)], rsh)
              && dstV[Pos(w2, r, x)] == Shr(src[cs + Pos(p, r, 2 * x) + 1], rsh)
    ensures forall j :: w2 * h2 <= j < dstU.Length ==> dstU[j] == old(dstU[j])
    ensures forall j :: w2 * h2 <= j < dstV.Length ==> dstV[j] == old(dstV[j])
  {
    var y := 0;
    while y < h2
      invariant 0 <= y <= h2
      invariant forall r, x :: 0 <= r < y && 0 <= x < w2 ==>
                  && Pos(w2, r, x) < dstU.Length && Pos(w2, r, x) < dstV.Length
                  && cs + Pos(p, r, 2 * x) + 1 < src.Length
                  && dstU[Pos(w2, r, x)] == Shr(src[cs + Pos(p, r, 2 * x)], rsh)
                  && dstV[Pos(w2, r, x)] == Shr(src[cs + Pos(p, r, 2 * x) + 1], rsh)
      invariant forall j :: Pos(w2, y, 0) <= j < dstU.Length ==> dstU[j] == old(dstU[j])
      invariant forall j :: Pos(w2, y, 0) <= j < dstV.Length ==> dstV[j] == old(dstV[j])
    {
      RowWithin(w2, y, w2, h2);
      if w2 > 0 {
        MulMono(p, y, h2 - 1);
      }
      DeinterleaveRow(src, cs, p, dstU, dstV, w2, y, rsh);
      forall r, x | 0 <= r < y && 0 <= x < w2
        ensures && dstU[Pos(w2, r, x)] == Shr(src[cs + Pos(p, r, 2 * x)], rsh)
                && dstV[Pos(w2, r, x)] == Shr(src[cs + Pos(p, r, 2 * x) + 1], rsh)
      {
        RowBefore(w2, r, x, y);
      }
      NextRow(w2, y);
      y := y + 1;
    }
  }

  /**
    TransferToYUV<T>: de-interleaves a semi-planar surface of `elemSize`-byte
    samples (`pitch` bytes per row, chroma plane at byte height*pitch) into
    dense Y, U and V planes, shifting every sample right by ShiftFor, and
    writes nothing past the planes' sizes.
   */
  method TransferToYuv(src: array<nat>, dstY: array<nat>, dstU: array<nat>, dstV: array<nat>,
                       width: nat, height: nat, pitch: nat, elemSize: nat, bitDepthMinus8: nat)
    requires elemSize == 1 || elemSize == 2
    requires bitDepthMinus8 <= 8
    requires src != dstY && src != dstU && src != dstV && dstY != dstU && dstY != dstV && dstU != dstV
    requires TransferFits(src.Length, dstY.Length, dstU.Length, dstV.Length, width, height,
                          pitch / elemSize, height * pitch / elemSize)
    modifies dstY, dstU, dstV
    ensures LumaShifted(dstY[..], src[..], width, height, pitch / elemSize, ShiftFor(bitDepthMinus8))
    ensures ChromaDeinterleaved(dstU[..], dstV[..], src[..], height * pitch / elemSize, width / 2, height / 2,
                                pitch / elemSize, ShiftFor(bitDepthMinus8))
    ensures forall j :: width * height <= j < dstY.Length ==> dstY[j] == old(dstY[j])
    ensures forall j :: (width / 2) * (height / 2) <= j < dstU.Length ==> dstU[j] == old(dstU[j])
    ensures forall j :: (width / 2) * (height / 2) <= j < dstV.Length ==> dstV[j] == old(dstV[j])
  {
    var p := pitch / elemSize;
    var cs := height * pitch / elemSize;
    var rsh := ShiftFor(bitDepthMinus8);
    ShiftLumaPlane(src, p, dstY, width, height, rsh);
    SplitChromaPlane(src, cs, p, dstU, dstV, width / 2, height / 2, rsh);
    assert LumaShifted(dstY[..], src[..], width, height, p, rsh);
    assert ChromaDeinterleaved(dstU[..], dstV[..], src[..], cs, width / 2, height / 2, p, rsh);
  }

  // ---------------------------------------------------------------------------
  // Properties of the pair

  /** The luma half of the round trip. */
  lemma LumaRoundTrip(luma: seq<nat>, surface: seq<nat>, planeY: seq<nat>, w: nat, h: nat, pitch: nat)
    requires |luma| == w * h && |planeY| >= w * h
    requires LumaCopied(surface, luma, w, h, w, pitch)
    requires LumaShifted(planeY, surface, w, h, pitch, 0)
    ensures planeY[..w * h] == luma
  {
    forall i | 0 <= i < w * h
      ensures planeY[i] == luma[i]
    {
      IndexAsPos(i, w, h);
      var y, x := i / w, i % w;
      assert planeY[Pos(w, y, x)] == Shr(surface[Pos(pitch, y, x)], 0);
    }
  }

  /** The chroma half of the round trip, for an even width and height. */
  lemma ChromaRoundTrip(cb: seq<nat>, cr: seq<nat>, surface: seq<nat>, planeU: seq<nat>, planeV: seq<nat>,
                        w: nat, h: nat, pitch: nat)
    requires w % 2 == 0 && h % 2 == 0
    requires |cb| == (w / 2) * (h / 2) && |cr| == (w / 2) * (h / 2)
    requires |planeU| >= (w / 2) * (h / 2) && |planeV| >= (w / 2) * (h / 2)
    requires ChromaInterleaved(surface, cb, cr, h * pitch, w, h, w, pitch)
    requires ChromaDeinterleaved(planeU, planeV, surface, h * pitch, w / 2, h / 2, pitch, 0)
    ensures planeU[..(w / 2) * (h / 2)] == cb
    ensures planeV[..(w / 2) * (h / 2)] == cr
  {
    var w2, h2 := w / 2, h / 2;
    forall i | 0 <= i < w2 * h2
      ensures planeU[i] == cb[i] && planeV[i] == cr[i]
    {
      IndexAsPos(i, w2, h2);
      var y, x := i / w2, i % w2;
      assert (2 * x) / 2 == x && (2 * x) % 2 == 0;
      assert planeU[Pos(w2, y, x)] == Shr(surface[h * pitch + Pos(pitch, y, 2 * x)], 0);
      assert planeV[Pos(w2, y, x)] == Shr(surface[h * pitch + Pos(pitch, y, 2 * x) + 1], 0);
    }
  }

  /**
    Round trip: an 8-bit frame of even width and height, with luma rows
    `w` apart and chroma rows `w/2` apart, converted into a surface of any
    pitch with its chroma plane at height*pitch, then converted back with
    no shift, gives back all three planes exactly.
   */
  lemma {:induction false} Nv12RoundTrip(luma: seq<nat>, cb: seq<nat>, cr: seq<nat>, surface: seq<nat>,
                                         planeY: seq<nat>, planeU: seq<nat>, planeV: seq<nat>,
                                         w: nat, h: nat, pitch: nat)
    requires w % 2 == 0 && h % 2 == 0
    requires |luma| == w * h && |cb| == (w / 2) * (h / 2) && |cr| == (w / 2) * (h / 2)
    requires |planeY| >= w * h && |planeU| >= (w / 2) * (h / 2) && |planeV| >= (w / 2) * (h / 2)
    requires LumaCopied(surface, luma, w, h, w, pitch)
    requires ChromaInterleaved(surface, cb, cr, h * pitch, w, h, w, pitch)
    requires LumaShifted(planeY, surface, w, h, pitch, 0)
    requires ChromaDeinterleaved(planeU, planeV, surface, h * pitch, w / 2, h / 2, pitch, 0)
    ensures planeY[..w * h] == luma
    ensures planeU[..(w / 2) * (h / 2)] == cb
    ensures planeV[..(w / 2) * (h / 2)] == cr
  {
    LumaRoundTrip(luma, surface, planeY, w, h, pitch);
    ChromaRoundTrip(cb, cr, surface, planeU, planeV, w, h, pitch);
  }

  /**
    At high bit depth the samples are stored most-significant-bit aligned:
    the shift drops exactly the padding bits below the sample, so the sample
    value comes back unchanged whatever those bits hold.
   */
  lemma HighBitDepthShiftKeepsSample(v: nat, padding: nat, bitDepthMinus8: nat)
    requires 0 < bitDepthMinus8 <= 8
    requires padding < Pow2(ShiftFor(bitDepthMinus8))
    ensures Shr(Shl(v, ShiftFor(bitDepthMinus8)) + padding, ShiftFor(bitDepthMinus8)) == v
  {
    ShrUndoesShl(v, padding, ShiftFor(bitDepthMinus8));
  }
}
