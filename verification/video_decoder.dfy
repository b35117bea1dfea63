/**
  The decoder side (NvVideoDecoder): the parser's sequence callback decides
  whether the committed decoder still fits the stream and otherwise rebuilds
  its create-info, with a codec-specific decode-surface count; the display
  callback turns each decoded picture into a VideoRawData for the user,
  carrying the pts queued when its packet came in (the parser is handed
  timestamp 0, so the pts travel beside it in a FIFO).

  The CUDA and NVCUVID calls are parameters: whether the context, the parser
  or the decoder could be created, what mapping a picture gives (device
  address and pitch) and whether a host allocation of a given size succeeds.
  The parser's callbacks are the methods HandleVideoSequence,
  HandlePictureDisplay and PictureDecodeResult, called by the environment.
 */
module NvVideoDecoder {
  import opened Wrappers
  import opened CInt
  import opened MediaDef
  import opened TimestampRelay

  // ---------------------------------------------------------------------------
  // Driver-side records

  /**
    cudaVideoCodec: the codecs the surface-count policy names, and every
    other codec by its enumerator value. `CudaOther` never carries the value
    of one of the five named codecs, so each codec has one representation
    and IsDecoderFitting compares codecs as the driver's enum does.
   */
  datatype CudaCodec = CudaH264 | CudaH264Svc | CudaH264Mvc | CudaVp9 | CudaHevc | CudaOther(id: nat)

  /** cudaVideoSurfaceFormat: 8-bit NV12 or 16-bit P016. */
  datatype SurfaceFormat = Nv12Surface | P016Surface

  /** A display area: int edges in the stream format, short edges in the create-info. */
  datatype Rect = Rect(left: int, top: int, right: int, bottom: int)

  /** CUVIDEOFORMAT, the fields the sequence callback reads. */
  datatype VideoFormat = VideoFormat(
    codec: CudaCodec,
    codedWidth: nat,
    codedHeight: nat,
    chromaFormat: int,
    bitDepthChromaMinus8: nat,
    displayArea: Rect)

  /**
    CUVIDDECODECREATEINFO, the fields the sequence callback sets from the
    stream (the deinterlace mode, creation flags and context lock it sets to
    constants are only carried to the driver).
   */
  datatype CreateInfo = CreateInfo(
    codec: CudaCodec,
    width: nat,
    height: nat,
    numDecodeSurfaces: nat,
    chromaFormat: int,
    outputFormat: SurfaceFormat,
    bitDepthMinus8: nat,
    targetWidth: nat,
    targetHeight: nat,
    displayArea: Rect,
    numOutputSurfaces: nat)

  /** CUVIDPARSERDISPINFO: one decoded picture ready for display. */
  datatype DisplayInfo = DisplayInfo(pictureIndex: int, progressiveFrame: int, topFieldFirst: int, repeatFirstField: int)

  /** CUVIDPROCPARAMS, the fields set before mapping a picture. */
  datatype ProcParams = ProcParams(progressiveFrame: int, topFieldFirst: int, unpairedField: bool, secondField: int)

  /** What mapping a picture hands back: its device address and its pitch in bytes. */
  datatype MappedFrame = MappedFrame(deviceptr: nat, pitch: nat)

  /**
    The device as far as frame output sees it: the mapping of a picture
    (by index and processing parameters) and whether a page-locked host
    allocation of a given byte count succeeds.
   */
  datatype Device = Device(mapFrame: (int, ProcParams) -> MappedFrame, alloc: int -> bool)

  datatype PacketFlag = TimestampFlag | EndOfStreamFlag

  /** CUVIDSOURCEDATAPACKET: what is handed to the parser. */
  datatype Packet = Packet(hasPayload: bool, payloadSize: int, flag: PacketFlag, timestamp: int)

  // ---------------------------------------------------------------------------
  // Start: codec of the parser

  /** The parser codec for the user's codec: H264 and HEVC only. */
  function ParserCodec(codec: VideoCodec): (c: Option<CudaCodec>)
    ensures c == Some(CudaH264) <==> codec == H264
    ensures c == Some(CudaHevc) <==> codec == HEVC
    ensures c.None? <==> codec == NoCodec
  {
    match codec
    case H264 => Some(CudaH264)
    case HEVC => Some(CudaHevc)
    case NoCodec => None
  }

  // ---------------------------------------------------------------------------
  // Sequence callback: fitting and rebuild

  /** The output surface format for a stream: P016 for any chroma bit depth above 8. */
  function OutputFormatFor(bitDepthChromaMinus8: nat): (f: SurfaceFormat)
    ensures f == P016Surface <==> bitDepthChromaMinus8 != 0
  {
    if bitDepthChromaMinus8 != 0 then P016Surface else Nv12Surface
  }

  /** The display width as an unsigned long: the int difference right - left, converted. */
  function CroppedWidth(area: Rect): (w: nat)
    ensures w < TWO_64
    ensures 0 <= area.right - area.left < TWO_31 ==> w == area.right - area.left
  {
    ULong(Int32(area.right - area.left))
  }

  /** The display height as an unsigned long: the int difference bottom - top, converted. */
  function CroppedHeight(area: Rect): (h: nat)
    ensures h < TWO_64
    ensures 0 <= area.bottom - area.top < TWO_31 ==> h == area.bottom - area.top
  {
    ULong(Int32(area.bottom - area.top))
  }

  /**
    IsDecoderFitting: the committed decoder can go on decoding the stream when
    codec, coded size, chroma format, bit depth, cropped size and output
    format all agree.
   */
  predicate IsDecoderFitting(info: CreateInfo, format: VideoFormat)
    ensures IsDecoderFitting(info, format) ==> (info.outputFormat == P016Surface <==> info.bitDepthMinus8 != 0)
    ensures IsDecoderFitting(info, format) ==> info.targetWidth < TWO_64 && info.targetHeight < TWO_64
    ensures format.codec != info.codec || format.codedWidth != info.width || format.codedHeight != info.height ==>
              !IsDecoderFitting(info, format)
  {
    && format.codec == info.codec
    && format.codedWidth == info.width
    && format.codedHeight == info.height
    && format.chromaFormat == info.chromaFormat
    && format.bitDepthChromaMinus8 == info.bitDepthMinus8
    && CroppedWidth(format.displayArea) == info.targetWidth
    && CroppedHeight(format.displayArea) == info.targetHeight
    && OutputFormatFor(format.bitDepthChromaMinus8) == info.outputFormat
  }

  /** The create-info fields IsDecoderFitting compares. */
  function Compared(info: CreateInfo): (CudaCodec, nat, nat, int, nat, nat, nat, SurfaceFormat) {
    (info.codec, info.width, info.height, info.chromaFormat, info.bitDepthMinus8,
     info.targetWidth, info.targetHeight, info.outputFormat)
  }

  /** The stream fields IsDecoderFitting reads, as the create-info would hold them. */
  function Demanded(format: VideoFormat): (CudaCodec, nat, nat, int, nat, nat, nat) {
    (format.codec, format.codedWidth, format.codedHeight, format.chromaFormat, format.bitDepthChromaMinus8,
     CroppedWidth(format.displayArea), CroppedHeight(format.displayArea))
  }

  /** Level 6.2 luma picture-size limit (ITU-T H.265, table A.8). */
  const MAX_LUMA_PS: int := 35651584
  /** maxDpbPicBuf for the general profiles (ITU-T H.265, section A.4.2). */
  const MAX_DPB_PIC_BUF: int := 6
  /** Decode surfaces kept beyond the DPB for the pipeline. */
  const EXTRA_DECODE_SURFACES: int := 4

  /** PicSizeInSamplesY as computed: the unsigned long product of the coded sizes, converted to int. */
  function PicSizeInSamples(width: nat, height: nat): (p: int)
    ensures -TWO_31 <= p < TWO_31
    ensures width * height < TWO_31 ==> p == width * height
  {
    Int32(ULong(width * height))
  }

  /**
    MaxDpbSize as the sequence callback derives it: the tier for the picture
    size (quarter, half, three quarters of MAX_LUMA_PS, or above), capped at 16.
    The `>> 2` and `>> 1` of the source are the divisions of a positive int.
   */
  function HevcMaxDpbSize(picSize: int): (n: int)
    ensures n == 16 || n == 12 || n == 8 || n == 6
  {
    var tier :=
      if picSize <= MAX_LUMA_PS / 4 then MAX_DPB_PIC_BUF * 4
      else if picSize <= MAX_LUMA_PS / 2 then MAX_DPB_PIC_BUF * 2
      else if picSize <= (3 * MAX_LUMA_PS) / 4 then (MAX_DPB_PIC_BUF * 4) / 3
      else MAX_DPB_PIC_BUF;
    if tier < 16 then tier else 16
  }

  function Min(a: int, b: int): int { if a < b then a else b }

  /** maxDpbSize of ITU-T H.265 section A.4.2, for a level's MaxLumaPs and maxDpbPicBuf. */
  function AnnexMaxDpbSize(picSizeInSamplesY: int, maxLumaPs: nat, maxDpbPicBuf: nat): (n: int)
    ensures n <= 16 || n == maxDpbPicBuf
  {
    if picSizeInSamplesY <= maxLumaPs / 4 then Min(4 * maxDpbPicBuf, 16)
    else if picSizeInSamplesY <= maxLumaPs / 2 then Min(2 * maxDpbPicBuf, 16)
    else if picSizeInSamplesY <= (3 * maxLumaPs) / 4 then Min((4 * maxDpbPicBuf) / 3, 16)
    else maxDpbPicBuf
  }

  /** The decode-surface count for a codec and coded size: 20 for H264, 12 for VP9, DPB + 4 for HEVC, else 8. */
  function DecodeSurfaces(codec: CudaCodec, width: nat, height: nat): (n: nat)
    ensures codec.CudaH264? || codec.CudaH264Svc? || codec.CudaH264Mvc? ==> n == 20
    ensures codec.CudaVp9? ==> n == 12
    ensures codec.CudaOther? ==> n == 8
    ensures codec.CudaHevc? ==> n == 20 || n == 16 || n == 12 || n == 10
  {
    match codec
    case CudaH264 | CudaH264Svc | CudaH264Mvc => 20
    case CudaVp9 => 12
    case CudaHevc => HevcMaxDpbSize(PicSizeInSamples(width, height)) + EXTRA_DECODE_SURFACES
    case CudaOther(_) => 8
  }

  /**
    The create-info a rebuild commits for a stream: its codec, coded size,
    chroma format and bit depth, the output format for that depth, the
    cropped size, a display rect (0, 0, width, height) in shorts, the decode
    surfaces of the codec policy and 2 output surfaces.
   */
  function RebuildInfo(format: VideoFormat): (info: CreateInfo)
    ensures IsDecoderFitting(info, format)
    ensures info.numDecodeSurfaces == DecodeSurfaces(format.codec, format.codedWidth, format.codedHeight)
    ensures info.numOutputSurfaces == 2
    ensures info.displayArea == Rect(0, 0, Short(info.targetWidth), Short(info.targetHeight))
  {
    var tw := CroppedWidth(format.displayArea);
    var th := CroppedHeight(format.displayArea);
    CreateInfo(
      format.codec, format.codedWidth, format.codedHeight,
      DecodeSurfaces(format.codec, format.codedWidth, format.codedHeight),
      format.chromaFormat, OutputFormatFor(format.bitDepthChromaMinus8), format.bitDepthChromaMinus8,
      tw, th, Rect(0, 0, Short(tw), Short(th)), 2)
  }

  /** The committed decoder fits a stream exactly when it agrees, field for field, with the rebuild for that stream. */
  lemma FitsIffAgreesWithRebuild(info: CreateInfo, format: VideoFormat)
    ensures IsDecoderFitting(info, format) <==> Compared(info) == Compared(RebuildInfo(format))
  {
  }

  /**
    A decoder rebuilt for one stream is kept for another exactly when the two
    agree on every compared field: a change of any of them forces a rebuild.
   */
  lemma RebuiltDecoderFits(f: VideoFormat, g: VideoFormat)
    ensures IsDecoderFitting(RebuildInfo(f), g) <==> Demanded(f) == Demanded(g)
  {
  }

  /** The HEVC tiers and cap are those of section A.4.2 with MaxLumaPs of level 6.2 and maxDpbPicBuf 6. */
  lemma HevcMaxDpbSizeIsAnnex(picSize: int)
    ensures HevcMaxDpbSize(picSize) == AnnexMaxDpbSize(picSize, MAX_LUMA_PS, MAX_DPB_PIC_BUF)
  {
  }

  /** A larger picture never gets more DPB pictures. */
  lemma HevcMaxDpbSizeNonIncreasing(p: int, q: int)
    requires p <= q
    ensures HevcMaxDpbSize(p) >= HevcMaxDpbSize(q)
  {
  }

  /**
    For HEVC the decode surfaces are the DPB of section A.4.2 plus 4, and they
    do not grow with the picture, as long as the product of the coded sizes
    fits an int.
   */
  lemma {:induction false} HevcSurfacesFollowPictureSize(w1: nat, h1: nat, w2: nat, h2: nat)
    requires w1 * h1 <= w2 * h2 < TWO_31
    ensures DecodeSurfaces(CudaHevc, w1, h1) == AnnexMaxDpbSize(w1 * h1, MAX_LUMA_PS, MAX_DPB_PIC_BUF) + EXTRA_DECODE_SURFACES
    ensures DecodeSurfaces(CudaHevc, w1, h1) >= DecodeSurfaces(CudaHevc, w2, h2)
  {
    HevcMaxDpbSizeIsAnnex(w1 * h1);
    HevcMaxDpbSizeNonIncreasing(w1 * h1, w2 * h2);
  }

  /**
    The int conversion of the coded-size product wraps for pictures of 2^31
    samples or more: a 65536 x 32768 stream lands in the smallest-picture tier.
   */
  lemma HugePictureWrapsIntoFirstTier()
    ensures PicSizeInSamples(65536, 32768) == -TWO_31
    ensures DecodeSurfaces(CudaHevc, 65536, 32768) == 20
  {
  }

  // ---------------------------------------------------------------------------
  // Display callback: processing parameters, sizes, line sizes

  /** The processing parameters for a picture: its field flags, unpaired when repeat_first_field is negative. */
  function ProcParamsFor(info: DisplayInfo): (p: ProcParams)
    ensures p.unpairedField <==> info.repeatFirstField < 0
    ensures p.secondField == 0
  {
    ProcParams(info.progressiveFrame, info.topFieldFirst, info.repeatFirstField < 0, 0)
  }

  /** The mapping of a displayed picture. */
  function MapOf(dev: Device, info: DisplayInfo): MappedFrame {
    dev.mapFrame(info.pictureIndex, ProcParamsFor(info))
  }

  /** Bytes per host sample: 2 above 8 bits, else 1. */
  function Factor(bitDepthMinus8: int): (f: int)
    ensures f == 1 || f == 2
    ensures f == 2 <==> bitDepthMinus8 != 0
  {
    if bitDepthMinus8 != 0 then 2 else 1
  }

  /**
    The downloaded frame size in bytes, `pitch * height * 3 / 2` in unsigned
    int arithmetic, stored in an int.
   */
  function FrameSize(pitch: nat, height: int): (fs: int)
    ensures -TWO_31 <= fs < TWO_31
  {
    Int32(U32(U32(pitch * U32(height)) * 3) / 2)
  }

  /** Without wrap-around the frame size is the byte count of a 4:2:0 frame at that pitch. */
  lemma FrameSizeWithoutWrap(pitch: nat, height: int)
    requires 0 <= height && pitch * height * 3 < TWO_31
    ensures FrameSize(pitch, height) == pitch * height * 3 / 2
  {
    var a := pitch * height;
    if pitch == 0 {
      assert pitch * U32(height) == 0 == a;
    } else {
      assert a == (pitch - 1) * height + height;
      assert (pitch - 1) * height >= 0;
      assert U32(height) == height;
    }
    assert U32(pitch * U32(height)) == a;
    assert U32(a * 3) == a * 3;
  }

  /** The four host buffers in bytes: the downloaded frame, luma, and the two chroma planes. */
  function HostBufferSizes(frameSize: int, width: int, height: int, factor: int): (s: seq<int>)
    ensures |s| == 4 && s[0] == frameSize && s[2] == s[3]
    ensures s[1] == Int32(factor * Int32(width * height))
    ensures s[2] == Int32(factor * CDiv(Int32(width * height), 4))
  {
    var area := Int32(width * height);
    [frameSize, Int32(factor * area), Int32(factor * CDiv(area, 4)), Int32(factor * CDiv(area, 4))]
  }

  /**
    Without wrap-around the luma buffer holds exactly the `width * height`
    samples TransferToYUV writes, and each chroma buffer at least the
    `(width >> 1) * (height >> 1)` it writes, exactly that many when both
    sizes are even; `factor` is the bytes per sample.
   */
  lemma HostBufferSizesFitPlanes(frameSize: int, width: nat, height: nat, factor: int)
    requires factor == 1 || factor == 2
    requires factor * (width * height) < TWO_31
    ensures HostBufferSizes(frameSize, width, height, factor)[1] == factor * (width * height)
    ensures HostBufferSizes(frameSize, width, height, factor)[2] >= factor * ((width / 2) * (height / 2))
    ensures width % 2 == 0 && height % 2 == 0 ==>
              HostBufferSizes(frameSize, width, height, factor)[2] == factor * ((width / 2) * (height / 2))
  {
    var area := width * height;
    var q := (width / 2) * (height / 2);
    QuarterOfArea(width, height);
    assert 0 <= area < TWO_31 && Int32(area) == area;
    assert CDiv(area, 4) == area / 4 && q <= area / 4;
    if factor == 1 {
      assert Int32(area / 4) == area / 4;
    } else {
      assert Int32(2 * (area / 4)) == 2 * (area / 4);
    }
  }

  /** The chroma planes of a `w` x `h` picture hold at most a quarter of its samples, exactly a quarter for even sizes. */
  lemma QuarterOfArea(w: nat, h: nat)
    ensures 4 * ((w / 2) * (h / 2)) <= w * h
    ensures w % 2 == 0 && h % 2 == 0 ==> w * h == 4 * ((w / 2) * (h / 2))
  {
    var a, b := w / 2, h / 2;
    assert w * h == (2 * a + w % 2) * (2 * b + h % 2);
    assert (2 * a + w % 2) * (2 * b + h % 2) == 4 * (a * b) + 2 * a * (h % 2) + 2 * b * (w % 2) + (w % 2) * (h % 2);
  }


  /** Line sizes of a host (YUV420P) frame: luma width * factor, chroma half that, in C int arithmetic. */
  function HostLineSizes(width: int, bitDepthMinus8: int): (ls: seq<int>)
    ensures |ls| == 3 && ls[1] == ls[2]
    ensures 0 <= width * Factor(bitDepthMinus8) < TWO_31 ==>
              ls[0] == width * Factor(bitDepthMinus8) && ls[1] == ls[0] / 2
  {
    var luma := Int32(width * Factor(bitDepthMinus8));
    [luma, CDiv(luma, 2), CDiv(luma, 2)]
  }

  /** Line sizes of a device (NV12) frame: the pitch, and half of it for both chroma entries. */
  function DeviceLineSizes(pitch: nat): (ls: seq<int>)
    ensures |ls| == 3 && ls[1] == ls[2]
    ensures pitch < TWO_31 ==> ls[0] == pitch && ls[1] == pitch / 2
  {
    [Int32(pitch), Int32(pitch / 2), Int32(pitch / 2)]
  }

  /**
    For an even width the host line sizes are the byte widths of the dense
    planes TransferToYUV writes: `width` samples of luma and `width >> 1` of
    each chroma plane.
   */
  lemma HostLineSizesMatchPlanes(width: nat, bitDepthMinus8: int)
    requires width % 2 == 0 && 2 * width < TWO_31
    ensures HostLineSizes(width, bitDepthMinus8)[0] == Factor(bitDepthMinus8) * width
    ensures HostLineSizes(width, bitDepthMinus8)[1] == Factor(bitDepthMinus8) * (width / 2)
  {
  }

  /**
    For an odd width at a bit depth above 8 the chroma line size is one byte
    more than a chroma row TransferToYUV writes (2 * (width >> 1) bytes).
   */
  lemma OddWidthChromaLineSize(width: nat, bitDepthMinus8: int)
    requires width % 2 == 1 && 2 * width < TWO_31 && bitDepthMinus8 != 0
    ensures HostLineSizes(width, bitDepthMinus8)[1] == 2 * (width / 2) + 1
  {
  }

  /**
    The host buffers around one download: whether the conversion goes ahead,
    whether buffer 0 (the downloaded frame) exists, whether buffers 1-3 (the
    planes) all exist, and the frame size they were made for.
   */
  datatype HostBuffers = HostBuffers(ready: bool, surface: bool, planes: bool, frameSize: int)

  /**
    The host buffers before converting a frame: kept when buffer 0 exists and
    the frame size is unchanged; otherwise all four are allocated again at the
    new size, and the conversion goes ahead only if all four succeed. The
    kept path looks at buffer 0 alone, so it goes ahead even when a plane
    buffer is missing from an earlier, partly failed reallocation.
   */
  function PrepareHost(surface: bool, planes: bool, frameSize: int, info: CreateInfo, frame: MappedFrame,
                       alloc: int -> bool): (h: HostBuffers)
    ensures var fs := FrameSize(frame.pitch, Int32(info.targetHeight));
            surface && frameSize == fs ==> h == HostBuffers(true, surface, planes, frameSize)
    ensures var fs := FrameSize(frame.pitch, Int32(info.targetHeight));
            var s := HostBufferSizes(fs, Int32(info.targetWidth), Int32(info.targetHeight), Factor(Int32(info.bitDepthMinus8)));
            !(surface && frameSize == fs) ==>
              h == HostBuffers(alloc(s[0]) && alloc(s[1]) && alloc(s[2]) && alloc(s[3]),
                               alloc(s[0]), alloc(s[1]) && alloc(s[2]) && alloc(s[3]), fs)
    ensures h.ready ==> h.surface
    ensures h.ready && !h.planes ==> surface && !planes && frameSize == h.frameSize
    ensures (forall n :: alloc(n)) ==> h.ready
  {
    var width, height := Int32(info.targetWidth), Int32(info.targetHeight);
    var fs := FrameSize(frame.pitch, height);
    if surface && frameSize == fs then HostBuffers(true, surface, planes, frameSize)
    else
      var s := HostBufferSizes(fs, width, height, Factor(Int32(info.bitDepthMinus8)));
      HostBuffers(alloc(s[0]) && alloc(s[1]) && alloc(s[2]) && alloc(s[3]), alloc(s[0]),
                  alloc(s[1]) && alloc(s[2]) && alloc(s[3]), fs)
  }

  /**
    A reallocation in which buffer 0 succeeds and buffer 1 fails gives -1;
    the next picture of the same size then keeps the buffers and goes ahead
    with the conversion although the plane buffers do not exist.
   */
  lemma PartialAllocationIsKeptNextTime(surface: bool, planes: bool, frameSize: int, info: CreateInfo, frame: MappedFrame,
                                        alloc: int -> bool)
    requires var fs := FrameSize(frame.pitch, Int32(info.targetHeight));
             var s := HostBufferSizes(fs, Int32(info.targetWidth), Int32(info.targetHeight), Factor(Int32(info.bitDepthMinus8)));
             !(surface && frameSize == fs) && alloc(s[0]) && !alloc(s[1])
    ensures var h1 := PrepareHost(surface, planes, frameSize, info, frame, alloc);
            && !h1.ready && h1.surface && !h1.planes
            && var h2 := PrepareHost(h1.surface, h1.planes, h1.frameSize, info, frame, alloc);
            h2.ready && !h2.planes
  {
  }

  /**
    The VideoRawData handed to the user for one picture: the cropped size as
    ints, the device address, YUV420P host line sizes or NV12 pitches, the
    given pts, and the default bit depth 8 (the frame's bit depth is not set).
   */
  function Delivered(info: CreateInfo, frame: MappedFrame, download: bool, ts: int): (d: VideoRawData)
    ensures d.width == Int32(info.targetWidth) && d.height == Int32(info.targetHeight)
    ensures d.fmt == (if download then YUV420P else NV12)
    ensures download ==> d.lineSize == HostLineSizes(d.width, Int32(info.bitDepthMinus8))
    ensures !download ==> d.lineSize == DeviceLineSizes(frame.pitch)
    ensures d.pts == ts && d.bitDepth == 8 && d.deviceptr == frame.deviceptr && d.buffer == NoPlanes
  {
    var width, height := Int32(info.targetWidth), Int32(info.targetHeight);
    VideoRawData(
      width, height,
      if download then HostLineSizes(width, Int32(info.bitDepthMinus8)) else DeviceLineSizes(frame.pitch),
      if download then YUV420P else NV12,
      ts, NoPlanes, 8, frame.deviceptr)
  }

  /** The pictures' indices, in order. */
  function Indices(frames: seq<DisplayInfo>): (ix: seq<int>)
    ensures |ix| == |frames|
  {
    if frames == [] then [] else Indices(frames[..|frames| - 1]) + [frames[|frames| - 1].pictureIndex]
  }

  /** The frames handed to the user for `frames`, the i-th one with pts `ts[i]`. */
  function Outputs(info: CreateInfo, dev: Device, frames: seq<DisplayInfo>, download: bool, ts: seq<int>): (o: seq<VideoRawData>)
    requires |ts| == |frames|
    ensures |o| == |frames|
  {
    if frames == [] then []
    else
      var n := |frames| - 1;
      Outputs(info, dev, frames[..n], download, ts[..n]) + [Delivered(info, MapOf(dev, frames[n]), download, ts[n])]
  }

  /** Host allocation never fails, whatever the size. */
  ghost predicate AllocAlways(dev: Device) {
    forall n :: dev.alloc(n)
  }

  /** PictureDecode callback: -1 without a decoder context, else the decode result as 1 or -1. */
  function PictureDecodeResult(hasUserData: bool, decodeOk: bool): (r: int)
    ensures r == 1 || r == -1
    ensures r == 1 <==> hasUserData && decodeOk
  {
    if !hasUserData then -1
    else if !decodeOk then -1
    else 1
  }

  /** The end-of-stream packet Stop hands to the parser: no payload. */
  const END_OF_STREAM: Packet := Packet(false, 0, EndOfStreamFlag, 0)

  /** The packet InputData hands to the parser for a unit: its payload, timestamp 0. */
  function DataPacket(bs: MediaDataBitStream): (p: Packet)
    ensures p.flag == TimestampFlag && p.timestamp == 0
    ensures p.hasPayload == bs.hasBuffer && p.payloadSize == bs.bufferLen
  {
    Packet(bs.hasBuffer, bs.bufferLen, TimestampFlag, 0)
  }

  /** What showing pictures changes: the host buffers, the pts queue and the logs. */
  datatype OutputState = OutputState(
    hostSurface: bool,
    hostPlanes: bool,
    frameSize: int,
    pts: seq<int>,
    delivered: seq<VideoRawData>,
    released: seq<int>)

  /**
    Showing one dequeued picture `pic` (OutputVideoFrame after the dequeue):
    without a user callback the picture only goes back to the queue. With one,
    host download first prepares the host buffers (see PrepareHost) and gives
    -1 when they are not usable, leaving the picture neither delivered nor
    given back; otherwise the user gets the frame with the head of the pts
    queue, or 0 when it is empty, and the picture goes back.
   */
  function ShowPicture(s: OutputState, info: CreateInfo, pic: DisplayInfo, dev: Device,
                       hasCallback: bool, download: bool): (out: (OutputState, int))
    ensures out.1 == -1 <==> hasCallback && download && !PrepareHost(s.hostSurface, s.hostPlanes, s.frameSize, info, MapOf(dev, pic), dev.alloc).ready
    ensures out.1 != -1 ==> out.1 == 0 && out.0.released == s.released + [pic.pictureIndex]
    ensures out.1 == -1 ==> out.0.pts == s.pts && out.0.delivered == s.delivered && out.0.released == s.released
    ensures out.1 != -1 && hasCallback ==>
              && out.0.delivered == s.delivered + [Delivered(info, MapOf(dev, pic), download, Pop(s.pts).0)]
              && out.0.pts == Pop(s.pts).1
    ensures !hasCallback ==> out.0.delivered == s.delivered && out.0.pts == s.pts
    ensures !(hasCallback && download) ==>
              out.0.hostSurface == s.hostSurface && out.0.hostPlanes == s.hostPlanes && out.0.frameSize == s.frameSize
  {
    var frame := MapOf(dev, pic);
    if !hasCallback then (s.(released := s.released + [pic.pictureIndex]), 0)
    else
      var host := if download then PrepareHost(s.hostSurface, s.hostPlanes, s.frameSize, info, frame, dev.alloc)
                  else HostBuffers(true, s.hostSurface, s.hostPlanes, s.frameSize);
      var s1 := s.(hostSurface := host.surface, hostPlanes := host.planes, frameSize := host.frameSize);
      if !host.ready then (s1, -1)
      else
        var (ts, rest) := Pop(s.pts);
        (s1.(pts := rest, delivered := s.delivered + [Delivered(info, frame, download, ts)],
             released := s.released + [pic.pictureIndex]), 0)
  }

  /**
    The steps of OutputVideoFrame after the dequeue, on a copy `s` of the
    fields they change: they give what ShowPicture says.
   */
  method ShowOn(s: OutputState, info: CreateInfo, pic: DisplayInfo, dev: Device, hasCallback: bool, download: bool)
    returns (out: OutputState, r: int)
    ensures (out, r) == ShowPicture(s, info, pic, dev, hasCallback, download)
  {
    r := 0;
    var frame := MapOf(dev, pic);
    out := s;
    var ready := true;
    if hasCallback {
      if download {
        var host := PrepareHost(out.hostSurface, out.hostPlanes, out.frameSize, info, frame, dev.alloc);
        out := out.(hostSurface := host.surface, hostPlanes := host.planes, frameSize := host.frameSize);
        ready := host.ready;
      }
      if ready {
        var (ts, rest) := Pop(out.pts);
        out := out.(pts := rest, delivered := out.delivered + [Delivered(info, frame, download, ts)]);
      }
    }
    if ready {
      out := out.(released := out.released + [pic.pictureIndex]);
    } else {
      r := -1;
    }
  }

  // ---------------------------------------------------------------------------
  // The decoder object

  class NvVideoDecoder {
    /** The parser and its codec; None while there is no parser. */
    var parser: Option<CudaCodec>
    /** Whether the last decoder creation succeeded. */
    var decoderLive: bool
    var hasFrameQueue: bool
    var createInfo: CreateInfo
    /** Decoded pictures waiting for display, oldest first, and the end-of-decode mark. */
    var frames: seq<DisplayInfo>
    var endOfDecode: bool
    var pts: seq<int>
    /** Whether host buffer 0 (the downloaded frame) exists, whether buffers 1-3 all do, and the frame size they were made for. */
    var hostSurface: bool
    var hostPlanes: bool
    var frameSize: int
    var hasCallback: bool
    var downloadGpuBuffer: bool
    /** What was handed to the parser, to the user, and back to the frame queue. */
    var parsed: seq<Packet>
    var delivered: seq<VideoRawData>
    var released: seq<int>

    /** The fields showing pictures changes. */
    function State(): (st: OutputState)
      reads this`hostSurface, this`hostPlanes, this`frameSize, this`pts, this`delivered, this`released
    {
      OutputState(hostSurface, hostPlanes, frameSize, pts, delivered, released)
    }

    /** What Start leaves alone: the decoder, its create-info, the host buffers and the logs. */
    function Products(): (bool, CreateInfo, bool, bool, int, seq<Packet>, seq<VideoRawData>, seq<int>)
      reads this`decoderLive, this`createInfo, this`hostSurface, this`hostPlanes, this`frameSize, this`parsed,
            this`delivered, this`released
    {
      (decoderLive, createInfo, hostSurface, hostPlanes, frameSize, parsed, delivered, released)
    }

    /** The fields frame output leaves alone. */
    function Config(): (Option<CudaCodec>, bool, bool, CreateInfo, bool, bool, bool, seq<Packet>)
      reads this`parser, this`decoderLive, this`hasFrameQueue, this`createInfo, this`endOfDecode,
            this`hasCallback, this`downloadGpuBuffer, this`parsed
    {
      (parser, decoderLive, hasFrameQueue, createInfo, endOfDecode, hasCallback, downloadGpuBuffer, parsed)
    }

    /** A fresh decoder: nothing created, host download on; the create-info is whatever it held. */
    constructor (initialInfo: CreateInfo)
      ensures parser.None? && !decoderLive && !hasFrameQueue && createInfo == initialInfo
      ensures frames == [] && !endOfDecode && pts == []
      ensures !hostSurface && !hostPlanes && frameSize == 0 && !hasCallback && downloadGpuBuffer
      ensures parsed == [] && delivered == [] && released == []
    {
      parser := None;
      decoderLive := false;
      hasFrameQueue := false;
      createInfo := initialInfo;
      frames := [];
      endOfDecode := false;
      pts := [];
      hostSurface, hostPlanes := false, false;
      frameSize := 0;
      hasCallback := false;
      downloadGpuBuffer := true;
      parsed := [];
      delivered := [];
      released := [];
    }

    /**
      Start: fails when the CUDA context cannot be set up; creates the frame
      queue if there is none; creates a parser for H264 or HEVC if there is
      none (any other codec, or a failed creation, fails); then empties the
      pts queue and takes the callback and the download choice.
     */
    method Start(codec: VideoCodec, cb: bool, download: bool, contextOk: bool, parserOk: bool) returns (ok: bool)
      modifies this
      ensures ok <==> contextOk && (old(parser).Some? || (codec != NoCodec && parserOk))
      ensures !contextOk ==> unchanged(this)
      ensures contextOk ==> hasFrameQueue && frames == (if old(hasFrameQueue) then old(frames) else [])
      ensures contextOk ==> endOfDecode == (old(hasFrameQueue) && old(endOfDecode))
      ensures parser == (if ok && old(parser).None? then ParserCodec(codec) else old(parser))
      ensures ok ==> pts == [] && hasCallback == cb && downloadGpuBuffer == download
      ensures !ok ==> pts == old(pts) && hasCallback == old(hasCallback) && downloadGpuBuffer == old(downloadGpuBuffer)
      ensures Products() == old(Products())
    {
      ok := false;
      if contextOk {
        if !hasFrameQueue {
          hasFrameQueue, frames, endOfDecode := true, [], false;
        }
        var haveParser := parser.Some?;
        if !haveParser {
          var c := ParserCodec(codec);
          if c.Some? && parserOk {
            parser := c;
            haveParser := true;
          }
        }
        if haveParser {
          pts := [];
          hasCallback, downloadGpuBuffer := cb, download;
          ok := true;
        }
      }
    }

    /**
      InputData: 0 without a parser. Otherwise exactly one pts is queued for
      the unit, whatever it holds, and the unit reaches the parser only when
      it has a payload of non-zero length; the result is 1.
     */
    method InputData(bs: MediaDataBitStream) returns (r: int)
      modifies this
      ensures parser.None? ==> r == 0 && unchanged(this)
      ensures parser.Some? ==> r == 1 && pts == old(pts) + [bs.pts]
      ensures parser.Some? ==> parsed == old(parsed) + (if bs.bufferLen != 0 && bs.hasBuffer then [DataPacket(bs)] else [])
      ensures parser == old(parser) && decoderLive == old(decoderLive) && hasFrameQueue == old(hasFrameQueue)
      ensures createInfo == old(createInfo) && frames == old(frames) && endOfDecode == old(endOfDecode)
      ensures hostSurface == old(hostSurface) && hostPlanes == old(hostPlanes) && frameSize == old(frameSize)
      ensures hasCallback == old(hasCallback) && downloadGpuBuffer == old(downloadGpuBuffer)
      ensures delivered == old(delivered) && released == old(released)
    {
      if parser.None? {
        return 0;
      }
      var packet := DataPacket(bs);
      pts := pts + [bs.pts];
      if packet.payloadSize != 0 && packet.hasPayload {
        parsed := parsed + [packet];
      }
      r := 1;
    }

    /**
      HandleVideoSequence: 0 and nothing changes when the committed decoder
      fits the stream. Otherwise the create-info is rebuilt for the stream
      (see RebuildInfo) and a decoder created from it: 1 on success, -1 when
      creation fails, with the new create-info committed either way. After
      any call the committed create-info fits the stream, so repeating the
      call with the same stream returns 0.
     */
    method HandleVideoSequence(format: VideoFormat, createOk: bool) returns (r: int)
      modifies this
      ensures IsDecoderFitting(old(createInfo), format) ==> r == 0 && unchanged(this)
      ensures !IsDecoderFitting(old(createInfo), format) ==>
                && createInfo == RebuildInfo(format)
                && decoderLive == createOk
                && (r == 1 <==> createOk) && (r == -1 <==> !createOk)
      ensures IsDecoderFitting(createInfo, format)
      ensures parser == old(parser) && hasFrameQueue == old(hasFrameQueue)
      ensures frames == old(frames) && endOfDecode == old(endOfDecode) && pts == old(pts)
      ensures hostSurface == old(hostSurface) && hostPlanes == old(hostPlanes) && frameSize == old(frameSize)
      ensures hasCallback == old(hasCallback) && downloadGpuBuffer == old(downloadGpuBuffer)
      ensures parsed == old(parsed) && delivered == old(delivered) && released == old(released)
    {
      if IsDecoderFitting(createInfo, format) {
        return 0;
      }
      decoderLive := false;
      createInfo := createInfo.(codec := format.codec, width := format.codedWidth, height := format.codedHeight);
      var surfaces := 8;
      if createInfo.codec == CudaH264 || createInfo.codec == CudaH264Svc || createInfo.codec == CudaH264Mvc {
        surfaces := 20;
      }
      if createInfo.codec == CudaVp9 {
        surfaces := 12;
      }
      if createInfo.codec == CudaHevc {
        var picSize := PicSizeInSamples(createInfo.width, createInfo.height);
        var maxDpbSize := 0;
        if picSize <= MAX_LUMA_PS / 4 {
          maxDpbSize := MAX_DPB_PIC_BUF * 4;
        } else if picSize <= MAX_LUMA_PS / 2 {
          maxDpbSize := MAX_DPB_PIC_BUF * 2;
        } else if picSize <= (3 * MAX_LUMA_PS) / 4 {
          maxDpbSize := (MAX_DPB_PIC_BUF * 4) / 3;
        } else {
          maxDpbSize := MAX_DPB_PIC_BUF;
        }
        maxDpbSize := if maxDpbSize < 16 then maxDpbSize else 16;
        surfaces := maxDpbSize + EXTRA_DECODE_SURFACES;
      }
      var tw := CroppedWidth(format.displayArea);
      var th := CroppedHeight(format.displayArea);
      createInfo := createInfo.(
        numDecodeSurfaces := surfaces,
        chromaFormat := format.chromaFormat,
        outputFormat := OutputFormatFor(format.bitDepthChromaMinus8),
        bitDepthMinus8 := format.bitDepthChromaMinus8,
        targetWidth := tw,
        targetHeight := th,
        displayArea := Rect(0, 0, Short(tw), Short(th)),
        numOutputSurfaces := 2);
      decoderLive := createOk;
      if !createOk {
        return -1;
      }
      r := 1;
    }

    /**
      OutputVideoFrame: nothing when no picture waits; otherwise the oldest
      picture is dequeued and shown (see ShowPicture).
     */
    method OutputVideoFrame(dev: Device) returns (r: int)
      requires hasFrameQueue
      modifies this
      ensures Config() == old(Config())
      ensures old(frames) == [] ==> r == 0 && unchanged(this)
      ensures old(frames) != [] ==>
                && frames == old(frames)[1..]
                && (State(), r) == ShowPicture(old(State()), createInfo, old(frames)[0], dev, hasCallback, downloadGpuBuffer)
    {
      r := 0;
      if !(endOfDecode && frames == []) {
        if frames != [] {
          var info := frames[0];
          frames := frames[1..];
          r := ShowFrame(info, dev);
        }
      }
    }

    /** The part of OutputVideoFrame after the dequeue: see ShowPicture, worked out by ShowOn. */
    method ShowFrame(info: DisplayInfo, dev: Device) returns (r: int)
      modifies this
      ensures Config() == old(Config()) && frames == old(frames)
      ensures (State(), r) == ShowPicture(old(State()), createInfo, info, dev, hasCallback, downloadGpuBuffer)
    {
      var st;
      st, r := ShowOn(State(), createInfo, info, dev, hasCallback, downloadGpuBuffer);
      hostSurface, hostPlanes, frameSize, pts, delivered, released :=
        st.hostSurface, st.hostPlanes, st.frameSize, st.pts, st.delivered, st.released;
    }

    /**
      HandlePictureDisplay: -1 without a decoder context. Otherwise the oldest
      waiting picture is output first and the new one queued behind the
      rest, so each picture is shown one display callback late; the result
      is 1 whatever the output reported.
     */
    method HandlePictureDisplay(hasUserData: bool, info: DisplayInfo, dev: Device) returns (r: int)
      requires hasUserData ==> hasFrameQueue
      modifies this
      ensures !hasUserData ==> r == -1 && unchanged(this)
      ensures hasUserData ==> r == 1 && Config() == old(Config())
      ensures hasUserData && old(frames) == [] ==> frames == [info] && State() == old(State())
      ensures hasUserData && old(frames) != [] ==>
                && frames == old(frames)[1..] + [info]
                && State() == ShowPicture(old(State()), createInfo, old(frames)[0], dev, hasCallback, downloadGpuBuffer).0
    {
      if !hasUserData {
        return -1;
      }
      var _ := OutputVideoFrame(dev);
      frames := frames + [info];
      r := 1;
    }

    /**
      Stop: false without a parser or a frame queue. Otherwise the parser gets
      the end-of-stream packet, every waiting picture is output in queue order
      (see DrainFrames), the queue is marked end-of-decode, and the result is
      true.
     */
    method Stop(dev: Device) returns (ok: bool)
      modifies this
      ensures ok <==> old(parser).Some? && old(hasFrameQueue)
      ensures !ok ==> unchanged(this)
      ensures ok ==> parsed == old(parsed) + [END_OF_STREAM] && frames == [] && endOfDecode
      ensures ok && AllocAlways(dev) ==>
                var n := |old(frames)|;
                && released == old(released) + Indices(old(frames))
                && (hasCallback ==>
                      && delivered == old(delivered) + Outputs(createInfo, dev, old(frames), downloadGpuBuffer, PopMany(old(pts), n).0)
                      && pts == PopMany(old(pts), n).1)
                && (!hasCallback ==> delivered == old(delivered) && pts == old(pts))
      ensures parser == old(parser) && decoderLive == old(decoderLive) && hasFrameQueue == old(hasFrameQueue)
      ensures createInfo == old(createInfo) && hasCallback == old(hasCallback) && downloadGpuBuffer == old(downloadGpuBuffer)
    {
      if parser.None? || !hasFrameQueue {
        return false;
      }
      parsed := parsed + [END_OF_STREAM];
      DrainFrames(dev);
      endOfDecode := true;
      ok := true;
    }

    /**
      After `k` of the pictures `f0` were output with host allocation never
      failing: the rest still wait, the first `k` went back in order and,
      with a callback, reached the user with the first `k` pts taken from
      `q0`.
     */
    ghost predicate Drained(dev: Device, f0: seq<DisplayInfo>, d0: seq<VideoRawData>, r0: seq<int>, q0: seq<int>, k: nat)
      reads this
    {
      && k <= |f0| && frames == f0[k..]
      && released == r0 + Indices(f0[..k])
      && (hasCallback ==>
            && delivered == d0 + Outputs(createInfo, dev, f0[..k], downloadGpuBuffer, PopMany(q0, k).0)
            && pts == PopMany(q0, k).1)
      && (!hasCallback ==> delivered == d0 && pts == q0)
    }

    /** One turn of the drain loop: the next of the pictures `f0` is output. */
    method DrainStep(dev: Device, ghost f0: seq<DisplayInfo>, ghost d0: seq<VideoRawData>,
                     ghost r0: seq<int>, ghost q0: seq<int>, ghost k: nat)
      requires hasFrameQueue && k < |f0| && frames == f0[k..]
      requires AllocAlways(dev) ==> Drained(dev, f0, d0, r0, q0, k)
      modifies this
      ensures Config() == old(Config())
      ensures frames == f0[k + 1..]
      ensures AllocAlways(dev) ==> Drained(dev, f0, d0, r0, q0, k + 1)
    {
      var _ := OutputVideoFrame(dev);
      if AllocAlways(dev) {
        OneMoreDrained(createInfo, dev, f0, k, downloadGpuBuffer, q0);
      }
    }

    /**
      The drain loop of Stop: output pictures until none waits. When host
      allocation never fails, the pictures go back in queue order and, with a
      callback, the i-th of them reaches the user with the i-th queued pts.
     */
    method DrainFrames(dev: Device)
      requires hasFrameQueue
      modifies this
      ensures frames == [] && Config() == old(Config())
      ensures AllocAlways(dev) ==>
                var n := |old(frames)|;
                && released == old(released) + Indices(old(frames))
                && (hasCallback ==>
                      && delivered == old(delivered) + Outputs(createInfo, dev, old(frames), downloadGpuBuffer, PopMany(old(pts), n).0)
                      && pts == PopMany(old(pts), n).1)
                && (!hasCallback ==> delivered == old(delivered) && pts == old(pts))
    {
      ghost var f0, d0, r0, q0 := frames, delivered, released, pts;
      ghost var k: nat := 0;
      assert f0[..0] == [];
      while frames != []
        invariant Config() == old(Config())
        invariant k <= |f0| && frames == f0[k..]
        invariant AllocAlways(dev) ==> Drained(dev, f0, d0, r0, q0, k)
        decreases |frames|
      {
        DrainStep(dev, f0, d0, r0, q0, k);
        k := k + 1;
      }
      assert f0[..k] == f0;
    }
  }

  /** One more picture drained: the index and output lists each grow by that picture. */
  lemma OneMoreDrained(info: CreateInfo, dev: Device, f0: seq<DisplayInfo>, k: nat, download: bool, q0: seq<int>)
    requires k < |f0|
    ensures Indices(f0[..k + 1]) == Indices(f0[..k]) + [f0[k].pictureIndex]
    ensures PopMany(q0, k + 1) == (PopMany(q0, k).0 + [Pop(PopMany(q0, k).1).0], Pop(PopMany(q0, k).1).1)
    ensures Outputs(info, dev, f0[..k + 1], download, PopMany(q0, k + 1).0)
            == Outputs(info, dev, f0[..k], download, PopMany(q0, k).0)
               + [Delivered(info, MapOf(dev, f0[k]), download, Pop(PopMany(q0, k).1).0)]
  {
    assert f0[..k + 1][..k] == f0[..k];
    PopManyStep(q0, k);
    var ts := PopMany(q0, k + 1).0;
    assert ts[..k] == PopMany(q0, k).0;
  }
}
