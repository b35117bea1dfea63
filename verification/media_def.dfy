/**
  The value types exchanged between the pipeline and its user (MediaDef.h).
  Pixel data lives in arrays of samples; a sample is a non-negative value of
  the plane's sample width (8 bits, or 16 bits for high bit depth).
 */
module MediaDef {

  datatype VideoBaseBandFmt = NoFmt | YUV420P | BGR | NV12

  datatype VideoCodec = NoCodec | H264 | HEVC

  /** The three plane pointers of a raw frame; `NoPlanes` when they are null. */
  datatype Planes = NoPlanes | Planes(y: array<nat>, u: array<nat>, v: array<nat>)

  /** VideoParam: what a user asks the encoder for. */
  datatype VideoParam = VideoParam(
    pixFmt: VideoBaseBandFmt,
    codec: VideoCodec,
    width: int,
    height: int,
    frameRateNum: int,
    frameRateDen: int,
    gopSize: int,
    bFrames: int,
    bitRate: int)

  /** MediaDataBitStream: one encoded unit; `hasBuffer` is false for a null payload. */
  datatype MediaDataBitStream = MediaDataBitStream(
    hasBuffer: bool,
    bufferLen: int,
    pts: int,
    dts: int,
    isKey: bool)

  /** VideoRawData: one raw picture, in host planes or at a device address (`deviceptr` != 0). */
  datatype VideoRawData = VideoRawData(
    width: int,
    height: int,
    lineSize: seq<int>,
    fmt: VideoBaseBandFmt,
    pts: int,
    buffer: Planes,
    bitDepth: int,
    deviceptr: nat)
}
