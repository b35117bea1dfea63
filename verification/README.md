# NVIDIA media sample pipeline: a Dafny model

This project models the logic at the core of a small NVIDIA Video Codec SDK
sample. The sample has an encoder (`NvVideoEncoder`) that turns raw frames into
H.264/HEVC bitstreams, and a decoder (`NvVideoDecoder`) that turns bitstreams
back into raw frames. Everything the sample hands to CUDA, NVENC or NVCUVID is
foreign to the model. What remains is modelled and proved:

- **The in-flight buffer ring** `CNvQueue` (module `NvEncodeApi`, file
  `nv_queue.dfy`).
  - It is a fixed table of slot references with an available cursor, a
    pending cursor and a pending count.
  - Pure functions give the meaning of a cursor state: which slots are
    pending and which are available. They also give the effect of
    `GetAvailable` and `GetPending`.
  - The class `NvQueue` is proved to follow these functions.
  - Lemmas prove FIFO hand-back over any run of operations, the capacity
    bound, and that the pending and available slots partition the table.
- **The pts relay** (module `TimestampRelay`). Both pipelines keep a
  `std::queue<int64_t>` of timestamps. A pop on an empty queue yields 0. The
  module proves that a sequence of pops hands out the pushed timestamps in
  order.
- **The pixel conversions** (module `PixelFormats`).
  - `YUV420ToNV12` of the encoder and `TransferToYUV` of the decoder are
    in-place loops over arrays.
  - Each is proved against a pointwise statement of which sample goes where.
  - A round-trip lemma connects the two conversions for 8-bit frames of even
    size.
- **The encoder** (module `NvVideoEncoder`).
  - It is a class with the slot array, the ring and the pts queue.
  - Ghost logs record the pts pushed and relayed, the slots acquired and
    reclaimed, and every bitstream produced.
  - Its invariant ties the logs to the ring and to the queue.
  - `Stop` after a successful flush of a running session is proved to have
    output every submitted frame exactly once. The k-th output carries the
    k-th pushed pts.
- **The decoder** (module `NvVideoDecoder`).
  - It is a class with the parser, the committed create-info, the frame
    queue, the pts queue and the host buffers.
  - `IsDecoderFitting` and the create-info rebuild of the sequence callback
    are modelled, including the decode-surface policy. For HEVC that policy
    is the MaxDpbSize derivation of ITU-T H.265 section A.4.2, at level 6.2.
  - Also modelled: the display callback, the drain in `Stop`, and the
    line-size and frame-size arithmetic of `OutputVideoFrame`.
  - C integer conversions are written out in module `CInt`: int and short
    wrap-around, unsigned conversions, and truncating division.

Device calls become parameters. Their statuses, the bitstream the device
produces for a slot, the mapping of a decoded picture and whether a host
allocation succeeds are all values the caller passes. User callbacks become
logs of what was delivered.

A few behaviours of the code are easy to miss. The model follows the code
in each:

- The HEVC DPB size is capped at 16 *before* the 4 extra surfaces are added,
  so HEVC gets up to 20 decode surfaces.
- Decoder `InputData` queues a pts even for an empty or null unit. Only the
  parser call is skipped.
- The sequence callback does not drain the frame queue before it rebuilds
  the decoder.
- Encoder `Stop` without an encoder API returns `NV_ENC_SUCCESS` as a bool,
  which is `false`.
- A decoded frame is delivered with the default bit depth 8, whatever the
  stream's depth.
- Without a frame callback, no pts is popped for a displayed picture.
- When a host reallocation gets buffer 0 but not every plane buffer, the
  picture gives -1. The next picture of the same frame size only checks
  buffer 0, so it keeps the buffers and converts into plane buffers that do
  not exist.

## Model

| member | source | states |
|---|---|---|
| NvEncodeApi.WrapIsMod | src/NvEncodeAPI.h:80-95 | advancing a cursor by one and wrapping once is the `% size` the ring computes |
| NvEncodeApi.Acquire | src/NvEncodeAPI.h:73-84 | GetAvailable on a cursor state refuses exactly when every slot is pending, and then changes nothing; otherwise it returns the first available slot, which becomes the newest pending one, and the count grows by one; the cursor relation is kept |
| NvEncodeApi.Reclaim | src/NvEncodeAPI.h:86-97 | GetPending refuses exactly when nothing is pending, and then changes nothing; otherwise it returns the oldest pending slot, which becomes the last available one, and the count drops by one; the cursor relation is kept |
| NvEncodeApi.SlotsPartitioned | src/NvEncodeAPI.h:41-97 | the pending and the available slots together are a permutation of the table |
| NvEncodeApi.PendingThenAvailableIsRotation | src/NvEncodeAPI.h:41-97 | pending followed by available slots is the table read round from the pending cursor |
| NvEncodeApi.RotationIsPermutation | src/NvEncodeAPI.h:65-67 | reading the table round from any position is a permutation of it |
| NvEncodeApi.Step | src/NvEncodeAPI.h:73-97 | one operation keeps the cursor relation, and pending-before plus handed-out equals handed-back plus pending-after |
| NvEncodeApi.RunIsFifo | src/NvEncodeAPI.h:80-96 | over any run of GetAvailable/GetPending calls, pending-before plus handed-out equals handed-back plus pending-after (FIFO hand-back) |
| NvEncodeApi.FromEmptyReclaimedIsPrefixOfAcquired | src/NvEncodeAPI.h:80-96 | from an empty ring, the slots GetPending returns are those GetAvailable returned, in the same order, each once |
| NvEncodeApi.FillToCapacity | src/NvEncodeAPI.h:76-83 | from any state exactly the available slots can be acquired, in order, and the next GetAvailable returns NULL |
| NvEncodeApi.FullRingReusesDrainedSlot | src/NvVideoEncoder.cpp:198-210 | on a full ring, GetPending then GetAvailable hands back the slot just drained, so the second GetAvailable cannot fail |
| NvEncodeApi.NvQueue.constructor | src/NvEncodeAPI.h:48-51 | an empty table and every counter zero |
| NvEncodeApi.NvQueue.Initialize | src/NvEncodeAPI.h:58-70 | size n, pending count and both cursors 0, entry i names item i, nothing pending, returns true |
| NvEncodeApi.NvQueue.GetAvailable | src/NvEncodeAPI.h:73-84 | new cursors and result are those of Acquire; NULL and no change when full; else the slot at the available cursor, one more pending, table untouched |
| NvEncodeApi.NvQueue.GetPending | src/NvEncodeAPI.h:86-97 | new cursors and result are those of Reclaim; NULL and no change when empty; else the slot at the pending cursor, which was the oldest pending, one fewer pending, table untouched |
| TimestampRelay.Pop | src/NvVideoEncoder.cpp:156-163 | the head of the queue and the rest, or 0 and the empty queue |
| TimestampRelay.Zeros | src/NvVideoEncoder.cpp:160-163 | the 0 timestamps taken from an empty queue |
| TimestampRelay.PopMany | src/NvVideoEncoder.cpp:156-163 | n pops give exactly n timestamps; which ones is PopManyIsFifo |
| TimestampRelay.PopManyIsFifo | src/NvVideoEncoder.cpp:156-163 | n pops hand out the first n queued timestamps in order, then 0 for every pop beyond the queue, and leave the rest |
| TimestampRelay.PopManyStep | src/NvVideoDecoder.cpp:319-323 | one more pop after n pops takes the head of what the n pops left |
| TimestampRelay.PushedThenDrained | src/NvVideoEncoder.cpp:113-163 | pushing a sequence and popping everything queued hands the sequence out last, in order, and empties the queue |
| CInt.ShrUndoesShl | src/NvVideoDecoder.cpp:17 | `>> s` undoes `<< s` whatever fills the low s bits |
| CInt.ShlIsMul | src/NvVideoDecoder.cpp:17 | `<<` by n without overflow is multiplication by 2^n |
| PixelFormats.EffectiveStride | src/NvVideoEncoder.cpp:172-175 | a zero stride stands for the width, any other stride is kept |
| PixelFormats.ShrIsDiv | src/NvVideoDecoder.cpp:17 | `>>` by n on a non-negative value is division by 2^n, rounding down |
| PixelFormats.CopyRow | src/NvVideoEncoder.cpp:178 | the memcpy of one luma row copies the row and writes nothing else |
| PixelFormats.InterleaveRow | src/NvVideoEncoder.cpp:182-185 | one chroma row alternates Cb and Cr sample x/2 at every even x, and nothing else is written |
| PixelFormats.CopyLumaPlane | src/NvVideoEncoder.cpp:177-179 | every luma row y is copied verbatim, dst[ds*y+i] = src[ss*y+i] for i < width, and nothing outside the rows is written |
| PixelFormats.InterleaveChromaPlane | src/NvVideoEncoder.cpp:181-186 | for y < height/2 and even x < width, dst holds Cb then Cr sample (ss/2)*y + x/2, and nothing outside the rows is written |
| PixelFormats.Yuv420ToNv12 | src/NvVideoEncoder.cpp:169-187 | the luma rows are copied and the chroma rows interleaved, with zero strides meaning the width; no other sample of the surface changes |
| PixelFormats.ShiftFor | src/NvVideoDecoder.cpp:13 | the shift is 0 at 8 bits and 8 - bit_depth_minus8 otherwise |
| PixelFormats.ShiftRow | src/NvVideoDecoder.cpp:16-18 | one luma row, each sample shifted right, nothing else written |
| PixelFormats.DeinterleaveRow | src/NvVideoDecoder.cpp:25-28 | one chroma row, even samples into U and odd into V, shifted right, nothing else written |
| PixelFormats.ShiftLumaPlane | src/NvVideoDecoder.cpp:15-20 | dstY[y*width+x] is source sample (y, x) shifted right, rows pitch/sizeof(T) apart; nothing past the plane is written |
| PixelFormats.SplitChromaPlane | src/NvVideoDecoder.cpp:22-30 | for y < height>>1 and x < width>>1, U and V take interleaved samples 2x and 2x+1 shifted right, rows advancing by the pitch |
| PixelFormats.TransferToYuv | src/NvVideoDecoder.cpp:5-31 | the luma and the de-interleaved chroma planes, chroma starting at element height*pitch/sizeof(T), all shifted by ShiftFor; nothing past the planes is written |
| PixelFormats.LumaRoundTrip | src/NvVideoDecoder.cpp:15-20 | luma copied into a surface and shifted back by 0 is the original plane |
| PixelFormats.ChromaRoundTrip | src/NvVideoDecoder.cpp:22-30 | chroma interleaved at height*pitch and de-interleaved is the original Cb and Cr, for even sizes |
| PixelFormats.Nv12RoundTrip | src/NvVideoDecoder.cpp:5-31 | YUV420ToNV12 into a surface of any pitch, followed by TransferToYUV at 8 bits, gives back all three planes of an even-sized frame |
| PixelFormats.HighBitDepthShiftKeepsSample | src/NvVideoDecoder.cpp:13-17 | above 8 bits, the shift drops exactly the padding bits below an MSB-aligned sample, so the sample comes back unchanged |
| NvVideoEncoder.EncoderCodec | src/NvVideoEncoder.cpp:42-47 | HEVC maps to NV_ENC_HEVC, H264 to NV_ENC_H264, and any other codec to a refusal, in both directions |
| NvVideoEncoder.ConfigFor | src/NvVideoEncoder.cpp:49-58 | the configuration takes the size, frame rate and GOP from the parameters, uses the bit rate as bitrate and both VBV values, and sets numB 0 and refnum 2 |
| NvVideoEncoder.StepsDone | src/NvVideoEncoder.cpp:60-84 | the device steps of Start run in order up to the first failure |
| NvVideoEncoder.ToBitstream | src/NvVideoEncoder.cpp:152-155 | pts and dts are the given timestamp, is_key holds iff the picture is IDR, and the length is the int of the byte count |
| NvVideoEncoder.FrameOf | src/NvVideoEncoder.cpp:100-112 | a device frame keeps only its address, a host frame its planes; the strides and the size are those of the raw data |
| NvVideoEncoder.SubmitStatus | src/NvVideoEncoder.cpp:212-248 | the first failing device step decides the status: a failed copy is GENERIC, then the map, lock or unlock status, else the encode status |
| NvVideoEncoder.NvVideoEncoder.constructor | src/NvVideoEncoder.cpp:12-17 | every one of the 32 slots is cleared and nothing is started |
| NvVideoEncoder.NvVideoEncoder.Start | src/NvVideoEncoder.cpp:24-95 | already started: true and no change; an unsupported codec: false before any device step; otherwise the configuration for the codec, success iff every device step succeeds, and on success a ring of 10, an empty pts queue and the callback |
| NvVideoEncoder.NvVideoEncoder.OpenSession | src/NvVideoEncoder.cpp:60-94 | the device steps of Start in order: the API exists from the second step, the ring is set to 10 slots before the buffers are allocated, and only a full start clears the pts queue |
| NvVideoEncoder.NvVideoEncoder.BeginSession | src/NvVideoEncoder.cpp:86-94 | the pts queue is empty, the session is started and the callback set |
| NvVideoEncoder.NvVideoEncoder.AllocateIOBuffers | src/NvVideoEncoder.cpp:317-320 | the ring holds bufferCount slots, all free, before any buffer is allocated |
| NvVideoEncoder.NvVideoEncoder.OutputFrame | src/NvVideoEncoder.cpp:150-167 | the output takes the head of the pts queue as pts and dts and removes it, or 0 when the queue is empty; it reaches the callback only when there is one |
| NvVideoEncoder.NvVideoEncoder.AcquireSlot | src/NvVideoEncoder.cpp:198 | GetAvailable: the slot joins the in-flight slots at the back, or nothing when the ring is full |
| NvVideoEncoder.NvVideoEncoder.ReclaimSlot | src/NvVideoEncoder.cpp:201 | GetPending: the oldest in-flight slot leaves the ring, or nothing when none is in flight |
| NvVideoEncoder.NvVideoEncoder.DrainOne | src/NvVideoEncoder.cpp:201-209 | draining the oldest in-flight slot emits exactly one output with the next pts and clears its mapped surface; the callback, when there is one, receives that output; no other slot changes |
| NvVideoEncoder.NvVideoEncoder.TakeSlot | src/NvVideoEncoder.cpp:198-211 | a free slot if there is one; on a full ring the oldest slot is drained with one output, which the callback receives when there is one, and then handed back; only an empty ring gives nothing |
| NvVideoEncoder.NvVideoEncoder.Submit | src/NvVideoEncoder.cpp:212-248 | a device frame marks the slot as a device surface and maps it; a host frame is converted to NV12 in the locked surface, chroma after height rows of the locked pitch; the status is SubmitStatus |
| NvVideoEncoder.NvVideoEncoder.EncodeFrame | src/NvVideoEncoder.cpp:189-249 | INVALID_PARAM for a missing frame; OUT_OF_MEMORY only for a ring with no slots; otherwise the slot taken joins the in-flight slots and the acquired log at the back, and on a full ring it is the oldest in-flight slot, drained first with one output that reaches the callback when there is one; the slot records the device-surface and mapping outcome and no other slot changes; a host frame that locks is converted to NV12 in the surface, which is otherwise untouched |
| NvVideoEncoder.NvVideoEncoder.InputData | src/NvVideoEncoder.cpp:96-117 | false and no change before Start; otherwise exactly one pts is pushed and the result is true whatever the encoder reports; the frame takes a slot at the back of the in-flight slots (the oldest one on a full ring), no other slot changes, and the surface holds the converted host frame; earlier slots and outputs are kept, each output carries the pts of its own frame, and the callback receives exactly the new outputs |
| NvVideoEncoder.NvVideoEncoder.EncodeQueued | src/NvVideoEncoder.cpp:113-114 | encoding a frame whose pts is already queued takes a slot at the back of the in-flight slots (the oldest one on a full ring), emits one output exactly when the ring was full, changes no other slot, converts a locked host frame into the surface, keeps the pushed log, and the callback receives exactly the new outputs |
| NvVideoEncoder.NvVideoEncoder.FlushEncoder | src/NvVideoEncoder.cpp:367-389 | a failed device flush returns its status and drains nothing; otherwise every in-flight slot is reclaimed in FIFO order with one output each, which the callback receives, and in a running session the outputs take the queued pts in order |
| NvVideoEncoder.NvVideoEncoder.DrainPending | src/NvVideoEncoder.cpp:373-388 | loops until GetPending returns NULL: one output per in-flight slot, all of them passed to the callback when there is one, pending count 0, every in-flight input unmapped, no other slot touched |
| NvVideoEncoder.NvVideoEncoder.DrainStep | src/NvVideoEncoder.cpp:374-386 | one round of the drain loop takes back the next of the slots that were in flight |
| NvVideoEncoder.NvVideoEncoder.Stop | src/NvVideoEncoder.cpp:118-127 | without an API, false and no change; otherwise the session ends, and after a successful flush of a running session every accepted frame has exactly one output, the i-th output carries the i-th pushed pts, and with a callback the callback has received exactly those outputs in that order |
| NvVideoDecoder.ParserCodec | src/NvVideoDecoder.cpp:185-190 | H264 and HEVC get a parser codec and any other codec is refused, in both directions |
| NvVideoDecoder.OutputFormatFor | src/NvVideoDecoder.cpp:88 | P016 iff the chroma bit depth is above 8 |
| NvVideoDecoder.CroppedWidth | src/NvVideoDecoder.cpp:41 | the unsigned long of the int right - left, equal to the difference when it is a non-negative int |
| NvVideoDecoder.CroppedHeight | src/NvVideoDecoder.cpp:42 | the unsigned long of the int bottom - top, equal to the difference when it is a non-negative int |
| NvVideoDecoder.IsDecoderFitting | src/NvVideoDecoder.cpp:35-44 | a fitting create-info has the stream's codec and coded size, P016 output iff a bit depth above 8, and a target size below 2^64; a different codec or coded size never fits |
| NvVideoDecoder.FitsIffAgreesWithRebuild | src/NvVideoDecoder.cpp:35-44 | IsDecoderFitting holds iff codec, coded size, chroma format, bit depth, cropped size and output format all equal those the stream demands; any single mismatch gives false |
| NvVideoDecoder.RebuiltDecoderFits | src/NvVideoDecoder.cpp:35-44 | a decoder rebuilt for one stream fits another iff the two agree on every compared field |
| NvVideoDecoder.PicSizeInSamples | src/NvVideoDecoder.cpp:74 | the product of the coded sizes as an int, equal to the product when that fits |
| NvVideoDecoder.HevcMaxDpbSize | src/NvVideoDecoder.cpp:70-84 | the capped DPB size is 16, 12, 8 or 6 |
| NvVideoDecoder.AnnexMaxDpbSize | src/NvVideoDecoder.cpp:71-84 | maxDpbSize of section A.4.2 of ITU-T H.265 is at most 16, or maxDpbPicBuf |
| NvVideoDecoder.HevcMaxDpbSizeIsAnnex | src/NvVideoDecoder.cpp:71-84 | the tiers and cap are section A.4.2 of ITU-T H.265 with MaxLumaPs 35651584 and maxDpbPicBuf 6 |
| NvVideoDecoder.HevcMaxDpbSizeNonIncreasing | src/NvVideoDecoder.cpp:76-84 | a larger picture never gets a larger DPB |
| NvVideoDecoder.DecodeSurfaces | src/NvVideoDecoder.cpp:61-86 | 20 surfaces for H264, SVC and MVC, 12 for VP9, 8 for any other codec, and 20, 16, 12 or 10 for HEVC |
| NvVideoDecoder.HevcSurfacesFollowPictureSize | src/NvVideoDecoder.cpp:70-86 | for HEVC the surfaces are the section A.4.2 DPB plus 4, and never grow with the picture while the sample count fits an int |
| NvVideoDecoder.HugePictureWrapsIntoFirstTier | src/NvVideoDecoder.cpp:74-77 | a 65536 x 32768 picture wraps to a negative int sample count and gets the 20 surfaces of the smallest tier |
| NvVideoDecoder.RebuildInfo | src/NvVideoDecoder.cpp:58-97 | the rebuilt create-info fits the stream it was built for, has the decode surfaces of the codec policy and 2 output surfaces, and its display area is (0, 0) to the target size as shorts |
| NvVideoDecoder.ProcParamsFor | src/NvVideoDecoder.cpp:259-262 | unpaired_field holds iff repeat_first_field is negative, and second_field is 0 |
| NvVideoDecoder.Factor | src/NvVideoDecoder.cpp:277 | 2 bytes per host sample exactly when the bit depth is above 8, else 1 |
| NvVideoDecoder.FrameSize | src/NvVideoDecoder.cpp:278 | the unsigned frame size stored in an int |
| NvVideoDecoder.FrameSizeWithoutWrap | src/NvVideoDecoder.cpp:278 | without wrap-around the frame size is pitch * height * 3 / 2 |
| NvVideoDecoder.HostBufferSizes | src/NvVideoDecoder.cpp:285-289 | buffer 0 has the frame size, buffer 1 factor times the int area, and buffers 2 and 3 factor times a quarter of the int area, truncated |
| NvVideoDecoder.HostBufferSizesFitPlanes | src/NvVideoDecoder.cpp:285-289 | without wrap-around the luma buffer holds exactly the width x height samples TransferToYUV writes, and each chroma buffer at least the (width>>1) x (height>>1) it writes, exactly that for even sizes |
| NvVideoDecoder.QuarterOfArea | src/NvVideoDecoder.cpp:22-30 | the chroma planes of a picture hold at most a quarter of its samples, exactly a quarter for even sizes |
| NvVideoDecoder.HostLineSizes | src/NvVideoDecoder.cpp:309-311 | the luma line size is width * factor and both chroma line sizes are half of it |
| NvVideoDecoder.HostLineSizesMatchPlanes | src/NvVideoDecoder.cpp:309-311 | for an even width the line sizes are the byte widths of the planes TransferToYUV writes |
| NvVideoDecoder.OddWidthChromaLineSize | src/NvVideoDecoder.cpp:309-311 | for an odd width above 8 bits, the chroma line size is one byte more than the chroma row TransferToYUV writes |
| NvVideoDecoder.DeviceLineSizes | src/NvVideoDecoder.cpp:313-315 | NV12 line sizes are the pitch and half of it twice |
| NvVideoDecoder.PrepareHost | src/NvVideoDecoder.cpp:279-295 | the host buffers are kept, and the conversion goes ahead, whenever buffer 0 exists at the same frame size; otherwise all four are allocated at the new size, the conversion goes ahead iff all four succeed, and the new state records which exist; an allocator that never fails always lets it go ahead |
| NvVideoDecoder.PartialAllocationIsKeptNextTime | src/NvVideoDecoder.cpp:279-295 | after a reallocation where buffer 0 succeeds and buffer 1 fails, that picture is refused, and the next picture of the same size goes ahead although the plane buffers are missing |
| NvVideoDecoder.Delivered | src/NvVideoDecoder.cpp:270-323 | the frame handed to the user has the target size as ints, the device address, YUV420P with the host line sizes on download or NV12 with the pitch line sizes otherwise, the given pts, and bit depth 8 |
| NvVideoDecoder.PictureDecodeResult | src/NvVideoDecoder.cpp:111-120 | 1 iff there is a decoder context and the decode succeeds, -1 otherwise |
| NvVideoDecoder.DataPacket | src/NvVideoDecoder.cpp:220-224 | the packet carries the unit's payload and length, the timestamp flag and timestamp 0 |
| NvVideoDecoder.ShowPicture | src/NvVideoDecoder.cpp:255-332 | -1 iff there is a callback, download is on and the host buffers cannot be had, and then the picture is neither delivered nor released and no pts is popped; otherwise 0, the picture is released, and with a callback the user gets the frame with the head pts or 0; without callback and download the host buffers do not change |
| NvVideoDecoder.ShowOn | src/NvVideoDecoder.cpp:255-328 | the branches of OutputVideoFrame after the dequeue, run on an output state, give the state and result of ShowPicture |
| NvVideoDecoder.OneMoreDrained | src/NvVideoDecoder.cpp:241-243 | one more drained picture adds its index to the released list and its frame, with the next pts, to the delivered list |
| NvVideoDecoder.NvVideoDecoder.constructor | src/NvVideoDecoder.h:28-39 | no parser, decoder or frame queue, an empty pts queue, frame size 0, download on |
| NvVideoDecoder.NvVideoDecoder.Start | src/NvVideoDecoder.cpp:154-213 | succeeds iff the context is set up and a parser exists or is created for H264/HEVC; the frame queue exists after context setup; success empties the pts queue and takes the callback and download choice |
| NvVideoDecoder.NvVideoDecoder.InputData | src/NvVideoDecoder.cpp:216-231 | 0 without a parser; otherwise exactly one pts is pushed, even for an empty unit, and the unit reaches the parser iff it has a non-null payload of non-zero length; result 1 |
| NvVideoDecoder.NvVideoDecoder.HandleVideoSequence | src/NvVideoDecoder.cpp:46-109 | 0 and no change when the decoder fits; otherwise the rebuilt create-info is committed and the result is 1 or -1 as creation succeeds; afterwards the create-info always fits the stream, so a repeat is a no-op |
| NvVideoDecoder.NvVideoDecoder.OutputVideoFrame | src/NvVideoDecoder.cpp:249-333 | nothing when no picture waits; otherwise the oldest picture is dequeued and shown as ShowPicture says |
| NvVideoDecoder.NvVideoDecoder.ShowFrame | src/NvVideoDecoder.cpp:264-328 | the new host buffers, pts queue and logs, and the result, are those of ShowPicture; the configuration and the frame queue do not change |
| NvVideoDecoder.NvVideoDecoder.HandlePictureDisplay | src/NvVideoDecoder.cpp:122-129 | -1 and no change without a context; otherwise the oldest waiting picture is shown before the new one is queued behind the rest; result 1 |
| NvVideoDecoder.NvVideoDecoder.Stop | src/NvVideoDecoder.cpp:232-246 | false without a parser or frame queue; otherwise the end-of-stream packet is parsed, the queue is emptied in order and marked end-of-decode; with host allocation never failing, the pictures are released in queue order and the i-th reaches the user with the i-th queued pts |
| NvVideoDecoder.NvVideoDecoder.DrainStep | src/NvVideoDecoder.cpp:241-243 | one turn of the drain loop outputs the next waiting picture |
| NvVideoDecoder.NvVideoDecoder.DrainFrames | src/NvVideoDecoder.cpp:241-243 | the loop runs until the queue is empty; with host allocation never failing, releases and outputs follow the queue order and the pts order |

## Left out

- The CUDA, NVENC and NVCUVID calls are foreign. Their results are parameters. Covered here:
  - device initialisation (`InitCuda`);
  - session creation;
  - `ProcessOutput`;
  - locking, mapping and copying;
  - `cuvidCreateDecoder`;
  - `cuvidMapVideoFrame`;
  - `cuMemAllocHost`.
- `Deinitialize`, `ReleaseIOBuffers`, the device teardown in both `Stop`s, and both destructors release foreign resources. They are not modelled beyond the API flag.
- Concurrency is not modelled: the context lock (`CCtxAutoLock`) and the parser's callback thread. The parser callbacks are methods the environment calls, one at a time.
- The decoder's `FrameQueue` is not part of this model. It is a FIFO sequence with an end-of-decode flag, and released pictures are a log. Its capacity, `waitUntilFrameAvailable` (called in `HandlePictureDecode`) and `init(width, height)` (called after a rebuild) are left out.
- TimestampRelay.PopMany: its own contract gives only the number of timestamps; which timestamps they are is stated by PopManyIsFifo, to keep the function cheap to unfold.
- PixelFormats.Yuv420ToNv12: a frame of odd width whose destination stride is exactly the width (a zero stride included) is outside its precondition `Nv12Fits`, which asks for a stride of at least the width rounded up to even. On such input the conversion writes each chroma row's last Cr sample into the next row, where the next row then overwrites it; the model does not describe that overlap. EncodeFrame passes the driver's locked pitch, and its precondition asks the same of that pitch.
- NvVideoEncoder.NvVideoEncoder.AllocateIOBuffers: only the ring initialisation is modelled. The per-slot input, bitstream and registration calls are collapsed into one step that succeeds or fails.
- NvVideoEncoder.NvVideoEncoder.Submit: the device-to-device copy is a success flag, and the copied contents are not modelled.
- NvVideoEncoder.NvVideoEncoder.DrainPending: every unmap in one flush reports the same status, which is one parameter.
- NvVideoEncoder.NvVideoEncoder.Stop: the end-to-end output guarantee is stated for a running session whose device flush succeeds.
- NvVideoEncoder.NvVideoEncoder.FlushEncoder: the pts claims are stated for a running session only.
- The encoder configuration fields that Start sets to constants are left out: preset, device type, picture structure, input format, rate-control mode and end frame. So is the `TENBITSUPPORT` branch, which is compiled out.
- NvVideoDecoder.NvVideoDecoder.ShowFrame: the download and `TransferToYUV` into the host buffers are not linked to the delivered frame. Its plane pointers are `NoPlanes`, and the conversion itself is `PixelFormats.TransferToYuv`.
- NvVideoDecoder.PrepareHost: the four host pointers are a flag for buffer 0 and one flag for buffers 1-3 together. Freeing the old buffers is not modelled.
- NvVideoDecoder.NvVideoDecoder.Stop: the order of releases and outputs is stated only when host allocation never fails.
- NvVideoDecoder.NvVideoDecoder.DrainFrames: same as Stop; the order of releases and outputs is stated only when host allocation never fails.
- NvVideoDecoder.NvVideoDecoder.Start: the six context-setup calls are one success flag. The context and lock handles are not modelled, and neither are the parser parameters (10 surfaces, display delay 1).
- NvVideoDecoder.NvVideoDecoder.HandleVideoSequence: the destruction of the old decoder is left out, and so are the deinterlace mode, the creation flags and the lock that are passed to the driver.
- The memset of the create-info is not modelled separately, because every field of the model is set again.
- Decoder `InputData` hands packets to the parser as a log. The callbacks the parser makes from inside `cuvidParseVideoData` are separate calls.
- Pixel samples are unbounded naturals. Their 8- or 16-bit width is left to the caller. Timestamps are unbounded integers, because they are only copied and never computed on.
