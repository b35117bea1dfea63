/**
  NvVideoEncoder (NvVideoEncoder.cpp): raw frames in, one encoded bitstream
  per frame out through the user's callback, in submission order.

  The encoder keeps 32 EncodeBuffer slots, of which Start puts 10 into the
  in-flight ring (NvQueue). EncodeFrame takes a free slot, and when every slot
  is in flight it first drains the oldest one, which produces one output.
  FlushEncoder drains all of them. Each input pushes its pts onto a queue and
  each output pops one.

  The CUDA and NVENC calls are not visible. Their results are parameters:
  statuses, the locked pitch and surface, and `process`, the bitstream the
  device produces for a slot. The callback is a log (`delivered`). Ghost logs
  record, for the current session, the pts pushed and relayed, the slots
  acquired and reclaimed, and every bitstream produced.
 */
module NvVideoEncoder {
  import opened Wrappers
  import opened CInt
  import opened MediaDef
  import opened NvEncodeApi
  import opened TimestampRelay
  import PixelFormats

  /** The NV_ENC_H264 / NV_ENC_HEVC codec identifiers of the encoder configuration. */
  const NV_ENC_H264: nat := 0
  const NV_ENC_HEVC: nat := 1

  /** The ring capacity Start fixes. */
  const ENCODER_BUFFER_COUNT: nat := 10

  /** The codec mapping of Start: HEVC and H264 are accepted, anything else is refused. */
  function EncoderCodec(codec: VideoCodec): (r: Option<nat>)
    ensures r == Some(NV_ENC_HEVC) <==> codec == HEVC
    ensures r == Some(NV_ENC_H264) <==> codec == H264
    ensures r.None? <==> codec == NoCodec
  {
    match codec
    case HEVC => Some(NV_ENC_HEVC)
    case H264 => Some(NV_ENC_H264)
    case NoCodec => None
  }

  /** The EncodeConfig fields Start fills from the user's parameters. */
  datatype EncodeConfig = EncodeConfig(
    codec: nat,
    width: int,
    height: int,
    frameRateNum: int,
    frameRateDen: int,
    bitrate: int,
    gopLength: int,
    numB: int,
    vbvSize: int,
    vbvMaxBitrate: int,
    refnum: int)

  /** The configuration after its memset to zero. */
  const ZERO_CONFIG := EncodeConfig(0, 0, 0, 0, 0, 0, 0, 0, 0, 0, 0)

  /** The configuration Start builds for an accepted codec. */
  function ConfigFor(param: VideoParam, codec: nat): (c: EncodeConfig)
    ensures c.codec == codec && c.width == param.width && c.height == param.height
    ensures c.bitrate == c.vbvSize == c.vbvMaxBitrate == param.bitRate
    ensures c.gopLength == param.gopSize && c.numB == 0 && c.refnum == 2
    ensures c.frameRateNum == param.frameRateNum && c.frameRateDen == param.frameRateDen
  {
    EncodeConfig(codec, param.width, param.height, param.frameRateNum, param.frameRateDen,
                 param.bitRate, param.gopSize, 0, param.bitRate, param.bitRate, 2)
  }

  /** The device steps of Start; `failAt` names the first one that fails, if any. */
  datatype StartStep = InitCuda | ApiInitialize | CreateEncoder | AllocateIOBuffers

  /** How many of the device steps of Start succeed when `failAt` is the first to fail. */
  function StepsDone(failAt: Option<StartStep>): (n: nat)
    ensures n <= 4 && (n == 4 <==> failAt.None?)
    ensures failAt.Some? ==> (n == 0 <==> failAt.value == InitCuda) && (n == 3 <==> failAt.value == AllocateIOBuffers)
  {
    match failAt
    case None => 4
    case Some(step) =>
      match step
      case InitCuda => 0
      case ApiInitialize => 1
      case CreateEncoder => 2
      case AllocateIOBuffers => 3
  }

  /**
    The results of the device calls one EncodeFrame makes: the device-to-device
    copy, mapping the input, locking the host input (with the pitch it
    reports), unlocking it, and the encode itself.
   */
  datatype DeviceCalls = DeviceCalls(
    copyOk: bool,
    mapStatus: NvEncStatus,
    lockStatus: NvEncStatus,
    lockedPitch: nat,
    unlockStatus: NvEncStatus,
    encodeStatus: NvEncStatus)

  /** The bitstream OutputFrame produces from a locked output and a timestamp. */
  function ToBitstream(lock: LockBitstream, ts: int): (bs: MediaDataBitStream)
    ensures bs.pts == ts && bs.dts == ts
    ensures bs.isKey <==> lock.pictureType == IDR
    ensures bs.hasBuffer == lock.hasBuffer && bs.bufferLen == Int32(lock.sizeInBytes)
  {
    MediaDataBitStream(lock.hasBuffer, Int32(lock.sizeInBytes), ts, ts, lock.pictureType == IDR)
  }

  /** The timestamps carried by a sequence of bitstreams. */
  function PtsOf(bs: seq<MediaDataBitStream>): (ts: seq<int>)
    ensures |ts| == |bs| && forall i :: 0 <= i < |bs| ==> ts[i] == bs[i].pts
  {
    seq(|bs|, i requires 0 <= i < |bs| => bs[i].pts)
  }

  /** More outputs: the callback log gains exactly the new ones, when there is a callback. */
  lemma DeliveredGrows(base: seq<MediaDataBitStream>, o0: seq<MediaDataBitStream>, o1: seq<MediaDataBitStream>, cb: bool)
    requires o0 <= o1
    ensures base + (if cb then o1 else []) == (base + (if cb then o0 else [])) + (if cb then o1[|o0|..] else [])
  {
    if cb {
      assert o1 == o0 + o1[|o0|..];
    }
  }

  lemma PtsOfSnoc(bs: seq<MediaDataBitStream>, b: MediaDataBitStream)
    ensures PtsOf(bs + [b]) == PtsOf(bs) + [b.pts]
  {
  }

  /** The frame InputData builds from a raw picture: device address or host planes, strides, size. */
  function FrameOf(data: VideoRawData): (f: EncodeFrameConfig)
    requires |data.lineSize| == 3
    ensures f.dptr == data.deviceptr && |f.stride| == 3
    ensures f.dptr != 0 ==> f.yuv == NoPlanes
    ensures f.dptr == 0 ==> f.yuv == data.buffer
    ensures f.width == U32(data.width) && f.height == U32(data.height)
    ensures forall k :: 0 <= k < 3 ==> f.stride[k] == U32(data.lineSize[k])
  {
    EncodeFrameConfig(
      if data.deviceptr != 0 then NoPlanes else data.buffer,
      data.deviceptr,
      [U32(data.lineSize[0]), U32(data.lineSize[1]), U32(data.lineSize[2])],
      U32(data.width),
      U32(data.height))
  }

  /** The status EncodeFrame reports once it holds a slot. */
  function SubmitStatus(frame: EncodeFrameConfig, dev: DeviceCalls): (s: NvEncStatus)
    ensures frame.dptr > 0 && !dev.copyOk ==> s == ErrGeneric
    ensures frame.dptr > 0 && dev.copyOk && dev.mapStatus != Success ==> s == dev.mapStatus
    ensures frame.dptr == 0 && dev.lockStatus != Success ==> s == dev.lockStatus
    ensures frame.dptr == 0 && dev.lockStatus == Success && dev.unlockStatus != Success ==> s == dev.unlockStatus
    ensures s == dev.encodeStatus || s == ErrGeneric || s == dev.mapStatus || s == dev.lockStatus || s == dev.unlockStatus
  {
    if frame.dptr > 0 then
      if !dev.copyOk then ErrGeneric
      else if dev.mapStatus != Success then dev.mapStatus
      else dev.encodeStatus
    else
      if dev.lockStatus != Success then dev.lockStatus
      else if dev.unlockStatus != Success then dev.unlockStatus
      else dev.encodeStatus
  }

  /** Moving the head of `p` to the end of `a` keeps `a + p`. */
  lemma MoveHead<T>(a: seq<T>, p: seq<T>)
    requires p != []
    ensures (a + [p[0]]) + p[1..] == a + p
  {
    assert p == [p[0]] + p[1..];
  }

  /**
    What the host path of EncodeFrame needs of the frame and the locked
    surface: the planes are present when there is anything to copy, the
    conversion stays inside every buffer, and the strides and pitch are
    non-negative C ints.
   */
  ghost predicate HostCopyFits(frame: EncodeFrameConfig, surface: array<nat>, chromaOffset: nat, pitch: nat)
    reads if frame.yuv.Planes? then {frame.yuv.y, frame.yuv.u, frame.yuv.v} else {}
  {
    && |frame.stride| == 3
    && frame.width < TWO_31 && frame.height < TWO_31 && frame.stride[0] < TWO_31 && pitch < TWO_31
    && (frame.yuv.NoPlanes? ==> frame.width == 0 || frame.height == 0)
    && (frame.yuv.Planes? ==>
          && surface != frame.yuv.y && surface != frame.yuv.u && surface != frame.yuv.v
          && PixelFormats.Nv12Fits(frame.yuv.y.Length, frame.yuv.u.Length, frame.yuv.v.Length, surface.Length,
                                   chromaOffset, frame.width, frame.height,
                                   PixelFormats.EffectiveStride(frame.stride[0], frame.width),
                                   PixelFormats.EffectiveStride(pitch, frame.width)))
  }

  /**
    The slot logs after EncodeFrame takes a slot on a ring that has slots:
    the slot joins the in-flight slots and the acquired log at the back, and
    on a full ring it is the oldest in-flight slot, drained and handed back.
   */
  ghost predicate SlotTaken(pending0: seq<nat>, pending1: seq<nat>, acquired0: seq<nat>, acquired1: seq<nat>, full: bool)
  {
    && |acquired1| == |acquired0| + 1
    && var slot := acquired1[|acquired0|];
       && acquired1 == acquired0 + [slot]
       && (full ==> pending0 != [] && slot == pending0[0] && pending1 == pending0[1..] + [slot])
       && (!full ==> pending1 == pending0 + [slot])
  }

  /**
    The slot array after a frame is submitted on `slot`: the slot records
    whether the input is a device surface and, for a copied device frame,
    whether its mapping succeeded; otherwise it stays mapped only if it was
    not drained on a full ring. No other slot changes.
   */
  ghost predicate SlotSubmitted(b0: seq<EncodeBuffer>, b1: seq<EncodeBuffer>, slot: nat, full: bool,
                                frame: EncodeFrameConfig, dev: DeviceCalls)
  {
    && |b1| == |b0| && slot < |b0|
    && b1[slot] == EncodeBuffer(frame.dptr > 0,
                                if frame.dptr > 0 && dev.copyOk then dev.mapStatus == Success
                                else !full && b0[slot].mappedSurface)
    && forall i :: 0 <= i < |b0| && i != slot ==> b1[i] == b0[i]
  }

  /**
    The input surface after a frame is submitted: a host frame that locks
    the surface and has planes is converted into it as NV12 (see
    Yuv420ToNv12), chroma at `chromaOffset`; in every other case the surface
    is untouched.
   */
  ghost predicate SurfaceSubmitted(s0: seq<nat>, s1: seq<nat>, frame: EncodeFrameConfig, dev: DeviceCalls, chromaOffset: nat)
    reads if frame.yuv.Planes? then {frame.yuv.y, frame.yuv.u, frame.yuv.v} else {}
  {
    if frame.dptr > 0 || dev.lockStatus != Success || frame.yuv.NoPlanes? then s1 == s0
    else
      && |frame.stride| > 0
      && var w, h := frame.width, frame.height;
         var ss, ds := PixelFormats.EffectiveStride(frame.stride[0], w), PixelFormats.EffectiveStride(dev.lockedPitch, w);
         && PixelFormats.LumaCopied(s1, frame.yuv.y[..], w, h, ss, ds)
         && PixelFormats.ChromaInterleaved(s1, frame.yuv.u[..], frame.yuv.v[..], chromaOffset, w, h, ss, ds)
  }

  /** NvVideoEncoder: the encoder session, its slot array, its ring and its pts queue. */
  class NvVideoEncoder {
    var inited: bool
    var hasApi: bool
    var bufferCount: nat
    var config: EncodeConfig
    var hasCallback: bool
    const buffers: array<EncodeBuffer>
    const ring: NvQueue
    var pts: seq<int>
    var delivered: seq<MediaDataBitStream>

    ghost var pushed: seq<int>
    ghost var relayed: seq<int>
    ghost var outputs: seq<MediaDataBitStream>
    ghost var acquired: seq<nat>
    ghost var reclaimed: seq<nat>
    /** What the callback had received before the current session began. */
    ghost var deliveredBefore: seq<MediaDataBitStream>

    /** The fields no frame operation changes. */
    ghost function Settings(): (bool, bool, nat, EncodeConfig, bool, seq<MediaDataBitStream>)
      reads this
    {
      (inited, hasApi, bufferCount, config, hasCallback, deliveredBefore)
    }

    /**
      Every slot the ring hands out names one of the 32 buffers, a running
      session has a ring of 10, and the logs add up: what was relayed
      followed by what is queued is what was pushed, what was reclaimed
      followed by what is pending is what was acquired, and the callback
      has received, since the session began, every output when there is a
      callback and nothing otherwise.
     */
    ghost predicate Valid()
      reads this, ring, ring.table, buffers
    {
      && buffers.Length == MAX_ENCODE_QUEUE
      && ring.Valid()
      && ring.size <= MAX_ENCODE_QUEUE
      && (forall i :: 0 <= i < ring.size ==> ring.table[i] == i)
      && (inited ==> hasApi && bufferCount == ENCODER_BUFFER_COUNT && ring.size == ENCODER_BUFFER_COUNT)
      && relayed + pts == pushed
      && reclaimed + ring.PendingSlots() == acquired
      && (forall i :: 0 <= i < |outputs| ==> outputs[i].dts == outputs[i].pts)
      && delivered == deliveredBefore + (if hasCallback then outputs else [])
    }

    /**
      In a running session every in-flight slot has its pts queued, one each,
      and every output so far carried the pts relayed to it, so the k-th
      output carries the k-th pushed pts.
     */
    ghost predicate Paired()
      reads this, ring, ring.table, buffers
      requires Valid()
    {
      inited ==>
        && |pts| == ring.pendingCount
        && |pushed| == |acquired|
        && PtsOf(outputs) == relayed
    }

    /** The constructor clears every slot; nothing is started. */
    constructor ()
      ensures Valid() && Paired()
      ensures !inited && !hasApi && bufferCount == 0 && pts == [] && delivered == []
      ensures ring.State() == Cursors(0, 0, 0, 0)
      ensures forall i :: 0 <= i < buffers.Length ==> buffers[i] == EncodeBuffer(false, false)
    {
      buffers := new EncodeBuffer[MAX_ENCODE_QUEUE](_ => EncodeBuffer(false, false));
      ring := new NvQueue();
      inited, hasApi, bufferCount := false, false, 0;
      config, hasCallback := ZERO_CONFIG, false;
      pts, delivered := [], [];
      pushed, relayed, outputs, acquired, reclaimed := [], [], [], [], [];
      deliveredBefore := [];
    }

    /**
      Start: does nothing and succeeds when already started. Otherwise the
      configuration is reset; an unsupported codec fails before any device
      work; then the session is opened (see OpenSession).
     */
    method Start(param: VideoParam, cb: bool, failAt: Option<StartStep>) returns (ok: bool)
      requires Valid() && Paired()
      modifies this, ring
      ensures Valid() && Paired()
      ensures old(inited) ==> ok && unchanged(this, ring)
      ensures !old(inited) && EncoderCodec(param.codec).None? ==>
                !ok && config == ZERO_CONFIG && !inited && pts == old(pts) && hasApi == old(hasApi)
                && ring.State() == old(ring.State())
      ensures !old(inited) && EncoderCodec(param.codec).Some? ==>
                && config == ConfigFor(param, EncoderCodec(param.codec).value)
                && (ok <==> failAt.None?) && inited == ok
                && (hasApi <==> old(hasApi) || StepsDone(failAt) > 0)
                && (StepsDone(failAt) >= 3 ==> ring.State() == Cursors(ENCODER_BUFFER_COUNT, 0, 0, 0))
                && (StepsDone(failAt) < 3 ==> ring.State() == old(ring.State()))
                && (ok ==> pts == [] && hasCallback == cb && bufferCount == ENCODER_BUFFER_COUNT)
                && (!ok ==> pts == old(pts))
      ensures delivered == old(delivered)
    {
      if inited {
        return true;
      }
      config := ZERO_CONFIG;
      var codec := EncoderCodec(param.codec);
      if codec.None? {
        return false;
      }
      config := ConfigFor(param, codec.value);
      ok := OpenSession(cb, failAt);
    }

    /**
      The device part of Start, once the configuration is set: the device
      steps run in order up to the first failure (`failAt`); the encoder API
      exists from the second step on; the ring is set to 10 slots before the
      buffers are allocated; and only a complete start empties the pts queue
      and begins the session.
     */
    method OpenSession(cb: bool, failAt: Option<StartStep>) returns (ok: bool)
      requires Valid() && Paired() && !inited
      modifies this, ring
      ensures Valid() && Paired()
      ensures config == old(config)
      ensures (ok <==> failAt.None?) && inited == ok
      ensures hasApi <==> old(hasApi) || StepsDone(failAt) > 0
      ensures StepsDone(failAt) >= 3 ==> ring.State() == Cursors(ENCODER_BUFFER_COUNT, 0, 0, 0)
      ensures StepsDone(failAt) < 3 ==> ring.State() == old(ring.State())
      ensures ok ==> pts == [] && hasCallback == cb && bufferCount == ENCODER_BUFFER_COUNT
      ensures !ok ==> pts == old(pts)
      ensures delivered == old(delivered)
    {
      var done := StepsDone(failAt);
      if done == 0 {
        return false;
      }
      hasApi := true;
      if done < 3 {
        return false;
      }
      bufferCount := ENCODER_BUFFER_COUNT;
      AllocateIOBuffers();
      if done == 3 {
        return false;
      }
      BeginSession(cb);
      ok := true;
    }

    /**
      The end of a complete Start: the pts queue is emptied, the session
      begins with nothing pushed or output yet, and the callback is set.
     */
    method BeginSession(cb: bool)
      requires Valid() && !inited && hasApi && bufferCount == ENCODER_BUFFER_COUNT
      requires ring.State() == Cursors(ENCODER_BUFFER_COUNT, 0, 0, 0) && acquired == []
      modifies this
      ensures Valid() && Paired()
      ensures inited && pts == [] && hasCallback == cb
      ensures config == old(config) && hasApi && bufferCount == ENCODER_BUFFER_COUNT
      ensures delivered == old(delivered)
    {
      pts := [];
      pushed, relayed, outputs := [], [], [];
      deliveredBefore := delivered;
      inited := true;
      hasCallback := cb;
    }

    /**
      AllocateIOBuffers, as far as the ring goes: the ring is initialised
      with `bufferCount` slots, all free, before the first buffer is
      allocated, and no slot has been taken yet.
     */
    method AllocateIOBuffers()
      requires Valid() && !inited && bufferCount <= MAX_ENCODE_QUEUE
      modifies this, ring
      ensures Valid() && Paired()
      ensures Settings() == old(Settings())
      ensures (pts, pushed, relayed, outputs, delivered) == old((pts, pushed, relayed, outputs, delivered))
      ensures ring.State() == Cursors(bufferCount, 0, 0, 0)
      ensures acquired == [] && reclaimed == []
    {
      ghost var before := (pts, pushed, relayed, outputs, inited);
      var _ := ring.Initialize(bufferCount);
      acquired, reclaimed := [], [];
      assert (pts, pushed, relayed, outputs, inited) == before;
    }

    /**
      OutputFrame: the bitstream takes the head of the pts queue as pts and
      dts, or 0 when the queue is empty; it is a key frame exactly when the
      picture is IDR; it reaches the callback when there is one.
     */
    method OutputFrame(lock: LockBitstream)
      requires Valid()
      modifies this
      ensures Valid()
      ensures Settings() == old(Settings())
      ensures pushed == old(pushed) && acquired == old(acquired) && reclaimed == old(reclaimed)
      ensures pts == Pop(old(pts)).1
      ensures relayed == old(relayed) + (if old(pts) == [] then [] else [old(pts)[0]])
      ensures outputs == old(outputs) + [ToBitstream(lock, Pop(old(pts)).0)]
      ensures delivered == old(delivered) + (if hasCallback then [ToBitstream(lock, Pop(old(pts)).0)] else [])
    {
      var (ts, rest) := Pop(pts);
      var bs := ToBitstream(lock, ts);
      if pts != [] {
        MoveHead(relayed, pts);
        relayed := relayed + [pts[0]];
      }
      pts := rest;
      outputs := outputs + [bs];
      if hasCallback {
        delivered := delivered + [bs];
      }
    }

    /**
      GetAvailable with the slot logged as acquired: the first free slot,
      which joins the in-flight ones at the back, or nothing when every
      slot is in flight.
     */
    method AcquireSlot() returns (slot: Option<nat>)
      requires Valid()
      modifies this, ring
      ensures Valid()
      ensures Settings() == old(Settings()) && pushed == old(pushed) && reclaimed == old(reclaimed)
      ensures pts == old(pts) && relayed == old(relayed) && outputs == old(outputs) && delivered == old(delivered)
      ensures ring.table == old(ring.table)
      ensures slot.None? <==> old(ring.pendingCount) == old(ring.size)
      ensures slot.None? ==> unchanged(this, ring)
      ensures slot.Some? ==>
                && slot.value < buffers.Length
                && slot.value == ring.table[old(ring.availableIdx)]
                && ring.size == old(ring.size)
                && ring.pendingCount == old(ring.pendingCount) + 1
                && ring.PendingSlots() == old(ring.PendingSlots()) + [slot.value]
                && acquired == old(acquired) + [slot.value]
    {
      slot := ring.GetAvailable();
      if slot.Some? {
        acquired := acquired + [slot.value];
      }
    }

    /**
      GetPending with the slot logged as reclaimed: the oldest in-flight
      slot, or nothing when none is in flight.
     */
    method ReclaimSlot() returns (slot: Option<nat>)
      requires Valid()
      modifies this, ring
      ensures Valid() && (old(Paired()) && slot.None? ==> Paired())
      ensures Settings() == old(Settings()) && pushed == old(pushed) && acquired == old(acquired)
      ensures pts == old(pts) && relayed == old(relayed) && outputs == old(outputs) && delivered == old(delivered)
      ensures ring.table == old(ring.table)
      ensures slot.None? <==> old(ring.pendingCount) == 0
      ensures slot.None? ==> unchanged(this, ring)
      ensures slot.Some? ==>
                && slot.value < buffers.Length
                && slot.value == ring.table[old(ring.pendingIdx)]
                && ring.size == old(ring.size) && ring.availableIdx == old(ring.availableIdx)
                && ring.pendingCount + 1 == old(ring.pendingCount)
                && old(ring.PendingSlots()) != [] && slot.value == old(ring.PendingSlots())[0]
                && ring.PendingSlots() == old(ring.PendingSlots())[1..]
                && reclaimed == old(reclaimed) + [slot.value]
    {
      slot := ring.GetPending();
      if slot.Some? {
        MoveHead(reclaimed, old(ring.PendingSlots()));
        reclaimed := reclaimed + [slot.value];
      }
    }

    /**
      Draining the oldest in-flight slot, as EncodeFrame and FlushEncoder
      both do: the ring gives it back, the device's bitstream for it is
      output, and its input is unmapped if it was mapped (`unmapped`).
      Nothing happens when no slot is in flight. A running session stays
      paired.
     */
    method DrainOne(process: nat -> LockBitstream) returns (slot: Option<nat>, unmapped: bool)
      requires Valid()
      modifies this, ring, buffers
      ensures Valid() && (old(Paired()) ==> Paired())
      ensures Settings() == old(Settings()) && pushed == old(pushed) && acquired == old(acquired)
      ensures ring.table == old(ring.table)
      ensures slot.None? <==> old(ring.pendingCount) == 0
      ensures slot.None? ==> unchanged(this, ring, buffers) && !unmapped
      ensures slot.Some? ==>
                && slot.value < buffers.Length
                && slot.value == ring.table[old(ring.pendingIdx)]
                && ring.size == old(ring.size) && ring.availableIdx == old(ring.availableIdx)
                && ring.pendingCount + 1 == old(ring.pendingCount)
                && old(ring.PendingSlots()) != [] && slot.value == old(ring.PendingSlots())[0]
                && ring.PendingSlots() == old(ring.PendingSlots())[1..]
                && reclaimed == old(reclaimed) + [slot.value]
                && pts == Pop(old(pts)).1
                && relayed == old(relayed) + (if old(pts) == [] then [] else [old(pts)[0]])
                && outputs == old(outputs) + [ToBitstream(process(slot.value), Pop(old(pts)).0)]
                && delivered == old(delivered) + (if hasCallback then [ToBitstream(process(slot.value), Pop(old(pts)).0)] else [])
                && unmapped == old(buffers[slot.value].mappedSurface)
                && buffers[slot.value] == old(buffers[slot.value]).(mappedSurface := false)
                && (forall i :: 0 <= i < buffers.Length && i != slot.value ==> buffers[i] == old(buffers[i]))
    {
      unmapped := false;
      slot := ReclaimSlot();
      if slot.None? {
        return;
      }
      ghost var o := outputs;
      OutputFrame(process(slot.value));
      PtsOfSnoc(o, outputs[|o|]);
      if buffers[slot.value].mappedSurface {
        unmapped := true;
        buffers[slot.value] := buffers[slot.value].(mappedSurface := false);
      }
    }

    /**
      The ring part of EncodeFrame: a free slot when there is one; when every
      slot is in flight, the oldest is drained first and then handed back,
      as it is the only free one; nothing when the ring has no slots at all.
      The slot handed out is in flight afterwards, at the back.
     */
    method TakeSlot(process: nat -> LockBitstream) returns (slot: Option<nat>)
      requires Valid()
      modifies this, ring, buffers
      ensures Valid()
      ensures Settings() == old(Settings()) && pushed == old(pushed)
      ensures ring.table == old(ring.table)
      ensures slot.Some? <==> old(ring.size) > 0
      ensures old(ring.size) == 0 ==> unchanged(this, ring, buffers)
      ensures old(ring.pendingCount) < old(ring.size) ==>
                && slot.Some? && slot.value < buffers.Length
                && ring.pendingCount == old(ring.pendingCount) + 1
                && ring.PendingSlots() == old(ring.PendingSlots()) + [slot.value]
                && acquired == old(acquired) + [slot.value] && reclaimed == old(reclaimed)
                && pts == old(pts) && relayed == old(relayed) && outputs == old(outputs) && delivered == old(delivered)
                && unchanged(buffers)
      ensures 0 < old(ring.size) == old(ring.pendingCount) ==>
                && slot == Some(old(ring.PendingSlots())[0])
                && ring.pendingCount == old(ring.pendingCount)
                && ring.PendingSlots() == old(ring.PendingSlots())[1..] + [slot.value]
                && acquired == old(acquired) + [slot.value] && reclaimed == old(reclaimed) + [slot.value]
                && pts == Pop(old(pts)).1
                && relayed == old(relayed) + (if old(pts) == [] then [] else [old(pts)[0]])
                && outputs == old(outputs) + [ToBitstream(process(slot.value), Pop(old(pts)).0)]
                && delivered == old(delivered) + (if hasCallback then [ToBitstream(process(slot.value), Pop(old(pts)).0)] else [])
                && slot.value < buffers.Length
                && buffers[slot.value] == old(buffers[slot.value]).(mappedSurface := false)
                && (forall i :: 0 <= i < buffers.Length && i != slot.value ==> buffers[i] == old(buffers[i]))
    {
      slot := AcquireSlot();
      if slot.Some? {
        return;
      }
      var drained, _ := DrainOne(process);
      if drained.None? {
        return;
      }
      slot := AcquireSlot();
    }

    /**
      The input part of EncodeFrame, on slot `s`: a device frame is copied
      and its input mapped; a host frame is converted to NV12 into the
      locked surface, chroma after `height` rows of the locked pitch; then
      the frame is encoded. The first failing step decides the status.
     */
    method Submit(s: nat, frame: EncodeFrameConfig, dev: DeviceCalls, surface: array<nat>) returns (status: NvEncStatus)
      requires s < buffers.Length
      requires frame.dptr == 0 && dev.lockStatus == Success ==>
                 HostCopyFits(frame, surface, U32(U32(config.height) * U32(dev.lockedPitch)), dev.lockedPitch)
      modifies buffers, surface
      ensures status == SubmitStatus(frame, dev)
      ensures buffers[s].deviceSurface == (frame.dptr > 0)
      ensures frame.dptr > 0 && dev.copyOk ==> buffers[s].mappedSurface == (dev.mapStatus == Success)
      ensures !(frame.dptr > 0 && dev.copyOk) ==> buffers[s].mappedSurface == old(buffers[s].mappedSurface)
      ensures forall i :: 0 <= i < buffers.Length && i != s ==> buffers[i] == old(buffers[i])
      ensures frame.dptr > 0 || dev.lockStatus != Success || frame.yuv.NoPlanes? ==> unchanged(surface)
      ensures SurfaceSubmitted(old(surface[..]), surface[..], frame, dev, U32(U32(config.height) * U32(dev.lockedPitch)))
    {
      if frame.dptr > 0 {
        buffers[s] := buffers[s].(deviceSurface := true);
        if !dev.copyOk {
          return ErrGeneric;
        }
        buffers[s] := buffers[s].(mappedSurface := dev.mapStatus == Success);
        if dev.mapStatus != Success {
          return dev.mapStatus;
        }
      } else {
        buffers[s] := buffers[s].(deviceSurface := false);
        if dev.lockStatus != Success {
          return dev.lockStatus;
        }
        var chromaOffset := U32(U32(config.height) * U32(dev.lockedPitch));
        if frame.yuv.Planes? {
          PixelFormats.Yuv420ToNv12(frame.yuv.y, frame.yuv.u, frame.yuv.v, surface, chromaOffset,
                                    frame.width, frame.height, frame.stride[0], dev.lockedPitch);
        }
        if dev.unlockStatus != Success {
          return dev.unlockStatus;
        }
      }
      status := dev.encodeStatus;
    }

    /**
      EncodeFrame: a missing frame is refused; otherwise a slot is taken
      (see TakeSlot), which fails only for a ring with no slots, and the
      frame is submitted on it (see Submit).
     */
    method EncodeFrame(frame: Option<EncodeFrameConfig>, process: nat -> LockBitstream, dev: DeviceCalls,
                       surface: array<nat>) returns (status: NvEncStatus)
      requires Valid()
      requires surface != ring.table
      requires frame.Some? && frame.value.dptr == 0 && dev.lockStatus == Success ==>
                 HostCopyFits(frame.value, surface, U32(U32(config.height) * U32(dev.lockedPitch)), dev.lockedPitch)
      modifies this, ring, buffers, surface
      ensures Valid()
      ensures Settings() == old(Settings()) && pushed == old(pushed)
      ensures frame.None? ==> status == ErrInvalidParam && unchanged(this, ring, buffers, surface)
      ensures frame.Some? && old(ring.size) == 0 ==> status == ErrOutOfMemory && unchanged(this, ring, buffers, surface)
      ensures frame.Some? && old(ring.size) > 0 ==>
                && status == SubmitStatus(frame.value, dev)
                && SlotTaken(old(ring.PendingSlots()), ring.PendingSlots(), old(acquired), acquired,
                             old(ring.pendingCount) == old(ring.size))
                && SlotSubmitted(old(buffers[..]), buffers[..], acquired[|acquired| - 1],
                                 old(ring.pendingCount) == old(ring.size), frame.value, dev)
                && (old(ring.pendingCount) < old(ring.size) ==>
                      && ring.pendingCount == old(ring.pendingCount) + 1
                      && pts == old(pts) && relayed == old(relayed) && outputs == old(outputs)
                      && delivered == old(delivered) && reclaimed == old(reclaimed))
                && (old(ring.pendingCount) == old(ring.size) ==>
                      && ring.pendingCount == old(ring.pendingCount)
                      && reclaimed == old(reclaimed) + [acquired[|acquired| - 1]]
                      && pts == Pop(old(pts)).1
                      && relayed == old(relayed) + (if old(pts) == [] then [] else [old(pts)[0]])
                      && outputs == old(outputs) + [ToBitstream(process(acquired[|acquired| - 1]), Pop(old(pts)).0)]
                      && delivered == old(delivered)
                                      + (if hasCallback then [ToBitstream(process(acquired[|acquired| - 1]), Pop(old(pts)).0)] else []))
      ensures frame.Some? && old(ring.size) > 0 ==>
                SurfaceSubmitted(old(surface[..]), surface[..], frame.value, dev, U32(U32(config.height) * U32(dev.lockedPitch)))
    {
      if frame.None? {
        return ErrInvalidParam;
      }
      var slot := TakeSlot(process);
      if slot.None? {
        return ErrOutOfMemory;
      }
      status := Submit(slot.value, frame.value, dev, surface);
    }

    /**
      InputData: refused before Start; otherwise the frame's pts is queued
      and the frame encoded, and the call succeeds whatever the encoder
      reports. A running session stays paired: still one queued pts per
      in-flight slot, and every output carries the pts of its own frame.
     */
    method InputData(data: VideoRawData, process: nat -> LockBitstream, dev: DeviceCalls, surface: array<nat>)
      returns (ok: bool)
      requires Valid() && Paired()
      requires |data.lineSize| == 3
      requires surface != ring.table
      requires data.deviceptr == 0 && dev.lockStatus == Success ==>
                 HostCopyFits(FrameOf(data), surface, U32(U32(config.height) * U32(dev.lockedPitch)), dev.lockedPitch)
      modifies this, ring, buffers, surface
      ensures Valid() && Paired()
      ensures Settings() == old(Settings())
      ensures ok == old(inited)
      ensures !ok ==> unchanged(this, ring, buffers, surface)
      ensures ok ==> pushed == old(pushed) + [data.pts]
      ensures ok ==> |outputs| == |old(outputs)| + (if old(ring.pendingCount) == old(ring.size) then 1 else 0)
      ensures ok ==> SlotTaken(old(ring.PendingSlots()), ring.PendingSlots(), old(acquired), acquired,
                               old(ring.pendingCount) == old(ring.size))
      ensures ok ==> SlotSubmitted(old(buffers[..]), buffers[..], acquired[|acquired| - 1],
                                   old(ring.pendingCount) == old(ring.size), FrameOf(data), dev)
      ensures ok ==> SurfaceSubmitted(old(surface[..]), surface[..], FrameOf(data), dev,
                                      U32(U32(config.height) * U32(dev.lockedPitch)))
      ensures old(acquired) <= acquired && old(outputs) <= outputs
      ensures delivered == old(delivered) + (if hasCallback then outputs[|old(outputs)|..] else [])
    {
      if !inited {
        return false;
      }
      var frame := FrameOf(data);
      pts := pts + [data.pts];
      pushed := pushed + [data.pts];
      EncodeQueued(frame, process, dev, surface);
      ok := true;
    }

    /**
      A running session whose newest frame has its pts queued but no slot
      yet: one more pts is queued than slots are in flight.
     */
    ghost predicate QueuedAhead()
      reads this, ring, ring.table, buffers
      requires Valid()
    {
      && inited
      && |pts| == ring.pendingCount + 1
      && |pushed| == |acquired| + 1
      && PtsOf(outputs) == relayed
    }

    /**
      The EncodeFrame call of InputData, once the frame's pts is queued: the
      frame takes a slot, so the session is paired again, and an output is
      produced, carrying the oldest queued pts, exactly when the ring was full.
     */
    method EncodeQueued(frame: EncodeFrameConfig, process: nat -> LockBitstream, dev: DeviceCalls, surface: array<nat>)
      requires Valid() && QueuedAhead()
      requires surface != ring.table
      requires frame.dptr == 0 && dev.lockStatus == Success ==>
                 HostCopyFits(frame, surface, U32(U32(config.height) * U32(dev.lockedPitch)), dev.lockedPitch)
      modifies this, ring, buffers, surface
      ensures Valid() && Paired()
      ensures Settings() == old(Settings()) && pushed == old(pushed)
      ensures |outputs| == |old(outputs)| + (if old(ring.pendingCount) == old(ring.size) then 1 else 0)
      ensures SlotTaken(old(ring.PendingSlots()), ring.PendingSlots(), old(acquired), acquired,
                        old(ring.pendingCount) == old(ring.size))
      ensures SlotSubmitted(old(buffers[..]), buffers[..], acquired[|acquired| - 1],
                            old(ring.pendingCount) == old(ring.size), frame, dev)
      ensures SurfaceSubmitted(old(surface[..]), surface[..], frame, dev, U32(U32(config.height) * U32(dev.lockedPitch)))
      ensures old(outputs) <= outputs
      ensures delivered == old(delivered) + (if hasCallback then outputs[|old(outputs)|..] else [])
    {
      ghost var o := outputs;
      var _ := EncodeFrame(Some(frame), process, dev, surface);
      if |outputs| > |o| {
        PtsOfSnoc(o, outputs[|o|]);
      }
      DeliveredGrows(deliveredBefore, o, outputs, hasCallback);
    }

    /**
      FlushEncoder: when the device flush fails nothing is drained and its
      status is returned. Otherwise every in-flight slot is drained (see
      DrainPending): the slots come back in the order they were taken, and
      in a running session the outputs take the queued pts in order.
     */
    method FlushEncoder(flushStatus: NvEncStatus, process: nat -> LockBitstream, unmapStatus: NvEncStatus)
      returns (status: NvEncStatus)
      requires Valid() && Paired()
      modifies this, ring, buffers
      ensures Valid() && Paired()
      ensures Settings() == old(Settings()) && pushed == old(pushed) && acquired == old(acquired)
      ensures ring.table == old(ring.table)
      ensures flushStatus != Success ==> status == flushStatus && unchanged(this, ring, buffers)
      ensures flushStatus == Success ==>
                && ring.pendingCount == 0
                && reclaimed == old(reclaimed) + old(ring.PendingSlots())
                && old(outputs) <= outputs
                && |outputs| == |old(outputs)| + old(ring.pendingCount)
                && delivered == old(delivered) + (if hasCallback then outputs[|old(outputs)|..] else [])
                && (old(inited) ==> pts == [] && PtsOf(outputs) == PtsOf(old(outputs)) + old(pts))
                && (status == Success || status == unmapStatus)
                && (forall i :: 0 <= i < buffers.Length ==> buffers[i].deviceSurface == old(buffers[i].deviceSurface))
                && (forall i :: 0 <= i < buffers.Length && i in old(ring.PendingSlots()) ==> !buffers[i].mappedSurface)
                && (forall i :: 0 <= i < buffers.Length && i !in old(ring.PendingSlots()) ==> buffers[i] == old(buffers[i]))
    {
      if flushStatus != Success {
        return flushStatus;
      }
      status := DrainPending(process, unmapStatus);
      assert ring.PendingSlots() == [];
    }

    /**
      The drain loop of FlushEncoder: the oldest in-flight slot is drained
      (see DrainOne) until none is left, one output each; every in-flight
      input ends unmapped and no other slot is touched. The status is that
      of the last unmap, or success.
     */
    method DrainPending(process: nat -> LockBitstream, unmapStatus: NvEncStatus) returns (status: NvEncStatus)
      requires Valid() && Paired()
      modifies this, ring, buffers
      ensures Valid() && Paired()
      ensures Settings() == old(Settings()) && pushed == old(pushed) && acquired == old(acquired)
      ensures ring.table == old(ring.table)
      ensures ring.pendingCount == 0
      ensures old(outputs) <= outputs && |outputs| == |old(outputs)| + old(ring.pendingCount)
      ensures delivered == old(delivered) + (if hasCallback then outputs[|old(outputs)|..] else [])
      ensures status == Success || status == unmapStatus
      ensures forall i :: 0 <= i < buffers.Length ==> buffers[i].deviceSurface == old(buffers[i].deviceSurface)
      ensures forall i :: 0 <= i < buffers.Length && i in old(ring.PendingSlots()) ==> !buffers[i].mappedSurface
      ensures forall i :: 0 <= i < buffers.Length && i !in old(ring.PendingSlots()) ==> buffers[i] == old(buffers[i])
    {
      status := Success;
      ghost var p0, o0, b0 := ring.PendingSlots(), outputs, buffers[..];
      ghost var k: nat := 0;
      while true
        invariant Draining(p0, k, o0, b0)
        invariant Settings() == old(Settings()) && pushed == old(pushed) && acquired == old(acquired)
        invariant ring.table == old(ring.table)
        invariant status == Success || status == unmapStatus
        decreases |p0| - k
      {
        var slot, unmapped := DrainStep(process, p0, k, o0, b0);
        if slot.None? {
          break;
        }
        if unmapped {
          status := unmapStatus;
        }
        k := k + 1;
      }
      forall i | 0 <= i < buffers.Length && i in p0
        ensures !buffers[i].mappedSurface
      {
        var j :| 0 <= j < |p0| && p0[j] == i;
      }
      DeliveredGrows(deliveredBefore, o0, outputs, hasCallback);
    }

    /**
      The drain loop after `k` rounds, from the in-flight slots `p0`, the
      outputs `o0` and the slot array `b0` it started with: the first `k`
      slots of `p0` are back and unmapped, the rest still in flight, one
      output each, and no other slot touched.
     */
    ghost predicate Draining(p0: seq<nat>, k: nat, o0: seq<MediaDataBitStream>, b0: seq<EncodeBuffer>)
      reads this, ring, ring.table, buffers
    {
      && Valid() && Paired()
      && k <= |p0| && ring.pendingCount == |p0| - k
      && ring.PendingSlots() == p0[k..]
      && o0 <= outputs && |outputs| == |o0| + k
      && |b0| == buffers.Length
      && (forall i :: 0 <= i < buffers.Length ==> buffers[i].deviceSurface == b0[i].deviceSurface)
      && (forall j :: 0 <= j < k ==> p0[j] < buffers.Length && !buffers[p0[j]].mappedSurface)
      && (forall i :: 0 <= i < buffers.Length && i !in p0 ==> buffers[i] == b0[i])
    }

    /** One round of the drain loop: DrainOne, which takes back the next slot of `p0` while any is left. */
    method DrainStep(process: nat -> LockBitstream, ghost p0: seq<nat>, ghost k: nat,
                     ghost o0: seq<MediaDataBitStream>, ghost b0: seq<EncodeBuffer>)
      returns (slot: Option<nat>, unmapped: bool)
      requires Draining(p0, k, o0, b0)
      modifies this, ring, buffers
      ensures Settings() == old(Settings()) && pushed == old(pushed) && acquired == old(acquired)
      ensures ring.table == old(ring.table)
      ensures slot.None? <==> k == |p0|
      ensures slot.None? ==> Draining(p0, k, o0, b0)
      ensures slot.Some? ==> k < |p0| && Draining(p0, k + 1, o0, b0)
    {
      slot, unmapped := DrainOne(process);
      if slot.Some? {
        assert slot.value == p0[k];
        assert p0[k..][1..] == p0[k + 1..];
      }
    }

    /**
      Stop: without an encoder API it reports NV_ENC_SUCCESS, which as a
      bool is false, and changes nothing. Otherwise it flushes, tears down
      and ends the session. A running session whose flush succeeds ends with
      every submitted frame output exactly once: the slots came back in the
      order they were taken, and the k-th output carries the k-th pts pushed.
     */
    method Stop(flushStatus: NvEncStatus, process: nat -> LockBitstream, unmapStatus: NvEncStatus) returns (ok: bool)
      requires Valid() && Paired()
      modifies this, ring, buffers
      ensures Valid() && Paired()
      ensures ok == old(hasApi)
      ensures !ok ==> unchanged(this, ring, buffers)
      ensures ok ==> !inited && !hasApi
      ensures old(inited) && flushStatus == Success ==>
                && ring.pendingCount == 0
                && reclaimed == acquired
                && PtsOf(outputs) == pushed
                && |outputs| == |pushed| == |acquired|
                && (hasCallback ==> PtsOf(delivered[|deliveredBefore|..]) == pushed)
      ensures hasCallback == old(hasCallback) && old(outputs) <= outputs
      ensures delivered == old(delivered) + (if hasCallback then outputs[|old(outputs)|..] else [])
    {
      if !hasApi {
        return false;
      }
      var _ := FlushEncoder(flushStatus, process, unmapStatus);
      assert delivered[|deliveredBefore|..] == if hasCallback then outputs else [];
      hasApi := false;
      inited := false;
      ok := true;
    }
  }
}
