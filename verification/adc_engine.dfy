/** The ADC streaming engine of adc.c as an immutable record: opening, the sample
    rate, start, stop and the completion dispatcher are pure steps, and every
    libusb outcome they depend on is an input. */
module AdcEngine {
  import opened Base

  datatype Status = Off | Ready | Streaming | Cancelled | Failed

  const DefaultSampleRate: u32 := 64_000_000
  const DefaultFrameSize: u32 := 16 * 1024
  const DefaultNumFrames: u32 := 64
  /** Timeout of every bulk transfer, in milliseconds. */
  const BulkTimeoutMs: nat := 5000
  /** LIBUSB_ERROR_NOT_FOUND: the transfer was not in flight. */
  const ErrorNotFound: int := -5

  /** The bulk-in endpoint a device handle found; address 0 means none. */
  datatype UsbDevice = UsbDevice(bulkInAddress: byte, maxPacketSize: u16, maxBurst: u16)

  /** A bulk transfer descriptor: bound to one frame buffer, the endpoint and the timeout. */
  datatype Transfer = Transfer(frame: nat, length: u32, endpoint: byte, timeoutMs: nat)

  /** adc_t, with the buffers as the handles the allocator returned and the atomic
      in-flight counter as a plain integer. */
  datatype Adc = Adc(
    status: Status,
    sampleRate: u32,
    frameSize: u32,
    numFrames: u32,
    frames: seq<nat>,
    transfers: seq<Transfer>,
    active: int)

  /** `max_packet_size * max_burst`; the product of two 16-bit values fits `uint32_t`. */
  function MaxXferSize(dev: UsbDevice): nat {
    dev.maxPacketSize as nat * dev.maxBurst as nat
  }

  // ----------------------------------------------------------------------
  // The first failure among numbered attempts: allocation, submission, cancellation.

  /** The outcomes of `n` numbered attempts, `ok(i)` telling whether attempt `i` succeeded. */
  function Attempts(n: nat, ok: nat -> bool): (oks: seq<bool>)
    ensures |oks| == n && forall i | 0 <= i < n :: oks[i] == ok(i)
  {
    seq(n, (i: int) requires 0 <= i < n => ok(i))
  }

  /** The first failed attempt at or after `from`, or `|oks|` if none fails. */
  function FirstFailure(oks: seq<bool>, from: nat): (k: nat)
    requires from <= |oks|
    decreases |oks| - from
    ensures from <= k <= |oks|
    ensures forall j | from <= j < k :: oks[j]
    ensures k < |oks| ==> !oks[k]
  {
    if from == |oks| then from else if !oks[from] then from else FirstFailure(oks, from + 1)
  }

  // ----------------------------------------------------------------------
  // Opening.

  datatype OpenError =
    | NoBulkEndpoint
    | FrameSizeNotMultiple(maxXferSize: nat)
    | AllocationFailed(at: nat, released: seq<nat>)

  /** A freshly opened engine: READY, default sample rate, nothing in flight. */
  predicate Fresh(adc: Adc) {
    adc.status == Ready && adc.sampleRate == DefaultSampleRate && adc.active == 0
  }

  /** adc_open_sync: no frames and no transfers. */
  function OpenSync(dev: UsbDevice): (r: Option<Adc>)
    ensures r.None? <==> dev.bulkInAddress == 0
    ensures r.Some? ==>
      && Fresh(r.value)
      && r.value.frameSize == 0 && r.value.numFrames == 0
      && r.value.frames == [] && r.value.transfers == []
  {
    if dev.bulkInAddress == 0 then None
    else Some(Adc(Ready, DefaultSampleRate, 0, 0, [], [], 0))
  }

  /** The allocation loop of adc_open_async: `alloc(i)` is what
      libusb_dev_mem_alloc returns for frame `i`, a buffer handle or `None` for a
      null pointer. At the first null, the buffers already held are released. */
  function AllocateFrames(n: nat, alloc: nat -> Option<nat>): (r: Result<seq<nat>, OpenError>)
    ensures r.Ok? <==> forall i | 0 <= i < n :: alloc(i).Some?
    ensures r.Ok? ==> |r.value| == n && forall i | 0 <= i < n :: alloc(i) == Some(r.value[i])
    ensures r.Err? ==>
      && r.error.AllocationFailed?
      && r.error.at < n
      && alloc(r.error.at).None?
      && |r.error.released| == r.error.at
      && forall j | 0 <= j < r.error.at :: alloc(j) == Some(r.error.released[j])
  {
    var oks := Attempts(n, (i: nat) => alloc(i).Some?);
    var k := FirstFailure(oks, 0);
    assert forall j | 0 <= j < k :: alloc(j).Some? by {
      forall j | 0 <= j < k ensures alloc(j).Some? { assert oks[j]; }
    }
    var held: seq<nat> := seq(k, (j: int) requires 0 <= j < k => alloc(j).value);
    if k < n then Err(AllocationFailed(k, held)) else Ok(held)
  }

  /** One transfer per frame, each bound to its frame, the frame size, the
      endpoint and the timeout. */
  function BindTransfers(frames: seq<nat>, frameSize: u32, endpoint: byte): (ts: seq<Transfer>)
    ensures |ts| == |frames|
    ensures forall i | 0 <= i < |ts| :: ts[i] == Transfer(frames[i], frameSize, endpoint, BulkTimeoutMs)
  {
    seq(|frames|, i requires 0 <= i < |frames| => Transfer(frames[i], frameSize, endpoint, BulkTimeoutMs))
  }

  /** The frame size adc_open_async uses: 0 asks for the default. */
  function EffectiveFrameSize(frameSize: u32): u32 {
    if frameSize > 0 then frameSize else DefaultFrameSize
  }

  /** The number of frames adc_open_async uses: 0 asks for the default. */
  function EffectiveNumFrames(numFrames: u32): u32 {
    if numFrames > 0 then numFrames else DefaultNumFrames
  }

  /** adc_open_async. */
  function OpenAsync(dev: UsbDevice, frameSize: u32, numFrames: u32, alloc: nat -> Option<nat>)
    : (r: Result<Adc, OpenError>)
    requires dev.bulkInAddress != 0 ==> MaxXferSize(dev) > 0
    ensures dev.bulkInAddress == 0 ==> r == Err(NoBulkEndpoint)
    ensures dev.bulkInAddress != 0 && EffectiveFrameSize(frameSize) as nat % MaxXferSize(dev) != 0 ==>
      r == Err(FrameSizeNotMultiple(MaxXferSize(dev)))
    ensures r.Ok? <==>
      && dev.bulkInAddress != 0
      && EffectiveFrameSize(frameSize) as nat % MaxXferSize(dev) == 0
      && forall i | 0 <= i < EffectiveNumFrames(numFrames) as nat :: alloc(i).Some?
    ensures r.Ok? ==>
      var adc := r.value;
      && Fresh(adc)
      && adc.frameSize == EffectiveFrameSize(frameSize)
      && adc.numFrames == EffectiveNumFrames(numFrames)
      && |adc.frames| == |adc.transfers| == adc.numFrames as nat
      && forall i | 0 <= i < |adc.transfers| ::
           && alloc(i) == Some(adc.frames[i])
           && adc.transfers[i] == Transfer(adc.frames[i], adc.frameSize, dev.bulkInAddress, BulkTimeoutMs)
    ensures r.Err? && r.error.AllocationFailed? ==>
      && r.error.at < EffectiveNumFrames(numFrames) as nat
      && alloc(r.error.at).None?
      && |r.error.released| == r.error.at
      && forall j | 0 <= j < r.error.at :: alloc(j) == Some(r.error.released[j])
  {
    if dev.bulkInAddress == 0 then Err(NoBulkEndpoint)
    else
      var fs := EffectiveFrameSize(frameSize);
      var nf := EffectiveNumFrames(numFrames);
      var maxXfer := MaxXferSize(dev);
      if fs as nat % maxXfer != 0 then Err(FrameSizeNotMultiple(maxXfer))
      else
        match AllocateFrames(nf as nat, alloc)
        case Err(e) => Err(e)
        case Ok(frames) =>
          Ok(Adc(Ready, DefaultSampleRate, fs, nf, frames, BindTransfers(frames, fs, dev.bulkInAddress), 0))
  }

  /** The frame-size check on the example endpoint of 512-byte packets in bursts
      of 8: a 4096-byte frame passes it and a 4000-byte frame does not. */
  lemma OpenAsyncFrameSizeExamples(alloc: nat -> Option<nat>)
    requires forall i | 0 <= i < 4 :: alloc(i).Some?
    ensures OpenAsync(UsbDevice(0x81, 512, 8), 4096, 4, alloc).Ok?
    ensures OpenAsync(UsbDevice(0x81, 512, 8), 4000, 4, alloc) == Err(FrameSizeNotMultiple(4096))
  {
  }

  // ----------------------------------------------------------------------
  // Sample rate.

  /** adc_set_sample_rate: stores the rate, whatever the state; returns 0. */
  function SetSampleRate(adc: Adc, rate: u32): (r: (Adc, int))
    ensures r.0.sampleRate == rate && r.1 == 0
  {
    (adc.(sampleRate := rate), 0)
  }

  /** Nothing but the sample rate changes, and only the last rate set counts. */
  lemma SetSampleRateOnlyRate(adc: Adc, rate: u32, later: u32)
    ensures SetSampleRate(adc, rate).0.(sampleRate := adc.sampleRate) == adc
    ensures SetSampleRate(SetSampleRate(adc, rate).0, later) == SetSampleRate(adc, later)
  {
  }

  // ----------------------------------------------------------------------
  // Start.

  /** adc_start. `submit(i)` is libusb_submit_transfer's result for transfer `i`.
      From READY the counter restarts at 0 and counts the transfers submitted
      before the first failure; the ones already submitted stay in flight. */
  function Start(adc: Adc, submit: nat -> int): (r: (Adc, int))
    ensures adc.status != Ready ==> r == (adc, -1)
    ensures adc.status == Ready ==>
      var k := r.0.active;
      && r.0 == adc.(status := r.0.status, active := k)
      && 0 <= k <= adc.numFrames as nat
      && (forall j | 0 <= j < k :: submit(j) >= 0)
      && (r.1 == 0 <==> r.0.status == Streaming)
      && (r.1 == 0 ==> k == adc.numFrames as nat)
      && (r.1 != 0 ==> r.1 == -1 && r.0.status == Failed && k < adc.numFrames as nat && submit(k) < 0)
  {
    if adc.status != Ready then (adc, -1)
    else
      var oks := Attempts(adc.numFrames as nat, (i: nat) => submit(i) >= 0);
      assert forall j | 0 <= j < |oks| :: oks[j] == (submit(j) >= 0) by {
        forall j | 0 <= j < |oks| ensures oks[j] == (submit(j) >= 0) { }
      }
      var k := FirstFailure(oks, 0);
      if k < adc.numFrames as nat then (adc.(status := Failed, active := k), -1)
      else (adc.(status := Streaming, active := k), 0)
  }

  /** Every submission succeeding is exactly what makes start stream. */
  lemma StartStreamsIffAllSubmitted(adc: Adc, submit: nat -> int)
    requires adc.status == Ready
    ensures Start(adc, submit).1 == 0 <==> forall i | 0 <= i < adc.numFrames as nat :: submit(i) >= 0
  {
    var oks := Attempts(adc.numFrames as nat, (i: nat) => submit(i) >= 0);
    forall j | 0 <= j < |oks| ensures oks[j] == (submit(j) >= 0) { }
    var k := FirstFailure(oks, 0);
  }

  // ----------------------------------------------------------------------
  // Stop.

  /** A cancel result that makes adc_stop mark the engine FAILED. */
  predicate CancelFailed(ret: int) {
    ret < 0 && ret != ErrorNotFound
  }

  /** adc_stop. `cancel(i)` is libusb_cancel_transfer's result for transfer `i`,
      `flush` the result of the non-blocking event pass. The status becomes
      CANCELLED whatever it was, and FAILED if a cancel fails other than with
      NOT_FOUND or the flush fails. It always returns 0. */
  function Stop(adc: Adc, cancel: nat -> int, flush: int): (r: (Adc, int))
    ensures r.1 == 0
    ensures r.0 == adc.(status := r.0.status)
    ensures r.0.status == Failed <==>
      (exists i | 0 <= i < adc.numFrames as nat :: CancelFailed(cancel(i))) || flush < 0
    ensures r.0.status != Failed ==> r.0.status == Cancelled
  {
    var cancelled := adc.(status := Cancelled);
    var oks := Attempts(adc.numFrames as nat, (i: nat) => !CancelFailed(cancel(i)));
    assert forall j | 0 <= j < |oks| :: oks[j] == !CancelFailed(cancel(j)) by {
      forall j | 0 <= j < |oks| ensures oks[j] == !CancelFailed(cancel(j)) { }
    }
    var k := FirstFailure(oks, 0);
    var afterCancels := if k < adc.numFrames as nat then cancelled.(status := Failed) else cancelled;
    var afterFlush := if flush < 0 then afterCancels.(status := Failed) else afterCancels;
    (afterFlush, 0)
  }

  // ----------------------------------------------------------------------
  // The completion dispatcher.

  /** The status libusb reports for a finished transfer. */
  datatype TransferStatus = Completed(actualLength: nat) | TransferCancelled | TransferError(code: int)

  /** A frame handed to the user callback: its buffer and the bytes received. */
  datatype Delivery = Delivery(frame: nat, length: nat)

  /** What one dispatcher run did: the new engine, the frame given to the user
      callback (if any), whether the transfer went back to the device, and the
      transfers it asked libusb to cancel, in order. */
  datatype Dispatched = Dispatched(adc: Adc, delivered: Option<Delivery>, resubmitted: bool, cancels: seq<nat>)

  /** adc_read_async_callback for transfer `i`; `resubmit` is libusb_submit_transfer's
      result when the completion is delivered and the transfer resubmitted. */
  function Dispatch(adc: Adc, i: nat, st: TransferStatus, resubmit: int): (d: Dispatched)
    requires i < |adc.transfers|
    ensures d.adc == adc.(status := d.adc.status, active := d.adc.active)
    ensures d.resubmitted <==> st.Completed? && adc.status == Streaming && resubmit == 0
    ensures d.resubmitted ==> d.adc == adc && d.cancels == []
    ensures d.delivered.Some? <==> st.Completed? && adc.status == Streaming
    ensures d.delivered.Some? ==> d.delivered.value == Delivery(adc.transfers[i].frame, st.actualLength)
    ensures st.TransferCancelled? ==>
      && d.adc.active == adc.active - 1
      && d.cancels == []
      && (d.adc.status == Ready <==> adc.status == Ready || (adc.active == 1 && adc.status == Cancelled))
      && (d.adc.status != Ready ==> d.adc.status == adc.status)
    ensures !st.TransferCancelled? && !d.resubmitted ==>
      && d.adc.status == Failed
      && d.adc.active == adc.active - 1
      && |d.cancels| == adc.numFrames as nat
      && forall k | 0 <= k < |d.cancels| :: d.cancels[k] == i
  {
    match st
    case Completed(length) =>
      if adc.status == Streaming then
        var delivery := Some(Delivery(adc.transfers[i].frame, length));
        if resubmit == 0 then Dispatched(adc, delivery, true, [])
        else FailurePath(adc, i, delivery)
      else FailurePath(adc, i, None)
    case TransferCancelled =>
      var before := adc.active;
      var after := adc.(active := before - 1);
      if before == 1 && adc.status == Cancelled then Dispatched(after.(status := Ready), None, false, [])
      else Dispatched(after, None, false, [])
    case TransferError(_) =>
      FailurePath(adc, i, None)
  }

  /** The shared tail of the dispatcher: FAILED, one fewer in flight, and
      `num_frames` cancellation requests, each for the transfer `i` that just
      finished (the loop index is never used). Their results are only logged. */
  function FailurePath(adc: Adc, i: nat, delivered: Option<Delivery>): Dispatched {
    Dispatched(adc.(status := Failed, active := adc.active - 1), delivered, false,
               seq(adc.numFrames as nat, _ => i))
  }
}
