/** The ADC engine together with the set of transfers libusb holds for it, driven
    by a sequential interleaving of control calls and completion events. The
    atomic in-flight counter is proved to count that set. */
module AdcStreaming {
  import opened Base
  import opened AdcEngine

  /** The engine and the transfers submitted but not yet completed. */
  datatype World = World(adc: Adc, inFlight: set<nat>)

  /** The transfers `0 .. k - 1`. */
  function Range(k: nat): (s: set<nat>)
    ensures forall i: nat :: i in s <==> i < k
  {
    if k == 0 then {} else Range(k - 1) + {k - 1}
  }

  lemma {:induction false} RangeSize(k: nat)
    ensures |Range(k)| == k
  {
    if k > 0 {
      RangeSize(k - 1);
    }
  }

  /** The counter is the number of transfers in flight, every one of them is a
      transfer of this engine, and a READY engine has none. */
  predicate Inv(w: World) {
    && |w.adc.transfers| == w.adc.numFrames as nat
    && (forall i | i in w.inFlight :: i < w.adc.numFrames as nat)
    && w.adc.active == |w.inFlight|
    && (w.adc.status == Ready ==> w.inFlight == {})
  }

  /** A freshly opened engine, with nothing in flight. */
  lemma OpenEstablishesInv(dev: UsbDevice, frameSize: u32, numFrames: u32, alloc: nat -> Option<nat>)
    requires dev.bulkInAddress != 0 ==> MaxXferSize(dev) > 0
    requires OpenAsync(dev, frameSize, numFrames, alloc).Ok?
    ensures Inv(World(OpenAsync(dev, frameSize, numFrames, alloc).value, {}))
  {
  }

  /** An engine opened by adc_open_sync has no frames and nothing in flight. */
  lemma OpenSyncEstablishesInv(dev: UsbDevice)
    requires dev.bulkInAddress != 0
    ensures OpenSync(dev).Some? && Inv(World(OpenSync(dev).value, {}))
  {
  }

  /** What can happen next: a control call from the application, or libusb
      running the dispatcher for a finished transfer. */
  datatype Event =
    | StartCall(submit: nat -> int)
    | StopCall(cancel: nat -> int, flush: int)
    | SetRateCall(rate: u32)
    | Finish(i: nat, st: TransferStatus, resubmit: int)

  /** libusb only reports transfers it holds. */
  predicate Enabled(w: World, e: Event) {
    e.Finish? ==> e.i in w.inFlight && e.i < |w.adc.transfers|
  }

  function Step(w: World, e: Event): World
    requires Enabled(w, e)
  {
    match e
    case StartCall(submit) =>
      if w.adc.status != Ready then w
      else
        var r := Start(w.adc, submit);
        World(r.0, Range(r.0.active as nat))
    case StopCall(cancel, flush) =>
      World(Stop(w.adc, cancel, flush).0, w.inFlight)
    case SetRateCall(rate) =>
      World(SetSampleRate(w.adc, rate).0, w.inFlight)
    case Finish(i, st, resubmit) =>
      var d := Dispatch(w.adc, i, st, resubmit);
      World(d.adc, if d.resubmitted then w.inFlight else w.inFlight - {i})
  }

  /** Every event keeps the counter equal to the number of transfers in flight. */
  lemma StepPreservesInv(w: World, e: Event)
    requires Inv(w) && Enabled(w, e)
    ensures Inv(Step(w, e))
  {
    match e
    case StartCall(submit) =>
      if w.adc.status == Ready {
        RangeSize(Start(w.adc, submit).0.active as nat);
      }
    case StopCall(_, _) =>
    case SetRateCall(_) =>
    case Finish(i, st, resubmit) =>
      var d := Dispatch(w.adc, i, st, resubmit);
      if !d.resubmitted {
        assert |w.inFlight - {i}| == |w.inFlight| - 1;
        if d.adc.status == Ready {
          assert w.adc.active == 1;
          assert w.inFlight == {i} by {
            assert {i} <= w.inFlight;
            assert |w.inFlight - {i}| == 0;
          }
        }
      }
  }

  /** The in-flight transfers are a subset of the engine's, so the counter never
      exceeds the number of frames. */
  lemma ActiveBounded(w: World)
    requires Inv(w)
    ensures 0 <= w.adc.active <= w.adc.numFrames as nat
  {
    assert w.inFlight <= Range(w.adc.numFrames as nat);
    RangeSize(w.adc.numFrames as nat);
    SubsetSize(w.inFlight, Range(w.adc.numFrames as nat));
  }

  lemma {:induction false} SubsetSize(a: set<nat>, b: set<nat>)
    requires a <= b
    ensures |a| <= |b|
    decreases |b|
  {
    if a != {} {
      var x :| x in a;
      SubsetSize(a - {x}, b - {x});
    }
  }

  /** The only way back to READY: the dispatcher handling a cancellation while the
      engine is CANCELLED and this transfer is the last one in flight. */
  lemma ReadyOnlyFromLastCancel(w: World, e: Event)
    requires Inv(w) && Enabled(w, e)
    requires w.adc.status != Ready && Step(w, e).adc.status == Ready
    ensures e.Finish? && e.st.TransferCancelled?
    ensures w.adc.status == Cancelled && w.adc.active == 1 && w.inFlight == {e.i}
    ensures Step(w, e).adc.active == 0 && Step(w, e).inFlight == {}
  {
    StepPreservesInv(w, e);
    var i := e.i;
    assert |w.inFlight - {i}| == |w.inFlight| - 1;
    assert w.inFlight == {i} by {
      assert {i} <= w.inFlight;
      assert |w.inFlight - {i}| == 0;
    }
  }

  // ----------------------------------------------------------------------
  // Runs of several events.

  /** The world after `evs`, or `None` if one of them could not happen. */
  function Run(w: World, evs: seq<Event>): Option<World>
    decreases |evs|
  {
    if evs == [] then Some(w)
    else if !Enabled(w, evs[0]) then None
    else Run(Step(w, evs[0]), evs[1..])
  }

  lemma {:induction false} RunPreservesInv(w: World, evs: seq<Event>)
    requires Inv(w) && Run(w, evs).Some?
    ensures Inv(Run(w, evs).value)
    decreases |evs|
  {
    if evs != [] {
      StepPreservesInv(w, evs[0]);
      RunPreservesInv(Step(w, evs[0]), evs[1..]);
    }
  }

  /** The dispatcher runs for a cancellation of each transfer of `order`, in turn. */
  function Cancellations(order: seq<nat>): (evs: seq<Event>)
    ensures |evs| == |order|
  {
    if order == [] then [] else [Finish(order[0], TransferCancelled, 0)] + Cancellations(order[1..])
  }

  predicate Distinct(order: seq<nat>) {
    forall a, b | 0 <= a < b < |order| :: order[a] != order[b]
  }

  /** After stop, the cancellations of every transfer in flight, in any order,
      bring the engine back to READY with nothing in flight, and only the last of
      them does so. */
  lemma {:induction false} DrainCancelled(w: World, order: seq<nat>)
    requires Inv(w) && w.adc.status == Cancelled
    requires order != [] && Distinct(order)
    requires forall i :: i in w.inFlight <==> i in order
    ensures Run(w, Cancellations(order)) == Some(World(w.adc.(status := Ready, active := 0), {}))
    decreases |order|
  {
    var i := order[0];
    var e := Finish(i, TransferCancelled, 0);
    assert Cancellations(order)[0] == e && Cancellations(order)[1..] == Cancellations(order[1..]);
    assert i in order && i in w.inFlight;
    StepPreservesInv(w, e);
    var next := Step(w, e);
    assert |w.inFlight - {i}| == |w.inFlight| - 1;
    if |order| == 1 {
      assert w.inFlight == {i};
    } else {
      var j := order[1];
      assert {i, j} <= w.inFlight;
      assert |w.inFlight - {i}| >= 1 by {
        assert j in w.inFlight - {i};
      }
      assert next.adc == w.adc.(active := w.adc.active - 1);
      forall x ensures x in next.inFlight <==> x in order[1..] {
        if x in order[1..] {
          var b :| 0 <= b < |order[1..]| && order[1..][b] == x;
          assert order[b + 1] == x;
        }
      }
      DrainCancelled(next, order[1..]);
    }
  }

  /** Stopping an engine that has nothing in flight leaves it CANCELLED with no
      cancellation ever to come: from then on no event brings it back to READY or
      STREAMING, and every start fails. */
  lemma {:induction false} IdleStopIsStuck(w: World, evs: seq<Event>)
    requires Inv(w) && w.inFlight == {}
    requires w.adc.status == Cancelled || w.adc.status == Failed
    requires Run(w, evs).Some?
    ensures var v := Run(w, evs).value;
      v.inFlight == {} && (v.adc.status == Cancelled || v.adc.status == Failed)
    decreases |evs|
  {
    if evs != [] {
      StepPreservesInv(w, evs[0]);
      IdleStopIsStuck(Step(w, evs[0]), evs[1..]);
    }
  }

  /** adc_stop on a READY engine whose cancels all report NOT_FOUND reaches the
      stuck state of IdleStopIsStuck. */
  lemma StopWhenIdle(w: World, cancel: nat -> int, flush: int)
    requires Inv(w) && w.adc.status == Ready
    requires forall i | 0 <= i < w.adc.numFrames as nat :: cancel(i) == ErrorNotFound
    requires flush >= 0
    ensures var v := Step(w, StopCall(cancel, flush));
      v.adc.status == Cancelled && v.inFlight == {} && Inv(v)
  {
    StepPreservesInv(w, StopCall(cancel, flush));
  }

  /** adc_stop replaces FAILED by CANCELLED, so a failed engine whose transfers
      are still in flight returns to READY once their cancellations arrive. */
  lemma StopRevivesFailed(w: World, cancel: nat -> int, order: seq<nat>)
    requires Inv(w) && w.adc.status == Failed
    requires forall i | 0 <= i < w.adc.numFrames as nat :: !CancelFailed(cancel(i))
    requires order != [] && Distinct(order)
    requires forall i :: i in w.inFlight <==> i in order
    ensures Run(w, [StopCall(cancel, 0)] + Cancellations(order))
      == Some(World(w.adc.(status := Ready, active := 0), {}))
  {
    var stop := StopCall(cancel, 0);
    var v := Step(w, stop);
    StepPreservesInv(w, stop);
    assert v.adc == w.adc.(status := Cancelled);
    assert ([stop] + Cancellations(order))[1..] == Cancellations(order);
    DrainCancelled(v, order);
  }

  // ----------------------------------------------------------------------
  // A four-frame session.

  /** Open with four frames, start with every submission accepted, stop with
      every cancellation accepted, then the four cancellations in any order:
      the counter goes 0, 4, 4, 0 and the engine ends READY again. */
  lemma FourFrameSession(dev: UsbDevice, alloc: nat -> Option<nat>, order: seq<nat>)
    requires dev.bulkInAddress != 0 && MaxXferSize(dev) > 0
    requires OpenAsync(dev, 0, 4, alloc).Ok?
    requires |order| == 4 && Distinct(order) && forall k | 0 <= k < 4 :: order[k] < 4
    ensures var w0 := World(OpenAsync(dev, 0, 4, alloc).value, {});
      var w1 := Step(w0, StartCall(_ => 0));
      var w2 := Step(w1, StopCall(_ => 0, 0));
      && w0.adc.active == 0
      && w1.adc.status == Streaming && w1.adc.active == 4
      && w2.adc.status == Cancelled && w2.adc.active == 4
      && Run(w2, Cancellations(order)) == Some(World(w2.adc.(status := Ready, active := 0), {}))
  {
    var w0 := World(OpenAsync(dev, 0, 4, alloc).value, {});
    OpenEstablishesInv(dev, 0, 4, alloc);
    var start := StartCall(_ => 0);
    StartStreamsIffAllSubmitted(w0.adc, _ => 0);
    var w1 := Step(w0, start);
    StepPreservesInv(w0, start);
    var stop := StopCall(_ => 0, 0);
    var w2 := Step(w1, stop);
    StepPreservesInv(w1, stop);
    forall i ensures i in w2.inFlight <==> i in order {
      if i in w2.inFlight {
        DistinctFillsRange(order, 4, i);
      }
    }
    DrainCancelled(w2, order);
  }

  /** `n` distinct values below `n` are all of them. */
  lemma DistinctFillsRange(order: seq<nat>, n: nat, x: nat)
    requires |order| == n && Distinct(order) && forall k | 0 <= k < n :: order[k] < n
    requires x < n
    ensures x in order
  {
    var values := set k | 0 <= k < n :: order[k];
    DistinctSize(order);
    assert values <= Range(n);
    RangeSize(n);
    if x !in order {
      assert values <= Range(n) - {x};
      SubsetSize(values, Range(n) - {x});
    }
  }

  lemma {:induction false} DistinctSize(order: seq<nat>)
    requires Distinct(order)
    ensures |set k | 0 <= k < |order| :: order[k]| == |order|
    decreases |order|
  {
    if order != [] {
      var rest := order[..|order| - 1];
      DistinctSize(rest);
      var last := order[|order| - 1];
      var all := set k | 0 <= k < |order| :: order[k];
      var front := set k | 0 <= k < |rest| :: rest[k];
      assert all == front + {last};
      assert last !in front;
    }
  }
}
