/** The download half of the FX3 boot loader: the vendor control transfers that
    carry a validated image to the device, and the effect of the device's replies. */
module FirmwareTransfer {
  import opened Base
  import opened FirmwareImage

  /** bmRequestType: host to device, vendor request, recipient device. */
  const RequestType: byte := 0x40
  /** bRequest: the FX3 boot loader's firmware download command. */
  const VendorRequest: byte := 0xA0
  /** Timeout of each control transfer, in milliseconds. */
  const TimeoutMs: nat := 5000
  /** Largest payload of one control transfer, in bytes. */
  const MaxWriteSize: nat := 2048

  /** One vendor control transfer: the address split into wValue and wIndex, and
      the payload as `length` bytes of the image from byte `offset`. */
  datatype Control = Control(wValue: u16, wIndex: u16, offset: nat, length: nat)

  /** The download: the section writes in order, then the zero-length jump. */
  datatype Plan = Plan(writes: seq<Control>, jump: Control)

  /** The transfer aimed at `address` for `length` bytes at `offset`. */
  function Aimed(address: u32, offset: nat, length: nat): Control {
    Control(Low16(address), High16(address), offset, length)
  }

  /** The zero-length transfer that makes the boot loader jump to `entry`. */
  function JumpTo(entry: u32): Control {
    Aimed(entry, 0, 0)
  }

  /** `loadSz * 4` as computed in C: an `unsigned int` product, modulo 2^32. */
  function ByteCount(loadSz: u32): nat {
    Wrap32(loadSz as int * 4) as nat
  }

  /** The product does not wrap for any section shorter than 2^30 words,
      that is for every image shorter than 4 GiB. */
  lemma ByteCountExact(loadSz: u32)
    requires loadSz as int < 0x4000_0000
    ensures ByteCount(loadSz) == 4 * loadSz as nat
  {
  }

  /** The inner loop of transfer_image: `nleft` bytes from `offset`, in pieces of
      at most MaxWriteSize bytes, every piece aimed at the section's own address. */
  function Chunks(address: u32, offset: nat, nleft: nat): (cs: seq<Control>)
    decreases nleft
    ensures |cs| == (nleft + MaxWriteSize - 1) / MaxWriteSize
  {
    if nleft == 0 then []
    else
      var len := Min(nleft, MaxWriteSize);
      [Aimed(address, offset, len)] + Chunks(address, offset + len, nleft - len)
  }

  /** Piece `k` starts `k` full pieces into the range, is as long as a full piece or
      what is left, and is aimed at the section's address, which never advances. */
  lemma {:induction false} ChunkAt(address: u32, offset: nat, nleft: nat, k: nat)
    requires k < |Chunks(address, offset, nleft)|
    ensures Chunks(address, offset, nleft)[k]
      == Aimed(address, offset + MaxWriteSize * k, Min(nleft - MaxWriteSize * k, MaxWriteSize))
    decreases nleft
  {
    if k > 0 {
      var len := Min(nleft, MaxWriteSize);
      ChunkAt(address, offset + len, nleft - len, k - 1);
    }
  }

  /** Every piece is non-empty, fits one transfer, and lies inside the range. */
  lemma ChunksBounded(address: u32, offset: nat, nleft: nat)
    ensures forall c | c in Chunks(address, offset, nleft) ::
      0 < c.length <= MaxWriteSize && offset <= c.offset && c.offset + c.length <= offset + nleft
  {
    var cs := Chunks(address, offset, nleft);
    forall c | c in cs
      ensures 0 < c.length <= MaxWriteSize && offset <= c.offset && c.offset + c.length <= offset + nleft
    {
      var k :| 0 <= k < |cs| && cs[k] == c;
      ChunkAt(address, offset, nleft, k);
    }
  }

  /** Sum of the payload lengths. */
  function TotalLength(cs: seq<Control>): nat {
    if cs == [] then 0 else cs[0].length + TotalLength(cs[1..])
  }

  /** Every transfer of `cs` reads inside a buffer of `n` bytes. */
  predicate Within(cs: seq<Control>, n: nat) {
    cs == [] || (cs[0].offset + cs[0].length <= n && Within(cs[1..], n))
  }

  /** The payloads of the transfers, concatenated, read from `bytes`. */
  function Gather(bytes: seq<byte>, cs: seq<Control>): seq<byte>
    requires Within(cs, |bytes|)
  {
    if cs == [] then []
    else bytes[cs[0].offset..cs[0].offset + cs[0].length] + Gather(bytes, cs[1..])
  }

  /** The pieces add up to exactly the section's byte count. */
  lemma {:induction false} ChunksTotal(address: u32, offset: nat, nleft: nat)
    ensures TotalLength(Chunks(address, offset, nleft)) == nleft
    decreases nleft
  {
    if nleft > 0 {
      var len := Min(nleft, MaxWriteSize);
      ChunksTotal(address, offset + len, nleft - len);
    }
  }

  /** Sent one after another, the pieces carry the bytes `offset .. offset + nleft`
      of the image, contiguously and in order. */
  lemma {:induction false} ChunksGather(bytes: seq<byte>, address: u32, offset: nat, nleft: nat)
    requires offset + nleft <= |bytes|
    ensures Within(Chunks(address, offset, nleft), |bytes|)
    ensures Gather(bytes, Chunks(address, offset, nleft)) == bytes[offset..offset + nleft]
    decreases nleft
  {
    if nleft == 0 {
      assert bytes[offset..offset + nleft] == [];
    } else {
      var len := Min(nleft, MaxWriteSize);
      var cs := Chunks(address, offset, nleft);
      var rest := Chunks(address, offset + len, nleft - len);
      ChunksGather(bytes, address, offset + len, nleft - len);
      assert cs[0] == Aimed(address, offset, len) && cs[1..] == rest;
      calc {
        Gather(bytes, cs);
        bytes[offset..offset + len] + Gather(bytes, rest);
        bytes[offset..offset + len] + bytes[offset + len..offset + nleft];
        bytes[offset..offset + nleft];
      }
    }
  }

  /** The outer loop of transfer_image from the `loadSz` word at `cur`: the writes
      of every section up to the terminator of the validated walk. */
  function Writes(ws: seq<u32>, cur: nat): (cs: seq<Control>)
    requires cur + 3 <= |ws| && WalkSections(ws, cur).Reached?
    decreases |ws| - cur
    ensures forall c | c in cs ::
      0 < c.length <= MaxWriteSize
      && 4 * (cur + 2) <= c.offset
      && c.offset + c.length <= 4 * WalkSections(ws, cur).terminator
  {
    var loadSz := ws[cur];
    if loadSz == 0 then []
    else
      var next := cur + 2 + loadSz as nat;
      ChunksBounded(ws[cur + 1], 4 * (cur + 2), ByteCount(loadSz));
      Chunks(ws[cur + 1], 4 * (cur + 2), ByteCount(loadSz)) + Writes(ws, next)
  }

  /** An accepted image has a walk that reaches its terminator. */
  lemma AcceptedWalkReached(image: seq<byte>)
    requires Validate(image).Ok?
    ensures |Words(image)| >= 4 && WalkSections(Words(image), 1).Reached?
    ensures Validate(image).value.entry == Words(image)[WalkSections(Words(image), 1).terminator + 1]
  {
    assert Validate(image) == ValidateWords(Words(image), |image|);
  }

  /** The transfers transfer_image issues for an image that validate_image
      accepted (load_image never calls it on any other). */
  function PlanImage(image: seq<byte>): (p: Plan)
    requires Validate(image).Ok?
    ensures p.jump == JumpTo(Validate(image).value.entry)
    ensures forall c | c in p.writes :: 0 < c.length <= MaxWriteSize && 8 < c.offset && c.offset + c.length <= |image|
  {
    AcceptedWalkReached(image);
    var ws := Words(image);
    var t := WalkSections(ws, 1).terminator;
    Plan(Writes(ws, 1), JumpTo(ws[t + 1]))
  }

  /** Every transfer of the plan but the jump carries data, so the jump is the
      one and only zero-length transfer, and it is the last. */
  lemma OnlyJumpIsEmpty(image: seq<byte>)
    requires Validate(image).Ok?
    ensures var p := PlanImage(image); var all := p.writes + [p.jump];
      all[|all| - 1] == JumpTo(Validate(image).value.entry)
      && forall k | 0 <= k < |all| :: all[k].length == 0 <==> k == |all| - 1
  {
    var p := PlanImage(image);
    var all := p.writes + [p.jump];
    forall k | 0 <= k < |all| ensures all[k].length == 0 <==> k == |all| - 1 {
      if k < |p.writes| {
        assert all[k] == p.writes[k] && p.writes[k] in p.writes;
      }
    }
  }

  // ----------------------------------------------------------------------
  // The plan against the section layout.

  /** Reference plan: each section's data bytes, chunked and aimed at its address. */
  function LayoutWrites(secs: seq<Section>, at: nat): seq<Control>
    decreases |secs|
  {
    if secs == [] then []
    else
      var s := secs[0];
      Chunks(s.address, 4 * (at + 2), 4 * |s.data|) + LayoutWrites(secs[1..], at + 2 + |s.data|)
  }

  lemma {:induction false} WritesFollowLayout(ws: seq<u32>, at: nat, secs: seq<Section>)
    requires LaidOut(ws, at, secs)
    requires at + Span(secs) + 3 <= |ws| && ws[at + Span(secs)] == 0
    requires |ws| < 0x4000_0000
    ensures WalkSections(ws, at).Reached?
    ensures Writes(ws, at) == LayoutWrites(secs, at)
    decreases |secs|
  {
    if secs != [] {
      var s := secs[0];
      var len := |s.data|;
      var next := at + 2 + len;
      assert Span(secs) == 2 + len + Span(secs[1..]);
      WritesFollowLayout(ws, next, secs[1..]);
      assert ws[at] as int == len && ws[at + 1] == s.address;
      assert !TooLarge(|ws|, at + 2, len);
      ByteCountExact(ws[at]);
      assert Writes(ws, at) == Chunks(s.address, 4 * (at + 2), 4 * len) + Writes(ws, next);
    }
  }

  /** For an image laid out as `secs` with entry point `entry` and a matching
      checksum, the download writes each section's data words to its address and
      then jumps to `entry`. */
  lemma PlanFollowsLayout(image: seq<byte>, secs: seq<Section>, entry: u32)
    requires |image| >= MinImageSize && HeaderOk(image)
    requires IsImage(Words(image), secs, entry)
    requires |image| < 0x1_0000_0000
    ensures Validate(image).Ok?
    ensures PlanImage(image) == Plan(LayoutWrites(secs, 1), JumpTo(entry))
  {
    var ws := Words(image);
    assert Validate(image) == ValidateWords(ws, |image|);
    LaidOutVerdict(ws, |image|, secs);
    WritesFollowLayout(ws, 1, secs);
  }

  // ----------------------------------------------------------------------
  // Running the plan against the device.

  /** How a download ends: every write acknowledged in full (the jump's own
      failure is only warned about), or the first write the device refused
      with a negative libusb code, or the first one it took only in part. */
  datatype Outcome = Done(jumpFailed: bool) | UsbError(at: nat, ret: int) | ShortWrite(at: nat, ret: int)

  /** transfer_image's return value. */
  function ReturnCode(o: Outcome): (code: int)
    ensures code == 0 <==> o.Done?
    ensures code != 0 ==> code == -1
  {
    if o.Done? then 0 else -1
  }

  /** The device took the whole payload of a write. */
  predicate Acknowledged(c: Control, ret: int) {
    ret == c.length
  }

  /** Issues the writes in order, `reply(k)` being libusb_control_transfer's
      result for the k-th, stops at the first that is not acknowledged, and
      otherwise issues the jump, whose result `jumpReply` is only logged. */
  method Execute(plan: Plan, reply: nat -> int, jumpReply: int) returns (o: Outcome, issued: seq<Control>)
    ensures o.Done? <==> forall k | 0 <= k < |plan.writes| :: Acknowledged(plan.writes[k], reply(k))
    ensures o.Done? ==> issued == plan.writes + [plan.jump] && o.jumpFailed == (jumpReply < 0)
    ensures !o.Done? ==>
      && (o.UsbError? || o.ShortWrite?)
      && o.at < |plan.writes|
      && (forall k | 0 <= k < o.at :: Acknowledged(plan.writes[k], reply(k)))
      && o.ret == reply(o.at)
      && !Acknowledged(plan.writes[o.at], o.ret)
      && (o.UsbError? <==> o.ret < 0)
      && issued == plan.writes[..o.at + 1]
  {
    issued := [];
    var k := 0;
    while k < |plan.writes|
      invariant k <= |plan.writes|
      invariant issued == plan.writes[..k]
      invariant forall j | 0 <= j < k :: Acknowledged(plan.writes[j], reply(j))
    {
      var c := plan.writes[k];
      var ret := reply(k);
      issued := issued + [c];
      if ret < 0 {
        return UsbError(k, ret), issued;
      }
      if ret != c.length {
        return ShortWrite(k, ret), issued;
      }
      k := k + 1;
    }
    assert plan.writes[..k] == plan.writes;
    issued := issued + [plan.jump];
    o := Done(jumpReply < 0);
  }

  /** transfer_image on an image validate_image accepted: the planned writes are
      issued until the device refuses one, and the result is 0 exactly when every
      write was acknowledged in full, -1 otherwise. */
  method TransferImage(image: seq<byte>, reply: nat -> int, jumpReply: int) returns (code: int, issued: seq<Control>)
    requires Validate(image).Ok?
    ensures var writes := PlanImage(image).writes;
      code == 0 <==> forall k | 0 <= k < |writes| :: Acknowledged(writes[k], reply(k))
    ensures code == 0 || code == -1
    ensures code == 0 ==> issued == PlanImage(image).writes + [JumpTo(Validate(image).value.entry)]
    ensures var writes := PlanImage(image).writes;
      code == -1 ==> exists at | 0 <= at < |writes| ::
        && issued == writes[..at + 1]
        && !Acknowledged(writes[at], reply(at))
        && forall k | 0 <= k < at :: Acknowledged(writes[k], reply(k))
  {
    var plan := PlanImage(image);
    var o;
    o, issued := Execute(plan, reply, jumpReply);
    code := ReturnCode(o);
    if !o.Done? {
      assert issued == plan.writes[..o.at + 1] && !Acknowledged(plan.writes[o.at], reply(o.at));
    }
  }
}
