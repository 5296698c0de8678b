/** The table of supported USB devices and the choice of the index-th attached
    device that appears in it. */
module UsbDeviceIds {
  import opened Base

  datatype DeviceId = DeviceId(vid: u16, pid: u16, needsFirmware: bool)

  /** The FX3 boot loader, which needs the firmware downloaded, and the FX3
      streamer example firmware, which is already running. */
  const KnownDevices: seq<DeviceId> := [
    DeviceId(0x04b4, 0x00f3, true),
    DeviceId(0x04b4, 0x00f1, false)
  ]

  /** The identity fields of a USB device descriptor. */
  datatype Descriptor = Descriptor(idVendor: u16, idProduct: u16)

  /** One attached device found in the table: its position in the device list
      and the `needs_firmware` flag of the table entry it matched. */
  datatype Match = Match(position: nat, needsFirmware: bool)

  predicate Matches(d: Descriptor, id: DeviceId) {
    d.idVendor == id.vid && d.idProduct == id.pid
  }

  /** The flag of the first table entry for `d`, if any. */
  function Lookup(d: Descriptor, table: seq<DeviceId>): (r: Option<bool>)
    ensures r.Some? <==> exists j | 0 <= j < |table| :: Matches(d, table[j])
  {
    if table == [] then None
    else if Matches(d, table[0]) then Some(table[0].needsFirmware)
    else
      var rest := Lookup(d, table[1..]);
      assert forall j | 1 <= j < |table| :: table[j] == table[1..][j - 1];
      rest
  }

  predicate Supported(d: Descriptor) {
    Lookup(d, KnownDevices).Some?
  }

  /** The matches the inner loop finds for the device at `position`, one for every
      entry of `table` it matches, in table order. */
  function EntryMatches(d: Descriptor, position: nat, table: seq<DeviceId>): (ms: seq<Match>)
    ensures forall k | 0 <= k < |ms| :: ms[k].position == position
  {
    if table == [] then []
    else
      var last := table[|table| - 1];
      EntryMatches(d, position, table[..|table| - 1])
      + (if Matches(d, last) then [Match(position, last.needsFirmware)] else [])
  }

  /** The matches both loops find over `descs`, in the order they are counted. */
  function MatchList(descs: seq<Descriptor>): (ms: seq<Match>)
    ensures forall k | 0 <= k < |ms| :: ms[k].position < |descs|
  {
    if descs == [] then []
    else
      var n := |descs| - 1;
      MatchList(descs[..n]) + EntryMatches(descs[n], n, KnownDevices)
  }

  /** No two table entries share a (vid, pid) pair, so a device matches at most once. */
  lemma KnownDevicesMatchOnce(d: Descriptor, position: nat)
    ensures EntryMatches(d, position, KnownDevices)
      == if Supported(d) then [Match(position, Lookup(d, KnownDevices).value)] else []
  {
    var first, second := KnownDevices[0], KnownDevices[1];
    assert KnownDevices[..1] == [first] && [first][..0] == [];
    var one := if Matches(d, first) then [Match(position, first.needsFirmware)] else [];
    var two := if Matches(d, second) then [Match(position, second.needsFirmware)] else [];
    assert EntryMatches(d, position, [first]) == one;
    assert EntryMatches(d, position, KnownDevices) == one + two;
    assert KnownDevices[1..] == [second] && [second][1..] == [];
    assert Lookup(d, KnownDevices) ==
      if Matches(d, first) then Some(true) else if Matches(d, second) then Some(false) else None;
  }

  /** The last device of the list adds its match, if it is supported. */
  lemma MatchListStep(descs: seq<Descriptor>)
    requires descs != []
    ensures var n := |descs| - 1;
      MatchList(descs) == MatchList(descs[..n])
        + if Supported(descs[n]) then [Match(n, Lookup(descs[n], KnownDevices).value)] else []
  {
    KnownDevicesMatchOnce(descs[|descs| - 1], |descs| - 1);
  }

  /** Every match refers to a supported device and carries its table flag. */
  lemma {:induction false} MatchListSound(descs: seq<Descriptor>)
    ensures var ms := MatchList(descs);
      forall k | 0 <= k < |ms| ::
        Supported(descs[ms[k].position])
        && ms[k].needsFirmware == Lookup(descs[ms[k].position], KnownDevices).value
  {
    if descs != [] {
      var n := |descs| - 1;
      var prefix := MatchList(descs[..n]);
      MatchListSound(descs[..n]);
      MatchListStep(descs);
      var ms := MatchList(descs);
      forall k | 0 <= k < |ms|
        ensures Supported(descs[ms[k].position])
          && ms[k].needsFirmware == Lookup(descs[ms[k].position], KnownDevices).value
      {
        if k < |prefix| {
          assert ms[k] == prefix[k];
          assert descs[..n][prefix[k].position] == descs[prefix[k].position];
        }
      }
    }
  }

  /** Matches are counted in strictly increasing list order. */
  lemma {:induction false} MatchListOrdered(descs: seq<Descriptor>)
    ensures var ms := MatchList(descs);
      forall k, l | 0 <= k < l < |ms| :: ms[k].position < ms[l].position
  {
    if descs != [] {
      var n := |descs| - 1;
      var prefix := MatchList(descs[..n]);
      MatchListOrdered(descs[..n]);
      MatchListStep(descs);
      var ms := MatchList(descs);
      forall k, l | 0 <= k < l < |ms|
        ensures ms[k].position < ms[l].position
      {
        assert ms[k] == prefix[k];
        if l < |prefix| {
          assert ms[l] == prefix[l];
        }
      }
    }
  }

  /** Every supported device of the list is counted. */
  lemma {:induction false} MatchListComplete(descs: seq<Descriptor>)
    ensures var ms := MatchList(descs);
      forall p | 0 <= p < |descs| && Supported(descs[p]) :: exists k | 0 <= k < |ms| :: ms[k].position == p
  {
    if descs != [] {
      var n := |descs| - 1;
      var prefix := MatchList(descs[..n]);
      MatchListComplete(descs[..n]);
      MatchListStep(descs);
      var ms := MatchList(descs);
      forall p | 0 <= p < |descs| && Supported(descs[p])
        ensures exists k | 0 <= k < |ms| :: ms[k].position == p
      {
        if p == n {
          assert ms[|prefix|].position == p;
        } else {
          assert descs[..n][p] == descs[p];
          var k :| 0 <= k < |prefix| && prefix[k].position == p;
          assert ms[k] == prefix[k];
        }
      }
    }
  }

  /** The match list is exactly the supported devices, in list order, each with
      its table entry's flag. */
  lemma MatchListSupported(descs: seq<Descriptor>)
    ensures var ms := MatchList(descs);
      && (forall k | 0 <= k < |ms| ::
            Supported(descs[ms[k].position])
            && ms[k].needsFirmware == Lookup(descs[ms[k].position], KnownDevices).value)
      && (forall k, l | 0 <= k < l < |ms| :: ms[k].position < ms[l].position)
      && (forall p | 0 <= p < |descs| && Supported(descs[p]) :: exists k | 0 <= k < |ms| :: ms[k].position == p)
  {
    MatchListSound(descs);
    MatchListOrdered(descs);
    MatchListComplete(descs);
  }

  // ----------------------------------------------------------------------
  // The two loops.

  /** find_usb_device's search: the `index`-th (from 0) device of the list that
      matches a table entry, with that entry's `needs_firmware` flag. A failed
      libusb_get_device_list (`Err`) finds nothing. */
  method FindUsbDevice(listing: Result<seq<Descriptor>, int>, index: int) returns (found: Option<Match>)
    ensures listing.Err? ==> found == None
    ensures listing.Ok? ==>
      found == if 0 <= index < |MatchList(listing.value)| then Some(MatchList(listing.value)[index]) else None
  {
    if listing.Err? {
      return None;
    }
    var descs := listing.value;
    found := None;
    var count := 0;
    var i := 0;
    while i < |descs|
      invariant i <= |descs|
      invariant count == |MatchList(descs[..i])|
      invariant found == if 0 <= index < count then Some(MatchList(descs[..i])[index]) else None
    {
      var d := descs[i];
      ghost var before := MatchList(descs[..i]);
      var j := 0;
      while j < |KnownDevices|
        invariant j <= |KnownDevices|
        invariant count == |before| + |EntryMatches(d, i, KnownDevices[..j])|
        invariant found ==
          var ms := before + EntryMatches(d, i, KnownDevices[..j]);
          if 0 <= index < count then Some(ms[index]) else None
      {
        var id := KnownDevices[j];
        assert KnownDevices[..j + 1][..j] == KnownDevices[..j];
        if d.idVendor == id.vid && d.idProduct == id.pid {
          if count == index {
            found := Some(Match(i, id.needsFirmware));
          }
          count := count + 1;
        }
        j := j + 1;
      }
      assert KnownDevices[..j] == KnownDevices;
      assert descs[..i + 1][..i] == descs[..i];
      assert MatchList(descs[..i + 1]) == before + EntryMatches(d, i, KnownDevices);
      i := i + 1;
    }
    assert descs[..i] == descs;
  }

  /** usb_device_count_devices: the number of matches, or -1 when the device
      list could not be read. */
  method CountDevices(listing: Result<seq<Descriptor>, int>) returns (count: int)
    ensures listing.Err? ==> count == -1
    ensures listing.Ok? ==> count == |MatchList(listing.value)|
  {
    if listing.Err? {
      return -1;
    }
    var descs := listing.value;
    count := 0;
    var i := 0;
    while i < |descs|
      invariant i <= |descs|
      invariant count == |MatchList(descs[..i])|
    {
      var d := descs[i];
      ghost var before := MatchList(descs[..i]);
      var j := 0;
      while j < |KnownDevices|
        invariant j <= |KnownDevices|
        invariant count == |before| + |EntryMatches(d, i, KnownDevices[..j])|
      {
        var id := KnownDevices[j];
        assert KnownDevices[..j + 1][..j] == KnownDevices[..j];
        if d.idVendor == id.vid && d.idProduct == id.pid {
          count := count + 1;
        }
        j := j + 1;
      }
      assert KnownDevices[..j] == KnownDevices;
      assert descs[..i + 1][..i] == descs[..i];
      assert MatchList(descs[..i + 1]) == before + EntryMatches(d, i, KnownDevices);
      i := i + 1;
    }
    assert descs[..i] == descs;
  }

  /** Selecting any index below the device count finds a supported device with its
      table flag; any other index finds nothing. */
  lemma SelectionAgreesWithCount(descs: seq<Descriptor>, index: int)
    ensures var ms := MatchList(descs);
      (0 <= index < |ms| ==>
         ms[index].position < |descs|
         && Lookup(descs[ms[index].position], KnownDevices) == Some(ms[index].needsFirmware))
  {
    MatchListSupported(descs);
  }
}
