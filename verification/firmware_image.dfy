/** Validation of an FX3 boot image (validate_image in src/usb_device.c).

    An image is a 4-byte header ('C', 'Y', I2C config 0x1C, image type 0xB0)
    followed by 32-bit little-endian words: a list of sections
    `loadSz, startAddr, loadSz data words`, ended by a section with
    `loadSz == 0`, then the entry address and the checksum, which is the
    sum modulo 2^32 of every data word. */
module FirmwareImage {
  import opened Base

  const MinImageSize: nat := 10240
  const MagicC: byte := 0x43  // 'C'
  const MagicY: byte := 0x59  // 'Y'
  const I2cConfig: byte := 0x1C
  const ImageType: byte := 0xB0

  datatype ImageError =
    | TooSmall
    | BadMagic
    | BadConfig
    | BadType
    | SectionTooLarge(loadSz: u32)
    | ChecksumMismatch(actual: u32, expected: u32)

  /** A validated image: its entry address, and whether words follow the checksum
      (the source only warns about those). */
  datatype Accepted = Accepted(entry: u32, longerThanExpected: bool)

  /** The outcome of walking the section list: either the word index of the
      terminating `loadSz == 0` word and the exact sum of the data words met,
      or the first `loadSz` that does not fit. */
  datatype Walk = Reached(terminator: nat, total: int) | Oversized(loadSz: u32)

  predicate HeaderOk(image: seq<byte>) {
    && |image| >= 4
    && image[0] == MagicC && image[1] == MagicY
    && image[2] == I2cConfig
    && image[3] == ImageType
  }

  /** Exact (unwrapped) sum of the words `ws[lo..hi]`. */
  function SumRange(ws: seq<u32>, lo: nat, hi: nat): int
    requires lo <= hi <= |ws|
    decreases hi
  {
    if lo == hi then 0 else SumRange(ws, lo, hi - 1) + ws[hi - 1] as int
  }

  /** The size check of a section whose data starts at word `data`: it must
      leave room for at least the next `loadSz` word, the entry address and
      the checksum. Word indices, with `numWords` the whole words of the buffer. */
  predicate TooLarge(numWords: nat, data: nat, loadSz: nat) {
    data + loadSz >= numWords - 2
  }

  /** The section walk starting at the `loadSz` word with index `cur`. */
  function WalkSections(ws: seq<u32>, cur: nat): (w: Walk)
    requires cur + 3 <= |ws|
    decreases |ws| - cur
    ensures w.Reached? ==> cur <= w.terminator && w.terminator + 3 <= |ws| && ws[w.terminator] == 0
  {
    var loadSz := ws[cur];
    if loadSz == 0 then Reached(cur, 0)
    else
      var data := cur + 2;
      if TooLarge(|ws|, data, loadSz as nat) then Oversized(loadSz)
      else Shifted(WalkSections(ws, data + loadSz as nat), SumRange(ws, data, data + loadSz as nat))
  }

  /** A walk continued after `base` has already been summed. */
  function Shifted(w: Walk, base: int): Walk {
    match w
    case Reached(t, total) => Reached(t, total + base)
    case Oversized(sz) => w
  }

  /** validate_image: the size check, the four header bytes, the section walk,
      and the comparison of the wrapped sum with the word after the entry address. */
  function Validate(image: seq<byte>): (r: Result<Accepted, ImageError>)
    ensures |image| < MinImageSize ==> r == Err(TooSmall)
    ensures |image| >= MinImageSize && !HeaderOk(image) ==> r.Err? && r.error in {BadMagic, BadConfig, BadType}
    ensures r.Ok? ==> |image| >= MinImageSize && HeaderOk(image)
  {
    if |image| < MinImageSize then Err(TooSmall)
    else if !(image[0] == MagicC && image[1] == MagicY) then Err(BadMagic)
    else if image[2] != I2cConfig then Err(BadConfig)
    else if image[3] != ImageType then Err(BadType)
    else ValidateWords(Words(image), |image|)
  }

  /** The part of validate_image after the header: the section walk over the
      words of a buffer of `size` bytes and the checksum comparison. */
  function ValidateWords(ws: seq<u32>, size: nat): (r: Result<Accepted, ImageError>)
    requires 4 <= |ws|
    ensures r.Err? ==> r.error.SectionTooLarge? || r.error.ChecksumMismatch?
  {
    match WalkSections(ws, 1)
    case Oversized(loadSz) => Err(SectionTooLarge(loadSz))
    case Reached(t, total) =>
      var actual := Wrap32(total);
      var expected := ws[t + 2];
      if actual != expected then Err(ChecksumMismatch(actual, expected))
      else Ok(Accepted(ws[t + 1], 4 * (t + 3) != size))
  }

  // ----------------------------------------------------------------------
  // Reference layout: what a well-formed image looks like, independently of the walk.

  datatype Section = Section(address: u32, data: seq<u32>)

  /** A section the format can express: a nonzero 32-bit word count. */
  predicate Loadable(s: Section) {
    0 < |s.data| < U32Modulus
  }

  /** Number of words the sections occupy: `loadSz`, `startAddr` and the data of each. */
  function Span(secs: seq<Section>): nat {
    if secs == [] then 0 else 2 + |secs[0].data| + Span(secs[1..])
  }

  /** The sections lie back to back in `ws` from word `at` on. */
  ghost predicate LaidOut(ws: seq<u32>, at: nat, secs: seq<Section>)
    decreases |secs|
  {
    secs != [] ==>
      var s := secs[0];
      var data := at + 2;
      && Loadable(s)
      && data + |s.data| <= |ws|
      && ws[at] as int == |s.data|
      && ws[at + 1] == s.address
      && ws[data..data + |s.data|] == s.data
      && LaidOut(ws, data + |s.data|, secs[1..])
  }

  function DataTotal(secs: seq<Section>): int {
    if secs == [] then 0 else SumRange(secs[0].data, 0, |secs[0].data|) + DataTotal(secs[1..])
  }

  function Checksum(secs: seq<Section>): u32 {
    Wrap32(DataTotal(secs))
  }

  /** `ws` is the header word, the sections, the terminating zero, the entry
      address and the correct checksum, possibly followed by more words. */
  ghost predicate IsImage(ws: seq<u32>, secs: seq<Section>, entry: u32) {
    var t := 1 + Span(secs);
    && LaidOut(ws, 1, secs)
    && t + 3 <= |ws|
    && ws[t] == 0
    && ws[t + 1] == entry
    && ws[t + 2] == Checksum(secs)
  }

  /** A sum over a range of `ws` is the sum of that slice. */
  lemma {:induction false} SumOfSlice(ws: seq<u32>, lo: nat, hi: nat)
    requires lo <= hi <= |ws|
    ensures SumRange(ws, lo, hi) == SumRange(ws[lo..hi], 0, hi - lo)
    decreases hi
  {
    if lo < hi {
      SumOfSlice(ws, lo, hi - 1);
      SumAgree(ws[lo..hi - 1], ws[lo..hi], 0, hi - 1 - lo);
    }
  }

  /** Sums over a range depend only on the words in it. */
  lemma {:induction false} SumAgree(ws: seq<u32>, ws': seq<u32>, lo: nat, hi: nat)
    requires lo <= hi <= |ws| && hi <= |ws'|
    requires forall j :: lo <= j < hi ==> ws[j] == ws'[j]
    ensures SumRange(ws, lo, hi) == SumRange(ws', lo, hi)
    decreases hi
  {
    if lo < hi {
      SumAgree(ws, ws', lo, hi - 1);
    }
  }

  /** Replacing one word inside a range shifts its sum by the change. */
  lemma {:induction false} SumUpdate(ws: seq<u32>, lo: nat, hi: nat, k: nat, w: u32)
    requires lo <= k < hi <= |ws|
    ensures SumRange(ws[k := w], lo, hi) == SumRange(ws, lo, hi) - ws[k] as int + w as int
    decreases hi
  {
    if k == hi - 1 {
      SumAgree(ws, ws[k := w], lo, hi - 1);
    } else {
      SumUpdate(ws, lo, hi - 1, k, w);
    }
  }

  /** Walking a laid-out section list reaches its terminator and sums exactly its data. */
  lemma {:induction false} WalkOverLayout(ws: seq<u32>, cur: nat, secs: seq<Section>)
    requires LaidOut(ws, cur, secs)
    requires cur + Span(secs) + 3 <= |ws| && ws[cur + Span(secs)] == 0
    ensures WalkSections(ws, cur) == Reached(cur + Span(secs), DataTotal(secs))
    decreases |secs|
  {
    if secs != [] {
      var len := |secs[0].data|;
      var next := cur + 2 + len;
      assert Span(secs) == 2 + len + Span(secs[1..]);
      SumOfSlice(ws, cur + 2, next);
      WalkOverLayout(ws, next, secs[1..]);
      assert !TooLarge(|ws|, cur + 2, len);
    }
  }

  /** The sections an accepted walk passes over. */
  function Parse(ws: seq<u32>, cur: nat): seq<Section>
    requires cur + 3 <= |ws|
    requires WalkSections(ws, cur).Reached?
    decreases |ws| - cur
  {
    var loadSz := ws[cur] as nat;
    if loadSz == 0 then []
    else
      var data := cur + 2;
      [Section(ws[cur + 1], ws[data..data + loadSz])] + Parse(ws, data + loadSz)
  }

  /** A walk that reaches its terminator has passed over a laid-out section list. */
  lemma {:induction false} ParseLayout(ws: seq<u32>, cur: nat)
    requires cur + 3 <= |ws|
    requires WalkSections(ws, cur).Reached?
    ensures LaidOut(ws, cur, Parse(ws, cur))
    ensures WalkSections(ws, cur).terminator == cur + Span(Parse(ws, cur))
    ensures WalkSections(ws, cur).total == DataTotal(Parse(ws, cur))
    decreases |ws| - cur
  {
    var loadSz := ws[cur] as nat;
    if loadSz != 0 {
      var next := cur + 2 + loadSz;
      var secs := Parse(ws, cur);
      ParseLayout(ws, next);
      SumOfSlice(ws, cur + 2, next);
      assert secs[1..] == Parse(ws, next);
    }
  }

  /** A laid-out image passes every structural check; the verdict then rests on
      the checksum word alone, and words after it only raise the warning. */
  lemma ValidateLaidOut(image: seq<byte>, secs: seq<Section>)
    requires |image| >= MinImageSize && HeaderOk(image)
    requires LaidOut(Words(image), 1, secs)
    requires 1 + Span(secs) + 3 <= |Words(image)| && Words(image)[1 + Span(secs)] == 0
    ensures var ws, t := Words(image), 1 + Span(secs);
      Validate(image) ==
        if ws[t + 2] == Checksum(secs) then Ok(Accepted(ws[t + 1], 4 * (t + 3) != |image|))
        else Err(ChecksumMismatch(Checksum(secs), ws[t + 2]))
  {
    assert Validate(image) == ValidateWords(Words(image), |image|);
    LaidOutVerdict(Words(image), |image|, secs);
  }

  /** validate_image accepts exactly the images of at least 10240 bytes with the
      right header whose words are a laid-out section list with the correct checksum. */
  lemma ValidateCharacterised(image: seq<byte>)
    ensures Validate(image).Ok? <==>
      && |image| >= MinImageSize
      && HeaderOk(image)
      && exists secs, entry :: IsImage(Words(image), secs, entry)
  {
    if |image| >= MinImageSize && HeaderOk(image) {
      assert Validate(image) == ValidateWords(Words(image), |image|);
      WordsCharacterised(Words(image), |image|);
    }
  }

  /** The walk and checksum comparison accept exactly the laid-out word sequences. */
  lemma WordsCharacterised(ws: seq<u32>, size: nat)
    requires 4 <= |ws|
    ensures ValidateWords(ws, size).Ok? <==> exists secs, entry :: IsImage(ws, secs, entry)
  {
    if ValidateWords(ws, size).Ok? {
      AcceptedWordsLaidOut(ws, size);
    }
    if exists secs, entry :: IsImage(ws, secs, entry) {
      var secs, entry :| IsImage(ws, secs, entry);
      LaidOutVerdict(ws, size, secs);
    }
  }

  lemma AcceptedWordsLaidOut(ws: seq<u32>, size: nat)
    requires 4 <= |ws|
    requires ValidateWords(ws, size).Ok?
    ensures IsImage(ws, Parse(ws, 1), ValidateWords(ws, size).value.entry)
  {
    ParseLayout(ws, 1);
  }

  /** Over laid-out words the verdict rests on the checksum word alone. */
  lemma LaidOutVerdict(ws: seq<u32>, size: nat, secs: seq<Section>)
    requires 4 <= |ws|
    requires LaidOut(ws, 1, secs)
    requires 1 + Span(secs) + 3 <= |ws| && ws[1 + Span(secs)] == 0
    ensures var t := 1 + Span(secs);
      ValidateWords(ws, size) ==
        if ws[t + 2] == Checksum(secs) then Ok(Accepted(ws[t + 1], 4 * (t + 3) != size))
        else Err(ChecksumMismatch(Checksum(secs), ws[t + 2]))
  {
    WalkOverLayout(ws, 1, secs);
  }

  // ----------------------------------------------------------------------
  // Tamper detection.

  /** `k` is the index of a data word of some section the walk from `cur` passes over. */
  ghost predicate IsDataWord(ws: seq<u32>, cur: nat, k: nat): (b: bool)
    requires cur + 3 <= |ws|
    decreases |ws| - cur
    ensures b ==> cur + 2 <= k && k + 3 < |ws|
  {
    var loadSz := ws[cur] as nat;
    var data := cur + 2;
    && loadSz != 0
    && !TooLarge(|ws|, data, loadSz)
    && (data <= k < data + loadSz || IsDataWord(ws, data + loadSz, k))
  }

  /** The walk reads only the words from `cur` on. */
  lemma {:induction false} WalkReadsSuffix(ws: seq<u32>, ws': seq<u32>, cur: nat)
    requires cur + 3 <= |ws| == |ws'|
    requires forall j :: cur <= j < |ws| ==> ws[j] == ws'[j]
    ensures WalkSections(ws, cur) == WalkSections(ws', cur)
    decreases |ws| - cur
  {
    var loadSz := ws[cur] as nat;
    var data := cur + 2;
    if loadSz != 0 && !TooLarge(|ws|, data, loadSz) {
      SumAgree(ws, ws', data, data + loadSz);
      WalkReadsSuffix(ws, ws', data + loadSz);
    }
  }

  /** Replacing one data word keeps the walk's path and shifts its sum by the change. */
  lemma {:induction false} WalkAfterDataChange(ws: seq<u32>, cur: nat, k: nat, w: u32)
    requires cur + 3 <= |ws|
    requires WalkSections(ws, cur).Reached?
    requires IsDataWord(ws, cur, k)
    ensures k < WalkSections(ws, cur).terminator
    ensures WalkSections(ws[k := w], cur) ==
      Reached(WalkSections(ws, cur).terminator, WalkSections(ws, cur).total - ws[k] as int + w as int)
    decreases |ws| - cur
  {
    var ws' := ws[k := w];
    var loadSz := ws[cur] as nat;
    var data := cur + 2;
    var next := data + loadSz;
    if k < next {
      SumUpdate(ws, data, next, k, w);
      WalkReadsSuffix(ws, ws', next);
    } else {
      SumAgree(ws, ws', data, next);
      WalkAfterDataChange(ws, next, k, w);
    }
  }

  /** Changing any single data word of a valid image, and nothing else, makes
      the checksum comparison fail. */
  lemma DataWordChangeDetected(image: seq<byte>, image': seq<byte>, k: nat, w: u32)
    requires Validate(image).Ok?
    requires |image'| == |image| && image'[..4] == image[..4]
    requires IsDataWord(Words(image), 1, k)
    requires w != Words(image)[k]
    requires Words(image') == Words(image)[k := w]
    ensures Validate(image').Err? && Validate(image').error.ChecksumMismatch?
  {
    assert image'[0] == image'[..4][0] == image[0];
    assert image'[1] == image'[..4][1] == image[1];
    assert image'[2] == image'[..4][2] == image[2];
    assert image'[3] == image'[..4][3] == image[3];
    assert Validate(image) == ValidateWords(Words(image), |image|);
    assert Validate(image') == ValidateWords(Words(image'), |image'|);
    ChecksumCatchesDataChange(Words(image), |image|, k, w);
  }

  lemma ChecksumCatchesDataChange(ws: seq<u32>, size: nat, k: nat, w: u32)
    requires 4 <= |ws|
    requires ValidateWords(ws, size).Ok?
    requires IsDataWord(ws, 1, k)
    requires w != ws[k]
    ensures ValidateWords(ws[k := w], size).Err? && ValidateWords(ws[k := w], size).error.ChecksumMismatch?
  {
    WalkAfterDataChange(ws, 1, k, w);
    var t := WalkSections(ws, 1).terminator;
    var total := WalkSections(ws, 1).total;
    assert ws[k := w][t + 2] == ws[t + 2];
    WrapDistinguishes(total - ws[k] as int + w as int, total);
  }

  // ----------------------------------------------------------------------
  // The loops of validate_image, word by word, with the 32-bit running checksum.

  /** The inner loop of validate_image over one section's data words: adds
      `loadSz` words from index `data` to the running 32-bit checksum. */
  method AddSection(ws: seq<u32>, data: nat, loadSz: u32, checksum: u32, ghost acc: int)
    returns (sum: u32, next: nat)
    requires data + loadSz as nat <= |ws|
    requires checksum == Wrap32(acc)
    ensures next == data + loadSz as nat
    ensures sum == Wrap32(acc + SumRange(ws, data, next))
  {
    var left := loadSz;
    next := data;
    sum := checksum;
    while left > 0
      invariant data <= next <= data + loadSz as nat
      invariant left as nat == data + loadSz as nat - next
      invariant sum == Wrap32(acc + SumRange(ws, data, next))
    {
      WrapAdd(acc + SumRange(ws, data, next), ws[next] as int);
      sum := Wrap32(sum as int + ws[next] as int);
      next := next + 1;
      left := left - 1;
    }
  }

  /** Shifting a walk's total twice is shifting it by the sum. */
  lemma ShiftedTwice(w: Walk, a: int, b: int)
    ensures Shifted(Shifted(w, a), b) == Shifted(w, b + a)
  {
  }

  /** validate_image's loops, with `checksum += *current++` on a `uint32_t`,
      wrapping at every addition. The section size check is the word-index one
      (TooLarge), which is the C's byte-address check whenever the size is a
      multiple of four (GuardsAgreeWhenAligned). It reaches the same verdict as Validate. */
  method CheckImage(image: seq<byte>) returns (r: Result<Accepted, ImageError>)
    ensures r == Validate(image)
  {
    if |image| < MinImageSize {
      return Err(TooSmall);
    }
    if !(image[0] == MagicC && image[1] == MagicY) {
      return Err(BadMagic);
    }
    if image[2] != I2cConfig {
      return Err(BadConfig);
    }
    if image[3] != ImageType {
      return Err(BadType);
    }
    r := CheckWords(Words(image), |image|);
  }

  /** The section walk and checksum loop of validate_image over the image's words,
      with the word-index size check. */
  method CheckWords(ws: seq<u32>, size: nat) returns (r: Result<Accepted, ImageError>)
    requires 4 <= |ws|
    ensures r == ValidateWords(ws, size)
  {
    var checksum: u32 := 0;
    ghost var acc: int := 0;
    var cur: nat := 1;
    while true
      invariant cur + 3 <= |ws|
      invariant checksum == Wrap32(acc)
      invariant WalkSections(ws, 1) == Shifted(WalkSections(ws, cur), acc)
      decreases |ws| - cur
    {
      var loadSz := ws[cur];
      if loadSz == 0 {
        break;
      }
      var data := cur + 2;
      if data + loadSz as nat >= |ws| - 2 {
        return Err(SectionTooLarge(loadSz));
      }
      var next;
      checksum, next := AddSection(ws, data, loadSz, checksum, acc);
      ghost var sum := SumRange(ws, data, next);
      ShiftedTwice(WalkSections(ws, next), sum, acc);
      acc := acc + sum;
      cur := next;
    }
    var entryAddr := ws[cur + 1];
    var expected := ws[cur + 2];
    if checksum != expected {
      return Err(ChecksumMismatch(checksum, expected));
    }
    return Ok(Accepted(entryAddr, 4 * (cur + 3) != size));
  }

  // ----------------------------------------------------------------------
  // The size check as written in C, on byte addresses.

  /** `current + loadSz >= end - 2` with `end = (uint32_t *)(image + size)`:
      a comparison of byte addresses, `end - 2` being `size - 8` bytes in. */
  predicate TooLargeAsWritten(size: nat, data: nat, loadSz: nat) {
    4 * (data + loadSz) >= size - 8
  }

  /** For a buffer of whole words the byte-address check and the word-index check agree. */
  lemma GuardsAgreeWhenAligned(size: nat, data: nat, loadSz: nat)
    requires size % 4 == 0
    ensures TooLargeAsWritten(size, data, loadSz) <==> TooLarge(size / 4, data, loadSz)
  {
  }

  /** For a size that is not a multiple of four the byte-address check lets through
      a first section ending two words before `end`; the walk then reads the
      checksum word at index `size / 4`, whose last bytes lie past the buffer.
      The word-index check rejects that section. */
  lemma MisalignedGuardOverreads(size: nat)
    requires size >= MinImageSize && size % 4 != 0
    ensures var loadSz := size / 4 - 5;
      && !TooLargeAsWritten(size, 3, loadSz)
      && 4 * ((3 + loadSz) + 2) + 4 > size
      && TooLarge(size / 4, 3, loadSz)
  {
  }

  // ----------------------------------------------------------------------
  // A concrete image: one section of four words of 1 at address 0, entry 0,
  // padded to the minimum size, so the walk ends well before the buffer does.

  lemma OneSectionImage(image: seq<byte>, checksum: u32)
    requires |image| == MinImageSize && HeaderOk(image)
    requires Words(image)[1..10] == [4, 0, 1, 1, 1, 1, 0, 0, checksum]
    ensures checksum == 4 ==> Validate(image) == Ok(Accepted(0, true))
    ensures checksum != 4 ==> Validate(image) == Err(ChecksumMismatch(4, checksum))
  {
    var ws := Words(image);
    var data: seq<u32> := [1, 1, 1, 1];
    var secs := [Section(0, data)];
    var listed := ws[1..10];
    assert forall k | 1 <= k < 10 :: ws[k] == listed[k - 1];
    assert ws[3..7] == data;
    assert LaidOut(ws, 7, []);
    assert LaidOut(ws, 1, secs);
    assert SumRange(data, 0, 4) == 4;
    assert DataTotal(secs) == 4;
    ValidateLaidOut(image, secs);
  }
}
