/**
 * The collector's side of the history files: the header check it runs
 * before appending to a server's file (`loadServerHistory`), and the
 * one-off converter that turns a JSON list of (utc, count) samples into a
 * history file (`convertStats`). The converter writes its own record layout:
 * the time bytes come first, then the control byte, and a narrow time holds
 * the low bytes of the absolute time rather than a delta.
 */
module History {
  import opened Wrappers
  import opened Bytes
  import StatFile
  import Util

  // ---------------------------------------------------------------------
  // The header check of `loadServerHistory`
  // ---------------------------------------------------------------------

  /** What the file system shows for a server's history file. */
  datatype HistoryFile =
    | Missing                    // no file yet: nothing to load
    | Unopenable                 // the file exists but `fopen` fails
    | Opened(data: seq<byte>)    // the file's bytes

  /** The outcome of `loadServerHistory`. */
  datatype HistoryStatus =
    | NoHistory     // returns true without reading
    | OpenFailed
    | ReadFailed    // fewer than the eight header bytes
    | BadVersion
    | BadMagic
    | HeaderOk      // the header passed; the record is cleared

  /** The call reports a problem with the file (the `false` returns). */
  predicate Failed(s: HistoryStatus) {
    s.OpenFailed? || s.ReadFailed? || s.BadVersion? || s.BadMagic?
  }

  /**
   * `loadServerHistory`: a missing file is fine; otherwise the file must
   * open, hold eight bytes, carry version 1 in its first four (read as a
   * little-endian `uint32_t`), and "SVTK" in the next four.
   */
  function LoadServerHistory(f: HistoryFile): (r: HistoryStatus)
    ensures r == NoHistory <==> f.Missing?
    ensures r == OpenFailed <==> f.Unopenable?
    ensures r == HeaderOk <==> f.Opened? && |f.data| >= 8 && f.data[..8] == StatFile.HEADER
    ensures f.Opened? && |f.data| < 8 ==> r == ReadFailed
  {
    match f
    case Missing => NoHistory
    case Unopenable => OpenFailed
    case Opened(data) =>
      if |data| < StatFile.HEADER_SIZE then ReadFailed
      else if U32(data[0], data[1], data[2], data[3]) != StatFile.STAT_FILE_VERSION then
        assert data[..8] != StatFile.HEADER by { U32Injective(data[..4]); }
        BadVersion
      else if data[4..8] != StatFile.MAGIC then
        assert data[..8][4..] == data[4..8];
        BadMagic
      else
        U32Injective(data[..4]);
        assert data[..8] == data[..4] + data[4..8];
        HeaderOk
  }

  /** The collector and the web page accept and reject the same headers, for the same reasons. */
  lemma LoadAgreesWithReader(data: seq<byte>)
    ensures LoadServerHistory(Opened(data)) == HeaderOk <==> StatFile.CheckHeader(data) == Ok(())
    ensures LoadServerHistory(Opened(data)) == ReadFailed <==> StatFile.CheckHeader(data) == Err(StatFile.Truncated)
    ensures LoadServerHistory(Opened(data)) == BadVersion <==> StatFile.CheckHeader(data) == Err(StatFile.BadVersion)
    ensures LoadServerHistory(Opened(data)) == BadMagic <==> StatFile.CheckHeader(data) == Err(StatFile.BadMagic)
  {
  }

  // ---------------------------------------------------------------------
  // `convertStats`
  // ---------------------------------------------------------------------

  /** One element of the JSON arrays: the player count (`GetInt`) and the time (`GetUint`). */
  datatype Sample = Sample(count: int, utc: nat)

  predicate ValidSamples(samples: seq<Sample>) {
    forall i :: 0 <= i < |samples| ==> samples[i].utc < TWO_32
  }

  /** Samples closer than this to the last written one are dropped. */
  const MIN_SPACING: nat := 50

  /** `utc - lastUtcTime` in `uint32_t` arithmetic. */
  function Delta(last: nat, utc: nat): (d: nat)
    requires last < TWO_32 && utc < TWO_32
    ensures d < TWO_32
    ensures utc >= last ==> d == utc - last
    ensures utc < last ==> d == TWO_32 + utc - last
  {
    (utc - last) % TWO_32
  }

  /** The time width the converter picks for a delta. */
  function WidthFor(delta: nat): StatFile.Width {
    if delta > 0xFFFF then StatFile.Absolute32
    else if delta > 0xFF then StatFile.Delta16
    else StatFile.Delta8
  }

  /** `c |= bit` for one of the two flag bits. */
  function OrBit(c: byte, bit: nat): (r: byte)
    requires bit == 64 || bit == 128
    ensures (r / bit) % 2 == 1
    ensures r % bit == c % bit && r / (2 * bit) == c / (2 * bit)
    ensures (c / bit) % 2 == 1 ==> r == c
  {
    if (c / bit) % 2 == 1 then c else c + bit
  }

  /** The control byte: the count with the width's flag or-ed in. */
  function ControlByte(count: byte, w: StatFile.Width): byte {
    match w
    case Absolute32 => OrBit(count, 128)
    case Delta16 => OrBit(count, 64)
    case Delta8 => count
  }

  /** The time bytes: all four of the absolute time, or its low two, or its low one. */
  function TimeBytes(utc: nat, w: StatFile.Width): (bs: seq<byte>)
    requires utc < TWO_32
    ensures |bs| == StatFile.RecordSize(w) - 1
  {
    match w
    case Absolute32 => LE32(utc)
    case Delta16 => LE16(utc % TWO_16)
    case Delta8 => [utc % 256]
  }

  /** A sample the converter writes: where it came from, and how it is stored. */
  datatype Written = Written(index: nat, utc: nat, count: byte, width: StatFile.Width)

  predicate Storable(r: seq<Written>) {
    forall k :: 0 <= k < |r| ==> r[k].utc < TWO_32
  }

  /** The time of the record before record `k`, or `last` before the first. */
  function PrevUtc(r: seq<Written>, k: nat, last: nat): nat
    requires k < |r|
  {
    if k == 0 then last else r[k - 1].utc
  }

  /** The time of the last record written before sample `j`, or `last` if none was. */
  function UtcBefore(r: seq<Written>, j: nat, last: nat): (t: nat)
    requires Storable(r) && last < TWO_32
    ensures t < TWO_32
  {
    if |r| == 0 || r[0].index >= j then last else UtcBefore(r[1..], j, r[0].utc)
  }

  /** The sample positions that were written. */
  function Indices(r: seq<Written>): set<nat> {
    set k | 0 <= k < |r| :: r[k].index
  }

  /**
   * The records the converter writes for the samples from `i` on, when the
   * last written time is `last`: a sample is written exactly when it is at
   * least 50 seconds (in wrapping 32-bit arithmetic) after the last written
   * one, and its width follows from that delta.
   */
  function Convert(samples: seq<Sample>, i: nat, last: nat): (r: seq<Written>)
    requires ValidSamples(samples) && i <= |samples| && last < TWO_32
    ensures forall k :: 0 <= k < |r| ==>
      && i <= r[k].index < |samples|
      && r[k].utc == samples[r[k].index].utc
      && r[k].count == Low8(samples[r[k].index].count)
    ensures forall k :: 0 < k < |r| ==> r[k - 1].index < r[k].index
    decreases |samples| - i
  {
    if i == |samples| then []
    else
      var s := samples[i];
      var d := Delta(last, s.utc);
      if d < MIN_SPACING then Convert(samples, i + 1, last)
      else [Written(i, s.utc, Low8(s.count), WidthFor(d))] + Convert(samples, i + 1, s.utc)
  }

  /** Every record is at least 50 seconds after the one before it (the first after `last`), and its width fits that delta. */
  predicate Spaced(r: seq<Written>, last: nat)
    requires Storable(r) && last < TWO_32
  {
    forall k :: 0 <= k < |r| ==>
      Delta(PrevUtc(r, k, last), r[k].utc) >= MIN_SPACING && r[k].width == WidthFor(Delta(PrevUtc(r, k, last), r[k].utc))
  }

  lemma SpacedCons(w: Written, rest: seq<Written>, last: nat)
    requires Storable(rest) && w.utc < TWO_32 && last < TWO_32
    requires Delta(last, w.utc) >= MIN_SPACING && w.width == WidthFor(Delta(last, w.utc))
    requires Spaced(rest, w.utc)
    ensures Storable([w] + rest) && Spaced([w] + rest, last)
  {
    var r := [w] + rest;
    forall k | 1 <= k < |r|
      ensures r[k] == rest[k - 1] && PrevUtc(r, k, last) == PrevUtc(rest, k - 1, w.utc)
    {
    }
  }

  /** Every written sample is at least 50 seconds after the one written before it, and its width fits that delta. */
  lemma {:induction false} ConvertSpacing(samples: seq<Sample>, i: nat, last: nat)
    requires ValidSamples(samples) && i <= |samples| && last < TWO_32
    ensures Storable(Convert(samples, i, last)) && Spaced(Convert(samples, i, last), last)
    decreases |samples| - i
  {
    if i < |samples| {
      var s := samples[i];
      var d := Delta(last, s.utc);
      if d < MIN_SPACING {
        ConvertSpacing(samples, i + 1, last);
      } else {
        ConvertSpacing(samples, i + 1, s.utc);
        SpacedCons(Written(i, s.utc, Low8(s.count), WidthFor(d)), Convert(samples, i + 1, s.utc), last);
      }
    }
  }

  /** Every dropped sample is less than 50 seconds after the last sample written before it. */
  lemma {:induction false} ConvertDropped(samples: seq<Sample>, i: nat, last: nat)
    requires ValidSamples(samples) && i <= |samples| && last < TWO_32
    ensures var r := Convert(samples, i, last);
      Storable(r) &&
      forall j :: i <= j < |samples| && j !in Indices(r) ==> Delta(UtcBefore(r, j, last), samples[j].utc) < MIN_SPACING
    decreases |samples| - i
  {
    if i < |samples| {
      var s := samples[i];
      var d := Delta(last, s.utc);
      var r := Convert(samples, i, last);
      if d < MIN_SPACING {
        ConvertDropped(samples, i + 1, last);
        assert UtcBefore(r, i, last) == last;
      } else {
        ConvertDropped(samples, i + 1, s.utc);
        var rest := Convert(samples, i + 1, s.utc);
        assert r == [Written(i, s.utc, Low8(s.count), WidthFor(d))] + rest;
        assert r[1..] == rest;
        assert Indices(r) == {i} + Indices(rest);
      }
    }
  }

  /** The bytes of one record, in the converter's order: time first, then control. */
  function RecordBytes(w: Written): (bs: seq<byte>)
    requires w.utc < TWO_32
    ensures |bs| == StatFile.RecordSize(w.width)
    ensures bs[|bs| - 1] == ControlByte(w.count, w.width)
  {
    TimeBytes(w.utc, w.width) + [ControlByte(w.count, w.width)]
  }

  /** The records one after another. */
  function Serialize(r: seq<Written>): (bs: seq<byte>)
    requires Storable(r)
    ensures |bs| == 0 <==> |r| == 0
    ensures |r| > 0 ==> bs[|bs| - 1] == ControlByte(r[|r| - 1].count, r[|r| - 1].width)
  {
    if |r| == 0 then []
    else Serialize(r[..|r| - 1]) + RecordBytes(r[|r| - 1])
  }

  /** The whole output file: the header, then the records of all samples, the first timed from 0. */
  function ConvertStats(samples: seq<Sample>): (out: seq<byte>)
    requires ValidSamples(samples)
    ensures |out| >= 8 && out[..8] == StatFile.HEADER
    ensures |out| == 8 <==> Convert(samples, 0, 0) == []
  {
    StatFile.HEADER + Serialize(Convert(samples, 0, 0))
  }

  /** Extending the converted prefix by one sample. */
  lemma ConvertStep(samples: seq<Sample>, i: nat, last: nat)
    requires ValidSamples(samples) && i < |samples| && last < TWO_32
    ensures var s := samples[i]; var d := Delta(last, s.utc);
      Convert(samples, i, last) ==
        if d < MIN_SPACING then Convert(samples, i + 1, last)
        else [Written(i, s.utc, Low8(s.count), WidthFor(d))] + Convert(samples, i + 1, s.utc)
  {
  }

  lemma SerializeSnoc(done: seq<Written>, w: Written)
    requires Storable(done) && w.utc < TWO_32
    ensures Storable(done + [w])
    ensures Serialize(done + [w]) == Serialize(done) + RecordBytes(w)
  {
    assert (done + [w])[..|done|] == done;
  }

  /** A kept sample extends the records written so far, and their bytes, by one record. */
  lemma KeepStep(samples: seq<Sample>, i: nat, last: nat, done: seq<Written>)
    requires ValidSamples(samples) && i < |samples| && last < TWO_32 && Storable(done)
    requires Delta(last, samples[i].utc) >= MIN_SPACING
    requires Convert(samples, 0, 0) == done + Convert(samples, i, last)
    ensures var s := samples[i];
      var w := Written(i, s.utc, Low8(s.count), WidthFor(Delta(last, s.utc)));
      && Storable(done + [w])
      && Convert(samples, 0, 0) == done + [w] + Convert(samples, i + 1, s.utc)
      && Serialize(done + [w]) == Serialize(done) + RecordBytes(w)
  {
    var s := samples[i];
    var w := Written(i, s.utc, Low8(s.count), WidthFor(Delta(last, s.utc)));
    var rest := Convert(samples, i + 1, s.utc);
    ConvertStep(samples, i, last);
    SerializeSnoc(done, w);
    Util.Assoc(done, [w], rest);
  }

  /** The branch of the loop that writes one kept sample: flag, time bytes, then the control byte. */
  method WriteRecord(ghost index: nat, count: byte, utc: nat, delta: nat) returns (record: seq<byte>)
    requires utc < TWO_32
    ensures record == RecordBytes(Written(index, utc, count, WidthFor(delta)))
  {
    var control := count;
    if delta > 0xFFFF {
      control := OrBit(control, 128);
      record := LE32(utc);
    } else if delta > 0xFF {
      control := OrBit(control, 64);
      record := LE16(utc % TWO_16);
    } else {
      record := [utc % 256];
    }
    record := record + [control];
  }

  /** `convertStats` as its loop runs: one record appended per kept sample. */
  method ConvertStatsLoop(samples: seq<Sample>) returns (out: seq<byte>)
    requires ValidSamples(samples)
    ensures out == ConvertStats(samples)
  {
    out := StatFile.HEADER;
    var lastUtcTime: nat := 0;
    ghost var done: seq<Written> := [];
    var i := 0;
    while i < |samples|
      invariant 0 <= i <= |samples| && lastUtcTime < TWO_32
      invariant Storable(done)
      invariant Convert(samples, 0, 0) == done + Convert(samples, i, lastUtcTime)
      invariant out == StatFile.HEADER + Serialize(done)
    {
      var count := Low8(samples[i].count);
      var utc := samples[i].utc;
      var delta := Delta(lastUtcTime, utc);
      if delta < MIN_SPACING {
        ConvertStep(samples, i, lastUtcTime);
        i := i + 1;
        continue;
      }
      var record := WriteRecord(i, count, utc, delta);
      ghost var w := Written(i, utc, count, WidthFor(delta));
      KeepStep(samples, i, lastUtcTime, done);
      Util.Assoc(StatFile.HEADER, Serialize(done), record);
      out := out + record;
      done := done + [w];
      lastUtcTime := utc;
      i := i + 1;
    }
    assert Convert(samples, i, lastUtcTime) == [];
    assert done + [] == done;
  }

  // ---------------------------------------------------------------------
  // What the converter's output holds
  // ---------------------------------------------------------------------

  /** The file the converter writes passes the collector's header check. */
  lemma ConvertedHeaderPasses(samples: seq<Sample>)
    requires ValidSamples(samples)
    ensures LoadServerHistory(Opened(ConvertStats(samples))) == HeaderOk
    ensures StatFile.CheckHeader(ConvertStats(samples)) == Ok(())
  {
    var out := ConvertStats(samples);
    assert |StatFile.HEADER| == 8;
    assert out[..8] == StatFile.HEADER;
  }

  /** For a count below 64 the control byte is the one the web page's format defines for a reachable record. */
  lemma ControlAgreesWithFormat(count: byte, w: StatFile.Width)
    requires count < 64
    ensures ControlByte(count, w) == StatFile.EncodeControl(StatFile.Control(count, false, w))
    ensures StatFile.DecodeControl(ControlByte(count, w)) == StatFile.Control(count, false, w)
  {
    StatFile.ControlRoundTrip(StatFile.Control(count, false, w));
  }

  /** While time does not go backwards, the converter picks the same width as the narrowest-width writer. */
  lemma WidthAgreesWithFormat(last: nat, utc: nat)
    requires last <= utc < TWO_32
    ensures WidthFor(Delta(last, utc)) == StatFile.ChooseWidth(last, utc)
  {
  }

  /** A time that goes backwards by less than 2^32 - 65535 seconds is stored as an absolute time. */
  lemma BackwardsIsAbsolute(last: nat, utc: nat)
    requires utc < last < TWO_32 && last - utc < TWO_32 - 0xFFFF
    ensures WidthFor(Delta(last, utc)) == StatFile.Absolute32
  {
  }

  /** What a record's time bytes hold: the time modulo 2^32, 2^16 or 2^8. */
  function Modulus(w: StatFile.Width): nat {
    match w
    case Absolute32 => TWO_32
    case Delta16 => TWO_16
    case Delta8 => 256
  }

  /** The little-endian value of a record's time bytes. */
  function TimeValue(bs: seq<byte>, w: StatFile.Width): nat
    requires |bs| == StatFile.RecordSize(w) - 1
  {
    match w
    case Absolute32 => U32(bs[0], bs[1], bs[2], bs[3])
    case Delta16 => U16(bs[0], bs[1])
    case Delta8 => bs[0]
  }

  lemma TimeBytesValue(utc: nat, w: StatFile.Width)
    requires utc < TWO_32
    ensures TimeValue(TimeBytes(utc, w), w) == utc % Modulus(w)
  {
  }

  /** One record as it can be read back: its control byte and its stored time. */
  datatype Stored = Stored(control: byte, time: nat)

  /** The width a control byte announces: flag 128 first, then flag 64. */
  function AnnouncedWidth(control: byte): StatFile.Width {
    StatFile.WidthOfFlags((control / 64) * 64)
  }

  /**
   * A reader for the converter's layout. The width of a record is only known
   * from its control byte, which comes last, so the records are read from the
   * end of the data towards its start.
   */
  function ReadConverted(data: seq<byte>): (r: Option<seq<Stored>>)
    decreases |data|
  {
    if |data| == 0 then Some([])
    else
      var control := data[|data| - 1];
      var w := AnnouncedWidth(control);
      var n := StatFile.RecordSize(w) - 1;
      if |data| < n + 1 then None
      else
        var start := |data| - 1 - n;
        match ReadConverted(data[..start])
        case None => None
        case Some(front) => Some(front + [Stored(control, TimeValue(data[start..|data| - 1], w))])
  }

  /** What reading a record back should give. */
  function StoredOf(w: Written): Stored {
    Stored(ControlByte(w.count, w.width), w.utc % Modulus(w.width))
  }

  function StoredAll(r: seq<Written>): (s: seq<Stored>)
    ensures |s| == |r|
    ensures forall k :: 0 <= k < |r| ==> s[k] == StoredOf(r[k])
  {
    seq(|r|, k requires 0 <= k < |r| => StoredOf(r[k]))
  }

  /** The flag bits of a count below 64 are clear, so the control byte announces the record's own width. */
  lemma AnnouncedOwnWidth(count: byte, w: StatFile.Width)
    requires count < 64
    ensures AnnouncedWidth(ControlByte(count, w)) == w
  {
  }

  /** Reading back the last record of a written sequence. */
  lemma ReadLastRecord(front: seq<byte>, w: Written)
    requires w.utc < TWO_32 && w.count < 64
    ensures var data := front + RecordBytes(w);
      ReadConverted(data) ==
        match ReadConverted(front)
        case None => None
        case Some(f) => Some(f + [StoredOf(w)])
  {
    var rec := RecordBytes(w);
    var data := front + rec;
    var tb := TimeBytes(w.utc, w.width);
    AnnouncedOwnWidth(w.count, w.width);
    TimeBytesValue(w.utc, w.width);
    assert data[|data| - 1] == ControlByte(w.count, w.width);
    assert data[..|front|] == front;
    assert data[|front|..|data| - 1] == tb;
  }

  /** A non-empty record sequence is its front plus its last record, for both the bytes and the stored values. */
  lemma LastSplit(r: seq<Written>) returns (front: seq<Written>, w: Written)
    requires Storable(r) && |r| > 0
    requires forall k :: 0 <= k < |r| ==> r[k].count < 64
    ensures front == r[..|r| - 1] && w == r[|r| - 1]
    ensures Storable(front) && w.utc < TWO_32 && w.count < 64
    ensures forall k :: 0 <= k < |front| ==> front[k].count < 64
    ensures Serialize(r) == Serialize(front) + RecordBytes(w)
    ensures StoredAll(r) == StoredAll(front) + [StoredOf(w)]
  {
    front, w := r[..|r| - 1], r[|r| - 1];
  }

  /** With counts below 64 the converter's records read back in order, each with its control byte and stored time. */
  lemma {:induction false} ReadConvertedRoundTrip(r: seq<Written>)
    requires Storable(r)
    requires forall k :: 0 <= k < |r| ==> r[k].count < 64
    ensures ReadConverted(Serialize(r)) == Some(StoredAll(r))
    decreases |r|
  {
    if |r| > 0 {
      var front, w := LastSplit(r);
      ReadConvertedRoundTrip(front);
      ReadLastRecord(Serialize(front), w);
    }
  }

  /** A stream whose last two bytes start with a control byte announcing a 16-bit delta is cut short. */
  lemma TwoByteTailTruncated(data: seq<byte>)
    requires |data| == 10 && data[8] == 100
    ensures StatFile.DecodeRecords(data, 8, 0) == Err(StatFile.Truncated)
  {
    assert StatFile.DecodeControl(100).width == StatFile.Delta16;
    assert StatFile.DecodeRecord(data, 8, 0) == Err(StatFile.Truncated);
  }

  /** The converter's records for one sample of 5 players at time 100. */
  lemma ConvertOneSample()
    ensures Convert([Sample(5, 100)], 0, 0) == [Written(0, 100, 5, StatFile.Delta8)]
  {
    var samples := [Sample(5, 100)];
    assert Delta(0, 100) == 100;
    assert Convert(samples, 1, 100) == [];
  }

  /**
   * The web page's reader does not read the converter's layout: for one
   * sample of 5 players at time 100, it takes the time byte 100 for a control
   * byte with flag 64 and then runs out of data.
   */
  lemma ConverterLayoutDiffers()
    ensures ConvertStats([Sample(5, 100)]) == StatFile.HEADER + [100, 5]
    ensures StatFile.DecodeRecords(ConvertStats([Sample(5, 100)]), StatFile.HEADER_SIZE, 0) == Err(StatFile.Truncated)
  {
    var w := Written(0, 100, 5, StatFile.Delta8);
    ConvertOneSample();
    SerializeSnoc([], w);
    assert [] + [w] == [w];
    assert RecordBytes(w) == [100, 5];
    var data := ConvertStats([Sample(5, 100)]);
    assert |StatFile.HEADER| == 8;
    TwoByteTailTruncated(data);
  }
}
