/**
 * The browser-side reader of a server's player-count history stream
 * (`parseStatFile`): an 8-byte header, then variable-width change records,
 * replayed into a step function sampled at fixed points of a time window.
 */
module StatFile {
  import opened Wrappers
  import opened Bytes

  const STAT_FILE_VERSION: nat := 1
  /** "SVTK" */
  const MAGIC: seq<byte> := [0x53, 0x56, 0x54, 0x4B]
  const HEADER_SIZE: nat := 8

  const FL_PCNT_TIME16: byte := 64
  const FL_PCNT_TIME32: byte := 128
  const PCNT_UNREACHABLE: byte := 0xC0

  const RANK_STAT_INTERVAL: nat := 60
  const RANK_STAT_AVG_INTERVAL: nat := 3600

  /** Why a stream yields no samples at all. */
  datatype StatError =
    | Truncated   // a read past the end of the buffer (the DataView throws)
    | BadVersion
    | BadMagic

  /** How the time of a record is stored after its control byte. */
  datatype Width = Delta8 | Delta16 | Absolute32

  /** The meaning of one control byte. */
  datatype Control = Control(count: nat, unreachable: bool, width: Width)

  /** One decoded record: the player count (0 when unreachable) from time `time` on. */
  datatype Stat = Stat(count: nat, unreachable: bool, time: int)

  /** The header every history stream starts with: version 1, little-endian, then "SVTK". */
  const HEADER: seq<byte> := LE32(STAT_FILE_VERSION) + MAGIC

  /** The header check: all eight bytes are read before either field is compared. */
  function CheckHeader(data: seq<byte>): (r: Result<(), StatError>)
    ensures r.Ok? <==> |data| >= 8 && data[..8] == HEADER
    ensures |data| < 8 ==> r == Err(Truncated)
  {
    if |data| < HEADER_SIZE then Err(Truncated)
    else if U32(data[0], data[1], data[2], data[3]) != STAT_FILE_VERSION then
      assert data[..8] != HEADER by { U32Injective(data[..4]); }
      Err(BadVersion)
    else if data[4..8] != MAGIC then
      assert data[..8][4..] == data[4..8];
      Err(BadMagic)
    else
      U32Injective(data[..4]);
      assert data[..8] == data[..4] + data[4..8];
      Ok(())
  }

  /** The width a set of time flags selects: the 32-bit flag wins over the 16-bit one. */
  function WidthOfFlags(flags: byte): Width {
    if (flags / 128) % 2 == 1 then Absolute32
    else if (flags / 64) % 2 == 1 then Delta16
    else Delta8
  }

  /**
   * Decoding of a control byte. Both top bits set means "unreachable", and
   * then bits 4-5 carry the width (`(stat << 2) & 0xC0`); otherwise the top
   * two bits are the width and the low six bits the player count.
   */
  function DecodeControl(stat: byte): (c: Control)
    ensures ValidControl(c)
    ensures c.unreachable <==> stat >= 0xC0
    ensures !c.unreachable ==> c.count == stat % 64
    ensures c.width == Absolute32 <==> 0x80 <= stat < 0xC0 || 0xE0 <= stat
  {
    var flags := (stat / 64) * 64;
    if flags == PCNT_UNREACHABLE then
      Control(0, true, WidthOfFlags(((stat * 4) % 256 / 64) * 64))
    else
      Control(stat % 64, false, WidthOfFlags(flags))
  }

  /** The time flags of a width, in the reachable layout. */
  function FlagsOf(w: Width): byte {
    match w
    case Delta8 => 0
    case Delta16 => FL_PCNT_TIME16
    case Absolute32 => FL_PCNT_TIME32
  }

  /** A control byte as a writer of the format produces it. */
  function EncodeControl(c: Control): byte
    requires c.count < 64
  {
    if c.unreachable then PCNT_UNREACHABLE + FlagsOf(c.width) / 4
    else FlagsOf(c.width) + c.count
  }

  /** A control the format can express: a count of at most 63, and 0 when unreachable. */
  predicate ValidControl(c: Control) {
    c.count < 64 && (c.unreachable ==> c.count == 0)
  }

  /** Every valid control survives encoding and decoding. */
  lemma ControlRoundTrip(c: Control)
    requires ValidControl(c)
    ensures DecodeControl(EncodeControl(c)) == c
  {
  }

  /**
   * Decoding never yields an invalid control, and a byte is exactly the
   * encoding of what it decodes to unless it is an unreachable byte with
   * low bits set (which the reader only logs) or with both width bits set.
   */
  lemma ControlCanonical(stat: byte)
    ensures ValidControl(DecodeControl(stat))
    ensures EncodeControl(DecodeControl(stat)) == stat <==> stat < 0xC0 || stat in {0xC0, 0xD0, 0xE0}
  {
  }

  /** Bytes a record with this width occupies, control byte included. */
  function RecordSize(w: Width): nat {
    match w
    case Delta8 => 2
    case Delta16 => 3
    case Absolute32 => 5
  }

  /**
   * One record at `offset`, given the running time: the 32-bit width assigns
   * an absolute time, the others add a delta. A read past the end fails.
   */
  function DecodeRecord(data: seq<byte>, offset: nat, time: int): (r: Result<(Stat, nat), StatError>)
    requires offset < |data|
    ensures r.Ok? <==> offset + RecordSize(DecodeControl(data[offset]).width) <= |data|
    ensures r.Ok? ==> r.value.1 == offset + RecordSize(DecodeControl(data[offset]).width)
    ensures r.Ok? ==> r.value.0.count < 64 && (r.value.0.unreachable ==> r.value.0.count == 0)
    ensures r.Ok? && DecodeControl(data[offset]).width != Absolute32 ==> r.value.0.time >= time
    ensures r.Err? ==> r.error == Truncated
  {
    var c := DecodeControl(data[offset]);
    var p := offset + 1;
    match c.width
    case Absolute32 =>
      if p + 4 > |data| then Err(Truncated)
      else Ok((Stat(c.count, c.unreachable, U32(data[p], data[p + 1], data[p + 2], data[p + 3])), p + 4))
    case Delta16 =>
      if p + 2 > |data| then Err(Truncated)
      else Ok((Stat(c.count, c.unreachable, time + U16(data[p], data[p + 1])), p + 2))
    case Delta8 =>
      if p + 1 > |data| then Err(Truncated)
      else Ok((Stat(c.count, c.unreachable, time + data[p]), p + 1))
  }

  /** A record the format can carry. */
  predicate ValidStat(s: Stat) {
    s.count < 64 && (s.unreachable ==> s.count == 0)
  }

  /** Prefixing decoded records to a decoding result, keeping its failure. */
  function Then(prefix: seq<Stat>, r: Result<seq<Stat>, StatError>): Result<seq<Stat>, StatError> {
    match r
    case Ok(rest) => Ok(prefix + rest)
    case Err(e) => Err(e)
  }

  /** All records from `offset` to the end, carrying the running time along. */
  function DecodeRecords(data: seq<byte>, offset: nat, time: int): (r: Result<seq<Stat>, StatError>)
    ensures r.Ok? ==> forall i :: 0 <= i < |r.value| ==> ValidStat(r.value[i])
    ensures r.Err? ==> r.error == Truncated
    decreases |data| - offset
  {
    if offset >= |data| then Ok([])
    else
      match DecodeRecord(data, offset, time)
      case Err(e) => Err(e)
      case Ok((s, next)) => Then([s], DecodeRecords(data, next, s.time))
  }

  /** A record a writer can store: valid, with a time that fits 32 bits. */
  predicate Storable(s: Stat) {
    ValidStat(s) && 0 <= s.time < TWO_32
  }

  /** Reference writer: the narrowest width that holds the time since the previous record. */
  function ChooseWidth(prev: int, t: int): Width {
    if t < prev || t - prev > 0xFFFF then Absolute32
    else if t - prev > 0xFF then Delta16
    else Delta8
  }

  /** The bytes of one record written after a record at time `prev`. */
  function EncodeRecord(s: Stat, prev: int): (bs: seq<byte>)
    requires Storable(s)
    ensures |bs| == RecordSize(ChooseWidth(prev, s.time))
  {
    var w := ChooseWidth(prev, s.time);
    var control := EncodeControl(Control(s.count, s.unreachable, w));
    match w
    case Absolute32 => [control] + LE32(s.time)
    case Delta16 => [control] + LE16(s.time - prev)
    case Delta8 => [control, s.time - prev]
  }

  function EncodeRecords(stats: seq<Stat>, prev: int): seq<byte>
    requires forall i :: 0 <= i < |stats| ==> Storable(stats[i])
  {
    if |stats| == 0 then []
    else EncodeRecord(stats[0], prev) + EncodeRecords(stats[1..], stats[0].time)
  }

  /** A whole stream: the header, then every record, the first one timed from 0. */
  function EncodeStatFile(stats: seq<Stat>): seq<byte>
    requires forall i :: 0 <= i < |stats| ==> Storable(stats[i])
  {
    HEADER + EncodeRecords(stats, 0)
  }

  /** The reader decodes one written record back, whatever precedes or follows it. */
  lemma DecodeOneRecord(s: Stat, prev: int, before: seq<byte>, after: seq<byte>)
    requires Storable(s)
    ensures var data := before + EncodeRecord(s, prev) + after;
      && |before| < |data|
      && DecodeRecord(data, |before|, prev) == Ok((s, |before| + |EncodeRecord(s, prev)|))
  {
    var w := ChooseWidth(prev, s.time);
    var c := Control(s.count, s.unreachable, w);
    ControlRoundTrip(c);
    var enc := EncodeRecord(s, prev);
    var data := before + enc + after;
    var p := |before|;
    assert data[p] == enc[0];
    forall i | 0 <= i < |enc| ensures data[p + i] == enc[i] { }
    match w
    case Absolute32 =>
      assert enc[1..] == LE32(s.time);
    case Delta16 =>
      assert enc[1..] == LE16(s.time - prev);
    case Delta8 =>
  }

  /** Reading back what the reference writer produced gives the records again. */
  lemma {:induction false} DecodeEncoded(stats: seq<Stat>, prev: int, before: seq<byte>)
    requires forall i :: 0 <= i < |stats| ==> Storable(stats[i])
    ensures DecodeRecords(before + EncodeRecords(stats, prev), |before|, prev) == Ok(stats)
    decreases |stats|
  {
    if |stats| > 0 {
      var s := stats[0];
      var rest := EncodeRecords(stats[1..], s.time);
      var enc := EncodeRecord(s, prev);
      DecodeOneRecord(s, prev, before, rest);
      assert before + EncodeRecords(stats, prev) == (before + enc) + rest;
      DecodeEncoded(stats[1..], s.time, before + enc);
      assert [s] + stats[1..] == stats;
    }
  }

  /** A stream written by the reference writer passes the header check and decodes to its records. */
  lemma StatFileRoundTrip(stats: seq<Stat>)
    requires forall i :: 0 <= i < |stats| ==> Storable(stats[i])
    ensures CheckHeader(EncodeStatFile(stats)) == Ok(())
    ensures DecodeRecords(EncodeStatFile(stats), HEADER_SIZE, 0) == Ok(stats)
  {
    DecodeEncoded(stats, 0, HEADER);
    assert EncodeStatFile(stats)[..8] == HEADER;
  }

  // ---------------------------------------------------------------------
  // Replaying the records into fixed-interval samples
  // ---------------------------------------------------------------------

  /** What the reader remembers between records. */
  datatype Replay = Replay(
    started: bool,      // a record has been seen
    count: int,         // player count of the last record
    unreachable: bool,  // the last record said "unreachable"
    restart: bool,      // the last unreachable record repeated the time before it
    lastTime: int)      // time of the last record (0 before the first)

  const FRESH: Replay := Replay(false, 0, false, false, 0)

  /** Sample value of the state once the history has started. */
  function Level(st: Replay): int {
    if st.unreachable && st.restart then -2
    else if st.unreachable then -1
    else st.count
  }

  /** Sample value pushed while backfilling up to a record: -3 before any record. */
  function Pending(st: Replay): int {
    if !st.started then -3 else Level(st)
  }

  /**
   * Taking a record in: an unreachable record written at the same second as
   * the record before it marks a restart of the collector.
   */
  function Apply(st: Replay, s: Stat): Replay {
    Replay(true, s.count, s.unreachable, if s.unreachable then st.lastTime == s.time else st.restart, s.time)
  }

  /** The reader's state after the given records. */
  function StateAfter(stats: seq<Stat>): Replay {
    if |stats| == 0 then FRESH
    else Apply(StateAfter(stats[..|stats| - 1]), stats[|stats| - 1])
  }

  /** Time of the `k`-th sample point of a window starting at `start`. */
  function SampleTime(start: int, interval: int, k: nat): int {
    start + k * interval
  }

  lemma SampleTimeMono(start: int, interval: int, j: nat, k: nat)
    requires interval > 0 && j <= k
    ensures SampleTime(start, interval, j) <= SampleTime(start, interval, k)
  {
    assert k * interval - j * interval == (k - j) * interval;
  }

  /**
   * Backfilling up to time `t` with value `v`: push `v` while the next sample
   * point is at or before `t`. The next sample point is always
   * `start + |samples| * interval`.
   */
  function Fill(samples: seq<int>, start: int, interval: int, t: int, v: int): (r: seq<int>)
    requires interval > 0
    ensures |samples| <= |r| && r[..|samples|] == samples
    ensures forall k :: |samples| <= k < |r| ==> r[k] == v
    ensures t < SampleTime(start, interval, |r|)
    ensures |samples| < |r| ==> SampleTime(start, interval, |r| - 1) <= t
    decreases t - SampleTime(start, interval, |samples|)
  {
    if SampleTime(start, interval, |samples|) <= t then
      Fill(samples + [v], start, interval, t, v)
    else samples
  }

  /** The samples pushed while reading the given records, before the final catch-up. */
  function Backfill(stats: seq<Stat>, start: int, interval: int): (r: seq<int>)
    requires interval > 0
    ensures |stats| > 0 ==> stats[|stats| - 1].time < SampleTime(start, interval, |r|)
  {
    if |stats| == 0 then []
    else
      var pre := stats[..|stats| - 1];
      Fill(Backfill(pre, start, interval), start, interval, stats[|stats| - 1].time, Pending(StateAfter(pre)))
  }

  /** The sample series of a decoded history: catch up to `now`, drop one, check the count. */
  function Resample(stats: seq<Stat>, now: int, window: int, interval: int): (r: seq<int>)
    requires interval > 0
    ensures r == [] || |r| * interval == window
  {
    var start := now - window;
    var filled := Fill(Backfill(stats, start, interval), start, interval, now, Level(StateAfter(stats)));
    var popped := if |filled| == 0 then filled else filled[..|filled| - 1];
    if |popped| * interval == window then popped else []
  }

  /** The sampling interval of the plain and of the averaged data. */
  function Interval(useAvgData: bool): nat {
    if useAvgData then RANK_STAT_AVG_INTERVAL else RANK_STAT_INTERVAL
  }

  /**
   * `parseStatFile`: the header is checked, every record decoded, and the
   * history resampled over the `window` seconds before `now`.
   */
  function ParseStatFile(data: seq<byte>, now: int, window: int, useAvgData: bool): (r: Result<seq<int>, StatError>)
    ensures CheckHeader(data).Err? ==> r.Err?
    ensures |data| < 8 ==> r == Err(Truncated)
    ensures r.Ok? ==> |data| >= 8 && data[..8] == HEADER
    ensures r.Ok? ==> |r.value| == 0 || |r.value| * Interval(useAvgData) == window
  {
    var _ :- CheckHeader(data);
    var stats :- DecodeRecords(data, HEADER_SIZE, 0);
    Ok(Resample(stats, now, window, Interval(useAvgData)))
  }

  // ---------------------------------------------------------------------
  // What the samples mean
  // ---------------------------------------------------------------------

  /** Index of the first record at or after time `t`, or the number of records when none is. */
  function FirstAtOrAfter(stats: seq<Stat>, t: int): (j: nat)
    ensures j <= |stats|
    ensures forall i :: 0 <= i < j ==> stats[i].time < t
    ensures j < |stats| ==> stats[j].time >= t
  {
    if |stats| == 0 then 0
    else if stats[0].time >= t then 0
    else 1 + FirstAtOrAfter(stats[1..], t)
  }

  lemma FirstAtOrAfterUnique(stats: seq<Stat>, t: int, j: nat)
    requires j <= |stats|
    requires forall i :: 0 <= i < j ==> stats[i].time < t
    requires j < |stats| ==> stats[j].time >= t
    ensures FirstAtOrAfter(stats, t) == j
  {
  }

  /**
   * Reference definition of the k-th sample: the reader's state just before
   * the first record at or after the sample point, or its final state when
   * every record lies before the sample point.
   */
  function SampleAt(stats: seq<Stat>, start: int, interval: int, k: nat): int {
    var j := FirstAtOrAfter(stats, SampleTime(start, interval, k));
    if j < |stats| then Pending(StateAfter(stats[..j])) else Level(StateAfter(stats))
  }

  /**
   * While reading the records, sample k receives the state before the first
   * record at or after its time, and backfilling stops past every record read.
   */
  lemma {:induction false} BackfillSamples(stats: seq<Stat>, start: int, interval: int)
    requires interval > 0
    ensures var S := Backfill(stats, start, interval);
      && (forall i :: 0 <= i < |stats| ==> stats[i].time < SampleTime(start, interval, |S|))
      && (forall k :: 0 <= k < |S| ==> FirstAtOrAfter(stats, SampleTime(start, interval, k)) < |stats|)
      && (forall k :: 0 <= k < |S| ==> S[k] == SampleAt(stats, start, interval, k))
    decreases |stats|
  {
    if |stats| > 0 {
      var pre := stats[..|stats| - 1];
      BackfillSamples(pre, start, interval);
      BackfillTimes(stats, start, interval);
      var S := Backfill(stats, start, interval);
      forall k | 0 <= k < |S|
        ensures FirstAtOrAfter(stats, SampleTime(start, interval, k)) < |stats|
        ensures S[k] == SampleAt(stats, start, interval, k)
      {
        if k < |Backfill(pre, start, interval)| {
          BackfillKeepsOld(stats, start, interval, k);
        } else {
          BackfillPushesPending(stats, start, interval, k);
        }
      }
    }
  }

  /** Adding a record keeps every record time before the next sample point. */
  lemma BackfillTimes(stats: seq<Stat>, start: int, interval: int)
    requires interval > 0 && |stats| > 0
    requires var pre := stats[..|stats| - 1];
      forall i :: 0 <= i < |pre| ==> pre[i].time < SampleTime(start, interval, |Backfill(pre, start, interval)|)
    ensures forall i :: 0 <= i < |stats| ==> stats[i].time < SampleTime(start, interval, |Backfill(stats, start, interval)|)
  {
    var n := |stats| - 1;
    var pre := stats[..n];
    var S0 := Backfill(pre, start, interval);
    var S := Backfill(stats, start, interval);
    assert S == Fill(S0, start, interval, stats[n].time, Pending(StateAfter(pre)));
    SampleTimeMono(start, interval, |S0|, |S|);
    forall i | 0 <= i < |stats|
      ensures stats[i].time < SampleTime(start, interval, |S|)
    {
      if i < n {
        assert stats[i] == pre[i];
      }
    }
  }

  /** Samples pushed before the last record keep their meaning once it is added. */
  lemma BackfillKeepsOld(stats: seq<Stat>, start: int, interval: int, k: nat)
    requires interval > 0 && |stats| > 0
    requires var pre := stats[..|stats| - 1];
      var S0 := Backfill(pre, start, interval);
      && k < |S0|
      && FirstAtOrAfter(pre, SampleTime(start, interval, k)) < |pre|
      && S0[k] == SampleAt(pre, start, interval, k)
    ensures k < |Backfill(stats, start, interval)|
    ensures FirstAtOrAfter(stats, SampleTime(start, interval, k)) < |stats|
    ensures Backfill(stats, start, interval)[k] == SampleAt(stats, start, interval, k)
  {
    var n := |stats| - 1;
    var pre := stats[..n];
    var S0 := Backfill(pre, start, interval);
    var S := Backfill(stats, start, interval);
    var t := SampleTime(start, interval, k);
    var j := FirstAtOrAfter(pre, t);
    assert forall i :: 0 <= i < n ==> stats[i] == pre[i];
    FirstAtOrAfterUnique(stats, t, j);
    assert stats[..j] == pre[..j];
    assert S[k] == S[..|S0|][k] == S0[k];
  }

  /** Samples pushed for the last record carry the state before it. */
  lemma BackfillPushesPending(stats: seq<Stat>, start: int, interval: int, k: nat)
    requires interval > 0 && |stats| > 0
    requires var pre := stats[..|stats| - 1];
      var S0 := Backfill(pre, start, interval);
      && |S0| <= k < |Backfill(stats, start, interval)|
      && forall i :: 0 <= i < |pre| ==> pre[i].time < SampleTime(start, interval, |S0|)
    ensures FirstAtOrAfter(stats, SampleTime(start, interval, k)) < |stats|
    ensures Backfill(stats, start, interval)[k] == SampleAt(stats, start, interval, k)
  {
    var n := |stats| - 1;
    var pre := stats[..n];
    var S0 := Backfill(pre, start, interval);
    var S := Backfill(stats, start, interval);
    var t := SampleTime(start, interval, k);
    SampleTimeMono(start, interval, |S0|, k);
    SampleTimeMono(start, interval, k, |S| - 1);
    forall i | 0 <= i < n ensures stats[i].time < t {
      assert stats[i] == pre[i];
    }
    FirstAtOrAfterUnique(stats, t, n);
  }

  /** The sample count before the final drop: the first sample point past both `now` and the records. */
  lemma FilledLength(stats: seq<Stat>, now: int, window: int, interval: int)
    requires interval > 0
    ensures var start := now - window;
      var S := Backfill(stats, start, interval);
      var filled := Fill(S, start, interval, now, Level(StateAfter(stats)));
      && |S| <= |filled|
      && filled[..|S|] == S
      && (forall k :: |S| <= k < |filled| ==> filled[k] == SampleAt(stats, start, interval, k))
      && (forall i :: 0 <= i < |stats| ==> stats[i].time < SampleTime(start, interval, |filled|))
      && now < SampleTime(start, interval, |filled|)
      && (0 < |filled| ==> SampleTime(start, interval, |filled| - 1) <= now
                           || FirstAtOrAfter(stats, SampleTime(start, interval, |filled| - 1)) < |stats|)
  {
    FilledTail(stats, now - window, interval, now);
    FilledTimes(stats, now - window, interval, now);
  }

  /** Every record lies before the end of the caught-up series, and its last sample is due by `now` or by a record. */
  lemma FilledTimes(stats: seq<Stat>, start: int, interval: int, now: int)
    requires interval > 0
    ensures var S := Backfill(stats, start, interval);
      var filled := Fill(S, start, interval, now, Level(StateAfter(stats)));
      && (forall i :: 0 <= i < |stats| ==> stats[i].time < SampleTime(start, interval, |filled|))
      && (0 < |filled| ==> SampleTime(start, interval, |filled| - 1) <= now
                           || FirstAtOrAfter(stats, SampleTime(start, interval, |filled| - 1)) < |stats|)
  {
    BackfillSamples(stats, start, interval);
    var S := Backfill(stats, start, interval);
    var filled := Fill(S, start, interval, now, Level(StateAfter(stats)));
    SampleTimeMono(start, interval, |S|, |filled|);
    if 0 < |filled| == |S| {
      assert FirstAtOrAfter(stats, SampleTime(start, interval, |S| - 1)) < |stats|;
    }
  }

  /** The catch-up samples after the backfill are the reference samples (the state after every record). */
  lemma FilledTail(stats: seq<Stat>, start: int, interval: int, now: int)
    requires interval > 0
    ensures var S := Backfill(stats, start, interval);
      var filled := Fill(S, start, interval, now, Level(StateAfter(stats)));
      forall k :: |S| <= k < |filled| ==> filled[k] == SampleAt(stats, start, interval, k)
  {
    BackfillSamples(stats, start, interval);
    var S := Backfill(stats, start, interval);
    var filled := Fill(S, start, interval, now, Level(StateAfter(stats)));
    forall k | |S| <= k < |filled| ensures filled[k] == SampleAt(stats, start, interval, k) {
      SampleTimeMono(start, interval, |S|, k);
      FirstAtOrAfterUnique(stats, SampleTime(start, interval, k), |stats|);
    }
  }

  /**
   * A kept series holds exactly `window / interval` samples, and sample k is
   * the reference sample at `now - window + k * interval`.
   */
  lemma ResampleSamples(stats: seq<Stat>, now: int, window: int, interval: int)
    requires interval > 0
    ensures var r := Resample(stats, now, window, interval);
      && (r == [] || |r| * interval == window)
      && (forall k :: 0 <= k < |r| ==> r[k] == SampleAt(stats, now - window, interval, k))
  {
    var start := now - window;
    BackfillSamples(stats, start, interval);
    FilledLength(stats, now, window, interval);
    var S := Backfill(stats, start, interval);
    var filled := Fill(S, start, interval, now, Level(StateAfter(stats)));
    var r := Resample(stats, now, window, interval);
    forall k | 0 <= k < |r| ensures r[k] == SampleAt(stats, start, interval, k) {
      assert r[k] == filled[k];
      if k < |S| {
        assert filled[k] == filled[..|S|][k] == S[k];
      }
    }
  }

  lemma MulOrder(a: int, b: int, c: int)
    requires c > 0 && a * c < b * c
    ensures a < b
  {
  }

  /**
   * When no record lies after `now` and the window is `m` whole intervals,
   * the count check always passes: the series has exactly `m` samples.
   */
  lemma ResampleFullWindow(stats: seq<Stat>, now: int, m: nat, interval: int)
    requires interval > 0
    requires forall i :: 0 <= i < |stats| ==> stats[i].time <= now
    ensures |Resample(stats, now, m * interval, interval)| == m
  {
    var window := m * interval;
    var start := now - window;
    var filled := Fill(Backfill(stats, start, interval), start, interval, now, Level(StateAfter(stats)));
    var L := |filled|;
    assert L > 0 && L - 1 == m by {
      FilledLength(stats, now, window, interval);
      assert SampleTime(start, interval, 0) == start <= now;
      var j := FirstAtOrAfter(stats, SampleTime(start, interval, L - 1));
      if j < |stats| {
        assert stats[j].time <= now;
      }
      WindowCount(now, m, interval, L);
    }
    assert Resample(stats, now, window, interval) == filled[..L - 1];
  }

  /** The only sample count whose last point is at or before `now` and whose next one is past it. */
  lemma WindowCount(now: int, m: nat, interval: int, L: nat)
    requires interval > 0 && L > 0
    requires SampleTime(now - m * interval, interval, L - 1) <= now < SampleTime(now - m * interval, interval, L)
    ensures L - 1 == m
  {
    assert m * interval < L * interval;
    MulOrder(m, L, interval);
    assert (L - 1) * interval <= m * interval;
    if L - 1 > m {
      MulOrder(m, L - 1, interval);
    }
  }

  /**
   * A record lying an interval or more after `now` pushes the catch-up past
   * the window, and the count check then discards the whole series.
   */
  lemma ResampleDiscardsFuture(stats: seq<Stat>, now: int, window: int, interval: int, i: nat)
    requires interval > 0 && i < |stats|
    requires stats[i].time >= now + interval
    ensures Resample(stats, now, window, interval) == []
  {
    var start := now - window;
    FilledLength(stats, now, window, interval);
    var S := Backfill(stats, start, interval);
    var filled := Fill(S, start, interval, now, Level(StateAfter(stats)));
    var L := |filled|;
    assert SampleTime(start, interval, L) > now + interval;
    if L == 0 {
      assert window < 0;
    } else {
      assert (L - 1) * interval == L * interval - interval;
      assert (L - 1) * interval > window;
    }
  }

  /** The last record's time is what the reader compares the next unreachable record against. */
  lemma LastTimeAfter(stats: seq<Stat>)
    ensures StateAfter(stats).lastTime == if |stats| == 0 then 0 else stats[|stats| - 1].time
    ensures StateAfter(stats).started <==> |stats| > 0
  {
  }

  /**
   * After an unreachable record the backfill value is -2 when that record
   * repeated the previous record's time (a collector restart; the time before
   * the first record counts as 0), and -1 otherwise.
   */
  lemma UnreachableLevel(stats: seq<Stat>, j: nat)
    requires j < |stats| && stats[j].unreachable
    ensures Level(StateAfter(stats[..j + 1]))
         == if stats[j].time == (if j == 0 then 0 else stats[j - 1].time) then -2 else -1
  {
    assert stats[..j + 1][..j] == stats[..j];
    LastTimeAfter(stats[..j]);
  }

  /** The reader's count stays within the six bits of the format. */
  lemma {:induction false} StateAfterValid(stats: seq<Stat>)
    requires forall i :: 0 <= i < |stats| ==> ValidStat(stats[i])
    ensures 0 <= StateAfter(stats).count < 64
    decreases |stats|
  {
    if |stats| > 0 {
      StateAfterValid(stats[..|stats| - 1]);
    }
  }

  /**
   * Every sample of a decoded stream is -3 (before the history starts), -2
   * (restart), -1 (unreachable) or a player count of at most 63.
   */
  lemma ResampleRange(stats: seq<Stat>, now: int, window: int, interval: int)
    requires interval > 0
    requires forall i :: 0 <= i < |stats| ==> ValidStat(stats[i])
    ensures var r := Resample(stats, now, window, interval);
      forall k :: 0 <= k < |r| ==> -3 <= r[k] <= 63
  {
    ResampleSamples(stats, now, window, interval);
    StateAfterValid(stats);
    forall j | 0 <= j <= |stats| ensures 0 <= StateAfter(stats[..j]).count < 64 {
      StateAfterValid(stats[..j]);
    }
  }

  /**
   * Worked example: a count of 5 from t=0 and 10 from t=120, read at now=180
   * over a 180-second window of 60-second samples. The sample at t=0 sees no
   * earlier record, and the sample at t=180 is the one dropped.
   */
  lemma BackfillExample()
    ensures Resample([Stat(5, false, 0), Stat(10, false, 120)], 180, 180, 60) == [-3, 5, 5]
  {
    var stats := [Stat(5, false, 0), Stat(10, false, 120)];
    assert stats[..1] == [Stat(5, false, 0)];
    assert [Stat(5, false, 0)][..0] == [];
    var s1 := Fill([], 0, 60, 0, -3);
    assert s1 == [-3] by {
      assert Fill([-3], 0, 60, 0, -3) == [-3];
    }
    var s2 := Fill([-3], 0, 60, 120, 5);
    assert s2 == [-3, 5, 5] by {
      assert Fill([-3, 5, 5], 0, 60, 120, 5) == [-3, 5, 5];
      assert Fill([-3, 5], 0, 60, 120, 5) == [-3, 5, 5];
    }
    assert Backfill(stats, 0, 60) == [-3, 5, 5];
    var s3 := Fill([-3, 5, 5], 0, 60, 180, 10);
    assert s3 == [-3, 5, 5, 10] by {
      assert Fill([-3, 5, 5, 10], 0, 60, 180, 10) == [-3, 5, 5, 10];
    }
  }

  /** Reading a stream the reference writer produced resamples exactly the records written. */
  lemma ParseWrittenStream(stats: seq<Stat>, now: int, window: int, useAvgData: bool)
    requires forall i :: 0 <= i < |stats| ==> Storable(stats[i])
    ensures ParseStatFile(EncodeStatFile(stats), now, window, useAvgData)
         == Ok(Resample(stats, now, window, Interval(useAvgData)))
  {
    StatFileRoundTrip(stats);
  }

  lemma ThenAssoc(a: seq<Stat>, b: seq<Stat>, r: Result<seq<Stat>, StatError>)
    ensures Then(a, Then(b, r)) == Then(a + b, r)
  {
    if r.Ok? {
      assert a + (b + r.value) == (a + b) + r.value;
    }
  }

  /** Decoding one more record extends the decoded prefix by it. */
  lemma DecodeAdvance(data: seq<byte>, decoded: seq<Stat>, offset: nat, time: int, s: Stat, next: nat)
    requires offset < |data| && DecodeRecord(data, offset, time) == Ok((s, next))
    ensures Then(decoded, DecodeRecords(data, offset, time)) == Then(decoded + [s], DecodeRecords(data, next, s.time))
  {
    assert DecodeRecords(data, offset, time) == Then([s], DecodeRecords(data, next, s.time));
    ThenAssoc(decoded, [s], DecodeRecords(data, next, s.time));
  }

  /**
   * One backfill loop of `parseStatFile`: push `value` while the next sample
   * point is at or before `t`, recomputing the next sample point from the
   * number of samples after every push.
   */
  method PushUntil(samples: seq<int>, rankStartTime: int, interval: int, t: int, value: int)
    returns (rankDataPoints: seq<int>, nextRankTime: int)
    requires interval > 0
    ensures rankDataPoints == Fill(samples, rankStartTime, interval, t, value)
    ensures nextRankTime == rankStartTime + |rankDataPoints| * interval
    ensures t < nextRankTime
  {
    rankDataPoints := samples;
    nextRankTime := rankStartTime + |rankDataPoints| * interval;
    while t >= nextRankTime
      invariant nextRankTime == SampleTime(rankStartTime, interval, |rankDataPoints|)
      invariant Fill(rankDataPoints, rankStartTime, interval, t, value)
             == Fill(samples, rankStartTime, interval, t, value)
      decreases t - nextRankTime
    {
      rankDataPoints := rankDataPoints + [value];
      nextRankTime := rankStartTime + |rankDataPoints| * interval;
    }
  }

  /**
   * The record loop of `parseStatFile`: decode a record, backfill up to its
   * time with the state before it, then take it in. Returns the samples
   * pushed so far and the reader's final state.
   */
  method ReplayRecords(data: seq<byte>, rankStartTime: int, interval: int)
    returns (res: Result<(seq<int>, Replay), StatError>)
    requires interval > 0
    ensures DecodeRecords(data, HEADER_SIZE, 0).Err? ==> res == Err(Truncated)
    ensures DecodeRecords(data, HEADER_SIZE, 0).Ok? ==>
      var stats := DecodeRecords(data, HEADER_SIZE, 0).value;
      res == Ok((Backfill(stats, rankStartTime, interval), StateAfter(stats)))
  {
    var rankDataPoints: seq<int> := [];
    var nextRankTime := rankStartTime;
    var playerCount := 0;
    var statTime := 0;
    var lastStatTime := 0;
    var lastUnreachable := false;
    var lastUnreachableWasProgramRestart := false;
    var historyStarted := false;
    var offset: nat := HEADER_SIZE;
    ghost var decoded: seq<Stat> := [];
    ghost var whole := DecodeRecords(data, HEADER_SIZE, 0);
    assert Then([], whole) == whole by {
      if whole.Ok? {
        assert [] + whole.value == whole.value;
      }
    }

    while offset < |data|
      invariant whole == Then(decoded, DecodeRecords(data, offset, statTime))
      invariant StateAfter(decoded)
             == Replay(historyStarted, playerCount, lastUnreachable, lastUnreachableWasProgramRestart, lastStatTime)
      invariant statTime == lastStatTime
      invariant rankDataPoints == Backfill(decoded, rankStartTime, interval)
      invariant nextRankTime == SampleTime(rankStartTime, interval, |rankDataPoints|)
      decreases |data| - offset
    {
      var record := DecodeRecord(data, offset, statTime);
      if record.Err? {
        return Err(Truncated);
      }
      var (s, next) := record.value;
      DecodeAdvance(data, decoded, offset, statTime, s, next);
      offset := next;
      statTime := s.time;

      var pending := if !historyStarted then -3
        else if lastUnreachable && lastUnreachableWasProgramRestart then -2
        else if lastUnreachable then -1
        else playerCount;
      rankDataPoints, nextRankTime := PushUntil(rankDataPoints, rankStartTime, interval, statTime, pending);

      playerCount := s.count;
      lastUnreachable := s.unreachable;
      if s.unreachable {
        lastUnreachableWasProgramRestart := lastStatTime == statTime;
      }
      lastStatTime := statTime;
      historyStarted := true;

      assert (decoded + [s])[..|decoded|] == decoded;
      decoded := decoded + [s];
    }
    assert decoded + [] == decoded;
    res := Ok((rankDataPoints,
      Replay(historyStarted, playerCount, lastUnreachable, lastUnreachableWasProgramRestart, lastStatTime)));
  }

  /** Past a good header, the parse fails exactly when decoding does. */
  lemma ParseAfterHeader(data: seq<byte>, now: int, window: int, useAvgData: bool)
    requires CheckHeader(data) == Ok(())
    ensures DecodeRecords(data, HEADER_SIZE, 0).Err? ==> ParseStatFile(data, now, window, useAvgData) == Err(Truncated)
    ensures DecodeRecords(data, HEADER_SIZE, 0).Ok? ==>
      ParseStatFile(data, now, window, useAvgData)
        == Ok(Resample(DecodeRecords(data, HEADER_SIZE, 0).value, now, window, Interval(useAvgData)))
  {
  }

  /**
   * The end of `parseStatFile`: a catch-up to `now` with the level of the
   * last record, the sample at `now` dropped, and the count check.
   */
  method FinishSamples(ghost stats: seq<Stat>, samples: seq<int>, last: Replay, now: int, window: int, interval: int)
    returns (rankDataPoints: seq<int>)
    requires interval > 0
    requires samples == Backfill(stats, now - window, interval)
    requires last == StateAfter(stats)
    ensures rankDataPoints == Resample(stats, now, window, interval)
    ensures |rankDataPoints| == 0 || |rankDataPoints| * interval == window
  {
    var level := if last.unreachable && last.restart then -2
      else if last.unreachable then -1
      else last.count;
    var nextRankTime;
    rankDataPoints, nextRankTime := PushUntil(samples, now - window, interval, now, level);
    if |rankDataPoints| > 0 {
      rankDataPoints := rankDataPoints[..|rankDataPoints| - 1];
    }
    if |rankDataPoints| * interval != window {
      rankDataPoints := [];
    }
  }

  /**
   * `parseStatFile` as the browser runs it: the header checks, the record
   * loop, a final catch-up to `now` with the last state, one sample dropped,
   * and the count check.
   */
  method ParseStatFileLoop(data: seq<byte>, now: int, window: int, useAvgData: bool)
    returns (r: Result<seq<int>, StatError>)
    ensures r == ParseStatFile(data, now, window, useAvgData)
    ensures r.Ok? ==> |r.value| == 0 || |r.value| * Interval(useAvgData) == window
  {
    if |data| < HEADER_SIZE {
      return Err(Truncated);
    }
    var version := U32(data[0], data[1], data[2], data[3]);
    var magic := data[4..8];
    if version != STAT_FILE_VERSION {
      return Err(BadVersion);
    }
    if magic != MAGIC {
      return Err(BadMagic);
    }
    assert CheckHeader(data) == Ok(());
    ParseAfterHeader(data, now, window, useAvgData);

    var rankStartTime := now - window;
    var interval := Interval(useAvgData);
    var replayed := ReplayRecords(data, rankStartTime, interval);
    if replayed.Err? {
      return Err(Truncated);
    }
    ghost var stats := DecodeRecords(data, HEADER_SIZE, 0).value;
    var (rankDataPoints, last) := replayed.value;
    rankDataPoints := FinishSamples(stats, rankDataPoints, last, now, window, interval);
    return Ok(rankDataPoints);
  }
}
