/** dtssplit.py: read the geometry of a DTS core stream from its first frame header, turn
    Blu-ray chapter marks (45 kHz ticks from 27000000) into whole-frame byte counts, and copy
    the stream into one file per chapter, the remainder going to a last file.

    The header is the core frame header of ETSI TS 102 114, section 5.3.1: the sync word
    7F FE 80 01, then a 48-bit big-endian value whose bits the script masks out. Python's
    integers are unbounded; the 48-bit value is held here in a `bv64`, which it fits
    exactly, so the shifts and masks are the script's own. Python's float arithmetic in the
    chapter loop is modelled as exact rational arithmetic followed by `round`. */
module DtsSplit {
  import opened Common
  import opened Decimal

  const TickHz: nat := 45000
  const TickStart: int := 27000000
  const Sync: seq<byte> := [0x7F, 0xFE, 0x80, 0x01]

  // ---------------------------------------------------------------------------------------
  // info(): the frame header

  /** One more byte shifted in at the bottom. */
  function Push(v: bv64, b: byte): bv64 {
    (v << 8) | b as bv64
  }

  /** `int.from_bytes(s, byteorder='big')` for at most eight bytes. */
  function BigEndian64(s: seq<byte>): bv64
    requires |s| <= 8
  {
    if s == [] then 0 else Push(BigEndian64(s[..|s| - 1]), s[|s| - 1])
  }

  /** The four header fields the script reads, at their widths in the header. */
  datatype Header = Header(nblks: bv7, fsize: bv14, sfreq: bv4, rate: bv5)

  /** The masks of `info` applied to `x = int.from_bytes(header[4:10], 'big')`. */
  function Fields(header: seq<byte>): Header
    requires 4 <= |header| <= 10
  {
    var x := BigEndian64(header[4..]);
    Header(((x >> 34) & 0x7f) as bv7, ((x >> 20) & 0x3fff) as bv14,
           ((x >> 10) & 0xf) as bv4, ((x >> 5) & 0x1f) as bv5)
  }

  /** Six bytes shifted in one at a time, the first ending up most significant. */
  function Join6(b0: byte, b1: byte, b2: byte, b3: byte, b4: byte, b5: byte): bv64 {
    Push(Push(Push(Push(Push(Push(0, b0), b1), b2), b3), b4), b5)
  }

  /** The six bytes after the sync word make one 48-bit value. */
  lemma BigEndianSix(header: seq<byte>)
    requires |header| == 10
    ensures BigEndian64(header[4..]) == Join6(header[4], header[5], header[6], header[7], header[8], header[9])
  {
    var h := header[4..];
    assert h[..1][..0] == [] && h[..2][..1] == h[..1] && h[..3][..2] == h[..2];
    assert h[..4][..3] == h[..3] && h[..5][..4] == h[..4] && h[..6] == h;
    assert BigEndian64(h[..1]) == Push(0, h[0]);
    assert BigEndian64(h[..2]) == Push(BigEndian64(h[..1]), h[1]);
    assert BigEndian64(h[..3]) == Push(BigEndian64(h[..2]), h[2]);
    assert BigEndian64(h[..4]) == Push(BigEndian64(h[..3]), h[3]);
    assert BigEndian64(h[..5]) == Push(BigEndian64(h[..4]), h[4]);
  }

  /** Each byte lands at its own place: byte k of the six at bits 47 - 8k down to 40 - 8k. */
  lemma Join6Places(b0: byte, b1: byte, b2: byte, b3: byte, b4: byte, b5: byte)
    ensures Join6(b0, b1, b2, b3, b4, b5)
         == (b0 as bv64 << 40) | (b1 as bv64 << 32) | (b2 as bv64 << 24) | (b3 as bv64 << 16) | (b4 as bv64 << 8) | b5 as bv64
  {
  }

  lemma NblksBits(b0: byte, b1: byte, b2: byte, b3: byte, b4: byte, b5: byte)
    ensures ((Join6(b0, b1, b2, b3, b4, b5) >> 34) & 0x7f) as bv7 == ((b0 & 1) as bv7 << 6) | (b1 >> 2) as bv7
  {
    Join6Places(b0, b1, b2, b3, b4, b5);
  }

  lemma FsizeBits(b0: byte, b1: byte, b2: byte, b3: byte, b4: byte, b5: byte)
    ensures ((Join6(b0, b1, b2, b3, b4, b5) >> 20) & 0x3fff) as bv14
         == ((b1 & 3) as bv14 << 12) | (b2 as bv14 << 4) | (b3 >> 4) as bv14
  {
    Join6Places(b0, b1, b2, b3, b4, b5);
  }

  lemma SfreqBits(b0: byte, b1: byte, b2: byte, b3: byte, b4: byte, b5: byte)
    ensures ((Join6(b0, b1, b2, b3, b4, b5) >> 10) & 0xf) as bv4 == ((b4 >> 2) & 0xf) as bv4
  {
    Join6Places(b0, b1, b2, b3, b4, b5);
  }

  lemma RateBits(b0: byte, b1: byte, b2: byte, b3: byte, b4: byte, b5: byte)
    ensures ((Join6(b0, b1, b2, b3, b4, b5) >> 5) & 0x1f) as bv5 == ((b4 & 3) as bv5 << 3) | (b5 >> 5) as bv5
  {
    Join6Places(b0, b1, b2, b3, b4, b5);
  }

  /** NBLKS is bit 0 of byte 4 and bits 7-2 of byte 5. */
  lemma NblksFromBytes(header: seq<byte>)
    requires |header| == 10
    ensures Fields(header).nblks == ((header[4] & 1) as bv7 << 6) | (header[5] >> 2) as bv7
  {
    BigEndianSix(header);
    NblksBits(header[4], header[5], header[6], header[7], header[8], header[9]);
  }

  /** FSIZE is bits 1-0 of byte 5, byte 6 and bits 7-4 of byte 7. */
  lemma FsizeFromBytes(header: seq<byte>)
    requires |header| == 10
    ensures Fields(header).fsize == ((header[5] & 3) as bv14 << 12) | (header[6] as bv14 << 4) | (header[7] >> 4) as bv14
  {
    BigEndianSix(header);
    FsizeBits(header[4], header[5], header[6], header[7], header[8], header[9]);
  }

  /** SFREQ is bits 5-2 of byte 8. */
  lemma SfreqFromBytes(header: seq<byte>)
    requires |header| == 10
    ensures Fields(header).sfreq == ((header[8] >> 2) & 0xf) as bv4
  {
    BigEndianSix(header);
    SfreqBits(header[4], header[5], header[6], header[7], header[8], header[9]);
  }

  /** RATE is bits 1-0 of byte 8 and bits 7-5 of byte 9. */
  lemma RateFromBytes(header: seq<byte>)
    requires |header| == 10
    ensures Fields(header).rate == ((header[8] & 3) as bv5 << 3) | (header[9] >> 5) as bv5
  {
    BigEndianSix(header);
    RateBits(header[4], header[5], header[6], header[7], header[8], header[9]);
  }

  /** The sample rate an SFREQ code stands for, if any. */
  function SampleRate(sfreq: bv4): (hz: Option<nat>)
    ensures hz.Some? <==> sfreq in {1, 2, 3, 6, 7, 8, 11, 12, 13}
    ensures hz.Some? ==> hz.value in {8000, 16000, 32000, 11025, 22050, 44100, 12000, 24000, 48000}
  {
    if sfreq == 1 then Some(8000)
    else if sfreq == 2 then Some(16000)
    else if sfreq == 3 then Some(32000)
    else if sfreq == 6 then Some(11025)
    else if sfreq == 7 then Some(22050)
    else if sfreq == 8 then Some(44100)
    else if sfreq == 11 then Some(12000)
    else if sfreq == 12 then Some(24000)
    else if sfreq == 13 then Some(48000)
    else None
  }

  /** No two codes stand for the same rate, so the rate gives back the code. */
  lemma SampleRateInjective(a: bv4, b: bv4)
    requires SampleRate(a).Some? && SampleRate(a) == SampleRate(b)
    ensures a == b
  {
  }

  /** What the `bitrates` table of `info` holds: bits per second, or one of three words. */
  datatype Bitrate = Bps(bps: nat) | Open | Variable | Lossless

  const Bitrates: seq<Bitrate> := [
    Bps(32000), Bps(56000), Bps(64000), Bps(96000), Bps(112000),
    Bps(128000), Bps(192000), Bps(224000), Bps(256000), Bps(320000),
    Bps(384000), Bps(448000), Bps(512000), Bps(576000), Bps(640000),
    Bps(768000), Bps(896000), Bps(1024000), Bps(1152000), Bps(1280000),
    Bps(1344000), Bps(1408000), Bps(1411200), Bps(1472000), Bps(1536000),
    Bps(1920000), Bps(2048000), Bps(3072000), Bps(3840000),
    Open, Variable, Lossless]

  /** The table entry for a RATE code: every 5-bit code has one. */
  function BitrateOf(rate: bv5): (b: Bitrate)
    ensures b.Bps? <==> rate < 29
    ensures b == Open <==> rate == 29
    ensures b == Lossless <==> rate == 31
    ensures b.Bps? ==> 32000 <= b.bps <= 3840000
  {
    Bitrates[rate as int]
  }

  /** The geometry `info` stores in DTS_HZ, DTS_FRAME_BYTES and DTS_FRAME_SAMPLES, and the
      bit rate it reports. */
  datatype StreamInfo = StreamInfo(hz: nat, frameBytes: nat, frameSamples: nat, bitrate: Bitrate)

  datatype InfoError = NotDts | InvalidSfreq(sfreq: bv4)

  /** `info` on the first bytes of the file (`f.read(10)`, so at most ten). */
  function Info(header: seq<byte>): (r: Result<StreamInfo, InfoError>)
    requires |header| <= 10
    ensures r == Failure(NotDts) <==> |header| < 4 || header[..4] != Sync
    ensures r.Failure? && r.error.InvalidSfreq? ==> SampleRate(Fields(header).sfreq) == None
    ensures r.Success? ==> && 1 <= r.value.frameBytes <= 0x4000
                           && 32 <= r.value.frameSamples <= 4096 && r.value.frameSamples % 32 == 0
                           && r.value.hz in {8000, 16000, 32000, 11025, 22050, 44100, 12000, 24000, 48000}
    ensures |header| >= 4 && header[..4] == Sync ==> (r.Failure? <==> SampleRate(Fields(header).sfreq).None?)
    ensures r.Success? ==> var h := Fields(header);
              && r.value.hz == SampleRate(h.sfreq).value && r.value.frameBytes == h.fsize as nat + 1
              && r.value.frameSamples == 32 * (h.nblks as nat + 1) && r.value.bitrate == BitrateOf(h.rate)
  {
    if |header| < 4 || header[..4] != Sync then Failure(NotDts)
    else
      var h := Fields(header);
      match SampleRate(h.sfreq)
      case None => Failure(InvalidSfreq(h.sfreq))
      case Some(hz) =>
        Success(StreamInfo(hz, h.fsize as nat + 1, 32 * (h.nblks as nat + 1), BitrateOf(h.rate)))
  }

  // ---------------------------------------------------------------------------------------
  // main(): chapter ticks to byte counts

  /** All the values, if none is missing. */
  function Collect(xs: seq<Option<int>>): (r: Option<seq<int>>)
    ensures r.Some? <==> forall i :: 0 <= i < |xs| ==> xs[i].Some?
    ensures r.Some? ==> |r.value| == |xs| && forall i :: 0 <= i < |xs| ==> xs[i] == Some(r.value[i])
  {
    if xs == [] then Some([])
    else match (Collect(xs[..|xs| - 1]), xs[|xs| - 1])
      case (Some(init), Some(x)) => Some(init + [x])
      case _ => None
  }

  /** `int(line.strip())` on one line of the chapter file. */
  function ParseLine(line: string): Option<int> {
    ParseInt(Strip(line))
  }

  /** The chapter file read line by line: None as soon as one line is not an integer
      (Python raises ValueError). */
  function Ticks(lines: seq<string>): Option<seq<int>> {
    Collect(seq(|lines|, i requires 0 <= i < |lines| => ParseLine(lines[i])))
  }

  /** The reading loop of `main`. */
  method ReadTicks(lines: seq<string>) returns (r: Option<seq<int>>)
    ensures r == Ticks(lines)
  {
    ghost var parsed := seq(|lines|, i requires 0 <= i < |lines| => ParseLine(lines[i]));
    var ticks: seq<int> := [];
    var i := 0;
    while i < |lines|
      invariant 0 <= i <= |lines|
      invariant Collect(parsed[..i]) == Some(ticks)
    {
      var t := ParseLine(lines[i]);
      assert t == parsed[i];
      if t.None? {
        CollectMissing(parsed, i);
        return None;
      }
      CollectSnoc(parsed, i, ticks);
      ticks := ticks + [t.value];
      i := i + 1;
    }
    assert parsed[..i] == parsed;
    return Some(ticks);
  }

  lemma CollectMissing(xs: seq<Option<int>>, i: nat)
    requires i < |xs| && xs[i].None?
    ensures Collect(xs) == None
  {
  }

  lemma CollectSnoc(xs: seq<Option<int>>, i: nat, values: seq<int>)
    requires i < |xs| && xs[i].Some? && Collect(xs[..i]) == Some(values)
    ensures Collect(xs[..i + 1]) == Some(values + [xs[i].value])
  {
    assert xs[..i + 1][..i] == xs[..i];
  }

  /** A chapter file written one `str(tick)` per line reads back as those ticks. */
  lemma TicksRoundTrip(ticks: seq<int>)
    ensures Ticks(seq(|ticks|, i requires 0 <= i < |ticks| => IntToString(ticks[i]))) == Some(ticks)
  {
    var lines := seq(|ticks|, i requires 0 <= i < |ticks| => IntToString(ticks[i]));
    forall i | 0 <= i < |ticks|
      ensures ParseLine(lines[i]) == Some(ticks[i])
    {
      IntToStringUnspaced(ticks[i]);
      ParseIntToString(ticks[i]);
    }
    var all := Ticks(lines);
    assert all.Some? && all.value == ticks;
  }

  /** The frame a chapter mark falls on: `round(tick * (DTS_HZ / TICK_HZ) / DTS_FRAME_SAMPLES)`
      over the exact rationals, the tick counted from TICK_START. */
  function FrameOf(tick: int, s: StreamInfo): int
    requires s.frameSamples > 0
  {
    RoundHalfEven((tick - TickStart) * s.hz, TickHz * s.frameSamples)
  }

  /** The frame of every mark. */
  function Frames(ticks: seq<int>, s: StreamInfo): (frames: seq<int>)
    requires s.frameSamples > 0
    ensures |frames| == |ticks| && forall i :: 0 <= i < |ticks| ==> frames[i] == FrameOf(ticks[i], s)
    ensures forall i :: 0 <= i < |ticks| ==>
              RoundsTo((ticks[i] - TickStart) * s.hz, TickHz * s.frameSamples, frames[i])
  {
    seq(|ticks|, i requires 0 <= i < |ticks| => FrameOf(ticks[i], s))
  }

  /** Frame numbers to byte counts: the frames between each one and the one before it (frame
      0 before the first), times the frame size. */
  function Gaps(frames: seq<int>, frameBytes: int): (sizes: seq<int>)
    ensures |sizes| == |frames|
  {
    if frames == [] then []
    else
      var n := |frames|;
      var prev := if n == 1 then 0 else frames[n - 2];
      Gaps(frames[..n - 1], frameBytes) + [(frames[n - 1] - prev) * frameBytes]
  }

  /** The sizes the loop of `main` appends for the marks after the first. */
  function Sizes(ticks: seq<int>, s: StreamInfo): (sizes: seq<int>)
    requires s.frameSamples > 0
  {
    Gaps(Frames(ticks, s), s.frameBytes)
  }

  datatype ChapterError = NoChapters | BadStart(first: int)

  /** The chapter loop of `main`: the first tick must be TICK_START (an IndexError on an empty
      list, an AssertionError otherwise) and is dropped; the others give one size each. */
  method ChapterSizes(ticks: seq<int>, s: StreamInfo) returns (r: Result<seq<int>, ChapterError>)
    requires s.frameSamples > 0
    ensures r == Failure(NoChapters) <==> ticks == []
    ensures r.Failure? && r.error.BadStart? <==> ticks != [] && ticks[0] != TickStart
    ensures r.Success? ==> r.value == Sizes(ticks[1..], s)
  {
    if |ticks| == 0 {
      return Failure(NoChapters);
    }
    if ticks[0] != TickStart {
      return Failure(BadStart(ticks[0]));
    }
    var rest := ticks[1..];
    var sizes: seq<int> := [];
    var prev := 0;
    var i := 0;
    ghost var frames: seq<int> := [];
    while i < |rest|
      invariant 0 <= i <= |rest| && |frames| == i
      invariant forall j :: 0 <= j < i ==> frames[j] == FrameOf(rest[j], s)
      invariant sizes == Gaps(frames, s.frameBytes)
      invariant prev == if i == 0 then 0 else frames[i - 1]
    {
      var frame := FrameOf(rest[i], s);
      GapsSnoc(frames, frame, s.frameBytes);
      sizes := sizes + [(frame - prev) * s.frameBytes];
      frames := frames + [frame];
      prev := frame;
      i := i + 1;
    }
    assert frames == Frames(rest, s);
    return Success(sizes);
  }

  /** One more frame adds one more size. */
  lemma GapsSnoc(frames: seq<int>, frame: int, frameBytes: int)
    ensures var prev := if frames == [] then 0 else frames[|frames| - 1];
            Gaps(frames + [frame], frameBytes) == Gaps(frames, frameBytes) + [(frame - prev) * frameBytes]
  {
    assert (frames + [frame])[..|frames|] == frames;
  }

  /** The sizes telescope: together they span the frames up to the last one. */
  lemma {:induction false} GapsSum(frames: seq<int>, frameBytes: int)
    requires frames != []
    ensures Sum(Gaps(frames, frameBytes)) == frames[|frames| - 1] * frameBytes
    decreases |frames|
  {
    var n := |frames|;
    var init := frames[..n - 1];
    var prev := if n == 1 then 0 else frames[n - 2];
    var last := (frames[n - 1] - prev) * frameBytes;
    SumAppend(Gaps(init, frameBytes), last);
    if n > 1 {
      GapsSum(init, frameBytes);
      assert init[|init| - 1] == prev;
    }
    assert last + prev * frameBytes == frames[n - 1] * frameBytes;
  }

  /** Each size is a whole number of frames: the difference of two neighbours. */
  lemma {:induction false} GapsAt(frames: seq<int>, frameBytes: int, k: nat)
    requires k < |frames|
    ensures Gaps(frames, frameBytes)[k] == (frames[k] - (if k == 0 then 0 else frames[k - 1])) * frameBytes
    decreases |frames|
  {
    var n := |frames|;
    if k < n - 1 {
      GapsAt(frames[..n - 1], frameBytes, k);
    }
  }

  /** The track files together reach the frame of the last mark. */
  lemma SizesSum(ticks: seq<int>, s: StreamInfo)
    requires s.frameSamples > 0 && ticks != []
    ensures Sum(Sizes(ticks, s)) == FrameOf(ticks[|ticks| - 1], s) * s.frameBytes
  {
    GapsSum(Frames(ticks, s), s.frameBytes);
  }

  /** Marks in order fall on frames in order. */
  lemma FramesOrdered(ticks: seq<int>, s: StreamInfo, j: nat)
    requires s.frameSamples > 0 && 0 < j < |ticks| && ticks[j - 1] <= ticks[j]
    ensures FrameOf(ticks[j - 1], s) <= FrameOf(ticks[j], s)
  {
    var a, b := ticks[j - 1] - TickStart, ticks[j] - TickStart;
    var pa, pb := a * s.hz, b * s.hz;
    assert pb - pa == (b - a) * s.hz;
    RoundHalfEvenMonotone(pa, pb, TickHz * s.frameSamples);
  }

  /** A mark at or after TICK_START falls on frame 0 or later. */
  lemma FrameNonNegative(tick: int, s: StreamInfo)
    requires s.frameSamples > 0 && TickStart <= tick
    ensures FrameOf(tick, s) >= 0
  {
    var p := (tick - TickStart) * s.hz;
    var q := TickHz * s.frameSamples;
    RoundHalfEvenMonotone(0, p, q);
    RoundHalfEvenUnique(0, q, 0);
  }

  /** Frames in order from frame 0 on give sizes that are never negative. */
  lemma GapsNonNegative(frames: seq<int>, frameBytes: nat, k: nat)
    requires k < |frames| && frames[0] >= 0
    requires forall j :: 0 < j < |frames| ==> frames[j - 1] <= frames[j]
    ensures Gaps(frames, frameBytes)[k] >= 0
  {
    GapsAt(frames, frameBytes, k);
    var d := frames[k] - (if k == 0 then 0 else frames[k - 1]);
    MultipleAtLeast(d, frameBytes);
  }

  /** Marks in order, none before TICK_START, fall on frames in order from frame 0 on. */
  lemma FramesSorted(ticks: seq<int>, s: StreamInfo)
    requires s.frameSamples > 0 && ticks != []
    requires TickStart <= ticks[0] && forall i, j :: 0 <= i <= j < |ticks| ==> ticks[i] <= ticks[j]
    ensures var frames := Frames(ticks, s);
            frames[0] >= 0 && forall j :: 0 < j < |frames| ==> frames[j - 1] <= frames[j]
  {
    FrameNonNegative(ticks[0], s);
    forall j | 0 < j < |ticks|
      ensures FrameOf(ticks[j - 1], s) <= FrameOf(ticks[j], s)
    {
      FramesOrdered(ticks, s, j);
    }
  }

  /** Marks in order, none before TICK_START, give sizes that are never negative. */
  lemma SizesNonNegative(ticks: seq<int>, s: StreamInfo, k: nat)
    requires s.frameSamples > 0 && k < |ticks|
    requires TickStart <= ticks[0] && forall i, j :: 0 <= i <= j < |ticks| ==> ticks[i] <= ticks[j]
    ensures Sizes(ticks, s)[k] >= 0
  {
    FramesSorted(ticks, s);
    GapsNonNegative(Frames(ticks, s), s.frameBytes, k);
  }

  /** The usual stream (48 kHz, 512 samples and 0xE00 bytes a frame): one second is 93.75
      frames, which rounds to 94, and a mark that goes back gives a negative size. */
  lemma SizesExample()
    ensures var s := StreamInfo(48000, 0xE00, 512, Bps(1536000));
            && Sizes([27045000, 27090000], s) == [94 * 0xE00, 94 * 0xE00]
            && Sizes([27090000, 27045000], s) == [188 * 0xE00, -94 * 0xE00]
  {
    var s := StreamInfo(48000, 0xE00, 512, Bps(1536000));
    assert FrameOf(27045000, s) == 94 by {
      RoundHalfEvenUnique(45000 * 48000, TickHz * 512, 94);
    }
    assert FrameOf(27090000, s) == 188 by {
      RoundHalfEvenUnique(90000 * 48000, TickHz * 512, 188);
    }
    assert [27045000, 27090000][..1] == [27045000];
    assert [27090000, 27045000][..1] == [27090000];
  }

  // ---------------------------------------------------------------------------------------
  // copy() and copyall()

  /** `copy(f, outfile, bytes)`: the bytes written to the new file, and what is left of
      `bytes` afterwards, which the script reports when it is not zero. A size of zero or
      less writes an empty file and is reported as it stands. */
  method Copy(f: Reader<byte>, count: int) returns (written: seq<byte>, missing: int)
    modifies f
    ensures written == Chunk(f.data, old(f.pos), Max(count, 0))
    ensures f.pos == old(f.pos) + |written|
    ensures missing == count - |written|
  {
    var p0 := f.pos;
    written := [];
    missing := count;
    while missing > 0
      invariant f.pos == p0 + |written|
      invariant missing == count - |written|
      invariant written == Chunk(f.data, p0, |written|)
      invariant count <= 0 ==> written == []
      invariant count > 0 ==> missing >= 0
      decreases missing
    {
      var buf := f.Read(Min(missing, 4096));
      if buf == [] {
        ChunkConcat(f.data, p0, |written|, Max(count, 0) - |written|);
        break;
      }
      ChunkConcat(f.data, p0, |written|, |buf|);
      written := written + buf;
      missing := missing - |buf|;
    }
  }

  /** `copyall(f, outfile)`: everything from the cursor on. */
  method CopyAll(f: Reader<byte>) returns (written: seq<byte>)
    modifies f
    ensures written == if old(f.pos) <= |f.data| then f.data[old(f.pos)..] else []
  {
    var p0 := f.pos;
    written := [];
    while true
      invariant f.pos == p0 + |written|
      invariant p0 <= |f.data| ==> f.pos <= |f.data| && written == f.data[p0..f.pos]
      invariant p0 > |f.data| ==> written == []
      decreases |f.data| - f.pos + |written| + (if f.pos <= |f.data| then 0 else 1), if f.pos <= |f.data| then |f.data| - f.pos else 0
    {
      var p := f.pos;
      var buf := f.Read(4096);
      if buf == [] {
        break;
      }
      assert p0 <= |f.data| ==> written + buf == f.data[p0..p] + f.data[p..f.pos] == f.data[p0..f.pos];
      written := written + buf;
    }
  }

  /** The track files the `with open(dtsfile)` block of `main` writes: the first bytes of
      the stream cut at each size in turn (a size of zero or less cuts nothing; the end of
      the stream cuts short), then whatever is left. */
  function Cut(data: seq<byte>, sizes: seq<int>): (tracks: seq<seq<byte>>)
    ensures |tracks| == |sizes| + 1
    decreases |sizes|
  {
    if sizes == [] then [data]
    else
      var n := Min(Max(sizes[0], 0), |data|);
      [data[..n]] + Cut(data[n..], sizes[1..])
  }

  /** Cutting loses and repeats nothing: the track files, one after the other, are the
      stream. */
  lemma {:induction false} CutFlatten(data: seq<byte>, sizes: seq<int>)
    ensures Flatten(Cut(data, sizes)) == data
    decreases |sizes|
  {
    if sizes == [] {
      FlattenCons(data, []);
    } else {
      var n := Min(Max(sizes[0], 0), |data|);
      CutFlatten(data[n..], sizes[1..]);
      FlattenCons(data[..n], Cut(data[n..], sizes[1..]));
    }
  }

  /** Track k holds the bytes after those of the tracks before it, as many as its size asks
      for and the stream still has. */
  lemma {:induction false} CutTrack(data: seq<byte>, sizes: seq<int>, k: nat)
    requires k < |sizes|
    ensures |Cut(data, sizes)[k]| <= Max(sizes[k], 0)
    ensures sizes[k] <= 0 ==> Cut(data, sizes)[k] == []
    decreases k
  {
    if k > 0 {
      var n := Min(Max(sizes[0], 0), |data|);
      CutTrack(data[n..], sizes[1..], k - 1);
    }
  }

  /** The first track is what one `copy` reads at the cursor; the others are cut from
      where it stops. */
  lemma CutChunk(data: seq<byte>, p: nat, sizes: seq<int>)
    requires p <= |data| && sizes != []
    ensures var w := Chunk(data, p, Max(sizes[0], 0));
            Cut(data[p..], sizes) == [w] + Cut(data[p + |w|..], sizes[1..])
  {
    var w := Chunk(data, p, Max(sizes[0], 0));
    var n := Min(Max(sizes[0], 0), |data[p..]|);
    assert data[p..][..n] == w;
    assert data[p..][n..] == data[p + |w|..];
  }

  /** One pass of the copy loop: the track it writes is the first cut of what is left. */
  method CopyNext(f: Reader<byte>, sizes: seq<int>, i: nat) returns (written: seq<byte>)
    requires i < |sizes| && f.pos <= |f.data|
    modifies f
    ensures f.pos <= |f.data|
    ensures Cut(f.data[old(f.pos)..], sizes[i..]) == [written] + Cut(f.data[f.pos..], sizes[i + 1..])
  {
    CutChunk(f.data, f.pos, sizes[i..]);
    assert sizes[i..][1..] == sizes[i + 1..];
    var missing;
    written, missing := Copy(f, sizes[i]);
  }

  /** The copy loop of `main`: one `copy` per size. What is left after it is the last
      track. */
  method CopyEach(f: Reader<byte>, sizes: seq<int>) returns (tracks: seq<seq<byte>>)
    requires f.pos <= |f.data|
    modifies f
    ensures f.pos <= |f.data|
    ensures tracks + [f.data[f.pos..]] == Cut(f.data[old(f.pos)..], sizes)
  {
    ghost var whole := Cut(f.data[f.pos..], sizes);
    tracks := [];
    var i := 0;
    while i < |sizes|
      invariant 0 <= i <= |sizes| && f.pos <= |f.data|
      invariant tracks == whole[..i] && Cut(f.data[f.pos..], sizes[i..]) == whole[i..]
    {
      var written := CopyNext(f, sizes, i);
      TakeOneMore(whole, i, tracks, written, Cut(f.data[f.pos..], sizes[i + 1..]));
      tracks := tracks + [written];
      i := i + 1;
    }
    assert sizes[i..] == [] && whole == tracks + whole[i..];
  }

  /** Moving the first of what is left onto what is taken. */
  lemma TakeOneMore<T>(whole: seq<T>, i: nat, taken: seq<T>, x: T, rest: seq<T>)
    requires i < |whole| && taken == whole[..i] && whole[i..] == [x] + rest
    ensures taken + [x] == whole[..i + 1] && rest == whole[i + 1..]
  {
    assert whole[i..][0] == x && whole[i..][1..] == rest;
  }

  /** The track files of `main`: one `copy` per size, then `copyall`. */
  method CopyTracks(f: Reader<byte>, sizes: seq<int>) returns (tracks: seq<seq<byte>>)
    requires f.pos <= |f.data|
    modifies f
    ensures tracks == Cut(f.data[old(f.pos)..], sizes)
  {
    tracks := CopyEach(f, sizes);
    var rest := CopyAll(f);
    tracks := tracks + [rest];
  }

  datatype SplitError = BadHeader(header: InfoError) | BadTick | BadChapters(chapters: ChapterError)

  /** The whole script on the lines of the chapter file and the bytes of the stream: `info`
      first, then the chapter file, the chapter sizes and the track files. */
  method Split(lines: seq<string>, stream: seq<byte>) returns (r: Result<seq<seq<byte>>, SplitError>)
    ensures r.Failure? && r.error.BadHeader? <==> Info(stream[..Min(10, |stream|)]).Failure?
    ensures r == Failure(BadTick) <==> Info(stream[..Min(10, |stream|)]).Success? && Ticks(lines).None?
    ensures r.Failure? && r.error.BadChapters? <==>
              && Info(stream[..Min(10, |stream|)]).Success? && Ticks(lines).Some?
              && (Ticks(lines).value == [] || Ticks(lines).value[0] != TickStart)
    ensures r.Success? ==> r.value == Cut(stream, Sizes(Ticks(lines).value[1..], Info(stream[..Min(10, |stream|)]).value))
    ensures r.Success? ==> Flatten(r.value) == stream && |r.value| == |lines|
  {
    var info := Info(stream[..Min(10, |stream|)]);
    if info.Failure? {
      return Failure(BadHeader(info.error));
    }
    var ticks := ReadTicks(lines);
    if ticks.None? {
      return Failure(BadTick);
    }
    var sizes := ChapterSizes(ticks.value, info.value);
    if sizes.Failure? {
      return Failure(BadChapters(sizes.error));
    }
    var f := new Reader(stream);
    var tracks := CopyTracks(f, sizes.value);
    CutFlatten(stream, sizes.value);
    assert stream[0..] == stream;
    return Success(tracks);
  }
}
