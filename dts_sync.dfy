/** dts-sync.py: walk a DTS core stream frame by frame and report where it loses sync.

    The cursor `pos` moves from frame to frame by the frame size read from each header. A
    mismatch of the sync word whose four bytes are all zero is padding: the next 4096 bytes
    are searched for the sync word, and the walk resumes there. Any other mismatch, or
    padding with no sync word in the window, ends the walk. */
module DtsSync {
  import opened Common
  import DtsSplit

  const Sync: seq<byte> := DtsSplit.Sync
  const Zeros: seq<byte> := [0, 0, 0, 0]

  /** The usual frame size of a DTS core stream; any other is reported. */
  const UsualFsize: nat := 0xE00

  /** `header[0:4]`: the first four bytes, or all of them when there are fewer. */
  function Head(header: seq<byte>): (h: seq<byte>)
    ensures |h| == Min(4, |header|) && h == header[..|h|]
    ensures |h| <= 4 && h <= header
    ensures |header| < 4 ==> h == header
  {
    header[..Min(4, |header|)]
  }

  /** The frame size as this script reads it: `x = header[7] + (header[6] << 8) +
      (header[5] << 16)`, then `((x >> 4) & 0x3fff) + 1`. The sum is at most 24 bits wide,
      so a `bv32` holds it exactly. */
  function FrameSize(header: seq<byte>): (fsize: nat)
    requires |header| >= 8
    ensures 1 <= fsize <= 0x4000
  {
    var x := header[7] as bv32 + (header[6] as bv32 << 8) + (header[5] as bv32 << 16);
    ((x >> 4) & 0x3fff) as bv14 as nat + 1
  }

  /** The bits of x this script masks out are FSIZE as dtssplit.py reads it. */
  lemma FsizeBits(b5: byte, b6: byte, b7: byte)
    ensures var x := b7 as bv32 + (b6 as bv32 << 8) + (b5 as bv32 << 16);
            ((x >> 4) & 0x3fff) as bv14 == ((b5 & 3) as bv14 << 12) | (b6 as bv14 << 4) | (b7 >> 4) as bv14
  {
  }

  /** The two scripts read the same frame size from the same header. */
  lemma FrameSizeAgrees(header: seq<byte>)
    requires |header| == 10
    ensures FrameSize(header) == DtsSplit.Fields(header).fsize as nat + 1
  {
    DtsSplit.FsizeFromBytes(header);
    FsizeBits(header[5], header[6], header[7]);
  }

  /** Four zero bytes hold no sync word, nor do they start one. */
  lemma NoSyncInZeros(hay: seq<byte>, j: nat)
    requires |hay| >= 4 && hay[..4] == Zeros && j < 4
    ensures !OccursAt(hay, Sync, j)
  {
    assert hay[j + 0] == hay[..4][j] == 0 != Sync[0];
  }

  /** Where the sync word turns up after padding: `f.read(4096).find(SYNC)` at the cursor.
      The window starts with the four zero bytes, so a hit is at least four bytes on. */
  function ResyncSkip(data: seq<byte>, pos: nat): (i: int)
    requires Head(Chunk(data, pos, 10)) == Zeros
    ensures i == -1 || 4 <= i <= 4092
  {
    var hay := Chunk(data, pos, 4096);
    assert hay[..4] == Chunk(data, pos, 10)[..4];
    var i := Find(hay, Sync);
    if 0 <= i < 4 then NoSyncInZeros(hay, i); i else i
  }

  /** An occurrence in the window is one in the stream, and the window reaches as far as
      4096 bytes or the end of the stream. */
  lemma WindowOccurs(data: seq<byte>, pos: nat, j: nat)
    requires j <= 4092
    ensures OccursAt(Chunk(data, pos, 4096), Sync, j) <==> OccursAt(data, Sync, pos + j)
  {
    var hay := Chunk(data, pos, 4096);
    if pos + j + 4 <= |data| {
      assert j + 4 <= |hay|;
      forall k | j <= k < j + 4 ensures hay[k] == data[pos + k] { }
    }
  }

  /** The resync goes to the first sync word in the 4096 bytes from the cursor, and is
      missed only when there is none. */
  lemma ResyncSkipFirst(data: seq<byte>, pos: nat)
    requires Head(Chunk(data, pos, 10)) == Zeros
    ensures var i := ResyncSkip(data, pos);
            && (i >= 0 ==> OccursAt(data, Sync, pos + i))
            && (i == -1 <==> forall j :: pos <= j <= pos + 4092 ==> !OccursAt(data, Sync, j))
            && forall j :: pos <= j < pos + i ==> !OccursAt(data, Sync, j)
  {
    var hay := Chunk(data, pos, 4096);
    var i := ResyncSkip(data, pos);
    FindFirst(hay, Sync);
    forall j | pos <= j <= pos + 4092
      ensures OccursAt(data, Sync, j) ==> OccursAt(hay, Sync, j - pos)
      ensures j < pos + i ==> !OccursAt(data, Sync, j)
    {
      WindowOccurs(data, pos, j - pos);
    }
    if i >= 0 {
      WindowOccurs(data, pos, i);
    }
  }

  datatype Event = Desync(at: nat) | Resync(at: nat, skip: nat) | OddFsize(fsize: nat, at: nat)

  /** How the walk ends: "done", "lost sync", or the IndexError of `header[7]` when fewer
      than eight bytes follow a sync word. */
  datatype End = Done | LostSync | Truncated

  /** One iteration of the loop: it stops, or it moves the cursor on to `next`, having
      reported `events` and counted `blocks` frames. */
  datatype Step = Stop(events: seq<Event>, end: End) | Next(events: seq<Event>, blocks: nat, next: nat)

  /** The iteration at `pos`. The cursor only ever moves forward, and the loop stops with
      "done" exactly when nothing is left to peek at. */
  function StepAt(data: seq<byte>, pos: nat): (s: Step)
    ensures s.Next? ==> pos < s.next && pos < |data|
    ensures s.Stop? ==> (s.end == Done <==> pos >= |data|)
    ensures s.Next? && s.blocks == 0 ==> Head(Chunk(data, pos, 10)) == Zeros
  {
    var header := Chunk(data, pos, 10);
    if |header| == 0 then Stop([], Done)
    else if Head(header) != Sync then
      if Head(header) == Zeros && ResyncSkip(data, pos) >= 0 then
        var i := ResyncSkip(data, pos);
        Next([Desync(pos), Resync(pos + i, i)], 0, pos + i)
      else Stop([Desync(pos)], LostSync)
    else if |header| < 8 then Stop([], Truncated)
    else
      var fsize := FrameSize(header);
      Next(if fsize != UsualFsize then [OddFsize(fsize, pos)] else [], 1, pos + fsize)
  }

  /** What the script reports: its messages, the count it prints at the end, how it ended and
      where the cursor was then. */
  datatype Report = Report(events: seq<Event>, blocks: nat, end: End, at: nat)

  /** Messages and blocks of one step, before those of the rest of the walk. */
  function Then(events: seq<Event>, blocks: nat, rest: Report): Report {
    Report(events + rest.events, blocks + rest.blocks, rest.end, rest.at)
  }

  lemma ThenThen(e1: seq<Event>, b1: nat, e2: seq<Event>, b2: nat, rest: Report)
    ensures Then(e1, b1, Then(e2, b2, rest)) == Then(e1 + e2, b1 + b2, rest)
  {
    assert e1 + (e2 + rest.events) == (e1 + e2) + rest.events;
  }

  /** The bytes left at a cursor: the walk's measure. */
  function Left(data: seq<byte>, pos: nat): nat {
    if pos < |data| then |data| - pos else 0
  }

  /** The walk from `pos` on: the loop, one iteration per step. */
  function Walk(data: seq<byte>, pos: nat): Report
    decreases Left(data, pos)
  {
    match StepAt(data, pos)
    case Stop(events, end) => Report(events, 0, end, pos)
    case Next(events, blocks, next) => Then(events, blocks, Walk(data, next))
  }

  /** The body of the loop: peek at the header, then skip a frame, resync after padding, or
      stop. The cursor of the file stays the script's `pos`. */
  method ScanStep(f: Reader<byte>, pos: nat) returns (step: Step)
    requires f.pos == pos
    modifies f
    ensures step == StepAt(f.data, pos)
    ensures step.Next? ==> f.pos == step.next
  {
    var header := f.Peek(10);
    if |header| == 0 {
      return Stop([], Done);
    }
    if Head(header) != Sync {
      if Head(header) == Zeros {
        var haystack := f.Read(4096);
        var i := Find(haystack, Sync);
        assert i == ResyncSkip(f.data, pos);
        if i >= 0 {
          f.Seek(pos + i);
          return Next([Desync(pos), Resync(pos + i, i)], 0, pos + i);
        }
      }
      return Stop([Desync(pos)], LostSync);
    }
    if |header| < 8 {
      return Stop([], Truncated);
    }
    var fsize := FrameSize(header);
    var odd: seq<Event> := if fsize != UsualFsize then [OddFsize(fsize, pos)] else [];
    var _ := f.SeekBy(fsize);
    return Next(odd, 1, pos + fsize);
  }

  /** The script: the loop over a file holding `data`, reporting as it goes. */
  method Scan(data: seq<byte>) returns (r: Report)
    ensures r == Walk(data, 0)
  {
    var f := new Reader(data);
    var events: seq<Event> := [];
    var blocks: nat := 0;
    var pos: nat := 0;
    while true
      invariant f.data == data && f.pos == pos
      invariant Walk(data, 0) == Then(events, blocks, Walk(data, pos))
      decreases Left(data, pos)
    {
      var step := ScanStep(f, pos);
      match step
      case Stop(more, end) =>
        return Report(events + more, blocks, end, pos);
      case Next(more, n, next) =>
        ThenThen(events, blocks, more, n, Walk(data, next));
        events, blocks, pos := events + more, blocks + n, next;
    }
  }

  /** "done" exactly when the cursor has reached the end of the stream; the walk stops
      anywhere else only on lost sync or a truncated header. */
  lemma {:induction false} WalkEnd(data: seq<byte>, pos: nat)
    ensures Walk(data, pos).end == Done <==> Walk(data, pos).at >= |data|
    decreases Left(data, pos)
  {
    if StepAt(data, pos).Next? {
      WalkEnd(data, StepAt(data, pos).next);
    }
  }

  /** A step that moves on without a frame is a resync after padding. */
  lemma ResyncStep(data: seq<byte>, pos: nat)
    requires StepAt(data, pos).Next? && StepAt(data, pos).blocks == 0
    ensures Head(Chunk(data, pos, 10)) == Zeros && ResyncSkip(data, pos) >= 0
    ensures var i := ResyncSkip(data, pos);
            StepAt(data, pos) == Next([Desync(pos), Resync(pos + i, i)], 0, pos + i)
  {
  }

  /** A resync in one step lands on a sync word, the first one in the window. */
  lemma StepResync(data: seq<byte>, pos: nat, k: nat)
    requires StepAt(data, pos).Next? && k < |StepAt(data, pos).events| && StepAt(data, pos).events[k].Resync?
    ensures var e := StepAt(data, pos).events[k];
            && OccursAt(data, Sync, e.at) && 4 <= e.skip && e.at == pos + e.skip
            && forall j :: pos <= j < e.at ==> !OccursAt(data, Sync, j)
  {
    var s := StepAt(data, pos);
    assert s.blocks == 0 by {
      if s.blocks != 0 {
        FrameStepEvents(data, pos);
      }
    }
    ResyncStep(data, pos);
    var i := ResyncSkip(data, pos);
    assert k == 1 && s.events[k] == Resync(pos + i, i);
    ResyncSkipFirst(data, pos);
  }

  /** A step that reads a frame reports at most an odd frame size. */
  lemma FrameStepEvents(data: seq<byte>, pos: nat)
    requires StepAt(data, pos).Next? && StepAt(data, pos).blocks != 0
    ensures var events := StepAt(data, pos).events;
            |events| <= 1 && (events != [] ==> events[0].OddFsize?)
  {
  }

  /** Every resync of the walk lands on a sync word, the first one in its window. */
  lemma {:induction false} WalkResyncs(data: seq<byte>, pos: nat, k: nat)
    requires k < |Walk(data, pos).events| && Walk(data, pos).events[k].Resync?
    ensures var e := Walk(data, pos).events[k];
            && OccursAt(data, Sync, e.at) && 4 <= e.skip
            && forall j :: e.at - e.skip <= j < e.at ==> !OccursAt(data, Sync, j)
    decreases Left(data, pos)
  {
    var s := StepAt(data, pos);
    if s.Next? {
      if k < |s.events| {
        StepResync(data, pos, k);
      } else {
        WalkResyncs(data, s.next, k - |s.events|);
      }
    }
  }

  /** A frame as the walk expects it: the sync word, a whole header, and a frame size that
      matches its length. */
  predicate WellFormed(frame: seq<byte>) {
    |frame| >= 10 && frame[..4] == Sync && FrameSize(frame[..10]) == |frame|
  }

  /** A well-formed frame at the cursor is one block, reported at most for its size. */
  lemma StepWellFormed(data: seq<byte>, pos: nat, frame: seq<byte>)
    requires WellFormed(frame) && pos + |frame| <= |data| && data[pos..pos + |frame|] == frame
    ensures var s := StepAt(data, pos);
            s.Next? && s.blocks == 1 && s.next == pos + |frame| && forall e :: e in s.events ==> e.OddFsize?
  {
    var header := Chunk(data, pos, 10);
    assert header == frame[..10];
    assert Head(header) == frame[..4];
  }

  /** A stream of well-formed frames is walked to the end with no desync, one block per
      frame. */
  lemma {:induction false} CleanStream(data: seq<byte>, pos: nat, frames: seq<seq<byte>>)
    requires pos <= |data| && data[pos..] == Flatten(frames)
    requires forall k :: 0 <= k < |frames| ==> WellFormed(frames[k])
    ensures Walk(data, pos).end == Done && Walk(data, pos).blocks == |frames|
    ensures forall e :: e in Walk(data, pos).events ==> e.OddFsize?
    decreases |frames|
  {
    if frames == [] {
      assert |data[pos..]| == 0;
    } else {
      var first, rest := frames[0], frames[1..];
      assert frames == [first] + rest;
      FlattenCons(first, rest);
      assert data[pos..pos + |first|] == first;
      StepWellFormed(data, pos, first);
      assert data[pos + |first|..] == Flatten(rest);
      CleanStream(data, pos + |first|, rest);
    }
  }
}
