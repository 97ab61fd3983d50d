/** dts-chunksplit.py: the walk of dts-sync.py, writing what it passes over into track
    files and starting a new track at each resync.

    An in-sync frame is read and appended to the current track. At a resync the bytes
    before the sync word are appended to the current track, which is closed, and the next
    track is opened. On lost sync the script appends `haystack`, the last 4096-byte window
    it read: the fresh one after padding, but after any other mismatch a stale window from
    an earlier resync, or, if there was none, an unbound name (NameError). */
module DtsChunkSplit {
  import opened Common
  import opened DtsSync

  /** What the script does to its output files. */
  datatype Write = Append(bytes: seq<byte>) | NewTrack

  /** The track files after some writes: the last one is the one open. */
  function Apply(tracks: seq<seq<byte>>, writes: seq<Write>): (r: seq<seq<byte>>)
    requires tracks != []
    ensures r != []
    decreases |writes|
  {
    if writes == [] then tracks
    else
      var next := match writes[0]
        case Append(b) => tracks[..|tracks| - 1] + [tracks[|tracks| - 1] + b]
        case NewTrack => tracks + [[]];
      Apply(next, writes[1..])
  }

  /** The bytes appended, in order. */
  function Written(writes: seq<Write>): seq<byte>
    decreases |writes|
  {
    if writes == [] then []
    else (if writes[0].Append? then writes[0].bytes else []) + Written(writes[1..])
  }

  /** How many new tracks the writes open. */
  function Opened(writes: seq<Write>): nat
    decreases |writes|
  {
    if writes == [] then 0 else (if writes[0] == NewTrack then 1 else 0) + Opened(writes[1..])
  }

  /** How many resyncs a list of messages reports. */
  function Resyncs(events: seq<Event>): nat
    decreases |events|
  {
    if events == [] then 0 else (if events[0].Resync? then 1 else 0) + Resyncs(events[1..])
  }

  /** A line the script prints while it walks: one of the messages of dts-sync.py, or the
      "starting track N" it adds after each resync. */
  datatype Message = Says(event: Event) | StartingTrack(track: nat)

  /** The lines printed for `events` when track `track` is the one open: every resync is
      followed by the number of the track it opens. */
  function Messages(events: seq<Event>, track: nat): (ms: seq<Message>)
    ensures forall k :: 0 <= k < |ms| && ms[k].StartingTrack? ==>
              0 < k && ms[k - 1].Says? && ms[k - 1].event.Resync?
    ensures forall k :: 0 <= k < |ms| && ms[k].Says? && ms[k].event.Resync? ==>
              k + 1 < |ms| && ms[k + 1].StartingTrack?
    decreases |events|
  {
    if events == [] then []
    else if events[0].Resync? then
      [Says(events[0]), StartingTrack(track + 1)] + Messages(events[1..], track + 1)
    else [Says(events[0])] + Messages(events[1..], track)
  }

  /** The messages of dts-sync.py among the lines. */
  function Said(ms: seq<Message>): seq<Event>
    decreases |ms|
  {
    if ms == [] then []
    else (if ms[0].Says? then [ms[0].event] else []) + Said(ms[1..])
  }

  /** The track numbers announced, in order. */
  function Announced(ms: seq<Message>): seq<nat>
    decreases |ms|
  {
    if ms == [] then []
    else (if ms[0].StartingTrack? then [ms[0].track] else []) + Announced(ms[1..])
  }

  /** Leaving out the track announcements gives back the messages of dts-sync.py. */
  lemma {:induction false} MessagesSaid(events: seq<Event>, track: nat)
    ensures Said(Messages(events, track)) == events
    decreases |events|
  {
    if events != [] {
      var ms := Messages(events, track);
      var t' := if events[0].Resync? then track + 1 else track;
      var rest := Messages(events[1..], t');
      MessagesSaid(events[1..], t');
      if events[0].Resync? {
        assert ms[1..] == [StartingTrack(track + 1)] + rest && ms[1..][1..] == rest;
      } else {
        assert ms[1..] == rest;
      }
      assert events == [events[0]] + events[1..];
    }
  }

  /** The tracks announced are the ones after `track`, numbered on by one per resync. */
  lemma {:induction false} MessagesAnnounced(events: seq<Event>, track: nat)
    ensures Announced(Messages(events, track)) == seq(Resyncs(events), k => track + 1 + k)
    decreases |events|
  {
    if events != [] {
      var ms := Messages(events, track);
      var t' := if events[0].Resync? then track + 1 else track;
      var rest := Messages(events[1..], t');
      MessagesAnnounced(events[1..], t');
      var n := Resyncs(events[1..]);
      if events[0].Resync? {
        assert ms[1..] == [StartingTrack(track + 1)] + rest && ms[1..][1..] == rest;
        assert Announced(ms) == [track + 1] + seq(n, k => track + 2 + k);
        assert [track + 1] + seq(n, k => track + 2 + k) == seq(n + 1, k => track + 1 + k);
      } else {
        assert ms[1..] == rest;
      }
    }
  }

  /** The writes of step `s` at `pos`, given the last window read (if any). A resync writes
      the `i` bytes it skips, the start of the window `haystack[:i]`, and opens a track; a
      frame writes what `f.read(fsize)` returns. */
  function StepWrites(data: seq<byte>, pos: nat, haystack: Option<seq<byte>>, s: Step): seq<Write> {
    match s
    case Stop(_, end) =>
      if end != LostSync then []
      else if Head(Chunk(data, pos, 10)) == Zeros then [Append(Chunk(data, pos, 4096))]
      else if haystack.Some? then [Append(haystack.value)]
      else []
    case Next(_, blocks, next) =>
      var bytes := Chunk(data, pos, if next < pos then 0 else next - pos);
      if blocks == 0 then [Append(bytes), NewTrack] else [Append(bytes)]
  }

  /** The last window read once step `s` is over. */
  function StepHaystack(data: seq<byte>, pos: nat, haystack: Option<seq<byte>>, s: Step): Option<seq<byte>> {
    if s.Next? && s.blocks == 0 then Some(Chunk(data, pos, 4096)) else haystack
  }

  /** What the script does from `pos` on: the report of dts-sync.py, the writes, and
      whether lost sync found `haystack` unbound. */
  datatype Output = Output(report: Report, writes: seq<Write>, nameError: bool)

  function Run(data: seq<byte>, pos: nat, haystack: Option<seq<byte>>): Output
    decreases Left(data, pos)
  {
    var s := StepAt(data, pos);
    var w := StepWrites(data, pos, haystack, s);
    match s
    case Stop(events, end) =>
      Output(Report(events, 0, end, pos), w, end == LostSync && Head(Chunk(data, pos, 10)) != Zeros && haystack.None?)
    case Next(events, blocks, next) =>
      var rest := Run(data, next, StepHaystack(data, pos, haystack, s));
      Output(Then(events, blocks, rest.report), w + rest.writes, rest.nameError)
  }

  /** The branch of the loop body for a header that does not start with the sync word. */
  method Desynced(f: Reader<byte>, pos: nat, haystack: Option<seq<byte>>)
    returns (step: Step, writes: seq<Write>, window: Option<seq<byte>>, unbound: bool)
    requires f.pos == pos < |f.data| && Head(Chunk(f.data, pos, 10)) != Sync
    modifies f
    ensures step == StepAt(f.data, pos)
    ensures unbound == (step.Stop? && step.end == LostSync && Head(Chunk(f.data, pos, 10)) != Zeros && haystack.None?)
    ensures writes == StepWrites(f.data, pos, haystack, step)
    ensures window == StepHaystack(f.data, pos, haystack, step)
    ensures step.Next? ==> f.pos == step.next
  {
    window := haystack;
    if Head(f.Peek(10)) == Zeros {
      var hay := f.Read(4096);
      var i := Find(hay, Sync);
      PaddingStep(f.data, pos, haystack, hay, i);
      if i >= 0 {
        f.Seek(pos + i);
        return Next([Desync(pos), Resync(pos + i, i)], 0, pos + i), [Append(hay[..i]), NewTrack], Some(hay), false;
      }
      return Stop([Desync(pos)], LostSync), [Append(hay)], haystack, false;
    }
    MismatchStep(f.data, pos, haystack);
    writes := if haystack.Some? then [Append(haystack.value)] else [];
    return Stop([Desync(pos)], LostSync), writes, window, haystack.None?;
  }

  /** Padding at the cursor: the search of the window read there decides the step. */
  lemma PaddingStep(data: seq<byte>, pos: nat, haystack: Option<seq<byte>>, hay: seq<byte>, i: int)
    requires pos < |data| && Head(Chunk(data, pos, 10)) == Zeros
    requires hay == Chunk(data, pos, 4096) && i == Find(hay, Sync)
    ensures var s := StepAt(data, pos);
            && (i >= 0 ==> 4 <= i <= |hay| && s == Next([Desync(pos), Resync(pos + i, i)], 0, pos + i)
                           && StepWrites(data, pos, haystack, s) == [Append(hay[..i]), NewTrack]
                           && StepHaystack(data, pos, haystack, s) == Some(hay))
            && (i < 0 ==> s == Stop([Desync(pos)], LostSync)
                          && StepWrites(data, pos, haystack, s) == [Append(hay)]
                          && StepHaystack(data, pos, haystack, s) == haystack)
  {
    assert i == ResyncSkip(data, pos);
    if i >= 0 {
      assert hay[..i] == Chunk(data, pos, i);
    }
  }

  /** Any other mismatch at the cursor loses sync, and writes the last window, if any. */
  lemma MismatchStep(data: seq<byte>, pos: nat, haystack: Option<seq<byte>>)
    requires pos < |data| && Head(Chunk(data, pos, 10)) != Sync && Head(Chunk(data, pos, 10)) != Zeros
    ensures var s := StepAt(data, pos);
            && s == Stop([Desync(pos)], LostSync)
            && StepWrites(data, pos, haystack, s) == (if haystack.Some? then [Append(haystack.value)] else [])
            && StepHaystack(data, pos, haystack, s) == haystack
  {
  }

  /** The body of the loop: the step of dts-sync.py, reading a frame instead of skipping it
      and writing as it goes. The file's cursor stops at the end of the stream while `pos`
      runs on past it. */
  method SplitStep(f: Reader<byte>, pos: nat, haystack: Option<seq<byte>>)
    returns (step: Step, writes: seq<Write>, window: Option<seq<byte>>, unbound: bool)
    requires f.pos == Min(pos, |f.data|)
    modifies f
    ensures step == StepAt(f.data, pos)
    ensures unbound == (step.Stop? && step.end == LostSync && Head(Chunk(f.data, pos, 10)) != Zeros && haystack.None?)
    ensures writes == StepWrites(f.data, pos, haystack, step)
    ensures window == StepHaystack(f.data, pos, haystack, step)
    ensures step.Next? ==> f.pos == Min(step.next, |f.data|)
  {
    assert Chunk(f.data, f.pos, 10) == Chunk(f.data, pos, 10);
    var header := f.Peek(10);
    window := haystack;
    if |header| == 0 {
      return Stop([], Done), [], window, false;
    }
    if Head(header) != Sync {
      step, writes, window, unbound := Desynced(f, pos, haystack);
      return;
    }
    step, writes, window, unbound := Synced(f, pos, haystack);
  }

  /** The branch of the loop body for a header that starts with the sync word. */
  method Synced(f: Reader<byte>, pos: nat, haystack: Option<seq<byte>>)
    returns (step: Step, writes: seq<Write>, window: Option<seq<byte>>, unbound: bool)
    requires f.pos == pos < |f.data| && Head(Chunk(f.data, pos, 10)) == Sync
    modifies f
    ensures step == StepAt(f.data, pos) && !unbound
    ensures writes == StepWrites(f.data, pos, haystack, step)
    ensures window == StepHaystack(f.data, pos, haystack, step)
    ensures step.Next? ==> f.pos == Min(step.next, |f.data|)
  {
    var header := f.Peek(10);
    SyncStep(f.data, pos, haystack);
    window, unbound := haystack, false;
    if |header| < 8 {
      return Stop([], Truncated), [], window, false;
    }
    var fsize := FrameSize(header);
    var odd: seq<Event> := if fsize != UsualFsize then [OddFsize(fsize, pos)] else [];
    ChunkEnd(f.data, pos, fsize);
    var frame := f.Read(fsize);
    return Next(odd, 1, pos + fsize), [Append(frame)], window, false;
  }

  /** A sync word at the cursor: a truncated header stops the walk, otherwise the frame is
      read whole, or as much of it as the stream holds. */
  lemma SyncStep(data: seq<byte>, pos: nat, haystack: Option<seq<byte>>)
    requires pos < |data| && Head(Chunk(data, pos, 10)) == Sync
    ensures var header := Chunk(data, pos, 10); var s := StepAt(data, pos);
            && (|header| < 8 ==> s == Stop([], Truncated) && StepWrites(data, pos, haystack, s) == [])
            && (|header| >= 8 ==>
                  var fsize := FrameSize(header);
                  && s == Next(if fsize != UsualFsize then [OddFsize(fsize, pos)] else [], 1, pos + fsize)
                  && StepWrites(data, pos, haystack, s) == [Append(Chunk(data, pos, fsize))])
            && StepHaystack(data, pos, haystack, s) == haystack
  {
  }

  /** The script on a file holding `data`: its report, its track files, and whether it
      ended in a NameError. */
  method ChunkSplit(data: seq<byte>) returns (r: Report, tracks: seq<seq<byte>>, nameError: bool)
    ensures var out := Run(data, 0, None);
            r == out.report && tracks == Apply([[]], out.writes) && nameError == out.nameError
  {
    var f := new Reader(data);
    var events: seq<Event> := [];
    var blocks: nat := 0;
    var pos: nat := 0;
    var haystack: Option<seq<byte>> := None;
    tracks := [[]];
    while true
      invariant f.data == data && f.pos == Min(pos, |data|) && tracks != []
      invariant Run(data, 0, None).report == Then(events, blocks, Run(data, pos, haystack).report)
      invariant Apply([[]], Run(data, 0, None).writes) == Apply(tracks, Run(data, pos, haystack).writes)
      invariant Run(data, 0, None).nameError == Run(data, pos, haystack).nameError
      decreases Left(data, pos)
    {
      var step, writes, window, unbound := SplitStep(f, pos, haystack);
      RunStep(data, pos, haystack);
      ghost var later := if step.Next? then Run(data, step.next, window).writes else [];
      ApplyConcat(tracks, writes, later);
      tracks := Apply(tracks, writes);
      match step
      case Stop(more, end) =>
        assert writes + later == writes;
        return Report(events + more, blocks, end, pos), tracks, unbound;
      case Next(more, n, next) =>
        ThenThen(events, blocks, more, n, Run(data, next, window).report);
        events, blocks, pos, haystack := events + more, blocks + n, next, window;
    }
  }

  /** One step of the run: its writes come before those of the rest of the run. */
  lemma RunStep(data: seq<byte>, pos: nat, haystack: Option<seq<byte>>)
    ensures var s := StepAt(data, pos); var out := Run(data, pos, haystack);
            && (s.Stop? ==> out.report == Report(s.events, 0, s.end, pos)
                            && out.writes == StepWrites(data, pos, haystack, s)
                            && out.nameError == (s.end == LostSync && Head(Chunk(data, pos, 10)) != Zeros && haystack.None?))
            && (s.Next? ==>
                  var rest := Run(data, s.next, StepHaystack(data, pos, haystack, s));
                  && out.report == Then(s.events, s.blocks, rest.report)
                  && out.writes == StepWrites(data, pos, haystack, s) + rest.writes
                  && out.nameError == rest.nameError)
  {
  }

  /** Writing in two goes is writing once. */
  lemma {:induction false} ApplyConcat(tracks: seq<seq<byte>>, w1: seq<Write>, w2: seq<Write>)
    requires tracks != []
    ensures Apply(tracks, w1 + w2) == Apply(Apply(tracks, w1), w2)
    decreases |w1|
  {
    if w1 != [] {
      assert (w1 + w2)[0] == w1[0] && (w1 + w2)[1..] == w1[1..] + w2;
      var next := match w1[0]
        case Append(b) => tracks[..|tracks| - 1] + [tracks[|tracks| - 1] + b]
        case NewTrack => tracks + [[]];
      ApplyConcat(next, w1[1..], w2);
    } else {
      assert w1 + w2 == w2;
    }
  }

  /** The track files hold, one after the other, what was there and what was written. */
  lemma {:induction false} ApplyFlatten(tracks: seq<seq<byte>>, writes: seq<Write>)
    requires tracks != []
    ensures Flatten(Apply(tracks, writes)) == Flatten(tracks) + Written(writes)
    ensures |Apply(tracks, writes)| == |tracks| + Opened(writes)
    decreases |writes|
  {
    if writes != [] {
      var n := |tracks| - 1;
      match writes[0]
      case Append(b) => {
        var next := tracks[..n] + [tracks[n] + b];
        FlattenAppend(tracks[..n], tracks[n] + b);
        FlattenAppend(tracks[..n], tracks[n]);
        assert tracks[..n] + [tracks[n]] == tracks;
        ApplyFlatten(next, writes[1..]);
      }
      case NewTrack => {
        FlattenAppend(tracks, []);
        ApplyFlatten(tracks + [[]], writes[1..]);
      }
    }
  }

  lemma {:induction false} WrittenConcat(w1: seq<Write>, w2: seq<Write>)
    ensures Written(w1 + w2) == Written(w1) + Written(w2)
    ensures Opened(w1 + w2) == Opened(w1) + Opened(w2)
    decreases |w1|
  {
    if w1 != [] {
      assert (w1 + w2)[0] == w1[0] && (w1 + w2)[1..] == w1[1..] + w2;
      WrittenConcat(w1[1..], w2);
    } else {
      assert w1 + w2 == w2;
    }
  }

  lemma {:induction false} ResyncsConcat(e1: seq<Event>, e2: seq<Event>)
    ensures Resyncs(e1 + e2) == Resyncs(e1) + Resyncs(e2)
    decreases |e1|
  {
    if e1 != [] {
      assert (e1 + e2)[0] == e1[0] && (e1 + e2)[1..] == e1[1..] + e2;
      ResyncsConcat(e1[1..], e2);
    } else {
      assert e1 + e2 == e2;
    }
  }

  /** The script reports the messages, frame count and ending of dts-sync.py on the same
      stream; what it prints besides is in `Messages`. */
  lemma {:induction false} RunReportsWalk(data: seq<byte>, pos: nat, haystack: Option<seq<byte>>)
    ensures Run(data, pos, haystack).report == Walk(data, pos)
    decreases Left(data, pos)
  {
    var s := StepAt(data, pos);
    if s.Next? {
      RunReportsWalk(data, s.next, StepHaystack(data, pos, haystack, s));
    }
  }

  /** What the writes of a resync and of a frame add up to. */
  lemma WritesOfStep(b: seq<byte>)
    ensures Written([Append(b), NewTrack]) == b && Opened([Append(b), NewTrack]) == 1
    ensures Written([Append(b)]) == b && Opened([Append(b)]) == 0
  {
    var w := [Append(b), NewTrack];
    assert w[1..] == [NewTrack] && [NewTrack][1..] == [] && [Append(b)][1..] == [];
    assert Written([NewTrack]) == [] && Opened([NewTrack]) == 1;
    assert Written([Append(b)]) == b + [] && Opened([Append(b)]) == 0;
    assert Written(w) == b + Written([NewTrack]);
  }

  /** A step that moves the cursor on writes exactly the bytes it moves over, and opens a
      track when it is a resync. */
  lemma StepWritesBytes(data: seq<byte>, pos: nat, haystack: Option<seq<byte>>, s: Step)
    requires s.Next? && pos < s.next && pos < |data|
    ensures var w := StepWrites(data, pos, haystack, s);
            && Written(w) + From(data, s.next) == From(data, pos)
            && Opened(w) == (if s.blocks == 0 then 1 else 0)
  {
    var chunk := Chunk(data, pos, s.next - pos);
    WritesOfStep(chunk);
    if s.blocks == 0 {
      assert StepWrites(data, pos, haystack, s) == [Append(chunk), NewTrack];
    } else {
      assert StepWrites(data, pos, haystack, s) == [Append(chunk)];
    }
    if s.next <= |data| {
      assert chunk == data[pos..s.next];
    } else {
      assert chunk == data[pos..];
    }
  }

  /** A step that moves the cursor on reports one resync exactly when it reads no frame. */
  lemma StepResyncs(data: seq<byte>, pos: nat)
    requires StepAt(data, pos).Next?
    ensures Resyncs(StepAt(data, pos).events) == (if StepAt(data, pos).blocks == 0 then 1 else 0)
  {
    var s := StepAt(data, pos);
    if s.blocks == 0 {
      ResyncStep(data, pos);
      ResyncsOfResync(pos, s.next, s.next - pos);
    } else {
      FrameStepEvents(data, pos);
      ResyncsOfFrame(s.events);
    }
  }

  lemma ResyncsOfFrame(events: seq<Event>)
    requires |events| <= 1 && (events != [] ==> events[0].OddFsize?)
    ensures Resyncs(events) == 0
  {
    if events != [] {
      assert events[1..] == [];
    }
  }

  lemma ResyncsOfResync(at: nat, to: nat, skip: nat)
    ensures Resyncs([Desync(at), Resync(to, skip)]) == 1
  {
    var e := [Desync(at), Resync(to, skip)];
    var t := [Resync(to, skip)];
    assert t[1..] == [] && e[1..] == t;
    assert Resyncs(t) == 1 + Resyncs(t[1..]);
    assert Resyncs(e) == 0 + Resyncs(t);
  }

  /** A walk that ends with "done" writes every byte of the stream once, in order, and
      opens one track per resync. */
  lemma {:induction false} RunWritesAll(data: seq<byte>, pos: nat, haystack: Option<seq<byte>>)
    requires Run(data, pos, haystack).report.end == Done
    ensures Written(Run(data, pos, haystack).writes) == From(data, pos)
    ensures Opened(Run(data, pos, haystack).writes) == Resyncs(Run(data, pos, haystack).report.events)
    decreases Left(data, pos)
  {
    var s := StepAt(data, pos);
    var w := StepWrites(data, pos, haystack, s);
    match s
    case Stop(events, end) =>
      assert end == Done && events == [] && w == [];
      assert pos >= |data|;
    case Next(events, blocks, next) =>
      var hay' := StepHaystack(data, pos, haystack, s);
      var rest := Run(data, next, hay');
      RunWritesAll(data, next, hay');
      StepWritesBytes(data, pos, haystack, s);
      WrittenConcat(w, rest.writes);
      ResyncsConcat(events, rest.report.events);
      StepResyncs(data, pos);
  }

  /** When the script ends with "done", its track files put back together are the stream,
      and there is one more track than resyncs. */
  lemma DoneTracks(data: seq<byte>)
    requires Run(data, 0, None).report.end == Done
    ensures Flatten(Apply([[]], Run(data, 0, None).writes)) == data
    ensures |Apply([[]], Run(data, 0, None).writes)| == Resyncs(Run(data, 0, None).report.events) + 1
  {
    var out := Run(data, 0, None);
    RunWritesAll(data, 0, None);
    ApplyFlatten([[]], out.writes);
    assert Flatten([[]]) == Flatten<byte>([]) + [];
  }

  /** When the script ends with "done", the tracks it announces are 2, 3, ... up to the
      number of track files it wrote. */
  lemma DoneAnnounced(data: seq<byte>)
    requires Run(data, 0, None).report.end == Done
    ensures var tracks := Apply([[]], Run(data, 0, None).writes);
            Announced(Messages(Run(data, 0, None).report.events, 1)) == seq(|tracks| - 1, k => k + 2)
  {
    DoneTracks(data);
    MessagesAnnounced(Run(data, 0, None).report.events, 1);
  }
}
