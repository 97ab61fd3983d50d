/** flacsplit.py: turn Blu-ray chapter marks (45 kHz ticks from 27000000) into the sample
    counts of the tracks of a 96 kHz FLAC file, and print them as a `sox` effects chain of
    `trim 0 <n>s` and `newfile` separated by ` : `.

    The chapter lines come from the file named by the first argument, or from standard
    input; both are parameters here. Python's float arithmetic `tick * (96000.0 / 45000.0)`
    is modelled as the exact rational tick * 96000 / 45000 followed by `round`. */
module FlacSplit {
  import opened Common
  import opened Decimal
  import DtsSplit

  /** Samples a second of the FLAC file and ticks a second of the chapter marks. */
  const FlacHz: nat := 96000
  const TickHz: nat := 45000
  /** The tick of the first chapter mark. */
  const TickStart: int := 27000000

  // ---------------------------------------------------------------------------------------
  // Where the chapter marks come from

  datatype Source = Stdin | ChapterFile(name: string)

  /** The first argument names the chapter file only when there are more than two
      arguments; an empty name or `-` means standard input. */
  function ChapterSource(argv: seq<string>): Source {
    var chapfile := if |argv| > 2 then argv[1] else "-";
    if chapfile != "" && chapfile != "-" then ChapterFile(chapfile) else Stdin
  }

  /** The chapter file is read exactly when a third argument exists and the first one is
      neither empty nor `-`. */
  lemma ChapterFileIff(argv: seq<string>)
    ensures ChapterSource(argv).ChapterFile? <==> |argv| > 2 && argv[1] != "" && argv[1] != "-"
    ensures ChapterSource(argv).ChapterFile? ==> ChapterSource(argv).name == argv[1]
  {
  }

  // ---------------------------------------------------------------------------------------
  // Ticks to sample counts

  /** The sample a chapter mark falls on: `int(round((tick - TICK_START) * (FLAC_HZ / TICK_HZ)))`. */
  function Position(tick: int): int {
    RoundHalfEven((tick - TickStart) * FlacHz, TickHz)
  }

  /** The sample of every mark. */
  function Positions(ticks: seq<int>): (ps: seq<int>)
    ensures |ps| == |ticks| && forall i :: 0 <= i < |ticks| ==> ps[i] == Position(ticks[i])
    ensures forall i :: 0 <= i < |ticks| ==> RoundsTo((ticks[i] - TickStart) * FlacHz, TickHz, ps[i])
  {
    seq(|ticks|, i requires 0 <= i < |ticks| => Position(ticks[i]))
  }

  /** The sample counts the loop of `main` appends: each mark's sample minus the one before
      it, sample 0 before the first. */
  function Samples(ticks: seq<int>): (sizes: seq<int>)
    ensures |sizes| == |ticks|
  {
    DtsSplit.Gaps(Positions(ticks), 1)
  }

  datatype SplitError = NotANumber | NoChapters | BadStart(first: int)

  /** `assert ticklist[0] == TICK_START` (an IndexError on an empty list), `del ticklist[0]`
      and the loop over the other marks. */
  method TrackSamples(ticks: seq<int>) returns (r: Result<seq<int>, SplitError>)
    ensures ticks == [] ==> r == Failure(NoChapters)
    ensures ticks != [] && ticks[0] != TickStart ==> r == Failure(BadStart(ticks[0]))
    ensures ticks != [] && ticks[0] == TickStart ==> r == Success(Samples(ticks[1..]))
  {
    if |ticks| == 0 {
      return Failure(NoChapters);
    }
    if ticks[0] != TickStart {
      return Failure(BadStart(ticks[0]));
    }
    var rest := ticks[1..];
    var sizes: seq<int> := [];
    var prev := 0;
    var i := 0;
    ghost var positions: seq<int> := [];
    while i < |rest|
      invariant 0 <= i <= |rest| && |positions| == i
      invariant forall j :: 0 <= j < i ==> positions[j] == Position(rest[j])
      invariant sizes == DtsSplit.Gaps(positions, 1)
      invariant prev == if i == 0 then 0 else positions[i - 1]
    {
      var current := Position(rest[i]);
      DtsSplit.GapsSnoc(positions, current, 1);
      sizes := sizes + [current - prev];
      positions := positions + [current];
      prev := current;
      i := i + 1;
    }
    assert positions == Positions(rest);
    return Success(sizes);
  }

  /** Each count is the difference of two neighbouring positions. */
  lemma SamplesAt(ticks: seq<int>, k: nat)
    requires k < |ticks|
    ensures Samples(ticks)[k] == Position(ticks[k]) - (if k == 0 then 0 else Position(ticks[k - 1]))
  {
    DtsSplit.GapsAt(Positions(ticks), 1, k);
  }

  /** The counts telescope: the tracks together end at the sample of the last mark. */
  lemma SamplesSum(ticks: seq<int>)
    requires ticks != []
    ensures Sum(Samples(ticks)) == Position(ticks[|ticks| - 1])
  {
    DtsSplit.GapsSum(Positions(ticks), 1);
  }

  /** Fifteen ticks are exactly 32 samples, so a whole number of them needs no rounding. */
  lemma PositionExact(m: int)
    ensures Position(TickStart + 15 * m) == 32 * m
  {
    assert (TickStart + 15 * m - TickStart) * FlacHz - 32 * m * TickHz == 0;
    RoundHalfEvenUnique((TickStart + 15 * m - TickStart) * FlacHz, TickHz, 32 * m);
  }

  /** Marks in order fall on samples in order. */
  lemma PositionMonotone(a: int, b: int)
    requires a <= b
    ensures Position(a) <= Position(b)
  {
    var pa, pb := (a - TickStart) * FlacHz, (b - TickStart) * FlacHz;
    assert pb - pa == (b - a) * FlacHz;
    RoundHalfEvenMonotone(pa, pb, TickHz);
  }

  /** Marks in order, none before TICK_START, give no negative count. */
  lemma SamplesNonNegative(ticks: seq<int>, k: nat)
    requires k < |ticks| && TickStart <= ticks[0]
    requires forall i, j :: 0 <= i <= j < |ticks| ==> ticks[i] <= ticks[j]
    ensures Samples(ticks)[k] >= 0
  {
    SamplesAt(ticks, k);
    if k == 0 {
      PositionMonotone(TickStart, ticks[0]);
      PositionExact(0);
    } else {
      PositionMonotone(ticks[k - 1], ticks[k]);
    }
  }

  // ---------------------------------------------------------------------------------------
  // The sox effects chain

  /** `"trim 0 {}s".format(samples)`. */
  function Trim(samples: int): string {
    "trim 0 " + IntToString(samples) + "s"
  }

  /** The list `main` builds: a trim and a `newfile` per track. */
  function Pipeline(sizes: seq<int>): (p: seq<string>)
    ensures |p| == 2 * |sizes|
  {
    if sizes == [] then [] else Pipeline(sizes[..|sizes| - 1]) + [Trim(sizes[|sizes| - 1]), "newfile"]
  }

  /** The loop that builds it. */
  method BuildPipeline(sizes: seq<int>) returns (pipeline: seq<string>)
    ensures pipeline == Pipeline(sizes)
  {
    pipeline := [];
    var i := 0;
    while i < |sizes|
      invariant 0 <= i <= |sizes| && pipeline == Pipeline(sizes[..i])
    {
      assert sizes[..i + 1][..i] == sizes[..i];
      pipeline := pipeline + [Trim(sizes[i]), "newfile"];
      i := i + 1;
    }
    assert sizes[..i] == sizes;
  }

  /** Entry 2k trims track k's samples and entry 2k + 1 starts the next file. */
  lemma {:induction false} PipelineAt(sizes: seq<int>, k: nat)
    requires k < |sizes|
    ensures Pipeline(sizes)[2 * k] == Trim(sizes[k]) && Pipeline(sizes)[2 * k + 1] == "newfile"
    decreases |sizes|
  {
    var n := |sizes|;
    var init := Pipeline(sizes[..n - 1]);
    assert Pipeline(sizes) == init + [Trim(sizes[n - 1]), "newfile"];
    if k < n - 1 {
      PipelineAt(sizes[..n - 1], k);
      assert Pipeline(sizes)[2 * k] == init[2 * k];
      assert Pipeline(sizes)[2 * k + 1] == init[2 * k + 1];
    }
  }

  /** The count of a trim reads back from its text. */
  lemma TrimRoundTrip(samples: int)
    ensures var t := Trim(samples);
            |t| > 8 && t[..7] == "trim 0 " && t[|t| - 1] == 's' && ParseInt(t[7..|t| - 1]) == Some(samples)
  {
    var d := IntToString(samples);
    var t := "trim 0 " + d + "s";
    assert t[7..|t| - 1] == d;
    ParseIntToString(samples);
  }

  // ---------------------------------------------------------------------------------------
  // main

  /** What `main` prints for the chapter marks it has read. */
  function Report(ticks: seq<int>): Result<string, SplitError> {
    if ticks == [] then Failure(NoChapters)
    else if ticks[0] != TickStart then Failure(BadStart(ticks[0]))
    else Success(Join(" : ", Pipeline(Samples(ticks[1..]))))
  }

  /** What `main` prints, given its arguments, the lines of the chapter file it would open
      and the lines of standard input. A line that is not an integer raises ValueError. */
  function Output(argv: seq<string>, fileLines: seq<string>, stdinLines: seq<string>): Result<string, SplitError> {
    var lines := if ChapterSource(argv).ChapterFile? then fileLines else stdinLines;
    match DtsSplit.Ticks(lines)
    case None => Failure(NotANumber)
    case Some(ticks) => Report(ticks)
  }

  /** `main`. */
  method Run(argv: seq<string>, fileLines: seq<string>, stdinLines: seq<string>) returns (r: Result<string, SplitError>)
    ensures r == Output(argv, fileLines, stdinLines)
  {
    var lines := if ChapterSource(argv).ChapterFile? then fileLines else stdinLines;
    var ticks := DtsSplit.ReadTicks(lines);
    if ticks.None? {
      return Failure(NotANumber);
    }
    r := Summarise(ticks.value);
  }

  /** The part of `main` after the marks are read. */
  method Summarise(ticks: seq<int>) returns (r: Result<string, SplitError>)
    ensures r == Report(ticks)
  {
    var sizes := TrackSamples(ticks);
    if sizes.Failure? {
      return Failure(sizes.error);
    }
    var pipeline := BuildPipeline(sizes.value);
    return Success(Join(" : ", pipeline));
  }
}
