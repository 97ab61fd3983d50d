/** seekpoints.py: report FLAC files that have no SEEKTABLE metadata block, or whose seek
    table holds placeholder points or points with no frame samples.

    A FLAC stream starts with the magic `fLaC` and a chain of metadata blocks, each behind a
    4-byte header: the last-block flag in bit 7 of the first byte, the block type in its low
    7 bits and the body length as a 24-bit big-endian number (section 8.1 of RFC 9639).
    Type 3 is SEEKTABLE, whose body is a run of 18-byte seek points (section 8.5 of RFC 9639).
    The file is a `Reader`; exceptions are `Failure`s carrying the message's reason. */
module SeekPoints {
  import opened Common
  import opened Decimal

  /** `b'fLaC'`. */
  const Magic: seq<Octet> := [0x66, 0x4C, 0x61, 0x43]

  /** The SEEKTABLE block type, and the type the script refuses. */
  const SeekTableType: nat := 3
  const InvalidType: nat := 0x7F

  /** A seek point whose sample number is this is a placeholder. */
  const Placeholder: nat := 0xFFFF_FFFF_FFFF_FFFF

  /** `struct.calcsize('>QQH')`. */
  const PointSize: nat := 18

  datatype ScanError = NotFlac | TruncatedHeader | InvalidBlockType | PrematureEnd

  /** The text of the exception raised for each error. */
  function Message(e: ScanError): string {
    match e
    case NotFlac => "not a flac file"
    case TruncatedHeader => "truncated metadata block header"
    case InvalidBlockType => "invalid metadata block type"
    case PrematureEnd => "premature end of seekpoint block"
  }

  // ---------------------------------------------------------------------------------------
  // Metadata block headers

  datatype BlockHeader = BlockHeader(last: bool, kind: nat, length: nat)

  /** The fields of a 4-byte block header: `h[0] & 0x80 != 0`, `h[0] & 0x7f` and
      `int.from_bytes(h[1:4], 'big')`. */
  function ParseHeader(h: seq<Octet>): (hd: BlockHeader)
    requires |h| == 4
    ensures hd.kind < 0x80 && hd.length < 0x100_0000
  {
    BlockHeader(h[0] >= 0x80, h[0] % 0x80, h[1] as int * 0x1_0000 + h[2] as int * 0x100 + h[3])
  }

  /** The header a writer puts in front of a block. */
  function EncodeHeader(hd: BlockHeader): (h: seq<Octet>)
    requires hd.kind < 0x80 && hd.length < 0x100_0000
    ensures |h| == 4
  {
    [(if hd.last then 0x80 else 0) + hd.kind, hd.length / 0x1_0000, hd.length / 0x100 % 0x100,
     hd.length % 0x100]
  }

  /** Every header the format allows reads back as written. */
  lemma HeaderRoundTrip(hd: BlockHeader)
    requires hd.kind < 0x80 && hd.length < 0x100_0000
    ensures ParseHeader(EncodeHeader(hd)) == hd
  {
  }

  // ---------------------------------------------------------------------------------------
  // find_seektable_block

  /** What `find_seektable_block` returns: the offset of the SEEKTABLE header, the length of
      its body and True, or (0, 0, False) when there is none. */
  datatype Located = Located(pos: nat, length: nat, found: bool)

  const NotFound := Located(0, 0, false)

  /** The walk from the header at `lastpos` on. A read of no bytes is the end of the file,
      a read of one to three raises; a SEEKTABLE is reported even in the last block. */
  function Walk(data: seq<Octet>, lastpos: nat): Result<Located, ScanError>
    decreases |data| - lastpos
  {
    var h := Chunk(data, lastpos, 4);
    if h == [] then Success(NotFound)
    else if |h| < 4 then Failure(TruncatedHeader)
    else
      var hd := ParseHeader(h);
      if hd.kind == InvalidType then Failure(InvalidBlockType)
      else if hd.kind == SeekTableType then Success(Located(lastpos, hd.length, true))
      else if hd.last then Success(NotFound)
      else Walk(data, lastpos + 4 + hd.length)
  }

  /** The whole search, from the magic on. */
  function FindSeekTable(data: seq<Octet>): Result<Located, ScanError> {
    if Chunk(data, 0, 4) != Magic then Failure(NotFlac) else Walk(data, 4)
  }

  /** `find_seektable_block(f)` on a freshly opened file. Seeking past the end of a regular
      file succeeds and returns the offset asked for, so the script's "truncated metadata
      block" check compares equal numbers and never raises; the assertion records that. */
  method FindSeektableBlock(f: Reader<Octet>) returns (r: Result<Located, ScanError>)
    requires f.pos == 0
    modifies f
    ensures r == FindSeekTable(f.data)
  {
    var magic := f.Read(4);
    if magic != Magic {
      return Failure(NotFlac);
    }
    var lastpos: nat := 4;
    var lastblock := false;
    while !lastblock
      invariant f.pos == lastpos
      invariant !lastblock ==> Walk(f.data, lastpos) == FindSeekTable(f.data)
      invariant lastblock ==> FindSeekTable(f.data) == Success(NotFound)
      decreases |f.data| - f.pos
    {
      var h := f.Read(4);
      if h == [] {
        break;
      }
      if |h| < 4 {
        return Failure(TruncatedHeader);
      }
      var hd := ParseHeader(h);
      lastblock := hd.last;
      if hd.kind == InvalidType {
        return Failure(InvalidBlockType);
      }
      var pos := f.SeekBy(hd.length);
      if pos != lastpos + 4 + hd.length {
        assert false;
      }
      if hd.kind == SeekTableType {
        return Success(Located(lastpos, hd.length, true));
      }
      lastpos := pos;
    }
    return Success(NotFound);
  }

  /** `does_it_have_a_seektable_chunk(f)`: the same walk, answering only whether it found
      one. */
  method HasSeektableChunk(f: Reader<Octet>) returns (r: Result<bool, ScanError>)
    requires f.pos == 0
    modifies f
    ensures r.Success? <==> FindSeekTable(f.data).Success?
    ensures r.Success? ==> r.value == FindSeekTable(f.data).value.found
    ensures r.Failure? ==> r.error == FindSeekTable(f.data).error
  {
    var magic := f.Read(4);
    if magic != Magic {
      return Failure(NotFlac);
    }
    var lastpos: nat := 4;
    var lastblock := false;
    while !lastblock
      invariant f.pos == lastpos
      invariant !lastblock ==> Walk(f.data, lastpos) == FindSeekTable(f.data)
      invariant lastblock ==> FindSeekTable(f.data) == Success(NotFound)
      decreases |f.data| - f.pos
    {
      var h := f.Read(4);
      if h == [] {
        break;
      }
      if |h| < 4 {
        return Failure(TruncatedHeader);
      }
      var hd := ParseHeader(h);
      lastblock := hd.last;
      if hd.kind == InvalidType {
        return Failure(InvalidBlockType);
      }
      var pos := f.SeekBy(hd.length);
      if pos != lastpos + 4 + hd.length {
        assert false;
      }
      if hd.kind == SeekTableType {
        return Success(true);
      }
      lastpos := pos;
    }
    return Success(false);
  }

  /** A block the walk reports is a SEEKTABLE header inside the file, after the magic, with
      the length it states. */
  lemma {:induction false} WalkFindsHeader(data: seq<Octet>, lastpos: nat)
    requires lastpos >= 4
    ensures var r := Walk(data, lastpos);
            r.Success? && r.value.found ==>
              && 4 <= r.value.pos && r.value.pos + 4 <= |data|
              && ParseHeader(data[r.value.pos..r.value.pos + 4]).kind == SeekTableType
              && ParseHeader(data[r.value.pos..r.value.pos + 4]).length == r.value.length
    decreases |data| - lastpos
  {
    var h := Chunk(data, lastpos, 4);
    if |h| == 4 {
      var hd := ParseHeader(h);
      if hd.kind != InvalidType && hd.kind != SeekTableType && !hd.last {
        WalkFindsHeader(data, lastpos + 4 + hd.length);
      }
    }
  }

  lemma FindFindsHeader(data: seq<Octet>)
    ensures var r := FindSeekTable(data);
            r.Success? && r.value.found ==>
              && 4 <= r.value.pos && r.value.pos + 4 <= |data|
              && ParseHeader(data[r.value.pos..r.value.pos + 4]).kind == SeekTableType
              && ParseHeader(data[r.value.pos..r.value.pos + 4]).length == r.value.length
  {
    WalkFindsHeader(data, 4);
  }

  /** A file that is only the magic and one last block of another type has no seek table;
      one whose first block is a SEEKTABLE has it at offset 4. */
  lemma FindFirstBlock(body: seq<Octet>, hd: BlockHeader)
    requires hd.kind < 0x80 && hd.length < 0x100_0000 && hd.kind != InvalidType
    ensures var data := Magic + EncodeHeader(hd) + body;
            && (hd.kind == SeekTableType ==> FindSeekTable(data) == Success(Located(4, hd.length, true)))
            && (hd.kind != SeekTableType && hd.last ==> FindSeekTable(data) == Success(NotFound))
  {
    var data := Magic + EncodeHeader(hd) + body;
    HeaderRoundTrip(hd);
    assert Chunk(data, 0, 4) == Magic;
    assert Chunk(data, 4, 4) == EncodeHeader(hd);
  }

  // ---------------------------------------------------------------------------------------
  // get_seekpoint_stats

  datatype SeekPoint = SeekPoint(sample: nat, offset: nat, frameSamples: nat)

  /** An unsigned big-endian field of `struct` (`>Q`, `>H`). */
  function Unsigned(s: seq<Octet>): nat
    decreases |s|
  {
    if s == [] then 0 else Unsigned(s[..|s| - 1]) * 0x100 + s[|s| - 1] as int
  }

  /** `struct.unpack('>QQH', s)`. */
  function ParsePoint(s: seq<Octet>): SeekPoint
    requires |s| == PointSize
  {
    SeekPoint(Unsigned(s[..8]), Unsigned(s[8..16]), Unsigned(s[16..]))
  }

  /** The n seek points stored from `start` on. */
  function Points(data: seq<Octet>, start: nat, n: nat): (ps: seq<SeekPoint>)
    requires n == 0 || start + 18 * n <= |data|
    ensures |ps| == n
  {
    seq(n, k requires 0 <= k < n => ParsePoint(data[start + 18 * k..start + 18 * k + 18]))
  }

  datatype Counts = Counts(placeholders: nat, empty: nat)

  /** The two counters after one more point: a placeholder is counted as such whatever its
      frame samples, any other point with zero frame samples as empty. */
  function Count(c: Counts, p: SeekPoint): Counts {
    if p.sample == Placeholder then Counts(c.placeholders + 1, c.empty)
    else if p.frameSamples == 0 then Counts(c.placeholders, c.empty + 1)
    else c
  }

  /** The two counters after the points. */
  function Tally(points: seq<SeekPoint>): (c: Counts)
    ensures c.placeholders + c.empty <= |points|
    decreases |points|
  {
    if points == [] then Counts(0, 0)
    else Count(Tally(points[..|points| - 1]), points[|points| - 1])
  }

  lemma TallySnoc(points: seq<SeekPoint>, p: SeekPoint)
    ensures Tally(points + [p]) == Count(Tally(points), p)
  {
    assert (points + [p])[..|points|] == points;
  }

  /** What `get_seekpoint_stats(f, blocklength)` returns with the cursor at `pos`: it skips
      the 4-byte header and reads ⌊blocklength / 18⌋ points, raising if one is cut short. */
  function SeekpointStats(data: seq<Octet>, pos: nat, blocklength: nat): Result<Counts, ScanError> {
    var start := pos + |Chunk(data, pos, 4)|;
    var n := blocklength / PointSize;
    if n == 0 || start + 18 * n <= |data| then Success(Tally(Points(data, start, n)))
    else Failure(PrematureEnd)
  }

  method GetSeekpointStats(f: Reader<Octet>, blocklength: nat) returns (r: Result<Counts, ScanError>)
    modifies f
    ensures r == SeekpointStats(f.data, old(f.pos), blocklength)
  {
    var _ := f.Read(4);
    r := CountPoints(f, blocklength / PointSize);
  }

  /** Each point is counted at most once, so the two counts add up to at most the number of
      points the block length announces. */
  lemma StatsBound(data: seq<Octet>, pos: nat, blocklength: nat)
    ensures var r := SeekpointStats(data, pos, blocklength);
            r.Success? ==> r.value.placeholders + r.value.empty <= blocklength / PointSize
  {
  }

  /** The loop of `get_seekpoint_stats`: n points read from the cursor on. */
  method CountPoints(f: Reader<Octet>, n: nat) returns (r: Result<Counts, ScanError>)
    modifies f
    ensures r == if n == 0 || old(f.pos) + 18 * n <= |f.data| then Success(Tally(Points(f.data, old(f.pos), n)))
                 else Failure(PrematureEnd)
  {
    ghost var start := f.pos;
    var placeholders: nat := 0;
    var empty: nat := 0;
    ghost var whole := n == 0 || start + 18 * n <= |f.data|;
    ghost var goal := Counts(0, 0);
    if whole {
      goal := Tally(Points(f.data, start, n));
      TallyFromPoints(f.data, start, 0, n);
    }
    var i := 0;
    while i < n
      invariant 0 <= i <= n && f.pos == start + 18 * i
      invariant i == 0 || start + 18 * i <= |f.data|
      invariant whole ==> TallyFrom(f.data, start, i, n, Counts(placeholders, empty)) == goal
    {
      var ok;
      ok, placeholders, empty := CountNext(f, placeholders, empty, start, i, n);
      if !ok {
        return Failure(PrematureEnd);
      }
      i := i + 1;
    }
    return Success(Counts(placeholders, empty));
  }

  /** One turn of that loop: read a point and count it, or find it cut short. */
  method CountNext(f: Reader<Octet>, placeholders: nat, empty: nat, ghost start: nat, ghost i: nat, ghost n: nat)
      returns (ok: bool, placeholders': nat, empty': nat)
    requires i < n && f.pos == start + 18 * i && (i == 0 || start + 18 * i <= |f.data|)
    modifies f
    ensures ok <==> start + 18 * i + 18 <= |f.data|
    ensures ok ==> f.pos == start + 18 * i + 18
    ensures ok && start + 18 * n <= |f.data| ==>
      TallyFrom(f.data, start, i, n, Counts(placeholders, empty)) == TallyFrom(f.data, start, i + 1, n, Counts(placeholders', empty'))
    ensures !ok ==> start + 18 * n > |f.data|
  {
    placeholders', empty' := placeholders, empty;
    var point := f.Read(PointSize);
    if |point| < PointSize {
      return false, placeholders', empty';
    }
    assert point == f.data[start + 18 * i..start + 18 * i + 18];
    var p := ParsePoint(point);
    if p.sample == Placeholder {
      placeholders' := placeholders' + 1;
    } else if p.frameSamples == 0 {
      empty' := empty' + 1;
    }
    return true, placeholders', empty';
  }

  /** The loop's view of the counting: the counters so far, then the points from the i-th. */
  function TallyFrom(data: seq<Octet>, start: nat, i: nat, n: nat, c: Counts): Counts
    requires i <= n && (n == 0 || start + 18 * n <= |data|)
    decreases n - i
  {
    if i == n then c
    else TallyFrom(data, start, i + 1, n, Count(c, ParsePoint(data[start + 18 * i..start + 18 * i + 18])))
  }

  lemma {:induction false} TallyFromPoints(data: seq<Octet>, start: nat, i: nat, n: nat)
    requires i <= n && (n == 0 || start + 18 * n <= |data|)
    ensures TallyFrom(data, start, i, n, Tally(Points(data, start, i))) == Tally(Points(data, start, n))
    decreases n - i
  {
    if i < n {
      PointsSnoc(data, start, i);
      TallySnoc(Points(data, start, i), ParsePoint(data[start + 18 * i..start + 18 * i + 18]));
      TallyFromPoints(data, start, i + 1, n);
    }
  }

  lemma PointsSnoc(data: seq<Octet>, start: nat, i: nat)
    requires start + 18 * i + 18 <= |data|
    ensures Points(data, start, i + 1)
            == Points(data, start, i) + [ParsePoint(data[start + 18 * i..start + 18 * i + 18])]
  {
  }

  /** The placeholder count is zero exactly when no point is a placeholder. */
  lemma {:induction false} TallyPlaceholders(points: seq<SeekPoint>)
    ensures Tally(points).placeholders == 0 <==> forall k :: 0 <= k < |points| ==> points[k].sample != Placeholder
    decreases |points|
  {
    if points != [] {
      var init := points[..|points| - 1];
      TallyPlaceholders(init);
      assert forall k :: 0 <= k < |init| ==> init[k] == points[k];
    }
  }

  /** The empty count is zero exactly when every point that is not a placeholder has frame
      samples. */
  lemma {:induction false} TallyEmpty(points: seq<SeekPoint>)
    ensures Tally(points).empty == 0
            <==> forall k :: 0 <= k < |points| && points[k].sample != Placeholder ==> points[k].frameSamples != 0
    decreases |points|
  {
    if points != [] {
      var init := points[..|points| - 1];
      TallyEmpty(init);
      assert forall k :: 0 <= k < |init| ==> init[k] == points[k];
    }
  }

  // ---------------------------------------------------------------------------------------
  // scan_filenames

  /** `report(filename, reason)`: the reason only when verbose. */
  function ReportLine(filename: string, reason: string, verbose: bool): string {
    if verbose then filename + ": " + reason else filename
  }

  /** The reasons a file with a seek table is reported for: placeholders if there are any,
      points with no frame samples only when verbose or when there are no placeholders. */
  function Reasons(c: Counts, verbose: bool): (rs: seq<string>)
    ensures |rs| <= 2
  {
    (if c.placeholders > 0 then ["placeholders"] else [])
    + (if c.empty > 0 && (verbose || c.placeholders == 0) then ["frame_samples=0"] else [])
  }

  function ErrorLine(filename: string, e: ScanError): string {
    "Error checking " + filename + ": " + Message(e)
  }

  /** The lines printed for one file. */
  function FileReport(filename: string, data: seq<Octet>, verbose: bool): seq<string> {
    match FindSeekTable(data)
    case Failure(e) => [ErrorLine(filename, e)]
    case Success(l) =>
      if !l.found then [ReportLine(filename, "missing", verbose)]
      else match SeekpointStats(data, l.pos, l.length)
        case Failure(e) => [ErrorLine(filename, e)]
        case Success(c) =>
          var rs := Reasons(c, verbose);
          seq(|rs|, k requires 0 <= k < |rs| => ReportLine(filename, rs[k], verbose))
  }

  /** One file of `scan_filenames`: find the seek table, go back to its header, count. */
  method ScanFile(filename: string, data: seq<Octet>, verbose: bool) returns (lines: seq<string>)
    ensures lines == FileReport(filename, data, verbose)
  {
    var f := new Reader(data);
    var found := FindSeektableBlock(f);
    if found.Failure? {
      return [ErrorLine(filename, found.error)];
    }
    if !found.value.found {
      return [ReportLine(filename, "missing", verbose)];
    }
    f.Seek(found.value.pos);
    var stats := GetSeekpointStats(f, found.value.length);
    if stats.Failure? {
      return [ErrorLine(filename, stats.error)];
    }
    lines := [];
    if stats.value.placeholders > 0 {
      lines := lines + [ReportLine(filename, "placeholders", verbose)];
    }
    if stats.value.empty > 0 && (verbose || stats.value.placeholders == 0) {
      lines := lines + [ReportLine(filename, "frame_samples=0", verbose)];
    }
  }

  /** The lines of each file, in the order of the files. */
  function Reports(files: seq<(string, seq<Octet>)>, verbose: bool): (rs: seq<seq<string>>)
    ensures |rs| == |files|
  {
    seq(|files|, k requires 0 <= k < |files| => FileReport(files[k].0, files[k].1, verbose))
  }

  /** `scan_filenames(files, verbose)` over each file's name and contents: each file's
      lines, one file after the other. */
  method ScanFilenames(files: seq<(string, seq<Octet>)>, verbose: bool) returns (lines: seq<string>)
    ensures lines == Flatten(Reports(files, verbose))
  {
    ghost var reports := Reports(files, verbose);
    lines := [];
    var i := 0;
    while i < |files|
      invariant 0 <= i <= |files|
      invariant AppendFrom(reports, i, lines) == AppendFrom(reports, 0, [])
    {
      var more := ScanFile(files[i].0, files[i].1, verbose);
      lines := lines + more;
      i := i + 1;
    }
    AppendFromFlatten(reports, 0, []);
    assert reports[0..] == reports;
  }

  /** A file is listed exactly when it cannot be read, has no seek table, or has a
      placeholder or empty point in it. */
  lemma ReportedIff(filename: string, data: seq<Octet>, verbose: bool)
    ensures FileReport(filename, data, verbose) == []
            <==> (&& FindSeekTable(data).Success? && FindSeekTable(data).value.found
                  && var l := FindSeekTable(data).value;
                     && SeekpointStats(data, l.pos, l.length).Success?
                     && SeekpointStats(data, l.pos, l.length).value == Counts(0, 0))
  {
  }

  /** Without -v a file gets at most one line: its name alone, or the error. */
  lemma QuietOneLine(filename: string, data: seq<Octet>)
    ensures var lines := FileReport(filename, data, false);
            |lines| <= 1 && (lines == [] || lines == [filename] || exists e :: lines == [ErrorLine(filename, e)])
  {
    var lines := FileReport(filename, data, false);
    match FindSeekTable(data)
    case Failure(e) =>
      assert lines == [ErrorLine(filename, e)];
    case Success(l) =>
      if l.found {
        match SeekpointStats(data, l.pos, l.length)
        case Failure(e) =>
          assert lines == [ErrorLine(filename, e)];
        case Success(c) =>
      }
  }
}
