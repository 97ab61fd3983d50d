/** ctdb.py `get_toc`: the table of contents the CUETools database is queried with, computed
    from the audio tracks of a CD rip. Each entry is a position in 588-sample CD sectors:
    where each track starts, and at the end where the last track ends.

    What `mutagen.flac.Open` reports about each file is passed in as a `Track` value. */
module Ctdb {
  import opened Common

  /** Samples a CD sector holds (1/75 second at 44100 Hz). */
  const SectorSamples: nat := 588
  const CdRate: nat := 44100

  /** The stream information of a FLAC file. */
  datatype TrackInfo = TrackInfo(sampleRate: nat, channels: nat, totalSamples: nat)

  datatype Track = Track(filename: string, info: TrackInfo)

  /** `get_toc` raises for a file that is not 44100 Hz stereo. */
  datatype TocError = NotCdAudio(filename: string)

  predicate IsCdAudio(info: TrackInfo) {
    info.sampleRate == CdRate && info.channels == 2
  }

  predicate AllCdAudio(tracks: seq<Track>) {
    forall i :: 0 <= i < |tracks| ==> IsCdAudio(tracks[i].info)
  }

  /** The first track that is not CD audio. */
  function FirstBad(tracks: seq<Track>): (i: nat)
    requires !AllCdAudio(tracks)
    ensures i < |tracks| && !IsCdAudio(tracks[i].info)
    ensures forall j :: 0 <= j < i ==> IsCdAudio(tracks[j].info)
  {
    if !IsCdAudio(tracks[0].info) then 0
    else
      assert !AllCdAudio(tracks[1..]) by {
        var i :| 0 <= i < |tracks| && !IsCdAudio(tracks[i].info);
        assert tracks[1..][i - 1] == tracks[i];
      }
      1 + FirstBad(tracks[1..])
  }

  /** A track's length in 44100 Hz samples: `total_samples * 44100 // sample_rate`. */
  function Length(info: TrackInfo): nat
    requires IsCdAudio(info)
  {
    info.totalSamples * CdRate / info.sampleRate
  }

  /** The samples of the tracks together. */
  function Samples(tracks: seq<Track>): nat
    requires AllCdAudio(tracks)
  {
    if tracks == [] then 0 else Samples(tracks[..|tracks| - 1]) + Length(tracks[|tracks| - 1].info)
  }

  /** The start sector of each track: the samples before it, rounded down to a sector. */
  function Starts(tracks: seq<Track>, n: nat): (r: seq<nat>)
    requires n <= |tracks| && AllCdAudio(tracks)
    ensures |r| == n
  {
    seq(n, k requires 0 <= k < n => Samples(tracks[..k]) / SectorSamples)
  }

  /** The table of contents: the start sector of each track, then the sectors the tracks fill
      together, rounded up. */
  function Toc(tracks: seq<Track>): (toc: seq<nat>)
    requires AllCdAudio(tracks)
    ensures |toc| == |tracks| + 1
  {
    Starts(tracks, |tracks|) + [(Samples(tracks) + SectorSamples - 1) / SectorSamples]
  }

  /** `get_toc`: the loop adds the start sector of a track before it looks at the track, and
      stops at the first track that is not 44100 Hz stereo. */
  method GetToc(tracks: seq<Track>) returns (r: Result<seq<nat>, TocError>)
    ensures AllCdAudio(tracks) ==> r == Success(Toc(tracks))
    ensures !AllCdAudio(tracks) ==> r == Failure(NotCdAudio(tracks[FirstBad(tracks)].filename))
  {
    var toc: seq<nat> := [];
    var t: nat := 0;
    var i := 0;
    while i < |tracks|
      invariant 0 <= i <= |tracks| && AllCdAudio(tracks[..i])
      invariant t == Samples(tracks[..i]) && toc == Starts(tracks[..i], i)
    {
      toc := toc + [t / SectorSamples];
      var info := tracks[i].info;
      if info.sampleRate != CdRate || info.channels != 2 {
        FirstBadAt(tracks, i);
        return Failure(NotCdAudio(tracks[i].filename));
      }
      var length := info.totalSamples * CdRate / info.sampleRate;
      StartsSnoc(tracks[..i + 1]);
      assert tracks[..i + 1][..i] == tracks[..i];
      t := t + length;
      i := i + 1;
    }
    assert tracks[..i] == tracks;
    toc := toc + [(t + SectorSamples - 1) / SectorSamples];
    return Success(toc);
  }

  /** The start sectors of all tracks but the last, then the start of the last. */
  lemma StartsSnoc(tracks: seq<Track>)
    requires tracks != [] && AllCdAudio(tracks)
    ensures var n := |tracks| - 1;
      && AllCdAudio(tracks[..n])
      && Starts(tracks, n + 1) == Starts(tracks[..n], n) + [Samples(tracks[..n]) / SectorSamples]
  {
    var n := |tracks| - 1;
    forall k | 0 <= k < n
      ensures Starts(tracks, n + 1)[k] == Starts(tracks[..n], n)[k]
    {
      assert tracks[..n][..k] == tracks[..k];
    }
  }

  /** The first track that is not CD audio is track i when all before it are. */
  lemma FirstBadAt(tracks: seq<Track>, i: nat)
    requires i < |tracks| && AllCdAudio(tracks[..i]) && !IsCdAudio(tracks[i].info)
    ensures !AllCdAudio(tracks) && FirstBad(tracks) == i
  {
    forall j | 0 <= j < i
      ensures IsCdAudio(tracks[j].info)
    {
      assert tracks[..i][j] == tracks[j];
    }
  }

  /** The samples of a longer prefix are at least those of a shorter one. */
  lemma {:induction false} SamplesMonotone(tracks: seq<Track>, m: nat, n: nat)
    requires m <= n <= |tracks| && AllCdAudio(tracks)
    ensures AllCdAudio(tracks[..m]) && AllCdAudio(tracks[..n])
    ensures Samples(tracks[..m]) <= Samples(tracks[..n])
    decreases n - m
  {
    if m < n {
      SamplesMonotone(tracks, m, n - 1);
      assert tracks[..n][..n - 1] == tracks[..n - 1];
    }
  }

  /** Each track's length is its number of samples, as the file is 44100 Hz. */
  lemma LengthIsSamples(info: TrackInfo)
    requires IsCdAudio(info)
    ensures Length(info) == info.totalSamples
  {
  }

  /** The first entry is sector 0. */
  lemma TocFirst(tracks: seq<Track>)
    requires AllCdAudio(tracks)
    ensures Toc(tracks)[0] == 0
  {
    if tracks != [] {
      assert tracks[..0] == [];
    }
  }

  /** Entry k of a track is the sector the samples before it end in. */
  lemma TocStart(tracks: seq<Track>, k: nat)
    requires AllCdAudio(tracks) && k < |tracks|
    ensures AllCdAudio(tracks[..k])
    ensures var s := Samples(tracks[..k]);
      Toc(tracks)[k] * SectorSamples <= s < (Toc(tracks)[k] + 1) * SectorSamples
  {
  }

  /** The last entry is the number of sectors the tracks fill: enough for all samples, and
      less than a whole sector more. */
  lemma TocLast(tracks: seq<Track>)
    requires AllCdAudio(tracks)
    ensures var s, last := Samples(tracks), Toc(tracks)[|tracks|];
      s <= last * SectorSamples < s + SectorSamples
  {
  }

  /** Entries never decrease. */
  lemma TocMonotone(tracks: seq<Track>, i: nat, j: nat)
    requires AllCdAudio(tracks) && i <= j <= |tracks|
    ensures Toc(tracks)[i] <= Toc(tracks)[j]
  {
    var toc := Toc(tracks);
    var n := |tracks|;
    if j < n {
      SamplesMonotone(tracks, i, j);
      DivMonotone(Samples(tracks[..i]), Samples(tracks[..j]));
    } else if i < n {
      SamplesMonotone(tracks, i, n);
      assert tracks[..n] == tracks;
      DivMonotone(Samples(tracks[..i]), Samples(tracks) + SectorSamples - 1);
    }
  }

  lemma DivMonotone(a: nat, b: nat)
    requires a <= b
    ensures a / SectorSamples <= b / SectorSamples
  {
  }
}
