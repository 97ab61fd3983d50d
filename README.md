# A model of a home-grown toolkit for ripped audio

The repository is a set of small scripts for DTS, FLAC and Opus files taken from Blu-rays
and CDs, plus one Go package. This project models their core in Dafny and proves properties
of that model:

- **dtssplit.py** decodes the DTS core frame header. The header is the sync word
  `7F FE 80 01`, then NBLKS, FSIZE, SFREQ and RATE, as in section 5.3.1 of ETSI TS 102 114.
  The script turns 45 kHz Blu-ray chapter ticks into frame numbers, then into byte counts,
  and copies those byte ranges of the stream into track files.
- **dts-sync.py** walks a DTS stream frame by frame. After four zero bytes of padding it
  searches the next 4096 bytes for the sync word; any other mismatch loses sync.
- **dts-chunksplit.py** does the same walk and writes what it passes into track files. It
  starts a new track at each resync.
- **dts14.py** unpacks a 14-bit DTS-WAV stream. Each 16-byte block of eight signed 16-bit
  words becomes 14 bytes.
- **lib/crc32.go** `RollingCRC` keeps the CRC-32 of a sliding window (IEEE 802.3,
  reflected polynomial 0xEDB88320). It takes out the bytes that leave by GF(2)
  multiplication (`crcmulTable`) and adds the bytes that enter by table update.
- **seekpoints.py** walks the FLAC metadata blocks (section 8.1 of RFC 9639). It finds the
  SEEKTABLE block and counts its placeholder and empty seek points (section 8.5 of
  RFC 9639), then decides which files to report.
- **flacsplit.py** turns chapter ticks into sample counts of a 96 kHz FLAC file. It prints
  them as a `sox` chain of `trim 0 <n>s` and `newfile`.
- **rename.py** holds the helpers that name tracks:
  - `deprefix`;
  - the title sanitiser `clean`;
  - the parser of `opustags` output;
  - the dispatch of `read_tag` by file extension;
  - `read_number`.
- **ctdb.py** `get_toc` computes the CUETools database table of contents, in 588-sample
  sectors.

## How the model is built

Files are `Reader` objects: a byte sequence and a cursor. `read`, `seek` and `peek` are
methods and functions on them. Where the script loops, the model is a method with the same
loop. The method is proved against a function that states the result, and the properties
are lemmas about that function. What a script prints becomes a list of events or lines, and
the files it writes become a sequence of byte sequences.

Python integers are unbounded, and so are the model's. Go's `uint32` and `uint64`
arithmetic in `lib/crc32.go` is modelled as bit sequences. `crcmulTable` keeps its 64-bit
products explicitly.

Modules:

| file | module | models |
|---|---|---|
| common.dfy | `Common` | results, the `Reader` class, `bytes.find`, `strip`, `round` |
| decimal.dfy | `Decimal` | `str(n)` and `int(s, 10)` |
| dts_split.dfy | `DtsSplit` | dtssplit.py |
| dts_sync.dfy | `DtsSync` | dts-sync.py |
| dts_chunksplit.dfy | `DtsChunkSplit` | dts-chunksplit.py |
| dts14.dfy | `Dts14` | dts14.py |
| crc32.dfy | `Crc32` | CRC-32, bitwise and table-driven; Go's `crc32.Update` and `Checksum`; `crcmulTable` |
| rolling_crc.dfy | `RollingCrc` | lib/crc32.go `RollingCRC` |
| seekpoints.dfy | `SeekPoints` | seekpoints.py |
| flacsplit.dfy | `FlacSplit` | flacsplit.py |
| rename.dfy | `Rename` | rename.py |
| ctdb.dfy | `Ctdb` | ctdb.py `get_toc` |

Two details of the code that the model keeps as written:

- **Rounding in dtssplit.py.** `round()` at dtssplit.py:42 rounds a tie half to even, and
  the difference of two rounded frame numbers is then multiplied by the frame size, FSIZE + 1
  (dtssplit.py:43 and 81). `DtsSplit.SizesExample` works one case through: at 48 kHz with
  512-sample frames of 0xE00 bytes, marks one and two seconds in fall on 93.75 and 187.5
  frames, which round to 94 and 188, so each track is 94 × 0xE00 bytes.
- **Lost sync in dts-chunksplit.py.** On lost sync the script writes `haystack`. That is the
  window of the current desync only when the mismatch was padding. After any other mismatch
  it is the window of an earlier resync, or an unbound name. The model keeps this as it is
  written (see `DtsChunkSplit.Desynced`).

## Model

| member | source | states |
|---|---|---|
| Common.Reader.Read | dts14.py:20 | `f.read(n)` returns the next n bytes, or as many as remain, and moves the cursor past them |
| Common.Reader.SeekBy | seekpoints.py:105 | `f.seek(off, 1)` moves the cursor by off and returns the new absolute position, also past the end of the file |
| Common.Chunk | dts-sync.py:17 | a read returns at most n bytes; fewer only at the end of the data; exactly the bytes at the cursor; nothing past the end |
| Common.ChunkConcat | dts14.py:19-22 | reading a bytes and then b bytes gets the same bytes as reading a + b at once |
| Common.Find | dts-sync.py:18 | `find` returns -1 or an index where the needle occurs |
| Common.FindFirst | dts-sync.py:18 | `find` returns the first occurrence, and returns -1 exactly when there is none |
| Common.RoundHalfEven | flacsplit.py:44 | `round(p / q)` is within half of p / q, and a tie goes to the even integer |
| Common.RoundHalfEvenUnique | flacsplit.py:44 | no other integer satisfies the rounding rule, so `round` is determined by it |
| Common.RoundHalfEvenMonotone | dtssplit.py:42 | a larger quotient never rounds to a smaller integer |
| Common.LStrip | rename.py:29 | `lstrip(chars)` removes exactly the leading characters in the set: the result is a suffix, does not start with one of them, and only they are removed |
| Common.RStrip | rename.py:103 | `rstrip(chars)` removes exactly the trailing characters in the set |
| Common.Strip | rename.py:104 | `strip()` returns the piece of the text at `StripFrom(s)` that neither starts nor ends with whitespace; everything before and after that piece is whitespace |
| Common.StripUnspaced | dtssplit.py:31 | `strip()` leaves a text that has no whitespace at its ends unchanged |
| Common.AppendFromFlatten | seekpoints.py:39-55 | appending the parts one at a time from part i on gives what was there, then the parts joined |
| Common.JoinAppend | flacsplit.py:54 | joining two runs of parts is joining each, with one separator between them |
| Decimal.NatToString | flacsplit.py:52 | `str(n)` of a non-negative number is decimal digits with no leading zero |
| Decimal.NatToStringValue | flacsplit.py:52 | the digits `str` writes have the value of the number |
| Decimal.ParseInt | rename.py:84 | `int(s, 10)` succeeds exactly on an integer literal: blanks (`\t \n \v \f \r`, space and the non-ASCII whitespace; not U+001C-U+001F), then an optional sign, then digits in single-underscore groups |
| Decimal.IntSpacesAreSpaces | rename.py:84 | the blanks `int` skips are `str.isspace()` whitespace except the four information separators U+001C-U+001F |
| Decimal.ParseIntLiteral | rename.py:84 | for every literal of blanks, optional sign, digit group and blanks, `int` gives the digits' value, negated after `-` |
| Decimal.ParseIntRejectsSeparator | rename.py:83-86 | a U+001C-U+001F character at either end of any text makes `int` raise, so `read_number` gives None |
| Decimal.ParseIntToString | rename.py:84 | `int` reads back what `str` writes |
| Decimal.IntToStringEnds | flacsplit.py:52 | `str(n)` starts with a digit or a minus sign and ends with a digit |
| Decimal.IntToStringUnspaced | dtssplit.py:31 | `strip()` leaves `str(n)` unchanged |
| Decimal.ParseIntRejectsStray | rename.py:83-86 | a stray character makes `int` raise, so `read_number` gives None |
| Decimal.ParseIntRejectsDoubleUnderscore | rename.py:83-86 | two underscores in a row make `int` raise |
| Decimal.ParseIntUnderscore | rename.py:84 | underscores between digits are accepted and ignored |
| DtsSplit.BigEndianSix | dtssplit.py:63 | `int.from_bytes(header[4:10], 'big')` is the six bytes after the sync word, the first one most significant |
| DtsSplit.NblksFromBytes | dtssplit.py:65 | NBLKS is bit 0 of byte 4 and bits 7-2 of byte 5 |
| DtsSplit.FsizeFromBytes | dtssplit.py:64 | FSIZE is bits 1-0 of byte 5, byte 6, and bits 7-4 of byte 7 |
| DtsSplit.SfreqFromBytes | dtssplit.py:66 | SFREQ is bits 5-2 of byte 8 |
| DtsSplit.RateFromBytes | dtssplit.py:67 | RATE is bits 1-0 of byte 8 and bits 7-5 of byte 9 |
| DtsSplit.SampleRate | dtssplit.py:69-79 | an SFREQ code has a rate exactly when it is one of 1, 2, 3, 6, 7, 8, 11, 12, 13, and the rate is one of the nine listed |
| DtsSplit.SampleRateInjective | dtssplit.py:69-77 | no two codes share a rate |
| DtsSplit.BitrateOf | dtssplit.py:84-93 | every 5-bit RATE code indexes the table: codes below 29 give 32 to 3840 kbit/s, 29 "open", 30 "variable", 31 "lossless" |
| DtsSplit.Info | dtssplit.py:55-96 | the "not a DTS file" exit happens exactly when the first four bytes are not the sync word; after the sync word the sfreq exit happens exactly when the SFREQ code has no rate; otherwise the rate is that of SFREQ, the frame bytes FSIZE + 1, the frame samples 32 × (NBLKS + 1) and the bitrate the table entry of RATE, so frame bytes are in 1..0x4000 and frame samples a multiple of 32 in 32..4096 |
| DtsSplit.ReadTicks | dtssplit.py:29-32 | the reading loop gives the ticks of all lines, or fails at the first line that is not an integer |
| DtsSplit.TicksRoundTrip | dtssplit.py:29-32 | a chapter file of `str(tick)` lines reads back as those ticks |
| DtsSplit.Collect | dtssplit.py:29-32 | the ticks are there exactly when every line parses, and each is its line's value |
| DtsSplit.Frames | dtssplit.py:42 | one frame number per mark: the integer nearest to (tick − 27000000) × rate / (45000 × frame samples), a tie going to the even one |
| DtsSplit.ChapterSizes | dtssplit.py:34-45 | no chapters is an IndexError, a first tick other than 27000000 an AssertionError; otherwise the loop's sizes are those of the remaining marks |
| DtsSplit.GapsAt | dtssplit.py:43 | size k is the difference of frame k and frame k-1 (frame 0 before the first), times the frame bytes |
| DtsSplit.GapsSum | dtssplit.py:39-45 | the sizes telescope to the last frame times the frame bytes |
| DtsSplit.SizesSum | dtssplit.py:39-45 | the track sizes together reach the frame of the last mark |
| DtsSplit.FramesOrdered | dtssplit.py:42 | marks in order fall on frames in order |
| DtsSplit.FrameNonNegative | dtssplit.py:41-42 | a mark at or after 27000000 falls on frame 0 or later |
| DtsSplit.FramesSorted | dtssplit.py:40-44 | sorted marks from 27000000 on fall on frames that are sorted and start at 0 or later |
| DtsSplit.GapsNonNegative | dtssplit.py:43 | sorted frames from 0 on give no negative size |
| DtsSplit.SizesNonNegative | dtssplit.py:39-45 | sorted marks from 27000000 on give no negative size |
| DtsSplit.SizesExample | dtssplit.py:39-45 | at 48 kHz with 512-sample, 0xE00-byte frames, marks one and two seconds in give two tracks of 94 × 0xE00 bytes (187.5 frames round to 188); marks in decreasing order give 188 × 0xE00 and then a negative size, −94 × 0xE00 |
| DtsSplit.Copy | dtssplit.py:99-109 | `copy` writes min(bytes, what is left) bytes at the cursor, nothing for a non-positive count, and reports the shortfall |
| DtsSplit.CopyAll | dtssplit.py:111-118 | `copyall` writes everything from the cursor to the end |
| DtsSplit.Cut | dtssplit.py:47-53 | one track per size, plus the last one |
| DtsSplit.CutFlatten | dtssplit.py:47-53 | the track files, one after the other, are the whole stream |
| DtsSplit.CutTrack | dtssplit.py:47-51 | track k is at most its size, and empty when its size is not positive |
| DtsSplit.CopyNext | dtssplit.py:48-51 | one pass of the loop writes the first cut of what is left |
| DtsSplit.CopyEach | dtssplit.py:48-51 | the copy loop writes every cut but the last, and leaves the last at the cursor |
| DtsSplit.CopyTracks | dtssplit.py:47-53 | the copy loop and `copyall` write exactly the cuts of the stream by the sizes |
| DtsSplit.Split | dtssplit.py:21-53 | the script fails on a bad header, or else on a line that is not an integer, or else (AssertionError or IndexError) exactly when the first mark is missing or is not 27000000; otherwise its tracks are the cuts of the stream by the sizes of the later marks: the first line is the start mark, each later line closes a track and the rest of the stream is the last one, so there are as many tracks as lines and together they are the stream |
| DtsSync.FrameSize | dts-sync.py:27-28 | the frame size is between 1 and 0x4000 |
| DtsSync.FrameSizeAgrees | dts-sync.py:27-28 | this script reads the same frame size from a header as dtssplit.py does (FSIZE + 1) |
| DtsSync.NoSyncInZeros | dts-sync.py:16-18 | four zero bytes neither hold the sync word nor start one |
| DtsSync.ResyncSkip | dts-sync.py:17-20 | after padding the resync skips -1, or between 4 and 4092 bytes |
| DtsSync.ResyncSkipFirst | dts-sync.py:17-22 | the resync lands on the first sync word within 4096 bytes of the cursor, and fails only when there is none |
| DtsSync.WindowOccurs | dts-sync.py:17-18 | a sync word in the window read is one in the stream at the same offset |
| DtsSync.StepAt | dts-sync.py:9-33 | every iteration moves the cursor forward or stops, with "done" exactly when nothing is left; a step without a frame follows padding |
| DtsSync.ScanStep | dts-sync.py:10-33 | the loop body peeks, then skips a frame, resyncs or stops, and leaves the cursor at the absolute position the script computes |
| DtsSync.Scan | dts-sync.py:7-35 | the loop reports the walk's messages, block count and ending |
| DtsSync.WalkEnd | dts-sync.py:11-13 | the walk ends with "done" exactly when the cursor has reached the end of the stream |
| DtsSync.ResyncStep | dts-sync.py:14-23 | a step that moves without reading a frame is a resync after padding, to the first sync word in the window |
| DtsSync.StepResync | dts-sync.py:19-21 | a reported resync lands on a sync word, at the first one in the window |
| DtsSync.FrameStepEvents | dts-sync.py:29-30 | a step that reads a frame reports at most an unusual frame size |
| DtsSync.WalkResyncs | dts-sync.py:16-23 | every resync of the walk lands on a sync word, the first one in its window |
| DtsSync.StepWellFormed | dts-sync.py:27-33 | a well-formed frame at the cursor counts one block and moves the cursor past it |
| DtsSync.CleanStream | dts-sync.py:9-35 | a stream of well-formed frames is walked to "done", with one block per frame and only fsize messages |
| DtsChunkSplit.Apply | dts-chunksplit.py:27-33 | writing never leaves the script without an open track |
| DtsChunkSplit.Desynced | dts-chunksplit.py:21-38 | a mismatch either resyncs and writes the gap, or loses sync and writes the last window read; that window is unbound when the mismatch is not padding and no resync came before |
| DtsChunkSplit.Synced | dts-chunksplit.py:40-47 | an in-sync frame is read and appended to the current track |
| DtsChunkSplit.SplitStep | dts-chunksplit.py:17-47 | the loop body takes dts-sync.py's step and writes what the step passes over |
| DtsChunkSplit.PaddingStep | dts-chunksplit.py:23-35 | after padding the window decides: a sync word writes the gap and opens the next track, none writes the whole window and stops |
| DtsChunkSplit.MismatchStep | dts-chunksplit.py:36-38 | any other mismatch loses sync and writes the last window, if there is one |
| DtsChunkSplit.SyncStep | dts-chunksplit.py:40-47 | a sync word with a whole header appends the frame; a truncated header stops |
| DtsChunkSplit.ChunkSplit | dts-chunksplit.py:11-51 | the script reports the run's messages and writes its track files, and says whether it ends in a NameError |
| DtsChunkSplit.RunStep | dts-chunksplit.py:16-47 | one step's writes come before those of the rest of the run |
| DtsChunkSplit.ApplyConcat | dts-chunksplit.py:27-45 | writing in two goes is the same as writing once |
| DtsChunkSplit.ApplyFlatten | dts-chunksplit.py:27-45 | the track files hold, in order, what was there and then what was written; each new track adds one file |
| DtsChunkSplit.RunReportsWalk | dts-chunksplit.py:16-47 | the script reports the messages, block count and ending that dts-sync.py reports on the same stream |
| DtsChunkSplit.Messages | dts-chunksplit.py:22-34 | every "starting track" line comes right after a resync message, and every resync message is followed by one |
| DtsChunkSplit.MessagesSaid | dts-chunksplit.py:22-43 | leaving out the "starting track" lines gives back the messages of dts-sync.py |
| DtsChunkSplit.MessagesAnnounced | dts-chunksplit.py:32-34 | the tracks announced are numbered on by one from the open track, one per resync |
| DtsChunkSplit.StepWritesBytes | dts-chunksplit.py:27-46 | a step that moves on writes exactly the bytes it moves over, and opens a track exactly on a resync |
| DtsChunkSplit.StepResyncs | dts-chunksplit.py:29-35 | a step that moves on reports one resync exactly when it reads no frame |
| DtsChunkSplit.RunWritesAll | dts-chunksplit.py:16-47 | a run ending with "done" writes every byte from the cursor on once and in order, and opens one track per resync |
| DtsChunkSplit.DoneTracks | dts-chunksplit.py:11-51 | when the script ends with "done", its track files together are the stream, and there is one more track than resyncs |
| DtsChunkSplit.DoneAnnounced | dts-chunksplit.py:11-51 | when the script ends with "done", it announces tracks 2, 3, ... up to the number of track files it wrote |
| Dts14.Word | dts14.py:17 | a signed 16-bit little-endian word is in -0x8000..0x7fff |
| Dts14.AllInRangeIff | dts14.py:24-25 | a block passes the assertion exactly when every word is in -0x2000..0x1fff |
| Dts14.Field | dts14.py:26 | `n & 0x3fff` is a 14-bit field |
| Dts14.FieldRoundTripIff | dts14.py:25-26 | sign-extending the 14-bit field gives back the word exactly when the assertion admits it |
| Dts14.ConvertWords | dts14.py:23-28 | the inner loop gives the block's 14 output bytes, or stops at a word out of range |
| Dts14.ConvertNext | dts14.py:20-22 | a read is a whole block exactly when one remains, and a whole block converts as the k-th block of the stream |
| Dts14.Convert | dts14.py:16-28 | `convert` writes the blocks from the cursor on, until a short block or a failed assertion |
| Dts14.Unpack14 | dts14.py:5-14 | the script skips the 0x2C-byte WAV header and converts the rest |
| Dts14.PackBound | dts14.py:26-28 | the eight 14-bit fields fit in the 14 bytes written |
| Dts14.ToBytesValue | dts14.py:28 | `to_bytes(n, 'big')` of a number below 256^n reads back as that number |
| Dts14.UnfieldsPack | dts14.py:23-26 | the 14-bit fields of the accumulator, sign-extended, are the words |
| Dts14.BlockLayout | dts14.py:23-28 | an output block is 14 bytes holding the eight fields, first word most significant, as one 112-bit big-endian number |
| Dts14.BlockRoundTrip | dts14.py:23-28 | the words of a block come back from its 14 output bytes |
| Dts14.ConvertLength | dts14.py:19-28 | each whole block gives 14 bytes, so a conversion that is not stopped writes 14 bytes per whole block |
| Dts14.TrailingDropped | dts14.py:20-22 | a last block shorter than 16 bytes changes nothing |
| Dts14.AbortedIff | dts14.py:25 | the conversion stops on the assertion exactly when some whole block holds a word out of range |
| Crc32.StepBranches | lib/crc32.go:15 | models the table that `hash/crc32`'s `MakeTable` builds (that package is outside this repository; the table reaches RollingCRC through this field): one bit of table division is the shift, xored with the polynomial when bit 0 is set |
| Crc32.TableStepIsBitwise | lib/crc32.go:49 | one table lookup does the work of xoring in the byte and dividing eight bits |
| Crc32.RawIsBitwise | lib/crc32.go:56 | the table-driven update Go runs is the bitwise CRC |
| Crc32.UpdateAppend | lib/crc32.go:56 | updating by x and then by y is updating by x + y |
| Crc32.RawLinear | lib/crc32.go:46-49 | the CRC fold is linear over GF(2) in the register and the data together |
| Crc32.RawZeros | lib/crc32.go:68-69 | n zero bytes divide the register 8n bits further |
| Crc32.RawLeadingZero | lib/crc32.go:65-66 | a leading zero byte leaves the unmasked CRC unchanged |
| Crc32.ChecksumSplit | lib/crc32.go:75-77 | the CRC-32 of a window is its unmasked CRC xored with the CRC-32 of as many zero bytes |
| Crc32.CrcMulTableIsByteMul | lib/crc32.go:79-90 | `crcmulTable` computes the GF(2) product, modulo the polynomial, of the complemented register and the byte |
| Crc32.ByteMulWindow | lib/crc32.go:46 | multiplying the CRC of 0x80 and k zero bytes by v gives the CRC of v and k zero bytes |
| Crc32.RemoveFront | lib/crc32.go:44-50 | xoring out the CRC of the first byte followed by zeros removes that byte from the window |
| Crc32.RawInjective | lib/crc32.go:24-28 | with the polynomial's constant term present, the same data never maps two registers to one |
| Crc32.IEEEBits | lib/crc32.go:15 | the `crc32.IEEE` polynomial of `hash/crc32` (outside this repository; it reaches RollingCRC through this table field): 0xEDB88320 has its top bit set and the low bits the proofs use |
| Crc32.OnesZeroByte | lib/crc32.go:26 | under the IEEE polynomial one zero byte moves the all-ones preset elsewhere |
| RollingCrc.UpdateState | lib/crc32.go:37-73 | Update panics exactly when more bytes leave than the window holds, or when a non-empty window gets fewer entering than leaving bytes; otherwise the window grows by the excess entering bytes |
| RollingCrc.NewIsEmpty | lib/crc32.go:18-28 | a fresh RollingCRC summarises the empty window |
| RollingCrc.SumIsChecksum | lib/crc32.go:75-77 | Sum32 is the CRC-32 of the window once it holds a byte |
| RollingCrc.EmptySum | lib/crc32.go:24-28 | an empty window reports the CRC-32 of one zero byte |
| RollingCrc.RollByteSlides | lib/crc32.go:44-50 | one turn of the loop slides the window by one byte |
| RollingCrc.RollSlides | lib/crc32.go:44-50 | the whole loop slides the window by the leaving bytes |
| RollingCrc.LoopSlides | lib/crc32.go:42-51 | the loop leaves the register of the slid window |
| RollingCrc.GrownSlides | lib/crc32.go:54-71 | growing by the excess bytes keeps the fields those of the longer window |
| RollingCrc.UpdateSlides | lib/crc32.go:30-37 | Update with the bytes added size bytes ago keeps Sum32 the CRC-32 of the window slid by them |
| RollingCrc.UpdateSplits | lib/crc32.go:33-34 | a longer incoming is the same as an update of equal lengths, then adding the excess |
| RollingCrc.WholeBuffer | lib/crc32_test.go:96-102 | a fresh object given a whole buffer reports its CRC-32 |
| RollingCrc.SlideOverBuffer | lib/crc32_test.go:104-120 | sliding a window over a buffer by any stride keeps Sum32 equal to the CRC-32 of the current window |
| RollingCrc.ResetKeepsSize | lib/crc32.go:24-28 | Reset leaves size alone, so adding data after it reports the CRC-32 of a zero byte followed by the data |
| RollingCrc.ResetHoldsZeroByte | lib/crc32.go:24-28 | the fields Reset leaves are those of a window holding one zero byte |
| RollingCrc.GrowIgnoresSize | lib/crc32.go:54-71 | adding to a non-empty window computes the same fields whatever its size |
| RollingCrc.LeadingZeroChangesChecksum | lib/crc32.go:24-28 | under the IEEE polynomial that extra zero byte always changes the result |
| RollingCrc.ResetWindowEmpties | lib/crc32.go:24-28 | the corrected reset makes the object a fresh one, summarising the empty window |
| RollingCrc.RollingCRC.constructor | lib/crc32.go:18-22 | `NewRollingCRC` builds the fresh state over the empty window |
| RollingCrc.RollingCRC.Reset | lib/crc32.go:24-28 | Reset as written: crc, zero and one restored, size kept |
| RollingCrc.RollingCRC.ResetWindow | lib/crc32.go:24-28 | Reset as intended: the window emptied as well |
| RollingCrc.RollingCRC.Update | lib/crc32.go:37-73 | Update panics and changes nothing, or moves the fields to the next state; the window slides by the leaving bytes and grows by the excess |
| RollingCrc.RollingCRC.RollLoop | lib/crc32.go:42-51 | the loop fails by index exactly when new is shorter than old on a non-empty window, and otherwise leaves the rolled register |
| RollingCrc.RollingCRC.Grow | lib/crc32.go:53-71 | growth adds the excess bytes, extends zero and one, and enlarges the zero slice only when it is too small |
| RollingCrc.RollingCRC.Sum32 | lib/crc32.go:75-77 | Sum32 is the CRC-32 of the window |
| SeekPoints.ParseHeader | seekpoints.py:100-104 | a block header gives a 7-bit type and a 24-bit length |
| SeekPoints.HeaderRoundTrip | seekpoints.py:100-104 | every header the format allows reads back as written |
| SeekPoints.FindSeektableBlock | seekpoints.py:87-115 | the loop gives the offset and length of the first SEEKTABLE header, or (0, 0, False), or the error of the first bad header |
| SeekPoints.HasSeektableChunk | seekpoints.py:57-85 | `does_it_have_a_seektable_chunk` answers exactly the found flag of `find_seektable_block`, with the same errors |
| SeekPoints.WalkFindsHeader | seekpoints.py:92-113 | a block the walk reports is a SEEKTABLE header inside the file with the length it states |
| SeekPoints.FindFindsHeader | seekpoints.py:87-115 | a found SEEKTABLE header lies after the magic, inside the file, and states the length returned |
| SeekPoints.FindFirstBlock | seekpoints.py:92-115 | a first block that is a SEEKTABLE is found at offset 4; a last block of another type means no seek table |
| SeekPoints.Tally | seekpoints.py:130-135 | the two counts add up to at most the number of points |
| SeekPoints.TallySnoc | seekpoints.py:130-134 | one more point changes the counts by that point alone |
| SeekPoints.GetSeekpointStats | seekpoints.py:119-135 | the counts of the length / 18 points after the header, or "premature end" when the file is too short |
| SeekPoints.CountPoints | seekpoints.py:125-135 | the counting loop gives the counts of n points, or fails when they do not all fit |
| SeekPoints.CountNext | seekpoints.py:126-134 | one turn reads a point and counts it, or finds it cut short |
| SeekPoints.StatsBound | seekpoints.py:125-135 | placeholders and empty points together are at most length / 18 |
| SeekPoints.TallyPlaceholders | seekpoints.py:131-132 | the placeholder count is zero exactly when no point is a placeholder |
| SeekPoints.TallyEmpty | seekpoints.py:133-134 | the empty count is zero exactly when every point that is not a placeholder has frame samples |
| SeekPoints.ScanFile | seekpoints.py:40-55 | the lines printed for one file |
| SeekPoints.ScanFilenames | seekpoints.py:32-55 | the lines of each file, in the order of the files |
| SeekPoints.ReportedIff | seekpoints.py:43-51 | a file is listed exactly when it cannot be read, has no seek table, or has a placeholder or empty point |
| SeekPoints.QuietOneLine | seekpoints.py:33-37 | without -v a file gets at most one line: its name or the error |
| FlacSplit.ChapterFileIff | flacsplit.py:22-34 | the chapter file is read exactly when there are more than two arguments and the first is neither empty nor `-` |
| FlacSplit.Positions | flacsplit.py:43-44 | one sample position per mark: the integer nearest to (tick − 27000000) × 96000 / 45000, a tie going to the even one |
| FlacSplit.TrackSamples | flacsplit.py:36-47 | no marks is an IndexError, a first mark other than 27000000 an AssertionError; otherwise one count per later mark |
| FlacSplit.SamplesAt | flacsplit.py:43-46 | each count is the difference of two neighbouring positions |
| FlacSplit.SamplesSum | flacsplit.py:41-47 | the counts telescope to the position of the last mark |
| FlacSplit.PositionExact | flacsplit.py:44 | fifteen ticks are exactly 32 samples, with no rounding |
| FlacSplit.PositionMonotone | flacsplit.py:43-44 | marks in order fall on samples in order |
| FlacSplit.SamplesNonNegative | flacsplit.py:41-47 | sorted marks from 27000000 on give no negative count |
| FlacSplit.Pipeline | flacsplit.py:49-53 | two entries per track |
| FlacSplit.BuildPipeline | flacsplit.py:49-53 | the loop builds the trim and newfile entries of every track |
| FlacSplit.PipelineAt | flacsplit.py:50-53 | entry 2k trims track k's count and entry 2k + 1 is `newfile` |
| FlacSplit.TrimRoundTrip | flacsplit.py:52 | the count of a trim reads back from its text |
| FlacSplit.Summarise | flacsplit.py:36-54 | what `main` prints once the marks are read |
| FlacSplit.Run | flacsplit.py:19-54 | `main` reads from the chapter file or standard input, and fails on a line that is not an integer |
| Rename.Lower | rename.py:11 | `lower()` keeps the length, leaves no ASCII capital, turns each one into its small letter and leaves every other character as it is |
| Rename.LowerIdempotent | rename.py:11 | lowering twice is lowering once |
| Rename.LowerPrefix | rename.py:11 | lowering a prefix is taking the prefix of the lowered text, so `startswith` on lowered texts compares lowered prefixes |
| Rename.Deprefix | rename.py:10-13 | `deprefix` returns a suffix of s; it is shorter exactly when the prefix is not empty, fits and matches the start of s ignoring case, and then it is len(prefix) characters shorter |
| Rename.DeprefixRoundTrip | rename.py:10-13 | a prefix written in any case comes off, and only it |
| Rename.DeprefixMismatch | rename.py:10-13 | a text that differs from the prefix in case-folded characters is left alone |
| Rename.StripChars | rename.py:29 | `strip("\n\t ")` returns a piece of the text that neither starts nor ends with one of those characters, with only those characters before and after it |
| Rename.FlacTagOf | rename.py:27-30 | what metaflac prints for a tag, `TAG=value`, becomes the value without blanks at its ends |
| Rename.StripLine | rename.py:29 | the line break after a value is stripped, and nothing else |
| Rename.FlacNumberRoundTrip | rename.py:81-86 | a number metaflac prints as `TAG=n` reads back as n |
| Rename.LineEnd | rename.py:60 | the first line ends at the first line break |
| Rename.SplitLinesCons | rename.py:60 | a line without breaks, then `\n`, is the first line `splitlines` finds |
| Rename.SplitJoinLines | rename.py:60 | `splitlines` takes back apart lines written one at a time |
| Rename.Partition | rename.py:64 | `partition('=')` splits at the first `=`, and gives the whole line and "" when there is none |
| Rename.PartitionOf | rename.py:64 | `key=value` partitions into the key and the value when the key has no `=` |
| Rename.Step | rename.py:61-66 | the key a tab-led line would continue is always one of the tags parsed |
| Rename.ParseOpusTags | rename.py:58-66 | the parsing loop builds the tags of the lines, one step each |
| Rename.StepsAppend | rename.py:60-66 | parsing two runs of lines is parsing one and then the other |
| Rename.StepFirst | rename.py:64-66 | `key=value` sets the key and makes it the last key |
| Rename.StepContinue | rename.py:61-62 | a tab-led line after a key adds a new line to that key's value |
| Rename.StepsTag | rename.py:58-66 | the lines of one printed tag set it to its lines joined by newlines |
| Rename.StepsAllTags | rename.py:58-66 | parsing what `opustags` prints gives each tag's value, a later duplicate key replacing an earlier one |
| Rename.TagLinesUnbroken | rename.py:60 | each printed line of a tag is free of line breaks |
| Rename.OpusTagsRoundTrip | rename.py:58-69 | `read_opus_tag` on `opustags` output for a list of tags finds each key's value, the last one for a repeated key |
| Rename.ReaderByExtension | rename.py:71-76 | `.dts` and `.ac3` go to the APE reader, `.opus` to opustags, and `.flac` and every name ending in none of `.dts`, `.ac3`, `.opus` to metaflac |
| Rename.ReadNumber | rename.py:81-86 | `read_number` gives a number exactly when the tag is an integer literal |
| Rename.ReplaceRemoves | rename.py:92-98 | replacing a character by text without it leaves none of it |
| Rename.ReplaceKeeps | rename.py:89-98 | replacing never brings in a character that neither the text nor the replacement has |
| Rename.ReplaceAbsent | rename.py:89-98 | `replace` leaves a text without the first character of the pattern unchanged |
| Rename.ReplaceAfter | rename.py:89-98 | `replace` leaves a front part without the pattern's first character as it is and works on the rest |
| Rename.ReplaceAllAbsent | rename.py:89-98 | a chain of rules none of whose patterns starts in the text leaves it unchanged |
| Rename.RemoveControl | rename.py:99 | the control-character `re.sub` leaves only characters of the input that are not U+0000-U+001F or U+007F, and leaves a text without them unchanged |
| Rename.RemoveControlAppend | rename.py:99 | the removal works piece by piece: on a join it is the join of the removals |
| Rename.RemoveControlOne | rename.py:99 | a single character is kept exactly when it is not a control character |
| Rename.RemoveBetweenNoPair | rename.py:101-102 | removing from the first `(` to the last `)` leaves no `(` before a `)` |
| Rename.RemoveBetweenKeepsNoPair | rename.py:101-102 | the second removal keeps what the first achieved |
| Rename.RemoveBetweenKeeps | rename.py:101-102 | the removal only deletes characters |
| Rename.ReplaceAllRemoves | rename.py:89-98 | the chain of replacements leaves none of the characters a later rule takes out |
| Rename.ReplaceAllKeeps | rename.py:89-98 | a character that is not in the title and that no rule brings in stays out |
| Rename.RulesShape | rename.py:89-98 | after the first, each rule replaces one character by harmless text |
| Rename.ReplacedSafe | rename.py:89-98 | after the replacements none of `: / ? * ‘ ’ “ ” " — ‐ …` is left |
| Rename.Replaced | rename.py:89-98 | the replacements leave none of the characters they take out, and leave a title without any of them unchanged |
| Rename.Unparen | rename.py:100-102 | with noparens no `(` precedes a `)` and no `[` precedes a `]`; only characters of the input remain; without noparens, or on a title with no such pair, nothing changes |
| Rename.UnparenPair | rename.py:100-102 | with noparens, `a(m)b` becomes `ab` when a has no `(`, b has no `)` and neither holds a bracketed part, whatever m holds |
| Rename.RemoveBetweenPair | rename.py:101 | the greedy `re.sub` removes from the first opening character to the last closing one |
| Rename.Tidy | rename.py:103-104 | `rstrip('. ').strip()` returns the piece of the text at `TidyFrom(s)` that neither starts nor ends with whitespace, with only whitespace before it and only whitespace, dots and spaces after it |
| Rename.ReplacedColonSpace | rename.py:89-90 | for any texts a and b without replaced characters, `a: b` becomes `a - b`: the ": " rule runs before the ":" rule |
| Rename.ReplacedColonDot | rename.py:89-90 | for any such a and b where b does not start with a space, `a:b` becomes `a.b` |
| Rename.RemoveControlSafe | rename.py:99 | after the replacements and the control-character removal every character is safe |
| Rename.CleanSafe | rename.py:88-105 | a cleaned title holds none of the replaced characters and no control character |
| Rename.CleanNoParens | rename.py:100-104 | with noparens a cleaned title has no `(` before a `)` and no `[` before a `]` |
| Rename.TidySafe | rename.py:103-104 | stripping keeps the title safe |
| Rename.TidyNoPair | rename.py:103-104 | stripping keeps the title free of bracket pairs |
| Ctdb.FirstBad | ctdb.py:42-47 | the first track that is not 44100 Hz stereo |
| Ctdb.Toc | ctdb.py:40-51 | one entry per track, plus one |
| Ctdb.GetToc | ctdb.py:38-53 | `get_toc` raises for the first track that is not 44100 Hz stereo, and otherwise returns the start sector of each track and the end sector |
| Ctdb.StartsSnoc | ctdb.py:42-43 | one more track adds its start sector |
| Ctdb.FirstBadAt | ctdb.py:46-47 | the loop stops at the first track that is not CD audio |
| Ctdb.SamplesMonotone | ctdb.py:49-50 | the samples of a longer prefix are at least those of a shorter one |
| Ctdb.LengthIsSamples | ctdb.py:49 | at 44100 Hz a track's length is its number of samples |
| Ctdb.TocFirst | ctdb.py:40-43 | the first entry is sector 0 |
| Ctdb.TocStart | ctdb.py:43 | entry k is the sector in which the samples of the tracks before k end, rounded down |
| Ctdb.TocLast | ctdb.py:51 | the last entry is the number of sectors the tracks fill, rounded up |
| Ctdb.TocMonotone | ctdb.py:40-51 | entries never decrease |

## Left out

- **Command lines, printing and files.**
  - The `main` functions' argument parsing, `print`, `sys.exit` messages and the opening of
    output files with `'xb'` are not modelled. Output files are byte sequences, and messages
    are events or lines.
  - The seekpoints.py `main` is not modelled: the `-v` and `-r` flags and the `os.walk`
    traversal. `scan_filenames` is given each file's name and contents.
  - When `open` raises in seekpoints.py (a missing or unreadable file), the error line is not
    modelled.
  - The file names `track%02d.dts` are not modelled, nor is their exclusive creation failing
    on an existing file.
- **Floating point.** `round(tick * (DTS_HZ / TICK_HZ) / DTS_FRAME_SAMPLES)` (dtssplit.py:42)
  and `round(tick * (96000.0 / 45000.0))` (flacsplit.py:44) are modelled as exact rationals
  rounded half to even. No claim is made that they agree bit for bit with Python's floats.
- **peek.** `f.peek(10)` is modelled as returning the next ten bytes, or as many as remain.
  CPython may return more or fewer. A sync word followed by fewer than eight bytes makes
  `header[7]` raise IndexError; the model ends the walk there (`Truncated`).
- **Python's `-O`.** Running with `-O` drops the assertions at dts14.py:25, dtssplit.py:34
  and flacsplit.py:36; the model keeps them.
- **dts14.py output width.** `to_bytes` would raise OverflowError for an accumulator of 112
  bits or more. Words that pass the assertion never reach it (`Dts14.PackBound`), and with
  assertions disabled it cannot be reached either, since `n & 0x3fff` is always 14 bits.
- **The seekpoints.py truncation check** (seekpoints.py:105-107). It compares the position
  `seek` returns with the one expected. Seeking past the end of a regular file returns the
  requested position, so the check never fires. `Common.Reader.SeekBy` models that, and the
  walk has no "truncated metadata block" error.
- **crc32 test helpers.** `crcmulUnmasked` and `crcmul32` in lib/crc32_test.go are not in the
  source and are not modelled. Go's `hash/crc32` is not part of this model: CRC-32, its
  table and `Update`/`Checksum` are defined bitwise in `Crc32` and proved equal to the
  table-driven form.
- **RollingCRC's table pointer and scratch slice.** The table is given by its polynomial. The
  zero slice `z` is modelled by its capacity only, since it only ever holds zero bytes.
- **RollingCRC's undefined case.** Update's result for leaving bytes that are not the ones
  added `size` bytes ago is undefined in the source. The lemmas assume they are.
- **rename.py outside the named helpers.** `main`, the interactive prompt and `os.rename`
  are not modelled.
- **Tag readers.** The `metaflac`, `ape.py` and `opustags` subprocesses are replaced by what
  they printed or by their failure (`ToolOutput`).
- **The opus cache.** The `_opus_cache` dictionary only avoids running `opustags` twice; it
  is not modelled.
- **UTF-8 decoding.** The tools' output is taken as already decoded text.
- Rename.Lower: lowers ASCII letters only, where Python's `str.lower()` also lowers other
  letters.
- Decimal.ParseInt: accepts ASCII digits only, where Python's `int` also accepts other
  Unicode decimal digits.
- Rename.RemoveBetween: models `re.sub(r'\(.*\)', '', s)` as removing from the first `(` to
  the last `)`. That is exact here because `.` does not match a newline and the
  control-character step before it has removed every newline.
- Rename.IsLineBreak: the line breaks of `splitlines` are the ASCII ones plus U+0085, U+2028
  and U+2029. No other characters break lines.
- **ctdb.py beyond `get_toc`.** `lookup_toc`, `main` and `mutagen.flac.Open` are not modelled;
  each track's stream information is passed in as a value.
- **Other repository files.** ctdb_crc32.go (stdin buffering around RollingCRC), ape.py,
  renumber.py and chaps.py are not part of this model.
- Dts14.Word: injectivity of the word decoding is not proved separately; `BlockRoundTrip`
  gives the inverse on blocks that pass the assertion.

## Findings

| source | as written | input that shows it | evidently intended | confidence | as-written member | corrected member |
|---|---|---|---|---|---|---|
| lib/crc32.go:24-28 | `Reset` restores `crc`, `zero` and `one` but keeps `size` | Update(nil, a) with a non-empty a, then Reset, then Update(nil, d): Sum32 is CRC-32 of [0x00] followed by d, not CRC-32 of d | Reset empties the window, as `NewRollingCRC` does | not executed | RollingCrc.ResetKeepsSize | RollingCrc.ResetWindowEmpties |
