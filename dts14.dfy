/** dts14.py: turn a DTS-WAV file, whose samples carry 14 bits of a DTS stream each, back
    into the plain DTS stream.

    After the 0x2C-byte WAV header the file is read in blocks of 16 bytes: eight signed
    16-bit little-endian words, each of which must lie in [-0x2000, 0x1fff]. The low 14
    bits of the eight words, first word first, make a 112-bit number that is written as
    14 big-endian bytes. A last block shorter than 16 bytes is dropped; a word out of range
    fails the assertion and ends the script, leaving what was written so far. */
module Dts14 {
  import opened Common

  /** The WAV header skipped before converting. */
  const HeaderSize: nat := 0x2C

  /** The bytes of an input block, and of the block written for it. */
  const InBlock: nat := 16
  const OutBlock: nat := 14

  /** One signed 16-bit little-endian word, as `struct` format `<h` reads it. */
  function Word(lo: byte, hi: byte): (n: int)
    ensures -0x8000 <= n < 0x8000
  {
    var u := lo as int + 256 * hi as int;
    if u >= 0x8000 then u - 0x10000 else u
  }

  /** The words of an even number of bytes: `struct.unpack("<hhhhhhhh", block)` on 16. */
  function Words(block: seq<byte>): (ws: seq<int>)
    requires |block| % 2 == 0
  {
    seq(|block| / 2, k requires 0 <= k < |block| / 2 => Word(block[2 * k], block[2 * k + 1]))
  }

  /** What the assertion of the inner loop admits. */
  predicate InRange(n: int) {
    -0x2000 <= n <= 0x1fff
  }

  /** Every word passes the assertion. */
  predicate AllInRange(ws: seq<int>)
    decreases |ws|
  {
    ws == [] || (InRange(ws[0]) && AllInRange(ws[1..]))
  }

  lemma {:induction false} AllInRangeIff(ws: seq<int>)
    ensures AllInRange(ws) <==> forall k :: 0 <= k < |ws| ==> InRange(ws[k])
    decreases |ws|
  {
    if ws != [] {
      AllInRangeIff(ws[1..]);
      assert forall k :: 1 <= k < |ws| ==> ws[k] == ws[1..][k - 1];
    }
  }

  /** `n & 0x3fff` on a Python int: the residue modulo 2^14, also for negative n. */
  function Field(n: int): (f: nat)
    ensures f < 0x4000
  {
    n % 0x4000
  }

  /** A 14-bit field read back as a signed number. */
  function SignExtend(f: nat): int {
    if f >= 0x2000 then f - 0x4000 else f
  }

  /** The accumulator after the words: `bits = (bits << 14) + (n & 0x3fff)` for each. */
  function Pack(ws: seq<int>): nat
    decreases |ws|
  {
    if ws == [] then 0 else Pack(ws[..|ws| - 1]) * 0x4000 + Field(ws[|ws| - 1])
  }

  function Pow(b: nat, e: nat): (p: nat)
    ensures b > 0 ==> p > 0
  {
    if e == 0 then 1 else b * Pow(b, e - 1)
  }

  /** The low n base-256 digits of x, most significant first. */
  function Digits(x: nat, n: nat): (ds: seq<nat>)
    ensures |ds| == n
    ensures forall k :: 0 <= k < n ==> ds[k] < 256
  {
    if n == 0 then [] else Digits(x / 256, n - 1) + [x % 256]
  }

  /** The low n bytes of x, most significant first: `x.to_bytes(n, 'big')` for an x that
      fits in n bytes (Python raises OverflowError for any other; `PackBound` shows that the
      accumulator always fits). */
  function ToBytes(x: nat, n: nat): (s: seq<byte>)
    ensures |s| == n
  {
    var ds := Digits(x, n);
    seq(n, k requires 0 <= k < n => ds[k] as byte)
  }

  /** One block of 16 bytes: its 14 output bytes, or None when a word fails the assertion. */
  function ConvertBlock(block: seq<byte>): (r: Option<seq<byte>>)
    requires |block| == 16
  {
    var ws := Words(block);
    if AllInRange(ws) then
      Some(ToBytes(Pack(ws), OutBlock))
    else None
  }

  /** What the conversion loop leaves behind: its output, and whether an assertion ended it. */
  datatype Converted = Converted(out: seq<byte>, aborted: bool)

  /** The k-th whole block of the bytes. */
  function BlockOf(data: seq<byte>, k: nat): (block: seq<byte>)
    requires 16 * k + 16 <= |data|
    ensures |block| == 16
  {
    data[16 * k..16 * k + 16]
  }

  /** What each whole block converts to; a trailing partial block has no entry. */
  function Results(data: seq<byte>): (rs: seq<Option<seq<byte>>>)
    ensures |rs| == |data| / 16
  {
    seq(|data| / 16, k requires 0 <= k < |data| / 16 => ConvertBlock(BlockOf(data, k)))
  }

  /** `out` followed by the outputs of the blocks from the i-th on, up to the first block
      that fails. */
  function Assemble(rs: seq<Option<seq<byte>>>, i: nat, out: seq<byte>): Converted
    requires i <= |rs|
    decreases |rs| - i
  {
    if i == |rs| then Converted(out, false)
    else match rs[i]
      case None => Converted(out, true)
      case Some(bytes) => Assemble(rs, i + 1, out + bytes)
  }

  /** The loop of `convert` over the bytes after the cursor. */
  function ConvertAll(data: seq<byte>): Converted {
    Assemble(Results(data), 0, [])
  }

  /** The inner loop: the words of a whole block shifted into the accumulator one by one,
      each checked first, and the accumulator written as 14 bytes. */
  method ConvertWords(block: seq<byte>) returns (r: Option<seq<byte>>)
    requires |block| == 16
    ensures r == ConvertBlock(block)
  {
    var ws := Words(block);
    var bits: nat := 0;
    var i := 0;
    while i < 8
      invariant 0 <= i <= 8 && bits == Pack(ws[..i])
      invariant forall k :: 0 <= k < i ==> InRange(ws[k])
    {
      var n := ws[i];
      if !InRange(n) {
        AllInRangeIff(ws);
        return None;
      }
      assert ws[..i + 1][..i] == ws[..i];
      bits := bits * 0x4000 + Field(n);
      i := i + 1;
    }
    assert ws[..8] == ws;
    AllInRangeIff(ws);
    PackBound(ws);
    return Some(ToBytes(bits, 14));
  }

  /** The body of the outer loop: read a block and, if it is whole, convert it. The ghost
      parameters place the cursor at the i-th whole block after `start`. */
  method ConvertNext(f: Reader<byte>, ghost start: nat, ghost i: nat) returns (block: seq<byte>, r: Option<seq<byte>>)
    requires f.pos == start + 16 * i && i <= |Results(From(f.data, start))|
    modifies f
    ensures block == Chunk(f.data, old(f.pos), 16) && f.pos == old(f.pos) + |block|
    ensures r == if |block| == 16 then ConvertBlock(block) else None
    ensures |block| == 16 <==> i < |Results(From(f.data, start))|
    ensures |block| == 16 ==> r == Results(From(f.data, start))[i]
  {
    BlockAt(f.data, start, i);
    block := f.Read(16);
    r := None;
    if |block| == 16 {
      r := ConvertWords(block);
    }
  }

  /** `convert(f, out)`: the blocks from the cursor on, until a short block or a failed
      assertion. */
  method Convert(f: Reader<byte>) returns (out: seq<byte>, aborted: bool)
    modifies f
    ensures Converted(out, aborted) == ConvertAll(From(f.data, old(f.pos)))
  {
    ghost var start := f.pos;
    ghost var rs := Results(From(f.data, start));
    ghost var i := 0;
    out := [];
    while true
      invariant 0 <= i <= |rs| && f.pos == start + 16 * i
      invariant Assemble(rs, i, out) == Assemble(rs, 0, [])
      decreases |rs| - i
    {
      var block, r := ConvertNext(f, start, i);
      if |block| < 16 {
        return out, false;
      }
      if r.None? {
        return out, true;
      }
      out := out + r.value;
      i := i + 1;
    }
  }

  /** How the loop sees the bytes from the start of its i-th block. */
  lemma BlockAt(data: seq<byte>, start: nat, i: nat)
    requires i <= |Results(From(data, start))|
    ensures var block := Chunk(data, start + 16 * i, 16);
            && (|block| == 16 <==> i < |Results(From(data, start))|)
            && (|block| == 16 ==> Results(From(data, start))[i] == ConvertBlock(block))
  {
    var tail := From(data, start);
    if i < |tail| / 16 {
      assert BlockOf(tail, i) == Chunk(data, start + 16 * i, 16);
    }
  }

  /** The script on a whole file: skip the header, then convert. */
  method Unpack14(data: seq<byte>) returns (out: seq<byte>, aborted: bool)
    ensures Converted(out, aborted) == ConvertAll(From(data, HeaderSize))
  {
    var f := new Reader(data);
    var _ := f.Read(HeaderSize);
    assert f.pos == Min(HeaderSize, |data|);
    assert From(data, f.pos) == From(data, HeaderSize);
    out, aborted := Convert(f);
  }

  // ---------------------------------------------------------------------------------------
  // Properties

  /** Eight 14-bit fields fit in the 14 bytes written. */
  lemma PackBound(ws: seq<int>)
    requires |ws| == 8
    ensures Pack(ws) < Pow(256, 14)
  {
    PackBelow(ws);
    FieldsFitBytes();
  }

  /** 2^112 both ways. */
  lemma FieldsFitBytes()
    ensures Pow(0x4000, 8) == Pow(256, 14)
  {
    assert Pow(0x4000, 8) == 0x1_0000_0000_0000_0000_0000_0000_0000;
    assert Pow(256, 14) == 0x1_0000_0000_0000_0000_0000_0000_0000;
  }

  lemma {:induction false} PackBelow(ws: seq<int>)
    ensures Pack(ws) < Pow(0x4000, |ws|)
    decreases |ws|
  {
    if ws != [] {
      var init := ws[..|ws| - 1];
      PackBelow(init);
      assert Pack(ws) <= (Pow(0x4000, |init|) - 1) * 0x4000 + 0x3fff;
    }
  }

  /** Reading the bytes back gives the number written. */
  lemma {:induction false} ToBytesValue(x: nat, n: nat)
    requires x < Pow(256, n)
    ensures BigEndian(ToBytes(x, n)) == x
    decreases n
  {
    if n > 0 {
      var s := ToBytes(x, n);
      var init := ToBytes(x / 256, n - 1);
      ToBytesValue(x / 256, n - 1);
      ByteValue(x % 256);
      assert Digits(x, n)[..n - 1] == Digits(x / 256, n - 1);
      assert s[..n - 1] == init;
      assert s[n - 1] as int == x % 256;
    }
  }

  /** The 14-bit fields of a number, first field most significant, sign-extended. */
  function Unfields(x: nat, n: nat): (ws: seq<int>)
    ensures |ws| == n
    decreases n, x
  {
    if n == 0 then [] else Unfields(x / 0x4000, n - 1) + [SignExtend(x % 0x4000)]
  }

  /** The fields of the accumulator are those of the words, and sign extension recovers
      every word that passed the assertion. */
  lemma {:induction false} UnfieldsPack(ws: seq<int>)
    requires forall k :: 0 <= k < |ws| ==> InRange(ws[k])
    ensures Unfields(Pack(ws), |ws|) == ws
    decreases |ws|
  {
    if ws != [] {
      var init := ws[..|ws| - 1];
      var last := ws[|ws| - 1];
      UnfieldsPack(init);
      var x := Pack(ws);
      assert x / 0x4000 == Pack(init) && x % 0x4000 == Field(last);
      assert SignExtend(Field(last)) == last;
      assert init + [last] == ws;
    }
  }

  /** The words a 14-byte output block came from. */
  function Decode(bytes: seq<byte>): (ws: seq<int>)
    ensures |ws| == 8
  {
    Unfields(BigEndian(bytes), 8)
  }

  /** Each block is invertible: the words come back from the 14 bytes written. */
  lemma BlockRoundTrip(block: seq<byte>)
    requires |block| == 16 && ConvertBlock(block).Some?
    ensures Decode(ConvertBlock(block).value) == Words(block)
  {
    var ws := Words(block);
    AllInRangeIff(ws);
    PackBound(ws);
    ToBytesValue(Pack(ws), 14);
    UnfieldsPack(ws);
  }

  /** The output block is the eight 14-bit fields, first word most significant, as one
      112-bit big-endian number. */
  lemma BlockLayout(block: seq<byte>)
    requires |block| == 16 && ConvertBlock(block).Some?
    ensures |ConvertBlock(block).value| == 14
    ensures BigEndian(ConvertBlock(block).value) == Pack(Words(block))
  {
    PackBound(Words(block));
    ToBytesValue(Pack(Words(block)), 14);
  }

  /** The assertion admits exactly the words that their low 14 bits carry whole. */
  lemma FieldRoundTripIff(n: int)
    ensures SignExtend(Field(n)) == n <==> InRange(n)
  {
  }

  /** Fourteen bytes per whole block; a conversion that runs to the end writes one for each
      of them, and one cut short by an assertion writes fewer. */
  lemma ConvertLength(data: seq<byte>)
    ensures var c := ConvertAll(data);
            && |c.out| % 14 == 0
            && (!c.aborted ==> |c.out| == 14 * (|data| / 16))
            && (c.aborted ==> |c.out| < 14 * (|data| / 16))
  {
    var rs := Results(data);
    forall k | 0 <= k < |rs| && rs[k].Some? ensures |rs[k].value| == 14 {
    }
    AssembleLength(rs, 0, []);
  }

  lemma {:induction false} AssembleLength(rs: seq<Option<seq<byte>>>, i: nat, out: seq<byte>)
    requires i <= |rs| && |out| % 14 == 0
    requires forall k :: 0 <= k < |rs| && rs[k].Some? ==> |rs[k].value| == 14
    ensures var c := Assemble(rs, i, out);
            && |c.out| % 14 == 0
            && (!c.aborted ==> |c.out| == |out| + 14 * (|rs| - i))
            && (c.aborted ==> |c.out| < |out| + 14 * (|rs| - i))
    decreases |rs| - i
  {
    if i < |rs| && rs[i].Some? {
      var next := out + rs[i].value;
      MoreBlocks(|out|);
      AssembleLength(rs, i + 1, next);
    }
  }

  lemma MoreBlocks(m: nat)
    ensures (14 + m) % 14 == m % 14
  {
  }

  /** A last block shorter than 16 bytes changes nothing. */
  lemma TrailingDropped(data: seq<byte>)
    ensures ConvertAll(data) == ConvertAll(data[..16 * (|data| / 16)])
  {
    var whole := data[..16 * (|data| / 16)];
    forall k | 0 <= k < |data| / 16 ensures BlockOf(whole, k) == BlockOf(data, k) {
    }
    assert Results(whole) == Results(data);
  }

  /** Whether a word of the k-th whole block fails the assertion. */
  predicate BadBlock(data: seq<byte>, k: nat)
    requires 16 * k + 16 <= |data|
  {
    ConvertBlock(BlockOf(data, k)).None?
  }

  /** The conversion stops on an assertion exactly when some whole block holds a word out
      of range. */
  lemma AbortedIff(data: seq<byte>)
    ensures ConvertAll(data).aborted <==> exists k: nat :: k < |data| / 16 && BadBlock(data, k)
  {
    var rs := Results(data);
    AssembleAborted(rs, 0, []);
    if ConvertAll(data).aborted {
      var k :| 0 <= k < |rs| && rs[k].None?;
      assert BadBlock(data, k);
    } else {
      forall k: nat | k < |data| / 16 ensures !BadBlock(data, k) {
        assert rs[k].Some?;
      }
    }
  }

  lemma {:induction false} AssembleAborted(rs: seq<Option<seq<byte>>>, i: nat, out: seq<byte>)
    requires i <= |rs|
    ensures Assemble(rs, i, out).aborted <==> exists k :: i <= k < |rs| && rs[k].None?
    decreases |rs| - i
  {
    if i < |rs| && rs[i].Some? {
      AssembleAborted(rs, i + 1, out + rs[i].value);
    }
  }
}
