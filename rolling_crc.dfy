/**
 * The rolling CRC-32 of lib/crc32.go.
 *
 * A RollingCRC keeps the CRC of a window of bytes. Bytes leave on the left and enter on the
 * right. The fields are:
 * - size: the window length;
 * - crc: the unmasked CRC of the window (no 0xFFFFFFFF preset, no final inversion);
 * - zero: the masked CRC of max(size, 1) zero bytes;
 * - one: the complement of the unmasked CRC of 0x80 followed by max(size, 1) - 1 zero bytes;
 * - z: a scratch buffer of zero bytes;
 * - the table, modelled by the polynomial it is built from (Crc32.Table).
 *
 * The pure `State` datatype and `UpdateState` state what one call does. The class
 * `RollingCRC` does it in place, with the loop over the leaving bytes, and is proved against
 * them. `Window` is the invariant that ties a state to the bytes it summarises.
 */
module RollingCrc {
  import opened Common
  import opened Crc32

  /** The fields that determine Sum32 (the scratch buffer and the table aside). */
  datatype State = State(size: int, crc: Word, zero: Word, one: Word)

  /** Why Update panics. */
  datatype Panic =
    | WindowTooSmall(shifted: nat, size: int)  // more bytes shifted out than the window holds
    | IndexOutOfRange(index: nat, length: nat) // the loop reads incoming[i] past its end

  /** Update either panics, leaving the object as it was, or produces a incoming state. */
  datatype Outcome = Updated(state: State) | Panicked(reason: Panic)

  /** The all-ones register, ^uint32(0). */
  const Ones: Word := Not(Zero)

  // ---------------------------------------------------------------------------------------
  // The operations, on values

  /** Reset as written: clears crc and restores zero and one, but keeps size. */
  function ResetState(poly: Word, s: State): State {
    s.(crc := Zero, zero := Checksum(poly, [0]), one := Update(poly, Ones, [0x80]))
  }

  /** NewRollingCRC: a zero-valued object, then Reset. */
  function NewState(poly: Word): State {
    ResetState(poly, State(0, Zero, Zero, Zero))
  }

  /** One iteration of the loop: subtract the leaving byte, then add the entering one. */
  function RollByte(poly: Word, c: Word, one: Word, leaving: byte, entering: byte): Word {
    TableStep(poly, Xor(c, Not(CrcMulTable(poly, one, leaving))), entering)
  }

  /** The loop over equally long leaving and entering bytes, as the register after |outgoing| turns. */
  function Roll(poly: Word, c: Word, one: Word, outgoing: seq<byte>, incoming: seq<byte>): Word
    requires |outgoing| == |incoming|
    decreases |outgoing|
  {
    if |outgoing| == 0 then c
    else
      var k := |outgoing| - 1;
      RollByte(poly, Roll(poly, c, one, outgoing[..k], incoming[..k]), one, outgoing[k], incoming[k])
  }

  /** The register after the loop; the loop runs only on a non-empty window. */
  function LoopCrc(poly: Word, s: State, outgoing: seq<byte>, incoming: seq<byte>): Word
    requires |outgoing| <= |incoming|
  {
    if s.size > 0 then Roll(poly, s.crc, s.one, outgoing, incoming[..|outgoing|]) else s.crc
  }

  /** The window grows by the excess bytes: they are added to the register, and zero and one
      are extended by as many zero bytes, one fewer when the window was empty. */
  function Grown(poly: Word, s: State, c: Word, extra: seq<byte>): State
    requires |extra| >= 1
  {
    var n := |extra|;
    var z := Padding(s.size, n);
    State(s.size + n, Not(Update(poly, Not(c), extra)), Update(poly, s.zero, z), Update(poly, s.one, z))
  }

  /** Update(old, new): the panics first, then the loop, then the growth of the window. */
  function UpdateState(poly: Word, s: State, outgoing: seq<byte>, incoming: seq<byte>): (r: Outcome)
    ensures r.Panicked? <==> |outgoing| > s.size || (s.size > 0 && |incoming| < |outgoing|)
    ensures r.Updated? ==> r.state.size == s.size + (if |outgoing| < |incoming| then |incoming| - |outgoing| else 0)
  {
    if |outgoing| > s.size then Panicked(WindowTooSmall(|outgoing|, s.size))
    else if s.size > 0 && |incoming| < |outgoing| then Panicked(IndexOutOfRange(|incoming|, |incoming|))
    else
      var c := LoopCrc(poly, s, outgoing, incoming);
      if |outgoing| < |incoming| then Updated(Grown(poly, s, c, incoming[|outgoing|..]))
      else Updated(s.(crc := c))
  }

  /** Sum32: the masked CRC of the window. */
  function Sum32Of(s: State): Word {
    Xor(s.crc, s.zero)
  }

  // ---------------------------------------------------------------------------------------
  // The invariant

  /** The length the zero and one fields are built for: an empty window still counts one byte. */
  function Span(n: nat): nat {
    if n == 0 then 1 else n
  }

  /** s summarises the window w. */
  ghost predicate Window(poly: Word, s: State, w: seq<byte>) {
    && s.size == |w|
    && s.crc == Raw(poly, Zero, w)
    && s.zero == Checksum(poly, Zeros(Span(s.size)))
    && Not(s.one) == Raw(poly, Zero, [0x80] + Zeros(Span(s.size) - 1))
  }

  lemma NotNot(a: Word)
    ensures Not(Not(a)) == a
  {
  }

  /** A fresh RollingCRC summarises the empty window. */
  lemma NewIsEmpty(poly: Word)
    ensures Window(poly, NewState(poly), [])
  {
    var s := NewState(poly);
    assert [0 as byte] == Zeros(1);
    NotNot(Zero);
    NotNot(Raw(poly, Zero, [0x80]));
    assert [0x80 as byte] + Zeros(0) == [0x80];
  }

  /** Sum32 is the CRC-32 of a non-empty window. */
  lemma SumIsChecksum(poly: Word, s: State, w: seq<byte>)
    requires Window(poly, s, w) && |w| >= 1
    ensures Sum32Of(s) == Checksum(poly, w)
  {
    ChecksumSplit(poly, w);
  }

  lemma SumOfWindow(poly: Word, s: State, w: seq<byte>)
    ensures Window(poly, s, w) && |w| >= 1 ==> Sum32Of(s) == Checksum(poly, w)
  {
    if Window(poly, s, w) && |w| >= 1 {
      SumIsChecksum(poly, s, w);
    }
  }

  /** An empty window reports the CRC-32 of one zero byte, the byte zero and one count. */
  lemma EmptySum(poly: Word, s: State)
    requires Window(poly, s, [])
    ensures Sum32Of(s) == Checksum(poly, [0])
  {
    assert [0 as byte] == Zeros(1);
    ChecksumSplit(poly, [0]);
    RawLeadingZero(poly, []);
  }

  /** One turn of the loop slides the window by one byte. */
  lemma RollByteSlides(poly: Word, one: Word, v: seq<byte>, c: Word, a: byte, b: byte)
    requires |v| >= 1 && c == Raw(poly, Zero, v) && a == v[0]
    requires Not(one) == Raw(poly, Zero, [0x80] + Zeros(|v| - 1))
    ensures RollByte(poly, c, one, a, b) == Raw(poly, Zero, v[1..] + [b])
  {
    CrcMulTableIsByteMul(poly, one, v[0]);
    ByteMulWindow(poly, v[0], |v| - 1);
    RemoveFront(poly, v);
    RawAppend(poly, Zero, v[1..], [b]);
  }

  /** The sequence bookkeeping of one turn: the window before the turn starts with the
      leaving byte, and dropping it and appending the entering byte gives the next window. */
  lemma ShiftWindow<T>(w: seq<T>, incoming: seq<T>, k: nat)
    requires k < |w| && k < |incoming|
    ensures var v := w[k..] + incoming[..k];
            && |v| == |w| && v[0] == w[k]
            && v[1..] + [incoming[k]] == w[k + 1..] + incoming[..k + 1]
  {
    var v := w[k..] + incoming[..k];
    assert v[1..] == w[k + 1..] + incoming[..k];
    assert incoming[..k] + [incoming[k]] == incoming[..k + 1];
  }

  lemma Regroup<T>(a: seq<T>, b: seq<T>, k: nat)
    requires k <= |b|
    ensures (a + b[..k]) + b[k..] == a + b
    ensures k == |b| ==> a + b[..k] == a + b
  {
    assert b[..k] + b[k..] == b;
  }

  /** The whole loop slides the window by |outgoing| bytes. */
  lemma {:induction false} RollSlides(poly: Word, one: Word, w: seq<byte>, outgoing: seq<byte>, incoming: seq<byte>)
    requires |w| >= 1 && |outgoing| == |incoming| <= |w| && outgoing == w[..|outgoing|]
    requires Not(one) == Raw(poly, Zero, [0x80] + Zeros(|w| - 1))
    ensures Roll(poly, Raw(poly, Zero, w), one, outgoing, incoming) == Raw(poly, Zero, w[|outgoing|..] + incoming)
    decreases |outgoing|
  {
    var c := Raw(poly, Zero, w);
    if |outgoing| == 0 {
      assert w[0..] + incoming == w;
    } else {
      var k := |outgoing| - 1;
      var v := w[k..] + incoming[..k];
      ShiftWindow(w, incoming, k);
      assert outgoing[k] == w[k];
      var prev := Roll(poly, c, one, outgoing[..k], incoming[..k]);
      assert prev == Raw(poly, Zero, v) by {
        assert outgoing[..k] == w[..k];
        RollSlides(poly, one, w, outgoing[..k], incoming[..k]);
      }
      RollByteSlides(poly, one, v, prev, outgoing[k], incoming[k]);
      assert incoming[..k + 1] == incoming;
    }
  }

  /** The loop leaves the register of the window slid by the leaving bytes. */
  lemma LoopSlides(poly: Word, s: State, w: seq<byte>, outgoing: seq<byte>, incoming: seq<byte>)
    requires Window(poly, s, w)
    requires |outgoing| <= |w| && outgoing == w[..|outgoing|] && |outgoing| <= |incoming|
    ensures LoopCrc(poly, s, outgoing, incoming) == Raw(poly, Zero, w[|outgoing|..] + incoming[..|outgoing|])
  {
    if |w| > 0 {
      RollSlides(poly, s.one, w, outgoing, incoming[..|outgoing|]);
    } else {
      assert w[|outgoing|..] + incoming[..|outgoing|] == [];
    }
  }

  /** The zero bytes Update extends zero and one by, for a window of m bytes growing by n. */
  function Padding(m: int, n: nat): seq<byte>
    requires n >= 1
  {
    if m == 0 then Zeros(n)[1..] else Zeros(n)
  }

  lemma PaddingZeros(m: nat, n: nat)
    requires n >= 1
    ensures Zeros(Span(m)) + Padding(m, n) == Zeros(m + n)
    ensures [0x80 as byte] + Zeros(Span(m) - 1) + Padding(m, n) == [0x80 as byte] + Zeros(m + n - 1)
  {
    assert Zeros(Span(m)) + Padding(m, n) == Zeros(m + n);
    assert Zeros(Span(m) - 1) + Padding(m, n) == Zeros(m + n - 1);
    assert [0x80 as byte] + Zeros(Span(m) - 1) + Padding(m, n) == [0x80 as byte] + (Zeros(Span(m) - 1) + Padding(m, n));
  }

  lemma GrownZero(poly: Word, zero: Word, m: nat, n: nat)
    requires n >= 1 && zero == Checksum(poly, Zeros(Span(m)))
    ensures Update(poly, zero, Padding(m, n)) == Checksum(poly, Zeros(Span(m + n)))
  {
    PaddingZeros(m, n);
    assert Span(m + n) == m + n;
    UpdateAppend(poly, Zero, Zeros(Span(m)), Padding(m, n));
  }

  lemma GrownOne(poly: Word, one: Word, m: nat, n: nat)
    requires n >= 1 && Not(one) == Raw(poly, Zero, [0x80] + Zeros(Span(m) - 1))
    ensures Not(Update(poly, one, Padding(m, n))) == Raw(poly, Zero, [0x80] + Zeros(Span(m + n) - 1))
  {
    var x, p := [0x80 as byte] + Zeros(Span(m) - 1), Padding(m, n);
    PaddingZeros(m, n);
    assert Span(m + n) - 1 == m + n - 1;
    assert x + p == [0x80 as byte] + Zeros(Span(m + n) - 1);
    RawAppend(poly, Zero, x, p);
    NotNot(Raw(poly, Not(one), p));
    assert Not(Update(poly, one, p)) == Raw(poly, Not(one), p);
  }

  lemma GrownCrc(poly: Word, c: Word, v: seq<byte>, extra: seq<byte>)
    requires c == Raw(poly, Zero, v)
    ensures Not(Update(poly, Not(c), extra)) == Raw(poly, Zero, v + extra)
  {
    NotNot(c);
    NotNot(Raw(poly, c, extra));
    RawAppend(poly, Zero, v, extra);
  }

  /** Growing a state whose register holds the CRC of v, with zero and one built for |v| bytes,
      gives the state of v followed by the excess bytes. */
  lemma GrownSlides(poly: Word, s: State, w: seq<byte>, c: Word, v: seq<byte>, extra: seq<byte>)
    requires Window(poly, s, w) && |v| == |w| && c == Raw(poly, Zero, v) && |extra| >= 1
    ensures Window(poly, Grown(poly, s, c, extra), v + extra)
  {
    GrownFields(poly, s, c, v, extra);
  }

  lemma GrownFields(poly: Word, s: State, c: Word, v: seq<byte>, extra: seq<byte>)
    requires s.size == |v| && |extra| >= 1 && c == Raw(poly, Zero, v)
    requires s.zero == Checksum(poly, Zeros(Span(s.size)))
    requires Not(s.one) == Raw(poly, Zero, [0x80] + Zeros(Span(s.size) - 1))
    ensures var g := Grown(poly, s, c, extra);
            && g.size == |v + extra|
            && g.crc == Raw(poly, Zero, v + extra)
            && g.zero == Checksum(poly, Zeros(Span(g.size)))
            && Not(g.one) == Raw(poly, Zero, [0x80] + Zeros(Span(g.size) - 1))
  {
    GrownCrc(poly, c, v, extra);
    GrownZero(poly, s.zero, s.size, |extra|);
    GrownOne(poly, s.one, s.size, |extra|);
  }

  /** Replacing the register by the CRC of another window of the same length. */
  lemma KeepWindow(poly: Word, s: State, w: seq<byte>, c: Word, v: seq<byte>)
    requires Window(poly, s, w) && |v| == |w| && c == Raw(poly, Zero, v)
    ensures Window(poly, s.(crc := c), v)
  {
  }

  /** Update with the bytes that leave and the bytes that enter keeps the state summarising
      the window: the leaving bytes come off the front and the entering bytes go on the back. */
  lemma UpdateSlides(poly: Word, s: State, w: seq<byte>, outgoing: seq<byte>, incoming: seq<byte>)
    requires Window(poly, s, w)
    requires |outgoing| <= |w| && outgoing == w[..|outgoing|] && |outgoing| <= |incoming|
    ensures UpdateState(poly, s, outgoing, incoming).Updated?
    ensures Window(poly, UpdateState(poly, s, outgoing, incoming).state, w[|outgoing|..] + incoming)
  {
    var k := |outgoing|;
    var v := w[k..] + incoming[..k];
    var c := LoopCrc(poly, s, outgoing, incoming);
    LoopSlides(poly, s, w, outgoing, incoming);
    if k < |incoming| {
      var g := Grown(poly, s, c, incoming[k..]);
      assert UpdateState(poly, s, outgoing, incoming) == Updated(g);
      GrownSlides(poly, s, w, c, v, incoming[k..]);
      Regroup(w[k..], incoming, k);
    } else {
      assert UpdateState(poly, s, outgoing, incoming) == Updated(s.(crc := c));
      Regroup(w[k..], incoming, k);
      KeepWindow(poly, s, w, c, v);
    }
  }

  /** A longer incoming is the same as an equal-length update followed by appending the excess. */
  lemma UpdateSplits(poly: Word, s: State, outgoing: seq<byte>, incoming: seq<byte>)
    requires |outgoing| <= |incoming|
    ensures var first := UpdateState(poly, s, outgoing, incoming[..|outgoing|]);
            UpdateState(poly, s, outgoing, incoming) ==
              if first.Panicked? then first else UpdateState(poly, first.state, [], incoming[|outgoing|..])
  {
    var first := UpdateState(poly, s, outgoing, incoming[..|outgoing|]);
    assert incoming[..|outgoing|][..|outgoing|] == incoming[..|outgoing|];
    if first.Updated? && |outgoing| < |incoming| {
      var t := first.state;
      if s.size > 0 {
        assert t.size > 0;
        assert Roll(poly, t.crc, t.one, [], []) == t.crc;
        assert incoming[|outgoing|..][..0] == [];
        assert incoming[|outgoing|..][0..] == incoming[|outgoing|..];
      }
    }
  }

  /** A fresh object given a whole buffer reports its CRC-32. */
  lemma WholeBuffer(poly: Word, data: seq<byte>)
    requires |data| >= 1
    ensures UpdateState(poly, NewState(poly), [], data).Updated?
    ensures Sum32Of(UpdateState(poly, NewState(poly), [], data).state) == Checksum(poly, data)
  {
    NewIsEmpty(poly);
    UpdateSlides(poly, NewState(poly), [], [], data);
    assert [] + data == data;
    SumIsChecksum(poly, UpdateState(poly, NewState(poly), [], data).state, data);
  }

  /** Sliding a width-w window over a buffer by `stride` bytes keeps Sum32 equal to the CRC-32
      of the window now covered: data[i - stride .. i] leaves and data[w + i - stride .. w + i]
      enters. */
  lemma SlideOverBuffer(poly: Word, s: State, data: seq<byte>, w: nat, stride: nat, i: nat)
    requires w >= 1 && stride <= w && stride <= i && i + w <= |data|
    requires Window(poly, s, data[i - stride .. i - stride + w])
    ensures UpdateState(poly, s, data[i - stride .. i], data[w + i - stride .. w + i]).Updated?
    ensures var t := UpdateState(poly, s, data[i - stride .. i], data[w + i - stride .. w + i]).state;
            Window(poly, t, data[i .. i + w]) && Sum32Of(t) == Checksum(poly, data[i .. i + w])
  {
    var win := data[i - stride .. i - stride + w];
    var outgoing, incoming := data[i - stride .. i], data[w + i - stride .. w + i];
    SliceWindow(data, w, stride, i);
    UpdateSlides(poly, s, win, outgoing, incoming);
    SumIsChecksum(poly, UpdateState(poly, s, outgoing, incoming).state, data[i .. i + w]);
  }

  /** The slices of a buffer that leave and enter as a window slides by `stride`. */
  lemma SliceWindow<T>(data: seq<T>, w: nat, stride: nat, i: nat)
    requires stride <= w && stride <= i && i + w <= |data|
    ensures var win := data[i - stride .. i - stride + w];
            && data[i - stride .. i] == win[..stride]
            && win[stride..] + data[w + i - stride .. w + i] == data[i .. i + w]
  {
  }

  // ---------------------------------------------------------------------------------------
  // Reset keeps size

  /** As written: after Reset on a non-empty window, adding data reports the CRC-32 of a zero
      byte followed by the data, because the zero and one fields grow by one byte too many. */
  lemma ResetKeepsSize(poly: Word, s: State, data: seq<byte>)
    requires s.size > 0 && |data| >= 1
    ensures ResetState(poly, s).size == s.size
    ensures UpdateState(poly, ResetState(poly, s), [], data).Updated?
    ensures Sum32Of(UpdateState(poly, ResetState(poly, s), [], data).state) == Checksum(poly, [0] + data)
  {
    var r1 := ResetState(poly, s).(size := 1);
    ResetHoldsZeroByte(poly, s);
    UpdateSlides(poly, r1, [0], [], data);
    var u := UpdateState(poly, r1, [], data).state;
    assert [0 as byte][0..] + data == [0] + data;
    SumIsChecksum(poly, u, [0] + data);
    GrowIgnoresSize(poly, r1, s.size, data);
    assert r1.(size := s.size) == ResetState(poly, s);
  }

  /** The fields Reset leaves are those of a window holding one zero byte. */
  lemma ResetHoldsZeroByte(poly: Word, s: State)
    ensures Window(poly, ResetState(poly, s).(size := 1), [0])
  {
    var r, e := ResetState(poly, s), NewState(poly);
    NewIsEmpty(poly);
    assert r.zero == e.zero && r.one == e.one;
    assert Span(1) == Span(0);
    ZeroByteRaw(poly);
  }

  lemma ZeroByteRaw(poly: Word)
    ensures Raw(poly, Zero, [0]) == Zero
  {
    TableStepZeroByte(poly, Zero);
    StepsZero(poly, 8);
    assert Raw(poly, Zero, [0]) == Raw(poly, TableStep(poly, Zero, 0), []);
  }

  /** Appending to a non-empty window computes the same register, zero and one whatever the
      window size says. */
  lemma GrowIgnoresSize(poly: Word, s: State, m: int, data: seq<byte>)
    requires s.size > 0 && m > 0 && |data| >= 1
    ensures UpdateState(poly, s.(size := m), [], data)
         == Updated(UpdateState(poly, s, [], data).state.(size := m + |data|))
  {
    assert data[0..] == data;
  }

  /** Under the IEEE polynomial that extra zero byte always changes the result. */
  lemma LeadingZeroChangesChecksum(data: seq<byte>)
    ensures Checksum(IEEE, [0] + data) != Checksum(IEEE, data)
  {
    IEEEBits();
    RawAppend(IEEE, Not(Zero), [0], data);
    if Checksum(IEEE, [0] + data) == Checksum(IEEE, data) {
      NotNot(Raw(IEEE, Not(Zero), [0] + data));
      NotNot(Raw(IEEE, Not(Zero), data));
      RawInjective(IEEE, Raw(IEEE, Not(Zero), [0]), Not(Zero), data);
      OnesZeroByte();
    }
  }

  /** The intended reset: the window is emptied too. */
  function ResetWindowState(poly: Word, s: State): State {
    ResetState(poly, s).(size := 0)
  }

  /** After the intended reset the object summarises the empty window, whatever it held. */
  lemma ResetWindowEmpties(poly: Word, s: State)
    ensures ResetWindowState(poly, s) == NewState(poly)
    ensures Window(poly, ResetWindowState(poly, s), [])
  {
    NewIsEmpty(poly);
  }

  // ---------------------------------------------------------------------------------------
  // The object

  /** One more turn of the loop extends the fold by the next pair of bytes. */
  lemma RollExtend(poly: Word, c: Word, one: Word, outgoing: seq<byte>, incoming: seq<byte>, i: nat)
    requires i < |outgoing| && i < |incoming|
    ensures Roll(poly, c, one, outgoing[..i + 1], incoming[..i + 1])
         == RollByte(poly, Roll(poly, c, one, outgoing[..i], incoming[..i]), one, outgoing[i], incoming[i])
  {
    assert outgoing[..i + 1][..i] == outgoing[..i];
    assert incoming[..i + 1][..i] == incoming[..i];
  }

  /** A RollingCRC. Reset and Update change its fields in place. */
  class RollingCRC {
    var size: int
    var crc: Word
    var zero: Word
    var one: Word
    /** The scratch slice z only ever holds zero bytes; what matters is its capacity. */
    var zcap: nat
    /** The table, given by the polynomial it is built from. */
    const table: Word
    /** The bytes the object summarises: added and not yet shifted out. */
    ghost var window: seq<byte>

    function Fields(): State
      reads this
    {
      State(size, crc, zero, one)
    }

    ghost predicate Valid()
      reads this
    {
      Window(table, Fields(), window)
    }

    /** NewRollingCRC(table). */
    constructor (table: Word)
      ensures this.table == table && Fields() == NewState(table) && zcap == 0
      ensures Valid() && window == []
    {
      this.table := table;
      size, crc, zero, one, zcap := 0, Zero, Zero, Zero, 0;
      window := [];
      new;
      Reset();
      NewIsEmpty(table);
    }

    /** Reset as written: size is left alone. */
    method Reset()
      modifies this
      ensures Fields() == ResetState(table, old(Fields()))
      ensures zcap == old(zcap) && window == old(window)
    {
      crc := Zero;
      zero := Checksum(table, [0]);
      one := Crc32.Update(table, Ones, [0x80]);
    }

    /** Reset as intended: the window is emptied as well. */
    method ResetWindow()
      modifies this
      ensures Fields() == ResetWindowState(table, old(Fields()))
      ensures Valid() && window == [] && zcap == old(zcap)
    {
      Reset();
      size := 0;
      window := [];
      ResetWindowEmpties(table, old(Fields()));
    }

    /** Update(old, new): shifts `outgoing` out on the left and `incoming` in on the right.
        A panic leaves the object as it was. */
    method Update(outgoing: seq<byte>, incoming: seq<byte>) returns (panic: Option<Panic>)
      modifies this
      ensures panic.Some? ==> UpdateState(table, old(Fields()), outgoing, incoming) == Panicked(panic.value)
      ensures panic.Some? ==> Fields() == old(Fields()) && zcap == old(zcap) && window == old(window)
      ensures panic.None? ==> UpdateState(table, old(Fields()), outgoing, incoming) == Updated(Fields())
      ensures panic.None? && |outgoing| < |incoming| ==>
                zcap == if old(zcap) < |incoming| - |outgoing| then |incoming| - |outgoing| else old(zcap)
      ensures old(Valid()) && |outgoing| <= |old(window)| && outgoing == old(window)[..|outgoing|]
              && |outgoing| <= |incoming| ==>
                panic.None? && Valid() && window == old(window)[|outgoing|..] + incoming
    {
      ghost var s0, w0 := Fields(), window;
      if |outgoing| > size {
        return Some(WindowTooSmall(|outgoing|, size));
      }
      var c;
      c, panic := RollLoop(outgoing, incoming);
      if panic.Some? {
        return;
      }
      if |outgoing| < |incoming| {
        Grow(c, incoming[|outgoing|..]);
        assert UpdateState(table, s0, outgoing, incoming) == Updated(Fields());
      } else {
        crc := c;
        assert UpdateState(table, s0, outgoing, incoming) == Updated(Fields());
      }
      if |outgoing| <= |window| {
        window := window[|outgoing|..] + incoming;
      }
      if Window(table, s0, w0) && |outgoing| <= |w0| && outgoing == w0[..|outgoing|] && |outgoing| <= |incoming| {
        UpdateSlides(table, s0, w0, outgoing, incoming);
      }
    }

    /** The loop of Update: it reads new[i] for every old[i], and the window must be non-empty
        for it to run at all. */
    method RollLoop(outgoing: seq<byte>, incoming: seq<byte>) returns (c: Word, panic: Option<Panic>)
      requires |outgoing| <= size
      ensures panic.None? <==> size <= 0 || |outgoing| <= |incoming|
      ensures panic.Some? ==> panic.value == IndexOutOfRange(|incoming|, |incoming|)
      ensures panic.None? ==> c == LoopCrc(table, Fields(), outgoing, incoming)
    {
      c, panic := crc, None;
      if size > 0 {
        var i := 0;
        while i < |outgoing|
          invariant 0 <= i <= |outgoing| && i <= |incoming|
          invariant c == Roll(table, crc, one, outgoing[..i], incoming[..i])
        {
          if i >= |incoming| {
            return c, Some(IndexOutOfRange(i, |incoming|));
          }
          RollExtend(table, crc, one, outgoing, incoming, i);
          c := Xor(c, Not(CrcMulTable(table, one, outgoing[i])));
          c := TableStep(table, c, incoming[i]);
          i := i + 1;
        }
        assert outgoing[..i] == outgoing && incoming[..i] == incoming[..|outgoing|];
      }
    }

    /** The growth of the window by the excess entering bytes. */
    method Grow(c: Word, extra: seq<byte>)
      requires |extra| >= 1
      modifies this
      ensures Fields() == Grown(table, old(Fields()), c, extra)
      ensures zcap == if old(zcap) < |extra| then |extra| else old(zcap)
      ensures window == old(window)
    {
      var n := |extra|;
      if zcap < n {
        zcap := n;
      }
      var z := Zeros(n);
      if size == 0 {
        z := z[1..];
      }
      crc := Not(Crc32.Update(table, Not(c), extra));
      zero := Crc32.Update(table, zero, z);
      one := Crc32.Update(table, one, z);
      size := size + n;
    }

    /** Sum32: the CRC-32 of the window, once it holds at least one byte. */
    function Sum32(): (r: Word)
      reads this
      ensures Valid() && |window| >= 1 ==> r == Checksum(table, window)
    {
      SumOfWindow(table, Fields(), window);
      Xor(crc, zero)
    }
  }
}
