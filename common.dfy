/** Shared value types and the pieces of Python's runtime that several scripts lean on: a
    binary file opened for reading, `bytes.find`, `round` and `//` on exact rationals. */
module Common {

  /** An octet, as Go's `byte` and as an element of a Python `bytes` object, where the code
      takes bits out of it. */
  type byte = bv8

  /** An element of a Python `bytes` object where the code only reads it as a number. */
  type Octet = n: int | 0 <= n < 0x100

  datatype Option<+T> = None | Some(value: T)

  datatype Result<+R, +E> = Success(value: R) | Failure(error: E)

  function Min(a: int, b: int): int {
    if a <= b then a else b
  }

  function Max(a: int, b: int): int {
    if a <= b then b else a
  }

  /** Python's `int.from_bytes(s, byteorder='big')`. */
  function BigEndian(s: seq<byte>): nat {
    if s == [] then 0 else BigEndian(s[..|s| - 1]) * 256 + s[|s| - 1] as nat
  }

  /** A byte read as a number and written back is the same byte. */
  lemma ByteValue(x: int)
    requires 0 <= x < 256
    ensures (x as byte) as int == x
  {
    assert x % 256 == x;
  }

  /** All the parts, one after the other: `b''.join(parts)`. */
  function Flatten<T>(parts: seq<seq<T>>): seq<T> {
    if parts == [] then [] else parts[0] + Flatten(parts[1..])
  }

  lemma FlattenCons<T>(first: seq<T>, rest: seq<seq<T>>)
    ensures Flatten([first] + rest) == first + Flatten(rest)
  {
    assert ([first] + rest)[1..] == rest;
  }

  lemma {:induction false} FlattenAppend<T>(parts: seq<seq<T>>, last: seq<T>)
    ensures Flatten(parts + [last]) == Flatten(parts) + last
    decreases |parts|
  {
    if parts == [] {
      assert [] + [last] == [last] && [last][1..] == [];
    } else {
      FlattenAppend(parts[1..], last);
      assert (parts + [last])[1..] == parts[1..] + [last];
    }
  }

  /** `out` followed by the parts from the i-th on, appended one at a time. */
  function AppendFrom<T>(parts: seq<seq<T>>, i: nat, out: seq<T>): seq<T>
    requires i <= |parts|
    decreases |parts| - i
  {
    if i == |parts| then out else AppendFrom(parts, i + 1, out + parts[i])
  }

  lemma {:induction false} AppendFromFlatten<T>(parts: seq<seq<T>>, i: nat, out: seq<T>)
    requires i <= |parts|
    ensures AppendFrom(parts, i, out) == out + Flatten(parts[i..])
    decreases |parts| - i
  {
    if i < |parts| {
      AppendFromFlatten(parts, i + 1, out + parts[i]);
      assert parts[i..] == [parts[i]] + parts[i + 1..];
      FlattenCons(parts[i], parts[i + 1..]);
    } else {
      assert parts[i..] == [];
    }
  }

  /** `sep.join(parts)`. */
  function Join(sep: string, parts: seq<string>): string {
    if parts == [] then ""
    else if |parts| == 1 then parts[0]
    else Join(sep, parts[..|parts| - 1]) + sep + parts[|parts| - 1]
  }

  /** Joining two runs of parts is joining each and putting one separator between them. */
  lemma {:induction false} JoinAppend(sep: string, a: seq<string>, b: seq<string>)
    requires a != [] && b != []
    ensures Join(sep, a + b) == Join(sep, a) + sep + Join(sep, b)
    decreases |b|
  {
    var n := |b|;
    if n == 1 {
      assert (a + b)[..|a + b| - 1] == a;
    } else {
      var init := b[..n - 1];
      JoinAppend(sep, a, init);
      assert (a + b)[..|a + b| - 1] == a + init;
      assert Join(sep, a + b) == Join(sep, a + init) + sep + b[n - 1];
    }
  }

  /** The sum of a sequence of integers. */
  function Sum(xs: seq<int>): int {
    if xs == [] then 0 else Sum(xs[..|xs| - 1]) + xs[|xs| - 1]
  }

  lemma SumAppend(xs: seq<int>, x: int)
    ensures Sum(xs + [x]) == Sum(xs) + x
  {
    assert (xs + [x])[..|xs|] == xs;
  }

  // ---------------------------------------------------------------------------------------
  // Python strings

  /** Python's `str.isspace()` for one character. */
  predicate IsSpace(c: char) {
    || '\t' <= c <= '\r' || '\U{1c}' <= c <= ' ' || c == '\U{85}' || c == '\U{a0}'
    || c == '\U{1680}' || '\U{2000}' <= c <= '\U{200a}' || c == '\U{2028}' || c == '\U{2029}'
    || c == '\U{202f}' || c == '\U{205f}' || c == '\U{3000}'
  }

  /** `s.lstrip(chars)`. */
  function LStrip(s: string, chars: set<char>): (r: string)
    ensures |r| <= |s| && r == s[|s| - |r|..]
    ensures r == [] || r[0] !in chars
    ensures forall i :: 0 <= i < |s| - |r| ==> s[i] in chars
  {
    if s != [] && s[0] in chars then LStrip(s[1..], chars) else s
  }

  /** `s.rstrip(chars)`. */
  function RStrip(s: string, chars: set<char>): (r: string)
    ensures |r| <= |s| && r == s[..|r|]
    ensures r == [] || r[|r| - 1] !in chars
    ensures forall i :: |r| <= i < |s| ==> s[i] in chars
  {
    if s != [] && s[|s| - 1] in chars then RStrip(s[..|s| - 1], chars) else s
  }

  /** `s.lstrip()`: leading whitespace off. */
  function LStripSpace(s: string): (r: string)
    ensures |r| <= |s| && r == s[|s| - |r|..]
    ensures r == [] || !IsSpace(r[0])
    ensures forall i :: 0 <= i < |s| - |r| ==> IsSpace(s[i])
  {
    if s != [] && IsSpace(s[0]) then LStripSpace(s[1..]) else s
  }

  /** `s.rstrip()`: trailing whitespace off. */
  function RStripSpace(s: string): (r: string)
    ensures |r| <= |s| && r == s[..|r|]
    ensures r == [] || !IsSpace(r[|r| - 1])
    ensures forall i :: |r| <= i < |s| ==> IsSpace(s[i])
  {
    if s != [] && IsSpace(s[|s| - 1]) then RStripSpace(s[..|s| - 1]) else s
  }

  /** r sits in s at i. */
  predicate PieceAt<T(==)>(s: seq<T>, r: seq<T>, i: nat) {
    i + |r| <= |s| && r == s[i..i + |r|]
  }

  /** Where the text that strip keeps starts: after the leading whitespace. */
  function StripFrom(s: string): nat {
    |s| - |LStripSpace(s)|
  }

  /** `s.strip()`: whitespace off both ends. The result is the piece of s at StripFrom(s),
      with only whitespace before and after it and none at its own ends. */
  function Strip(s: string): (r: string)
    ensures r == [] || (!IsSpace(r[0]) && !IsSpace(r[|r| - 1]))
    ensures PieceAt(s, r, StripFrom(s))
    ensures SpaceOr(s[..StripFrom(s)], {}) && SpaceOr(s[StripFrom(s) + |r|..], {})
  {
    var l := LStripSpace(s);
    StripPiece(s, l, RStripSpace(l));
    RStripSpace(l)
  }

  /** What is left of s once a prefix and then a suffix of what remains come off, and what
      came off. */
  lemma StripPiece(s: string, l: string, r: string)
    requires |l| <= |s| && l == s[|s| - |l|..] && forall k :: 0 <= k < |s| - |l| ==> IsSpace(s[k])
    requires |r| <= |l| && r == l[..|r|] && forall k :: |r| <= k < |l| ==> IsSpace(l[k])
    ensures PieceAt(s, r, |s| - |l|) && SpaceOr(s[..|s| - |l|], {}) && SpaceOr(s[|s| - |l| + |r|..], {})
  {
    var i := |s| - |l|;
    assert s[i..i + |r|] == r;
    forall k | i + |r| <= k < |s|
      ensures IsSpace(s[k])
    {
      assert s[k] == l[k - i];
    }
  }

  /** The same for the characters of given sets. */
  lemma TrimPiece(s: string, l: string, r: string, chars: set<char>)
    requires |l| <= |s| && l == s[|s| - |l|..] && forall k :: 0 <= k < |s| - |l| ==> s[k] in chars
    requires |r| <= |l| && r == l[..|r|] && forall k :: |r| <= k < |l| ==> l[k] in chars
    ensures PieceAt(s, r, |s| - |l|) && AllIn(s[..|s| - |l|], chars) && AllIn(s[|s| - |l| + |r|..], chars)
  {
    var i := |s| - |l|;
    assert s[i..i + |r|] == r;
    forall k | i + |r| <= k < |s|
      ensures s[k] in chars
    {
      assert s[k] == l[k - i];
    }
  }

  /** Every character of s is whitespace or in extra. */
  predicate SpaceOr(s: string, extra: set<char>) {
    forall k :: 0 <= k < |s| ==> IsSpace(s[k]) || s[k] in extra
  }

  /** Every character of s is in chars. */
  predicate AllIn(s: string, chars: set<char>) {
    forall k :: 0 <= k < |s| ==> s[k] in chars
  }

  /** Text that neither starts nor ends with whitespace is left alone by strip. */
  lemma StripUnspaced(s: string)
    requires s == [] || (!IsSpace(s[0]) && !IsSpace(s[|s| - 1]))
    ensures Strip(s) == s
  {
  }

  // ---------------------------------------------------------------------------------------
  // Files

  /** What `f.read(n)` returns when the cursor of a regular file holding `data` is at `p`:
      up to n bytes, fewer only at the end of the file, none once the cursor is past it. */
  function Chunk<T>(data: seq<T>, p: nat, n: nat): (r: seq<T>)
    ensures |r| <= n
    ensures |r| < n ==> p + |r| >= |data|
    ensures p <= |data| ==> p + |r| <= |data| && r == data[p..p + |r|]
    ensures p >= |data| ==> r == []
    ensures p < |data| && n > 0 ==> |r| > 0
  {
    if p < |data| then data[p..Min(p + n, |data|)] else []
  }

  /** The bytes from a cursor on, none once it is past the end. */
  function From<T>(data: seq<T>, pos: nat): seq<T> {
    if pos <= |data| then data[pos..] else []
  }

  /** Reading a then b bytes gets what reading a + b bytes at once would. */
  lemma ChunkConcat<T>(data: seq<T>, p: nat, a: nat, b: nat)
    ensures Chunk(data, p, a) + Chunk(data, p + |Chunk(data, p, a)|, b) == Chunk(data, p, a + b)
  {
  }

  /** A read stops at the end of the data. */
  lemma ChunkEnd<T>(data: seq<T>, p: nat, n: nat)
    requires p <= |data|
    ensures p + |Chunk(data, p, n)| == Min(p + n, |data|)
  {
  }

  /** A Python binary file opened for reading (`open(name, 'rb')`): its contents and the
      cursor. Seeking past the end is allowed and reads there return nothing. */
  class Reader<T> {
    const data: seq<T>
    var pos: nat

    constructor (contents: seq<T>)
      ensures data == contents && pos == 0
    {
      data := contents;
      pos := 0;
    }

    /** `f.peek(n)`, taken to return exactly the next n bytes or as many as remain. */
    function Peek(n: nat): seq<T>
      reads this
    {
      Chunk(data, pos, n)
    }

    /** `f.read(n)`. */
    method Read(n: nat) returns (buf: seq<T>)
      modifies this
      ensures buf == Chunk(data, old(pos), n)
      ensures pos == old(pos) + |buf|
    {
      buf := Chunk(data, pos, n);
      pos := pos + |buf|;
    }

    /** `f.seek(p, 0)`. */
    method Seek(p: nat)
      modifies this
      ensures pos == p
    {
      pos := p;
    }

    /** `f.seek(off, 1)`, which returns the new absolute position. */
    method SeekBy(off: nat) returns (p: nat)
      modifies this
      ensures p == pos == old(pos) + off
    {
      pos := pos + off;
      p := pos;
    }
  }

  // ---------------------------------------------------------------------------------------
  // bytes.find

  predicate OccursAt(hay: seq<byte>, needle: seq<byte>, i: int) {
    0 <= i && i + |needle| <= |hay| && forall k :: 0 <= k < |needle| ==> hay[i + k] == needle[k]
  }

  /** `hay.find(needle)`: an index at which needle occurs, or -1; `FindFirst` says it is
      the first one and that -1 means there is none. */
  function Find(hay: seq<byte>, needle: seq<byte>): (r: int)
    ensures r == -1 || OccursAt(hay, needle, r)
  {
    FindFrom(hay, needle, 0)
  }

  function FindFrom(hay: seq<byte>, needle: seq<byte>, start: nat): (r: int)
    requires start <= |hay| + 1
    ensures r == -1 || (start <= r && OccursAt(hay, needle, r))
    decreases |hay| + 1 - start
  {
    if start > |hay| then -1
    else if OccursAt(hay, needle, start) then start
    else FindFrom(hay, needle, start + 1)
  }

  /** The search from `start` finds the first occurrence at or after it, and fails only when
      there is none. */
  lemma {:induction false} FindFromFirst(hay: seq<byte>, needle: seq<byte>, start: nat)
    requires start <= |hay| + 1
    ensures var r := FindFrom(hay, needle, start);
            && (r == -1 <==> forall i :: start <= i <= |hay| ==> !OccursAt(hay, needle, i))
            && forall i :: start <= i < r ==> !OccursAt(hay, needle, i)
    decreases |hay| + 1 - start
  {
    if start <= |hay| && !OccursAt(hay, needle, start) {
      FindFromFirst(hay, needle, start + 1);
    }
  }

  /** `find` returns the first occurrence, and -1 exactly when there is none. */
  lemma FindFirst(hay: seq<byte>, needle: seq<byte>)
    ensures var r := Find(hay, needle);
            && (r == -1 <==> forall i :: 0 <= i <= |hay| ==> !OccursAt(hay, needle, i))
            && forall i :: 0 <= i < r ==> !OccursAt(hay, needle, i)
  {
    FindFromFirst(hay, needle, 0);
  }

  // ---------------------------------------------------------------------------------------
  // Python arithmetic on exact rationals

  /** Python's `round(p / q)`: the nearest integer, ties to the even one. */
  /** r is p / q rounded to the nearest integer, a tie going to the even one. */
  predicate RoundsTo(p: int, q: int, r: int) {
    && -q <= 2 * (p - r * q) <= q
    && (2 * (p - r * q) == q || 2 * (p - r * q) == -q ==> r % 2 == 0)
  }

  function RoundHalfEven(p: int, q: int): (r: int)
    requires q > 0
    ensures -q <= 2 * (p - r * q) <= q
    ensures 2 * (p - r * q) == q || 2 * (p - r * q) == -q ==> r % 2 == 0
  {
    var f := p / q;
    var rem := p % q;
    DivRem(p, q);
    MulSub(f + 1, f, q);
    if 2 * rem < q then f
    else if 2 * rem > q then f + 1
    else if f % 2 == 0 then f
    else f + 1
  }

  /** A positive multiple is at least the multiplier. */
  lemma MultipleAtLeast(d: int, q: int)
    ensures q >= 0 && d >= 1 ==> d * q >= q
    ensures q >= 0 && d >= 2 ==> d * q >= 2 * q
  {
    if q >= 0 && d >= 1 {
      assert d * q == q + (d - 1) * q;
    }
  }

  /** d * q stays within [-q, q] only for d in {-1, 0, 1}. */
  lemma SmallMultiple(d: int, q: int)
    requires q > 0 && -q <= d * q <= q
    ensures -1 <= d <= 1
  {
    MultipleAtLeast(d, q);
    MultipleAtLeast(-d, q);
    assert (-d) * q == -(d * q);
  }

  /** Euclidean division: p is q times the quotient plus the remainder. */
  lemma DivRem(p: int, q: int)
    requires q > 0
    ensures p == (p / q) * q + p % q && 0 <= p % q < q
  {
  }

  /** Multiplication distributes over a difference. */
  lemma MulSub(a: int, b: int, q: int)
    ensures a * q - b * q == (a - b) * q
  {
  }

  /** A multiple of q by -1, 0 or 1. */
  lemma UnitMultiple(d: int, q: int)
    requires -1 <= d <= 1
    ensures d * q == (if d == 1 then q else if d == -1 then -q else 0)
  {
  }

  /** No other integer is as near to p / q under the same tie rule: round is a function of
      the rational, whatever way it is computed. */
  lemma RoundHalfEvenUnique(p: int, q: int, k: int)
    requires q > 0
    requires -q <= 2 * (p - k * q) <= q
    requires 2 * (p - k * q) == q || 2 * (p - k * q) == -q ==> k % 2 == 0
    ensures k == RoundHalfEven(p, q)
  {
    var r := RoundHalfEven(p, q);
    MulSub(k, r, q);
    SmallMultiple(k - r, q);
    UnitMultiple(k - r, q);
  }

  /** Round is monotone: a larger rational never rounds to a smaller integer. */
  lemma RoundHalfEvenMonotone(p1: int, p2: int, q: int)
    requires q > 0 && p1 <= p2
    ensures RoundHalfEven(p1, q) <= RoundHalfEven(p2, q)
  {
    var r1, r2 := RoundHalfEven(p1, q), RoundHalfEven(p2, q);
    MulSub(r1, r2, q);
    MultipleAtLeast(r1 - r2, q);
    if r1 - r2 == 1 {
      UnitMultiple(r1 - r2, q);
    }
  }
}
