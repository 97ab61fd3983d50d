/** rename.py: the text handling behind renaming audio files after their tags: taking a
    `TAG=` prefix off tool output, parsing the output of `opustags`, choosing the tag reader
    by extension, reading a number tag, and turning a title into a safe file name.

    The tag tools (`metaflac`, `ape.py`, `opustags`) are not run: what a tool printed, or
    that it failed, is a parameter. Their output is taken as already decoded text. */
module Rename {
  import opened Common
  import opened Decimal

  // ---------------------------------------------------------------------------------------
  // deprefix

  /** `str.lower()` on the ASCII letters; other characters are left as they are. */
  function LowerChar(c: char): char {
    if 'A' <= c <= 'Z' then (c as int + 32) as char else c
  }

  /** The result has no capital letter; each capital letter of s becomes the small letter
      'a' - 'A' code points above it, and every other character stays as it is. */
  function Lower(s: string): (r: string)
    ensures |r| == |s| && forall i :: 0 <= i < |r| ==> !('A' <= r[i] <= 'Z')
    ensures forall i :: 0 <= i < |s| && 'A' <= s[i] <= 'Z' ==> r[i] as int == s[i] as int + ('a' as int - 'A' as int)
    ensures forall i :: 0 <= i < |s| && !('A' <= s[i] <= 'Z') ==> r[i] == s[i]
  {
    seq(|s|, i requires 0 <= i < |s| => LowerChar(s[i]))
  }

  /** Lowering twice is lowering once. */
  lemma LowerIdempotent(s: string)
    ensures Lower(Lower(s)) == Lower(s)
  {
    var l := Lower(s);
    assert forall i :: 0 <= i < |l| ==> Lower(l)[i] == l[i];
  }

  /** Lowering a prefix is taking the prefix of the lowered text. */
  lemma LowerPrefix(s: string, n: nat)
    requires n <= |s|
    ensures Lower(s[..n]) == Lower(s)[..n]
  {
    assert forall i :: 0 <= i < n ==> Lower(s[..n])[i] == LowerChar(s[i]) == Lower(s)[i];
  }

  predicate StartsWith(s: string, prefix: string) {
    |prefix| <= |s| && s[..|prefix|] == prefix
  }

  predicate EndsWith(s: string, suffix: string) {
    |suffix| <= |s| && s[|s| - |suffix|..] == suffix
  }

  /** `deprefix(s, prefix)`: s without its first len(prefix) characters when it starts with
      prefix up to case, s itself otherwise. */
  function Deprefix(s: string, prefix: string): (r: string)
    ensures |r| <= |s| && r == s[|s| - |r|..]
    ensures |r| < |s| <==> prefix != [] && |prefix| <= |s| && Lower(s[..|prefix|]) == Lower(prefix)
    ensures |r| < |s| ==> |r| == |s| - |prefix|
  {
    if |prefix| > |s| then s
    else
      LowerPrefix(s, |prefix|);
      if StartsWith(Lower(s), Lower(prefix)) then s[|prefix|..] else s
  }

  /** A prefix written in any case comes off, and only it. */
  lemma DeprefixRoundTrip(prefix: string, written: string, rest: string)
    requires Lower(written) == Lower(prefix)
    ensures Deprefix(written + rest, prefix) == rest
  {
    var s := written + rest;
    assert Lower(s)[..|prefix|] == Lower(written);
  }

  /** A text that differs from the prefix in its first characters is left alone. */
  lemma DeprefixMismatch(s: string, prefix: string, i: nat)
    requires i < |prefix| && i < |s| && LowerChar(s[i]) != LowerChar(prefix[i])
    ensures Deprefix(s, prefix) == s
  {
  }

  // ---------------------------------------------------------------------------------------
  // The tag readers

  /** What a tag tool did: it failed (CalledProcessError) or printed a text. */
  datatype ToolOutput = Failed | Printed(text: string)

  /** The characters `strip("\n\t ")` takes off. */
  const Blank: set<char> := {'\n', '\t', ' '}

  /** `s.strip(chars)`. */
  function StripChars(s: string, chars: set<char>): (r: string)
    ensures r == [] || (r[0] !in chars && r[|r| - 1] !in chars)
    ensures exists i: nat {:trigger PieceAt(s, r, i)} :: PieceAt(s, r, i) && AllIn(s[..i], chars) && AllIn(s[i + |r|..], chars)
  {
    var l := LStrip(s, chars);
    TrimPiece(s, l, RStrip(l, chars), chars);
    RStrip(l, chars)
  }

  /** `read_flac_tag` once `metaflac --show-tag=TAG` has printed: `TAG=` off, blanks off. */
  function FlacTag(output: ToolOutput, tag: string): string {
    match output
    case Failed => ""
    case Printed(text) => StripChars(Deprefix(text, tag + "="), Blank)
  }

  /** `read_ape_tag` once `ape.py --get=TAG` has printed: blanks off. */
  function ApeTag(output: ToolOutput): string {
    match output
    case Failed => ""
    case Printed(text) => StripChars(text, Blank)
  }

  // ---------------------------------------------------------------------------------------
  // str.splitlines

  /** The characters `str.splitlines` breaks lines at. */
  predicate IsLineBreak(c: char) {
    c == '\n' || c == '\r' || c == '\U{0b}' || c == '\U{0c}' || c == '\U{1c}' || c == '\U{1d}'
    || c == '\U{1e}' || c == '\U{85}' || c == '\U{2028}' || c == '\U{2029}'
  }

  /** Where the first line of s ends. */
  function LineEnd(s: string): (e: nat)
    ensures e <= |s| && (e < |s| ==> IsLineBreak(s[e]))
    ensures forall i :: 0 <= i < e ==> !IsLineBreak(s[i])
  {
    if s == [] || IsLineBreak(s[0]) then 0 else 1 + LineEnd(s[1..])
  }

  /** `s.splitlines()`: the lines without their line breaks, `\r\n` counting as one break,
      and no empty line after a final break. */
  function SplitLines(s: string): seq<string>
    decreases |s|
  {
    if s == [] then []
    else
      var e := LineEnd(s);
      var next := if e == |s| then e else if s[e] == '\r' && e + 1 < |s| && s[e + 1] == '\n' then e + 2 else e + 1;
      [s[..e]] + SplitLines(s[next..])
  }

  /** Lines written one after the other, each ended by `\n`. */
  function JoinLines(lines: seq<string>): string {
    if lines == [] then [] else lines[0] + "\n" + JoinLines(lines[1..])
  }

  predicate NoLineBreak(s: string) {
    forall i :: 0 <= i < |s| ==> !IsLineBreak(s[i])
  }

  lemma {:induction false} LineEndOf(line: string, rest: string)
    requires NoLineBreak(line)
    ensures LineEnd(line + "\n" + rest) == |line|
    decreases |line|
  {
    if line != [] {
      assert (line + "\n" + rest)[1..] == line[1..] + "\n" + rest;
      LineEndOf(line[1..], rest);
    }
  }

  /** A line without breaks, then `\n`, is the first line splitlines finds. */
  lemma SplitLinesCons(line: string, rest: string)
    requires NoLineBreak(line)
    ensures SplitLines(line + "\n" + rest) == [line] + SplitLines(rest)
  {
    var s := line + "\n" + rest;
    LineEndOf(line, rest);
    var e := |line|;
    assert s[e] == '\n' && s[..e] == line && s[e + 1..] == rest;
  }

  /** splitlines takes back apart what was written a line at a time. */
  lemma {:induction false} SplitJoinLines(lines: seq<string>)
    requires forall k :: 0 <= k < |lines| ==> NoLineBreak(lines[k])
    ensures SplitLines(JoinLines(lines)) == lines
    decreases |lines|
  {
    if lines != [] {
      SplitLinesCons(lines[0], JoinLines(lines[1..]));
      SplitJoinLines(lines[1..]);
      assert lines == [lines[0]] + lines[1..];
    }
  }

  // ---------------------------------------------------------------------------------------
  // read_opus_tag

  /** `line.partition('=')` without the separator: the text before the first `=` and the
      text after it, or the line and nothing. */
  function Partition(line: string): (kv: (string, string))
    ensures '=' !in kv.0
    ensures '=' in line ==> line == kv.0 + "=" + kv.1
    ensures '=' !in line ==> kv == (line, "")
  {
    if line == [] then ("", "")
    else if line[0] == '=' then ("", line[1..])
    else
      var kv := Partition(line[1..]);
      assert line == [line[0]] + line[1..];
      ([line[0]] + kv.0, kv.1)
  }

  /** The parser's state: the tags so far and the key a tab-led line continues. */
  datatype ParseState = ParseState(tags: map<string, string>, lastKey: string)

  predicate ValidState(st: ParseState) {
    st.lastKey != "" ==> st.lastKey in st.tags
  }

  /** One line: a tab-led line after a key continues that key's value on a new line; any
      other line is `key=value` and replaces what the key held. */
  function Step(st: ParseState, line: string): (st': ParseState)
    requires ValidState(st)
    ensures ValidState(st')
  {
    if st.lastKey != "" && |line| > 0 && line[0] == '\t' then
      ParseState(st.tags[st.lastKey := st.tags[st.lastKey] + "\n" + line[1..]], st.lastKey)
    else
      var (k, v) := Partition(line);
      ParseState(st.tags[k := v], k)
  }

  /** The lines from the first on, one step each. */
  function Steps(st: ParseState, lines: seq<string>): (st': ParseState)
    requires ValidState(st)
    ensures ValidState(st')
    decreases |lines|
  {
    if lines == [] then st else Steps(Step(st, lines[0]), lines[1..])
  }

  const Start := ParseState(map[], "")

  /** The tags `read_opus_tag` builds from the output of `opustags`. */
  function OpusTags(output: string): map<string, string> {
    Steps(Start, SplitLines(output)).tags
  }

  /** The parsing loop of `read_opus_tag`. */
  method ParseOpusTags(output: string) returns (tags: map<string, string>)
    ensures tags == OpusTags(output)
  {
    var lines := SplitLines(output);
    tags := map[];
    var lastKey := "";
    var i := 0;
    while i < |lines|
      invariant 0 <= i <= |lines| && ValidState(ParseState(tags, lastKey))
      invariant Steps(ParseState(tags, lastKey), lines[i..]) == Steps(Start, lines)
    {
      var line := lines[i];
      assert lines[i..][1..] == lines[i + 1..];
      if lastKey != "" && |line| > 0 && line[0] == '\t' {
        tags := tags[lastKey := tags[lastKey] + "\n" + line[1..]];
      } else {
        var (k, v) := Partition(line);
        tags := tags[k := v];
        lastKey := k;
      }
      i := i + 1;
    }
  }

  /** `read_opus_tag(filename, tag)` once `opustags` has printed: the tag's value, or "". */
  function OpusTag(output: ToolOutput, tag: string): string {
    match output
    case Failed => ""
    case Printed(text) => var tags := OpusTags(text); if tag in tags then tags[tag] else ""
  }

  lemma {:induction false} StepsAppend(st: ParseState, a: seq<string>, b: seq<string>)
    requires ValidState(st)
    ensures Steps(st, a + b) == Steps(Steps(st, a), b)
    decreases |a|
  {
    if a == [] {
      assert a + b == b;
    } else {
      assert (a + b)[0] == a[0] && (a + b)[1..] == a[1..] + b;
      StepsAppend(Step(st, a[0]), a[1..], b);
    }
  }

  /** A key `opustags` can print: not empty, no `=`, no line break, not led by a tab. */
  predicate PrintableKey(k: string) {
    k != "" && '=' !in k && NoLineBreak(k) && k[0] != '\t'
  }

  /** How `opustags` prints one tag whose value has the given lines: `key=first line`, then
      each further line behind a tab. */
  function TagLines(k: string, value: seq<string>): (lines: seq<string>)
    requires value != []
    ensures |lines| == |value|
  {
    if |value| == 1 then [k + "=" + value[0]]
    else TagLines(k, value[..|value| - 1]) + ["\t" + value[|value| - 1]]
  }

  /** The lines of one printed tag set that tag to its value, joined by newlines, and make
      it the key later tab-led lines continue. */
  lemma {:induction false} StepsTag(st: ParseState, k: string, value: seq<string>)
    requires ValidState(st) && PrintableKey(k) && value != []
    ensures Steps(st, TagLines(k, value)) == ParseState(st.tags[k := Join("\n", value)], k)
    decreases |value|
  {
    var n := |value|;
    if n == 1 {
      StepFirst(st, k, value[0]);
    } else {
      var init := value[..n - 1];
      StepsTag(st, k, init);
      assert TagLines(k, value) == TagLines(k, init) + ["\t" + value[n - 1]];
      StepsAppend(st, TagLines(k, init), ["\t" + value[n - 1]]);
      var mid := st.tags[k := Join("\n", init)];
      StepContinue(ParseState(mid, k), value[n - 1]);
      assert Join("\n", value) == mid[k] + "\n" + value[n - 1];
      assert mid[k := Join("\n", value)] == st.tags[k := Join("\n", value)];
    }
  }

  /** `key=value` sets the key. */
  lemma StepFirst(st: ParseState, k: string, v: string)
    requires ValidState(st) && PrintableKey(k)
    ensures Steps(st, [k + "=" + v]) == ParseState(st.tags[k := v], k)
  {
    var line := k + "=" + v;
    assert line[0] == k[0];
    PartitionOf(k, v);
    assert Steps(st, [line]) == Steps(Step(st, line), []);
  }

  /** A tab-led line after a key adds a line to its value. */
  lemma StepContinue(st: ParseState, x: string)
    requires ValidState(st) && st.lastKey != ""
    ensures Steps(st, ["\t" + x]) == ParseState(st.tags[st.lastKey := st.tags[st.lastKey] + "\n" + x], st.lastKey)
  {
    assert ("\t" + x)[1..] == x;
    assert Steps(st, ["\t" + x]) == Steps(Step(st, "\t" + x), []);
  }

  /** The text before the first `=` of `key=value` is the key, when the key has no `=`. */
  lemma {:induction false} PartitionOf(k: string, v: string)
    requires '=' !in k
    ensures Partition(k + "=" + v) == (k, v)
    decreases |k|
  {
    var line := k + "=" + v;
    if k == [] {
      assert line[1..] == v;
    } else {
      assert line[1..] == k[1..] + "=" + v;
      PartitionOf(k[1..], v);
      assert [k[0]] + k[1..] == k;
    }
  }

  /** Every line of the printed tags, in order. */
  function AllTagLines(entries: seq<(string, seq<string>)>): (lines: seq<string>)
    requires forall j :: 0 <= j < |entries| ==> entries[j].1 != []
  {
    if entries == [] then []
    else AllTagLines(entries[..|entries| - 1]) + TagLines(entries[|entries| - 1].0, entries[|entries| - 1].1)
  }

  /** The tags in order, a later one replacing an earlier one with the same key. */
  function TagMap(entries: seq<(string, seq<string>)>): map<string, string>
    requires forall j :: 0 <= j < |entries| ==> entries[j].1 != []
  {
    if entries == [] then map[]
    else TagMap(entries[..|entries| - 1])[entries[|entries| - 1].0 := Join("\n", entries[|entries| - 1].1)]
  }

  predicate Printable(entries: seq<(string, seq<string>)>) {
    forall j :: 0 <= j < |entries| ==>
      && PrintableKey(entries[j].0) && entries[j].1 != []
      && forall m :: 0 <= m < |entries[j].1| ==> NoLineBreak(entries[j].1[m])
  }

  /** Parsing what `opustags` prints gives back each tag's value, lines rejoined, with the
      last of several tags of the same key winning. */
  lemma {:induction false} StepsAllTags(entries: seq<(string, seq<string>)>)
    requires Printable(entries)
    ensures entries != [] ==> Steps(Start, AllTagLines(entries)) == ParseState(TagMap(entries), entries[|entries| - 1].0)
    ensures entries == [] ==> Steps(Start, AllTagLines(entries)) == Start
    decreases |entries|
  {
    var n := |entries|;
    if n > 0 {
      var init := entries[..n - 1];
      assert Printable(init);
      StepsAllTags(init);
      var (k, value) := entries[n - 1];
      var mid := Steps(Start, AllTagLines(init));
      StepsAppend(Start, AllTagLines(init), TagLines(k, value));
      StepsTag(mid, k, value);
    }
  }

  /** Each printed line is free of line breaks. */
  lemma {:induction false} TagLinesUnbroken(k: string, value: seq<string>)
    requires PrintableKey(k) && value != [] && forall m :: 0 <= m < |value| ==> NoLineBreak(value[m])
    ensures forall j :: 0 <= j < |TagLines(k, value)| ==> NoLineBreak(TagLines(k, value)[j])
    decreases |value|
  {
    var n := |value|;
    if n == 1 {
      var line := k + "=" + value[0];
      forall i | 0 <= i < |line|
        ensures !IsLineBreak(line[i])
      {
        if i < |k| { assert line[i] == k[i]; }
        else if i > |k| { assert line[i] == value[0][i - |k| - 1]; }
      }
    } else {
      TagLinesUnbroken(k, value[..n - 1]);
      var last := "\t" + value[n - 1];
      forall i | 0 <= i < |last|
        ensures !IsLineBreak(last[i])
      {
        if i > 0 { assert last[i] == value[n - 1][i - 1]; }
      }
    }
  }

  lemma {:induction false} AllTagLinesUnbroken(entries: seq<(string, seq<string>)>)
    requires Printable(entries)
    ensures forall j :: 0 <= j < |AllTagLines(entries)| ==> NoLineBreak(AllTagLines(entries)[j])
    decreases |entries|
  {
    var n := |entries|;
    if n > 0 {
      var init := entries[..n - 1];
      assert Printable(init);
      AllTagLinesUnbroken(init);
      TagLinesUnbroken(entries[n - 1].0, entries[n - 1].1);
    }
  }

  /** `read_opus_tag` on the text `opustags` prints for a list of tags finds each key's
      last value. */
  lemma OpusTagsRoundTrip(entries: seq<(string, seq<string>)>)
    requires Printable(entries)
    ensures OpusTags(JoinLines(AllTagLines(entries))) == TagMap(entries)
  {
    AllTagLinesUnbroken(entries);
    SplitJoinLines(AllTagLines(entries));
    StepsAllTags(entries);
  }

  // ---------------------------------------------------------------------------------------
  // read_tag and read_number

  datatype TagReader = ApeReader | OpusReader | FlacReader

  /** The reader `read_tag` picks by the file name's extension. */
  function ReaderFor(filename: string): TagReader {
    if EndsWith(filename, ".dts") || EndsWith(filename, ".ac3") then ApeReader
    else if EndsWith(filename, ".opus") then OpusReader
    else FlacReader
  }

  /** `read_tag(filename, tag)`, given what the chosen tool printed. */
  function ReadTag(filename: string, tag: string, output: ToolOutput): string {
    match ReaderFor(filename)
    case ApeReader => ApeTag(output)
    case OpusReader => OpusTag(output, tag)
    case FlacReader => FlacTag(output, tag)
  }

  /** `read_number(filename, tag)`: the tag read as a base-10 integer, None when it is not one. */
  function ReadNumber(filename: string, tag: string, output: ToolOutput): (n: Option<int>)
    ensures n.Some? <==> IsIntLiteral(ReadTag(filename, tag, output))
  {
    ParseInt(ReadTag(filename, tag, output))
  }

  /** `.dts` and `.ac3` go to the APE reader, `.opus` to opustags and `.flac` to metaflac,
      whatever the name before the extension. */
  lemma ReaderByExtension(stem: string, other: string)
    ensures ReaderFor(stem + ".dts") == ApeReader && ReaderFor(stem + ".ac3") == ApeReader
    ensures ReaderFor(stem + ".opus") == OpusReader && ReaderFor(stem + ".flac") == FlacReader
    ensures !EndsWith(other, ".dts") && !EndsWith(other, ".ac3") && !EndsWith(other, ".opus") ==>
              ReaderFor(other) == FlacReader
  {
    assert (stem + ".dts")[|stem + ".dts"| - 4..] == ".dts";
    assert (stem + ".ac3")[|stem + ".ac3"| - 4..] == ".ac3";
    var o := stem + ".opus";
    assert o[|o| - 5..] == ".opus" && o[|o| - 4] == 'o' && o[|o| - 1] == 's';
    var f := stem + ".flac";
    assert f[|f| - 4] == 'f' && f[|f| - 1] == 'c' && f[|f| - 5] == '.';
  }

  /** What metaflac prints for a tag, `TAG=value`, becomes the value without blanks at its
      ends. */
  lemma FlacTagOf(tag: string, value: string)
    ensures FlacTag(Printed(tag + "=" + value), tag) == StripChars(value, Blank)
  {
    DeprefixRoundTrip(tag + "=", tag + "=", value);
  }

  /** The line break after a value is stripped off, and nothing else. */
  lemma StripLine(d: string)
    requires d != [] && d[0] !in Blank && d[|d| - 1] !in Blank
    ensures StripChars(d + "\n", Blank) == d
  {
    var s := d + "\n";
    assert s[0] == d[0] && LStrip(s, Blank) == s;
    assert s[|s| - 1] == '\n' && s[..|s| - 1] == d;
    assert RStrip(s, Blank) == RStrip(d, Blank) == d;
  }

  lemma StripNumberLine(n: int)
    ensures StripChars(IntToString(n) + "\n", Blank) == IntToString(n)
  {
    IntToStringEnds(n);
    StripLine(IntToString(n));
  }

  /** A number metaflac prints as `TAG=n` reads back as n. */
  lemma FlacNumberRoundTrip(stem: string, tag: string, n: int)
    ensures ReadNumber(stem + ".flac", tag, Printed(tag + "=" + IntToString(n) + "\n")) == Some(n)
  {
    ReaderByExtension(stem, stem);
    var d := IntToString(n);
    assert tag + "=" + d + "\n" == tag + "=" + (d + "\n");
    FlacTagOf(tag, d + "\n");
    StripNumberLine(n);
    ParseIntToString(n);
  }

  // ---------------------------------------------------------------------------------------
  // clean

  /** `s.replace(pat, rep)`: every occurrence of pat, left to right and not overlapping,
      becomes rep. */
  function Replace(s: string, pat: string, rep: string): string
    requires pat != []
    decreases |s|
  {
    if |s| < |pat| then s
    else if s[..|pat|] == pat then rep + Replace(s[|pat|..], pat, rep)
    else [s[0]] + Replace(s[1..], pat, rep)
  }

  /** Replacing a character by text without it leaves none of it. */
  lemma {:induction false} ReplaceRemoves(s: string, c: char, rep: string)
    requires c !in rep
    ensures c !in Replace(s, [c], rep)
    decreases |s|
  {
    if |s| >= 1 {
      ReplaceRemoves(s[1..], c, rep);
    }
  }

  /** Replacing never brings in a character that neither the text nor the replacement has. */
  lemma {:induction false} ReplaceKeeps(s: string, pat: string, rep: string, c: char)
    requires pat != [] && c !in s && c !in rep
    ensures c !in Replace(s, pat, rep)
    decreases |s|
  {
    if |s| >= |pat| {
      if s[..|pat|] == pat {
        assert c !in s[|pat|..] by { assert forall i :: 0 <= i < |s| - |pat| ==> s[|pat|..][i] == s[i + |pat|]; }
        ReplaceKeeps(s[|pat|..], pat, rep, c);
      } else {
        ReplaceKeeps(s[1..], pat, rep, c);
      }
    }
  }

  /** Text that does not hold the first character of the pattern is left alone. */
  lemma {:induction false} ReplaceAbsent(s: string, pat: string, rep: string)
    requires pat != [] && pat[0] !in s
    ensures Replace(s, pat, rep) == s
    decreases |s|
  {
    if |s| >= |pat| {
      assert s[..|pat|][0] == s[0];
      assert pat[0] !in s[1..] by { assert forall i :: 0 <= i < |s| - 1 ==> s[1..][i] == s[i + 1]; }
      ReplaceAbsent(s[1..], pat, rep);
    }
  }

  /** Text before the first character of the pattern passes through unchanged. */
  lemma {:induction false} ReplaceAfter(a: string, b: string, pat: string, rep: string)
    requires pat != [] && pat[0] !in a
    ensures Replace(a + b, pat, rep) == a + Replace(b, pat, rep)
    decreases |a|
  {
    if a == [] {
      assert a + b == b;
    } else {
      var s := a + b;
      assert s[0] == a[0] && s[1..] == a[1..] + b;
      assert pat[0] !in a[1..] by { assert forall i :: 0 <= i < |a| - 1 ==> a[1..][i] == a[i + 1]; }
      if |s| >= |pat| {
        assert s[..|pat|] != pat by { assert s[..|pat|][0] == a[0]; }
        ReplaceAfter(a[1..], b, pat, rep);
        assert Replace(s, pat, rep) == [a[0]] + (a[1..] + Replace(b, pat, rep));
        assert [a[0]] + (a[1..] + Replace(b, pat, rep)) == a + Replace(b, pat, rep);
      } else {
        assert Replace(s, pat, rep) == s && Replace(b, pat, rep) == b;
      }
    }
  }

  predicate IsControl(c: char) {
    c <= '\U{1f}' || c == '\U{7f}'
  }

  /** `re.sub(r"[\x00-\x1F\x7F]", '', s)`. */
  function RemoveControl(s: string): (r: string)
    ensures |r| <= |s| && forall i :: 0 <= i < |r| ==> !IsControl(r[i]) && r[i] in s
    ensures (forall i :: 0 <= i < |s| ==> !IsControl(s[i])) ==> r == s
  {
    if s == [] then []
    else
      var rest := RemoveControl(s[1..]);
      if IsControl(s[0]) then rest else [s[0]] + rest
  }

  /** Removal works piece by piece: the kept characters of a join are those of each part,
      in order. */
  lemma {:induction false} RemoveControlAppend(s: string, t: string)
    ensures RemoveControl(s + t) == RemoveControl(s) + RemoveControl(t)
    decreases |s|
  {
    if s == [] {
      assert s + t == t;
    } else {
      assert (s + t)[0] == s[0] && (s + t)[1..] == s[1..] + t;
      RemoveControlAppend(s[1..], t);
    }
  }

  /** A single character is kept exactly when it is not a control character. */
  lemma RemoveControlOne(c: char)
    ensures RemoveControl([c]) == if IsControl(c) then [] else [c]
  {
    assert [c][1..] == [];
  }

  /** The first position of c in s, or |s|. */
  function IndexOf(s: string, c: char): (i: nat)
    ensures i <= |s| && (i < |s| ==> s[i] == c) && forall j :: 0 <= j < i ==> s[j] != c
  {
    if s == [] || s[0] == c then 0 else 1 + IndexOf(s[1..], c)
  }

  /** The last position of c in s, or -1. */
  function LastIndexOf(s: string, c: char): (i: int)
    ensures -1 <= i < |s| && (i >= 0 ==> s[i] == c) && forall j :: i < j < |s| ==> s[j] != c
  {
    if s == [] then -1 else if s[|s| - 1] == c then |s| - 1 else LastIndexOf(s[..|s| - 1], c)
  }

  /** `re.sub(r'\(.*\)', '', s)` and the same for brackets, on text without line breaks: the
      greedy match runs from the first opening character to the last closing one after it,
      and nothing can match after that. */
  function RemoveBetween(s: string, open: char, close: char): string {
    var i := IndexOf(s, open);
    var j := LastIndexOf(s, close);
    if i < j then s[..i] + s[j + 1..] else s
  }

  /** No `open` comes before a `close`. */
  predicate NoPairIn(s: string, open: char, close: char) {
    forall a, b :: 0 <= a < b < |s| && s[a] == open ==> s[b] != close
  }

  lemma RemoveBetweenNoPair(s: string, open: char, close: char)
    requires open != close
    ensures NoPairIn(RemoveBetween(s, open, close), open, close)
  {
    var i := IndexOf(s, open);
    var j := LastIndexOf(s, close);
    var r := RemoveBetween(s, open, close);
    if i < j {
      forall a, b | 0 <= a < b < |r| && r[a] == open
        ensures r[b] != close
      {
        assert a >= i;
        assert r[a] == s[a + j + 1 - i];
        assert r[b] == s[b + j + 1 - i];
      }
    } else {
      forall a, b | 0 <= a < b < |s| && s[a] == open
        ensures s[b] != close
      {
      }
    }
  }

  /** Text without a pair has nothing to take out. */
  lemma RemoveBetweenUnchanged(s: string, open: char, close: char)
    requires NoPairIn(s, open, close)
    ensures RemoveBetween(s, open, close) == s
  {
  }

  /** The greedy match of a pair runs from the first `open` to the last `close`. */
  lemma RemoveBetweenPair(a: string, m: string, b: string, open: char, close: char)
    requires open !in a && close !in b
    ensures RemoveBetween(a + [open] + m + [close] + b, open, close) == a + b
  {
    var s := a + [open] + m + [close] + b;
    var k := |a| + 1 + |m|;
    assert s[|a|] == open && s[k] == close;
    assert forall j :: 0 <= j < |a| ==> s[j] == a[j];
    assert forall j :: k < j < |s| ==> s[j] == b[j - k - 1];
    assert IndexOf(s, open) == |a|;
    assert LastIndexOf(s, close) == k;
    assert s[..|a|] == a && s[k + 1..] == b;
  }

  /** Taking characters out, or a run of them, never puts an `open` before a `close`. */
  lemma RemoveBetweenKeepsNoPair(s: string, open: char, close: char, open': char, close': char)
    requires NoPairIn(s, open', close')
    ensures NoPairIn(RemoveBetween(s, open, close), open', close')
  {
    var i := IndexOf(s, open);
    var j := LastIndexOf(s, close);
    var r := RemoveBetween(s, open, close);
    if i < j {
      forall a, b | 0 <= a < b < |r| && r[a] == open'
        ensures r[b] != close'
      {
        var a' := if a < i then a else a + j + 1 - i;
        var b' := if b < i then b else b + j + 1 - i;
        assert r[a] == s[a'] && r[b] == s[b'];
      }
    }
  }

  lemma SliceKeepsNoPair(s: string, lo: nat, hi: nat, open: char, close: char)
    requires lo <= hi <= |s| && NoPairIn(s, open, close)
    ensures NoPairIn(s[lo..hi], open, close)
  {
    var r := s[lo..hi];
    forall a, b | 0 <= a < b < |r| && r[a] == open
      ensures r[b] != close
    {
      assert r[a] == s[lo + a] && r[b] == s[lo + b];
    }
  }

  lemma RemoveBetweenKeeps(s: string, open: char, close: char)
    ensures forall c :: c in RemoveBetween(s, open, close) ==> c in s
  {
    var i := IndexOf(s, open);
    var j := LastIndexOf(s, close);
    if i < j {
      assert RemoveBetween(s, open, close) == s[..i] + s[j + 1..];
    }
  }

  /** `s.rstrip('. ')`. */
  const Trailing: set<char> := {'.', ' '}

  /** The replacements of `clean`, in the order it makes them. */
  const Rules: seq<(string, string)> := [
    (": ", " - "), (":", "."), ("/", "-"), ("?", ""), ("*", ""),
    ("\U{2018}", "'"), ("\U{2019}", "'"), ("\U{201c}", ""), ("\U{201d}", ""), ("\"", ""),
    ("\U{2014}", " - "), ("\U{2010}", "-"), ("\U{2026}", "...")]

  /** The rules applied one after the other, the first one first. */
  function ReplaceAll(s: string, rules: seq<(string, string)>): string
    requires forall j :: 0 <= j < |rules| ==> rules[j].0 != []
    decreases |rules|
  {
    if rules == [] then s
    else ReplaceAll(Replace(s, rules[0].0, rules[0].1), rules[1..])
  }

  /** A character no rule brings in stays out. */
  lemma {:induction false} ReplaceAllKeeps(s: string, rules: seq<(string, string)>, c: char)
    requires forall j :: 0 <= j < |rules| ==> rules[j].0 != [] && c !in rules[j].1
    requires c !in s
    ensures c !in ReplaceAll(s, rules)
    decreases |rules|
  {
    if rules != [] {
      ReplaceKeeps(s, rules[0].0, rules[0].1, c);
      ReplaceAllKeeps(Replace(s, rules[0].0, rules[0].1), rules[1..], c);
    }
  }

  /** A character a rule replaces, and that no rule brings in, is gone after the rules. */
  lemma {:induction false} ReplaceAllRemoves(s: string, rules: seq<(string, string)>, i: nat)
    requires i < |rules| && |rules[i].0| == 1
    requires forall j :: 0 <= j < |rules| ==> rules[j].0 != [] && rules[i].0[0] !in rules[j].1
    ensures rules[i].0[0] !in ReplaceAll(s, rules)
    decreases i
  {
    var s' := Replace(s, rules[0].0, rules[0].1);
    if i == 0 {
      ReplaceRemoves(s, rules[0].0[0], rules[0].1);
      assert rules[0].0 == [rules[0].0[0]];
      ReplaceAllKeeps(s', rules[1..], rules[0].0[0]);
    } else {
      ReplaceAllRemoves(s', rules[1..], i - 1);
    }
  }

  /** The characters the rules bring in. */
  predicate Harmless(c: char) {
    c == ' ' || c == '-' || c == '.' || c == '\''
  }

  lemma RulesShape()
    ensures forall j :: 0 <= j < |Rules| ==> Rules[j].0 != []
    ensures forall j :: 1 <= j < |Rules| ==> |Rules[j].0| == 1 && !Harmless(Rules[j].0[0])
    ensures forall j, k :: 0 <= j < |Rules| && 0 <= k < |Rules[j].1| ==> Harmless(Rules[j].1[k])
  {
  }

  /** The characters the replacements take out of a title. */
  const Removed: set<char> := {':', '/', '?', '*', '\U{2018}', '\U{2019}', '\U{201c}', '\U{201d}', '"', '\U{2014}', '\U{2010}', '\U{2026}'}

  /** The rule that takes c out. */
  function RuleFor(c: char): (j: nat)
    requires c in Removed
    ensures 1 <= j < |Rules| && Rules[j].0 == [c]
  {
    if c == ':' then 1 else if c == '/' then 2 else if c == '?' then 3 else if c == '*' then 4
    else if c == '\U{2018}' then 5 else if c == '\U{2019}' then 6 else if c == '\U{201c}' then 7
    else if c == '\U{201d}' then 8 else if c == '"' then 9 else if c == '\U{2014}' then 10
    else if c == '\U{2010}' then 11 else 12
  }

  /** None of them is left after the replacements. */
  lemma ReplacedSafe(s: string)
    ensures forall c :: c in Removed ==> c !in ReplaceAll(s, Rules)
  {
    RulesShape();
    forall c | c in Removed
      ensures c !in ReplaceAll(s, Rules)
    {
      ReplaceAllRemoves(s, Rules, RuleFor(c));
    }
  }

  /** Each rule starts with a character that the replacements take out; the first two are
      the colon rules. */
  lemma RulesStart()
    ensures StartRemoved(Rules)
    ensures Rules[0] == (": ", " - ") && Rules[1] == (":", ".")
  {
  }

  /** Rules whose patterns do not start in s leave it alone. */
  lemma {:induction false} ReplaceAllAbsent(s: string, rules: seq<(string, string)>)
    requires forall j :: 0 <= j < |rules| ==> rules[j].0 != [] && rules[j].0[0] !in s
    ensures ReplaceAll(s, rules) == s
    decreases |rules|
  {
    if rules != [] {
      ReplaceAbsent(s, rules[0].0, rules[0].1);
      ReplaceAllAbsent(s, rules[1..]);
    }
  }

  /** Text that holds none of the characters the replacements take out. */
  predicate NoneRemoved(s: string) {
    forall i :: 0 <= i < |s| ==> s[i] !in Removed
  }

  /** Rules that each start with a character the replacements take out. */
  predicate StartRemoved(rules: seq<(string, string)>) {
    forall j :: 0 <= j < |rules| ==> rules[j].0 != [] && rules[j].0[0] in Removed
  }

  lemma RemovedAbsent(s: string, c: char)
    requires NoneRemoved(s) && c in Removed
    ensures c !in s
  {
  }

  lemma CleanUntouched(s: string, rules: seq<(string, string)>)
    requires StartRemoved(rules) && NoneRemoved(s)
    ensures ReplaceAll(s, rules) == s
  {
    ReplaceAllAbsent(s, rules);
  }

  /** The replacements of `clean`: none of the characters they take out is left, and a
      title without any of them is left as it is. */
  function Replaced(s: string): (r: string)
    ensures forall i :: 0 <= i < |r| ==> r[i] !in Removed
    ensures NoneRemoved(s) ==> r == s
  {
    RulesShape();
    ReplacedSafe(s);
    RulesStart();
    if NoneRemoved(s) then CleanUntouched(s, Rules); ReplaceAll(s, Rules)
    else ReplaceAll(s, Rules)
  }

  lemma ColonSpaceRules(a: string, b: string, rules: seq<(string, string)>)
    requires NoneRemoved(a) && NoneRemoved(b)
    requires StartRemoved(rules) && |rules| >= 1 && rules[0] == (": ", " - ")
    ensures ReplaceAll(a + ": " + b, rules) == a + " - " + b
  {
    var s := a + ": " + b;
    assert s == a + (": " + b);
    ReplaceAfter(a, ": " + b, ": ", " - ");
    assert (": " + b)[..2] == ": " && (": " + b)[2..] == b;
    ReplaceAbsent(b, ": ", " - ");
    var x := a + " - " + b;
    assert Replace(s, ": ", " - ") == x;
    forall j | 0 <= j < |rules[1..]|
      ensures rules[1..][j].0 != [] && rules[1..][j].0[0] !in x
    {
      assert rules[1..][j] == rules[j + 1];
    }
    ReplaceAllAbsent(x, rules[1..]);
  }

  /** ": " becomes " - " wherever it stands between two pieces of clean text. */
  lemma ReplacedColonSpace(a: string, b: string)
    requires NoneRemoved(a) && NoneRemoved(b)
    ensures Replaced(a + ": " + b) == a + " - " + b
  {
    RulesStart();
    ColonSpaceRules(a, b, Rules);
  }

  /** A colon before anything but a space is no ": ". */
  lemma ColonNoSpace(b: string)
    requires ':' !in b && (b == [] || b[0] != ' ')
    ensures Replace(":" + b, ": ", " - ") == ":" + b
  {
    ReplaceAbsent(b, ": ", " - ");
    if b != [] {
      assert (":" + b)[..2][1] == b[0];
      assert (":" + b)[1..] == b;
    }
  }

  lemma ColonToDot(b: string)
    requires ':' !in b
    ensures Replace(":" + b, ":", ".") == "." + b
  {
    assert (":" + b)[..1] == ":" && (":" + b)[1..] == b;
    ReplaceAbsent(b, ":", ".");
  }

  lemma DotBetween(a: string, b: string)
    requires NoneRemoved(a) && NoneRemoved(b)
    ensures NoneRemoved(a + "." + b)
  {
    var x := a + "." + b;
    assert '.' !in Removed;
    forall i | 0 <= i < |x| ensures x[i] !in Removed {
      if i > |a| { assert x[i] == b[i - |a| - 1]; }
    }
  }

  lemma StartRemovedTail(rules: seq<(string, string)>, k: nat)
    requires StartRemoved(rules) && k <= |rules|
    ensures StartRemoved(rules[k..])
  {
    forall j | 0 <= j < |rules[k..]| ensures rules[k..][j].0 != [] && rules[k..][j].0[0] in Removed {
      assert rules[k..][j] == rules[j + k];
    }
  }

  lemma ColonDotRules(a: string, b: string, rules: seq<(string, string)>)
    requires NoneRemoved(a) && NoneRemoved(b) && (b == [] || b[0] != ' ')
    requires StartRemoved(rules) && |rules| >= 2 && rules[0] == (": ", " - ") && rules[1] == (":", ".")
    ensures ReplaceAll(a + ":" + b, rules) == a + "." + b
  {
    var s := a + ":" + b;
    assert s == a + (":" + b);
    RemovedAbsent(a, ':');
    RemovedAbsent(b, ':');
    ColonNoSpace(b);
    ReplaceAfter(a, ":" + b, ": ", " - ");
    ColonToDot(b);
    ReplaceAfter(a, ":" + b, ":", ".");
    var x := a + "." + b;
    assert Replace(Replace(s, ": ", " - "), ":", ".") == x;
    DotBetween(a, b);
    StartRemovedTail(rules, 2);
    assert rules[1..][1..] == rules[2..];
    CleanUntouched(x, rules[2..]);
  }

  /** A colon not followed by a space becomes a dot. */
  lemma ReplacedColonDot(a: string, b: string)
    requires NoneRemoved(a) && NoneRemoved(b) && (b == [] || b[0] != ' ')
    ensures Replaced(a + ":" + b) == a + "." + b
  {
    RulesStart();
    ColonDotRules(a, b, Rules);
  }

  /** What `re.sub` leaves of the parentheticals and bracketed parts when `noparens` holds. */
  function Unparen(s: string, noparens: bool): (r: string)
    ensures forall c :: c in r ==> c in s
    ensures noparens ==> NoPairIn(r, '(', ')') && NoPairIn(r, '[', ']')
    ensures !noparens || (NoPairIn(s, '(', ')') && NoPairIn(s, '[', ']')) ==> r == s
  {
    if noparens then
      var p := RemoveBetween(s, '(', ')');
      if NoPairIn(s, '(', ')') && NoPairIn(s, '[', ']') then
        RemoveBetweenUnchanged(s, '(', ')');
        RemoveBetweenUnchanged(s, '[', ']');
        s
      else
      RemoveBetweenKeeps(s, '(', ')');
      RemoveBetweenKeeps(p, '[', ']');
      RemoveBetweenNoPair(s, '(', ')');
      RemoveBetweenKeepsNoPair(p, '[', ']', '(', ')');
      RemoveBetweenNoPair(p, '[', ']');
      RemoveBetween(p, '[', ']')
    else s
  }

  /** With `noparens`, the parenthetical `(m)` goes, from its opening parenthesis up to the last
      closing one, when the text around it has no other opening parenthesis before it, no
      closing one after it and no bracketed part. */
  lemma UnparenPair(a: string, m: string, b: string)
    requires '(' !in a && ')' !in b && NoPairIn(a + b, '[', ']')
    ensures Unparen(a + "(" + m + ")" + b, true) == a + b
  {
    RemoveBetweenPair(a, m, b, '(', ')');
    RemoveBetweenUnchanged(a + b, '[', ']');
  }

  /** Where in s the tidied text starts. */
  function TidyFrom(s: string): nat {
    StripFrom(RStrip(s, Trailing))
  }

  /** `s.rstrip('. ').strip()`: the piece of s at TidyFrom(s) that neither starts nor ends
      with whitespace, with only whitespace before it and only whitespace, dots and spaces
      after it. */
  function Tidy(s: string): (r: string)
    ensures r == [] || (!IsSpace(r[0]) && !IsSpace(r[|r| - 1]))
    ensures PieceAt(s, r, TidyFrom(s))
    ensures SpaceOr(s[..TidyFrom(s)], {}) && SpaceOr(s[TidyFrom(s) + |r|..], Trailing)
  {
    TidyFacts(s);
    Strip(RStrip(s, Trailing))
  }

  lemma TidyFacts(s: string)
    ensures PieceAt(s, Strip(RStrip(s, Trailing)), TidyFrom(s))
    ensures SpaceOr(s[..TidyFrom(s)], {})
    ensures SpaceOr(s[TidyFrom(s) + |Strip(RStrip(s, Trailing))|..], Trailing)
  {
    var t := RStrip(s, Trailing);
    TidyAround(s, t, Strip(t), StripFrom(t));
  }

  /** Stripping whitespace after the trailing dots and spaces have come off. */
  lemma TidyAround(s: string, t: string, r: string, i: nat)
    requires |t| <= |s| && t == s[..|t|] && forall k :: |t| <= k < |s| ==> s[k] in Trailing
    requires PieceAt(t, r, i) && SpaceOr(t[..i], {}) && SpaceOr(t[i + |r|..], {})
    ensures PieceAt(s, r, i) && SpaceOr(s[..i], {}) && SpaceOr(s[i + |r|..], Trailing)
  {
    forall k | 0 <= k < i
      ensures IsSpace(s[..i][k])
    {
      assert s[..i][k] == t[..i][k];
    }
    var u, v := s[i + |r|..], t[i + |r|..];
    forall k | 0 <= k < |u|
      ensures IsSpace(u[k]) || u[k] in Trailing
    {
      if k < |v| {
        assert u[k] == v[k];
      } else {
        assert u[k] == s[i + |r| + k];
      }
    }
  }

  /** `clean(s, noparens)`. */
  function Clean(s: string, noparens: bool): string {
    Tidy(Unparen(RemoveControl(Replaced(s)), noparens))
  }

  /** A character a cleaned title may hold: none the replacements take out, no control
      character. */
  predicate Safe(c: char) {
    c !in Removed && !IsControl(c)
  }

  predicate AllSafe(s: string) {
    forall i :: 0 <= i < |s| ==> Safe(s[i])
  }

  lemma {:induction false} RemoveControlSafe(s: string)
    requires forall i :: 0 <= i < |s| ==> s[i] !in Removed
    ensures AllSafe(RemoveControl(s))
    decreases |s|
  {
    if s != [] {
      RemoveControlSafe(s[1..]);
    }
  }

  lemma RemoveBetweenSafe(s: string, open: char, close: char)
    requires AllSafe(s)
    ensures AllSafe(RemoveBetween(s, open, close))
  {
    var i := IndexOf(s, open);
    var j := LastIndexOf(s, close);
    var r := RemoveBetween(s, open, close);
    if i < j {
      forall k | 0 <= k < |r|
        ensures Safe(r[k])
      {
        if k < i {
          assert r[k] == s[k];
        } else {
          assert r[k] == s[k + j + 1 - i];
        }
      }
    }
  }

  /** A cleaned title holds only safe characters. */
  lemma CleanSafe(s: string, noparens: bool)
    ensures AllSafe(Clean(s, noparens))
  {
    var a := Replaced(s);
    RemoveControlSafe(a);
    var b := RemoveControl(a);
    if noparens {
      RemoveBetweenSafe(b, '(', ')');
      RemoveBetweenSafe(RemoveBetween(b, '(', ')'), '[', ']');
    }
    TidySafe(Unparen(b, noparens));
  }

  lemma TidySafe(p: string)
    requires AllSafe(p)
    ensures AllSafe(Tidy(p))
  {
    PieceSafe(p, TidyFrom(p), Tidy(p));
  }

  lemma PieceSafe(p: string, lo: nat, r: string)
    requires lo + |r| <= |p| && r == p[lo..lo + |r|] && AllSafe(p)
    ensures AllSafe(r)
  {
    forall i | 0 <= i < |r|
      ensures Safe(r[i])
    {
      assert r[i] == p[lo + i];
    }
  }

  /** With `noparens`, a cleaned title has no `(` before a `)` and no `[` before a `]`. */
  lemma CleanNoParens(s: string)
    ensures NoPairIn(Clean(s, true), '(', ')') && NoPairIn(Clean(s, true), '[', ']')
  {
    var p := Unparen(RemoveControl(Replaced(s)), true);
    TidyNoPair(p, '(', ')');
    TidyNoPair(p, '[', ']');
  }

  lemma TidyNoPair(p: string, open: char, close: char)
    requires NoPairIn(p, open, close)
    ensures NoPairIn(Tidy(p), open, close)
  {
    SliceKeepsNoPair(p, TidyFrom(p), TidyFrom(p) + |Tidy(p)|, open, close);
  }
}
