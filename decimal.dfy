/** Base-10 text as Python writes and reads it: `str(n)`, `'%d' % n` and `'{}'.format(n)`
    write an integer, and `int(s, 10)` reads one back. */
module Decimal {
  import opened Common

  predicate IsDigit(c: char) {
    '0' <= c <= '9'
  }

  function DigitChar(d: nat): (c: char)
    requires d < 10
    ensures IsDigit(c) && DigitValue(c) == d
  {
    (d + '0' as int) as char
  }

  function DigitValue(c: char): nat
    requires IsDigit(c)
  {
    c as int - '0' as int
  }

  /** The decimal digits of n, most significant first, with no leading zero. */
  function NatToString(n: nat): (s: string)
    ensures |s| >= 1 && forall i :: 0 <= i < |s| ==> IsDigit(s[i])
    ensures |s| > 1 ==> s[0] != '0'
  {
    if n < 10 then [DigitChar(n)] else NatToString(n / 10) + [DigitChar(n % 10)]
  }

  /** `str(n)` for a Python int. */
  function IntToString(n: int): string {
    if n < 0 then "-" + NatToString(-n) else NatToString(n)
  }

  /** The value of a string of decimal digits. */
  function DigitsValue(s: string): nat
    requires forall i :: 0 <= i < |s| ==> IsDigit(s[i])
  {
    if s == [] then 0 else DigitsValue(s[..|s| - 1]) * 10 + DigitValue(s[|s| - 1])
  }

  lemma {:induction false} NatToStringValue(n: nat)
    ensures DigitsValue(NatToString(n)) == n
  {
    if n >= 10 {
      NatToStringValue(n / 10);
      var s := NatToString(n);
      assert s[..|s| - 1] == NatToString(n / 10);
    }
  }

  // ---------------------------------------------------------------------------------------
  // int(s, 10)

  /** The digits Python accepts in `int(s, 10)`: ASCII digits, where a single underscore
      may separate two digits. */
  predicate IsDigitGroup(s: string) {
    && |s| >= 1 && IsDigit(s[0])
    && (|s| == 1 || if s[1] == '_' then IsDigitGroup(s[2..]) else IsDigitGroup(s[1..]))
  }

  /** The digits of a group, the underscores left out. */
  function GroupDigits(s: string): (d: string)
    requires IsDigitGroup(s)
    ensures 1 <= |d| <= |s| && forall i :: 0 <= i < |d| ==> IsDigit(d[i])
  {
    if |s| == 1 then s else [s[0]] + GroupDigits(if s[1] == '_' then s[2..] else s[1..])
  }

  lemma {:induction false} DigitsAreGroup(s: string)
    requires |s| >= 1 && forall i :: 0 <= i < |s| ==> IsDigit(s[i])
    ensures IsDigitGroup(s) && GroupDigits(s) == s
  {
    if |s| > 1 {
      DigitsAreGroup(s[1..]);
    }
  }

  /** The blanks `int(s, 10)` skips around a literal: the ASCII ones `\t \n \v \f \r` and
      space, and every other character `str.isspace()` holds above U+007F (`int` turns those
      into spaces first). U+001C-U+001F are whitespace to `str.isspace()` but not to `int`. */
  predicate IsIntSpace(c: char) {
    || '\t' <= c <= '\r' || c == ' ' || c == '\U{85}' || c == '\U{a0}' || c == '\U{1680}'
    || '\U{2000}' <= c <= '\U{200a}' || c == '\U{2028}' || c == '\U{2029}' || c == '\U{202f}'
    || c == '\U{205f}' || c == '\U{3000}'
  }

  /** The blanks of `int` are the whitespace of `str.isspace()` but for the four
      information separators. */
  lemma IntSpacesAreSpaces(c: char)
    ensures IsIntSpace(c) <==> IsSpace(c) && !('\U{1c}' <= c <= '\U{1f}')
  {
  }

  /** Leading characters off while `blank` holds of them. */
  function LStripBy(s: string, blank: char -> bool): (r: string)
    ensures |r| <= |s| && r == s[|s| - |r|..]
    ensures r == [] || !blank(r[0])
    ensures forall i :: 0 <= i < |s| - |r| ==> blank(s[i])
  {
    if s != [] && blank(s[0]) then LStripBy(s[1..], blank) else s
  }

  /** Trailing characters off while `blank` holds of them. */
  function RStripBy(s: string, blank: char -> bool): (r: string)
    ensures |r| <= |s| && r == s[..|r|]
    ensures r == [] || !blank(r[|r| - 1])
    ensures forall i :: |r| <= i < |s| ==> blank(s[i])
  {
    if s != [] && blank(s[|s| - 1]) then RStripBy(s[..|s| - 1], blank) else s
  }

  /** The text `int` reads a literal from: its blanks stripped at both ends. */
  function IntStrip(s: string): string {
    RStripBy(LStripBy(s, IsIntSpace), IsIntSpace)
  }

  /** Blanks around a text that neither starts nor ends with one come off, and only they. */
  lemma StripByPadded(a: string, t: string, b: string, blank: char -> bool)
    requires forall i :: 0 <= i < |a| ==> blank(a[i])
    requires forall i :: 0 <= i < |b| ==> blank(b[i])
    requires t != [] && !blank(t[0]) && !blank(t[|t| - 1])
    ensures RStripBy(LStripBy(a + t + b, blank), blank) == t
  {
    var u := t + b;
    assert u[0] == t[0];
    assert a + t + b == a + u;
    LStripPadded(a, u, blank);
    RStripPadded(t, b, blank);
  }

  lemma LStripPadded(a: string, u: string, blank: char -> bool)
    requires forall i :: 0 <= i < |a| ==> blank(a[i])
    requires u != [] && !blank(u[0])
    ensures LStripBy(a + u, blank) == u
  {
    var l := LStripBy(a + u, blank);
    assert (a + u)[|a|] == u[0];
    assert |l| == |u|;
  }

  lemma RStripPadded(t: string, b: string, blank: char -> bool)
    requires forall i :: 0 <= i < |b| ==> blank(b[i])
    requires t != [] && !blank(t[|t| - 1])
    ensures RStripBy(t + b, blank) == t
  {
    var r := RStripBy(t + b, blank);
    assert (t + b)[|t| - 1] == t[|t| - 1];
    assert |r| == |t|;
  }

  /** A first character that is no blank stays first. */
  lemma StripByKeepsFirst(c: char, s: string, blank: char -> bool)
    requires !blank(c)
    ensures var t := RStripBy(LStripBy([c] + s, blank), blank); t != [] && t[0] == c
  {
    assert LStripBy([c] + s, blank) == [c] + s;
  }

  /** A last character that is no blank stays last, and nothing follows the stripped text. */
  lemma StripByKeepsLast(c: char, s: string, blank: char -> bool)
    requires !blank(c)
    ensures var t := RStripBy(LStripBy(s + [c], blank), blank); t != [] && t[|t| - 1] == c
  {
    var l := LStripBy(s + [c], blank);
    assert (s + [c])[|s|] == c;
    assert l != [] && l[|l| - 1] == c;
  }

  /** What `int(s, 10)` accepts: after stripping blanks, an optional sign and a group of
      digits. */
  predicate IsIntLiteral(s: string) {
    var t := IntStrip(s);
    |t| >= 1 && IsDigitGroup(if t[0] == '+' || t[0] == '-' then t[1..] else t)
  }

  /** `int(s, 10)`, with None where Python raises ValueError. */
  function ParseInt(s: string): (r: Option<int>)
    ensures r.Some? <==> IsIntLiteral(s)
  {
    ParseStripped(IntStrip(s))
  }

  /** The literal once its blanks are off: an optional sign, then a group of digits. */
  function ParseStripped(t: string): Option<int> {
    if |t| == 0 then None
    else
      var negative := t[0] == '-';
      var body := if t[0] == '+' || t[0] == '-' then t[1..] else t;
      if !IsDigitGroup(body) then None
      else
        var v: int := DigitsValue(GroupDigits(body));
        Some(if negative then -v else v)
  }

  /** A group of digits ends with a digit. */
  lemma {:induction false} GroupEndsDigit(g: string)
    requires IsDigitGroup(g)
    ensures IsDigit(g[|g| - 1])
    decreases |g|
  {
    if |g| > 1 {
      var rest := if g[1] == '_' then g[2..] else g[1..];
      GroupEndsDigit(rest);
      assert g[|g| - 1] == rest[|rest| - 1];
    }
  }

  lemma SignedGroup(sign: string, g: string)
    requires sign == "" || sign == "+" || sign == "-"
    requires IsDigitGroup(g)
    ensures var t := sign + g; t != [] && !IsIntSpace(t[0]) && !IsIntSpace(t[|t| - 1])
    ensures ParseStripped(sign + g) ==
              Some(if sign == "-" then -(DigitsValue(GroupDigits(g)) as int) else DigitsValue(GroupDigits(g)))
  {
    var t := sign + g;
    GroupEndsDigit(g);
    assert t[|t| - 1] == g[|g| - 1];
    if sign != "" {
      assert t[0] == sign[0] && t[1..] == g;
    } else {
      assert t == g;
    }
  }

  lemma Unpadded(t: string)
    ensures [] + t + [] == t
  {
  }

  lemma Regroup(a: string, b: string, c: string, d: string)
    ensures a + b + c + d == a + (b + c) + d
  {
  }

  /** Every literal `int` accepts has the value of its digits, negated after a minus sign:
      blanks, an optional sign, a group of digits with single underscores, blanks. */
  lemma ParseIntLiteral(a: string, sign: string, g: string, b: string)
    requires forall i :: 0 <= i < |a| ==> IsIntSpace(a[i])
    requires forall i :: 0 <= i < |b| ==> IsIntSpace(b[i])
    requires sign == "" || sign == "+" || sign == "-"
    requires IsDigitGroup(g)
    ensures ParseInt(a + sign + g + b) ==
              Some(if sign == "-" then -(DigitsValue(GroupDigits(g)) as int) else DigitsValue(GroupDigits(g)))
  {
    SignedGroup(sign, g);
    Regroup(a, sign, g, b);
    StripByPadded(a, sign + g, b, IsIntSpace);
  }

  /** An information separator, U+001C-U+001F, at either end makes `int` raise, though
      `str.strip()` would take it off. */
  lemma ParseIntRejectsSeparator(c: char, s: string)
    requires '\U{1c}' <= c <= '\U{1f}'
    ensures ParseInt([c] + s) == None && ParseInt(s + [c]) == None
  {
    SeparatorFirst(c, s);
    SeparatorLast(c, s);
  }

  lemma SeparatorFirst(c: char, s: string)
    requires '\U{1c}' <= c <= '\U{1f}'
    ensures ParseInt([c] + s) == None
  {
    StripByKeepsFirst(c, s, IsIntSpace);
  }

  lemma SeparatorLast(c: char, s: string)
    requires '\U{1c}' <= c <= '\U{1f}'
    ensures ParseInt(s + [c]) == None
  {
    StripByKeepsLast(c, s, IsIntSpace);
    var t := IntStrip(s + [c]);
    var body := if t[0] == '+' || t[0] == '-' then t[1..] else t;
    if body != [] {
      assert body[|body| - 1] == c;
      if IsDigitGroup(body) {
        GroupEndsDigit(body);
      }
    }
  }

  /** `str(n)` starts with a digit or a minus sign and ends with a digit. */
  lemma IntToStringEnds(n: int)
    ensures var d := IntToString(n); d != [] && (d[0] == '-' || IsDigit(d[0])) && IsDigit(d[|d| - 1])
  {
    if n < 0 {
      var m := NatToString(-n);
      assert ("-" + m)[|m|] == m[|m| - 1];
    }
  }

  lemma IntToStringUnspaced(n: int)
    ensures Strip(IntToString(n)) == IntToString(n)
  {
    assert !IsSpace('-');
    StripUnspaced(IntToString(n));
  }

  lemma NatToStringIsGroup(n: nat)
    ensures IsDigitGroup(NatToString(n)) && GroupDigits(NatToString(n)) == NatToString(n)
  {
    DigitsAreGroup(NatToString(n));
  }

  /** What str writes, int reads back. */
  lemma ParseIntToString(n: int)
    ensures ParseInt(IntToString(n)) == Some(n)
  {
    var m := if n < 0 then -n else n;
    NatToStringIsGroup(m);
    NatToStringValue(m);
    var sign := if n < 0 then "-" else "";
    var g := NatToString(m);
    assert IntToString(n) == sign + g;
    Regroup([], sign, g, []);
    Unpadded(sign + g);
    ParseIntLiteral([], sign, g, []);
  }

  /** A stray character makes `int` raise. */
  lemma ParseIntRejectsStray()
    ensures ParseInt("1/2") == None
  {
    var t := "1/2";
    Unpadded(t);
    StripByPadded([], t, [], IsIntSpace);
    assert t[0] == '1' && t[1] == '/';
    assert !IsDigitGroup(t[1..]);
  }

  /** So do two underscores in a row. */
  lemma ParseIntRejectsDoubleUnderscore()
    ensures ParseInt("1__0") == None
  {
    var t := "1__0";
    Unpadded(t);
    StripByPadded([], t, [], IsIntSpace);
    assert t[2..] == "_0";
    assert !IsDigitGroup("_0");
  }

  /** Underscores between digits are accepted and ignored. */
  lemma ParseIntUnderscore()
    ensures ParseInt("1_000") == Some(1000)
  {
    GroupThousand();
    ValueThousand();
    Regroup([], "", "1_000", []);
    Unpadded("" + "1_000");
    assert "" + "1_000" == "1_000";
    ParseIntLiteral([], "", "1_000", []);
  }

  lemma GroupThousand()
    ensures IsDigitGroup("1_000") && GroupDigits("1_000") == "1000"
  {
    assert "1_000"[2..] == "000" && "000"[1..] == "00" && "00"[1..] == "0";
    assert GroupDigits("0") == "0";
    assert GroupDigits("00") == "00";
    assert GroupDigits("000") == "000";
  }

  lemma ValueThousand()
    ensures DigitsValue("1000") == 1000
  {
    assert "1000"[..3] == "100";
    assert "100"[..2] == "10";
    assert "10"[..1] == "1";
  }
}
