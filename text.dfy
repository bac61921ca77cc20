/**
 * The pieces of Python's string library that the pipeline leans on:
 * `str.isdigit`, `str.split`, `str.join`, `str.strip`, `int(...)`,
 * zero-padded integer formatting (`%04d`, `{m:02d}`), the substring test
 * `a in b`, `str.endswith` and the code-point order used by `sorted`.
 */
module Text {
  import opened Wrappers

  // ---------------------------------------------------------------------------
  // Characters
  // ---------------------------------------------------------------------------

  predicate IsDigit(c: char) { '0' <= c <= '9' }

  predicate AllDigits(s: string) { forall i | 0 <= i < |s| :: IsDigit(s[i]) }

  /** Python's `str.isspace` on one character. */
  predicate IsSpace(c: char) {
    var k := c as int;
    k == 0x20 || 0x09 <= k <= 0x0D || 0x1C <= k <= 0x1F || k == 0x85 || k == 0xA0
    || k == 0x1680 || 0x2000 <= k <= 0x200A || k == 0x2028 || k == 0x2029
    || k == 0x202F || k == 0x205F || k == 0x3000
  }

  function DigitValue(c: char): (d: nat)
    requires IsDigit(c)
    ensures d < 10
  {
    c as int - '0' as int
  }

  function DigitChar(d: nat): (c: char)
    requires d < 10
    ensures IsDigit(c) && DigitValue(c) == d
  {
    ('0' as int + d) as char
  }

  // ---------------------------------------------------------------------------
  // Decimal numbers
  // ---------------------------------------------------------------------------

  function Pow10(k: nat): (p: nat)
    ensures p >= 1
  {
    if k == 0 then 1 else 10 * Pow10(k - 1)
  }

  /** The value of a string of decimal digits, most significant first. */
  function ParseDigits(s: string): nat
    requires AllDigits(s)
  {
    if s == [] then 0 else 10 * ParseDigits(s[..|s| - 1]) + DigitValue(s[|s| - 1])
  }

  /**
   * `f"{v:0{width}d}"` for a non-negative v: the decimal digits of v, padded
   * with leading zeros to at least `width` characters.
   */
  function Pad(v: nat, width: nat): (s: string)
    ensures |s| >= 1 && |s| >= width && AllDigits(s)
    decreases v, width
  {
    (if v >= 10 || width > 1 then Pad(v / 10, if width > 0 then width - 1 else 0) else "")
    + [DigitChar(v % 10)]
  }

  /** `f"{i:0{width}d}"` for any integer: the sign counts towards the width. */
  function FormatInt(i: int, width: nat): string
  {
    if i < 0 then "-" + Pad(-i, if width > 0 then width - 1 else 0) else Pad(i, width)
  }

  /** Reading back what Pad wrote gives the number. */
  lemma {:induction false} ParsePad(v: nat, width: nat)
    ensures ParseDigits(Pad(v, width)) == v
    decreases v, width
  {
    var s := Pad(v, width);
    var head := if v >= 10 || width > 1 then Pad(v / 10, if width > 0 then width - 1 else 0) else "";
    var d := v % 10;
    assert s == head + [DigitChar(d)];
    assert s[..|s| - 1] == head && s[|s| - 1] == DigitChar(d);
    if v >= 10 || width > 1 {
      ParsePad(v / 10, if width > 0 then width - 1 else 0);
    }
    assert ParseDigits(head) == v / 10;
    assert ParseDigits(s) == 10 * (v / 10) + d;
  }

  /** A number below 10^width is written in exactly `width` characters. */
  lemma {:induction false} PadWidth(v: nat, width: nat)
    requires 1 <= width && v < Pow10(width)
    ensures |Pad(v, width)| == width
  {
    if width > 1 {
      assert v / 10 < Pow10(width - 1);
      PadWidth(v / 10, width - 1);
    }
  }

  lemma DivMod10(q: nat, d: nat)
    requires d < 10
    ensures (10 * q + d) / 10 == q && (10 * q + d) % 10 == d
  {
  }

  /** Padding the value of a digit string to its own length gives the string back. */
  lemma {:induction false} PadParse(s: string)
    requires AllDigits(s) && |s| >= 1
    ensures Pad(ParseDigits(s), |s|) == s
  {
    var init := s[..|s| - 1];
    var last := s[|s| - 1];
    assert AllDigits(init);
    var v := ParseDigits(s);
    assert v == 10 * ParseDigits(init) + DigitValue(last);
    DivMod10(ParseDigits(init), DigitValue(last));
    assert DigitChar(v % 10) == last;
    if |s| > 1 {
      PadParse(init);
      assert Pad(v, |s|) == Pad(v / 10, |s| - 1) + [DigitChar(v % 10)];
      assert s == init + [last];
    } else {
      assert ParseDigits(init) == 0;
      assert Pad(v, |s|) == [DigitChar(v % 10)];
      assert s == [last];
    }
  }

  /** Python's `int(s)` on ASCII decimal text: surrounding whitespace and one sign allowed. */
  function ParseInt(s: string): (r: Option<int>)
    ensures AllDigits(s) && |s| >= 1 ==> r == Some(ParseDigits(s))
  {
    PlainDigits(s);
    ParseSigned(Strip(s))
  }

  /** A plain digit string has no whitespace to strip and no sign to read. */
  lemma PlainDigits(s: string)
    ensures AllDigits(s) && |s| >= 1 ==> Strip(s) == s && ParseSigned(s) == Some(ParseDigits(s))
  {
    if AllDigits(s) && |s| >= 1 {
      assert IsDigit(s[0]) && IsDigit(s[|s| - 1]);
      StripKeepsStripped(s);
    }
  }

  /** What `int` accepts once the whitespace is gone: digits, with at most one sign in front. */
  function ParseSigned(t: string): Option<int> {
    if |t| >= 2 && (t[0] == '-' || t[0] == '+') && AllDigits(t[1..]) then
      var magnitude: int := ParseDigits(t[1..]);
      Some(if t[0] == '-' then -magnitude else magnitude)
    else if |t| >= 1 && AllDigits(t) then
      Some(ParseDigits(t))
    else
      None
  }

  /** `int` accepts a digit string surrounded by any whitespace. */
  lemma ParseIntPadded(pre: string, digits: string, post: string)
    requires forall i | 0 <= i < |pre| :: IsSpace(pre[i])
    requires forall i | 0 <= i < |post| :: IsSpace(post[i])
    requires AllDigits(digits) && |digits| >= 1
    ensures ParseInt(pre + digits + post) == Some(ParseDigits(digits))
  {
    PlainDigits(digits);
    StrippedBeforeParse(pre, digits, post);
  }

  /**
   * A digit string with one sign in front has no outer whitespace, and `int`
   * reads it as the signed value; with StrippedBeforeParse, whitespace may
   * surround it.
   */
  lemma SignedDigits(sign: char, digits: string)
    requires sign == '-' || sign == '+'
    requires AllDigits(digits) && |digits| >= 1
    ensures [sign] + digits != [] && !IsSpace(([sign] + digits)[0])
    ensures !IsSpace(([sign] + digits)[|[sign] + digits| - 1])
    ensures ParseSigned([sign] + digits) == Some(if sign == '-' then -(ParseDigits(digits) as int) else ParseDigits(digits))
  {
    var core := [sign] + digits;
    assert IsDigit(digits[|digits| - 1]) && core[|digits|] == digits[|digits| - 1];
    assert core[1..] == digits;
  }

  /** Whitespace around a core that starts and ends with a non-space character does not change what `int` reads. */
  lemma StrippedBeforeParse(pre: string, core: string, post: string)
    requires forall i | 0 <= i < |pre| :: IsSpace(pre[i])
    requires forall i | 0 <= i < |post| :: IsSpace(post[i])
    requires core != [] && !IsSpace(core[0]) && !IsSpace(core[|core| - 1])
    ensures ParseInt(pre + core + post) == ParseSigned(core)
  {
    StripSurrounded(pre, core, post);
  }

  /** `strip` removes exactly the whitespace around a core that starts and ends with a non-space character. */
  lemma StripSurrounded(pre: string, core: string, post: string)
    requires forall i | 0 <= i < |pre| :: IsSpace(pre[i])
    requires forall i | 0 <= i < |post| :: IsSpace(post[i])
    requires core != [] && !IsSpace(core[0]) && !IsSpace(core[|core| - 1])
    ensures Strip(pre + core + post) == core
  {
    assert pre + core + post == pre + (core + post);
    TrimStartSpaces(pre, core + post);
    TrimEndSpaces(core, post);
  }

  /** Leading whitespace before a non-space character is all that `lstrip` removes. */
  lemma {:induction false} TrimStartSpaces(pre: string, s: string)
    requires forall i | 0 <= i < |pre| :: IsSpace(pre[i])
    requires s != [] && !IsSpace(s[0])
    ensures TrimStart(pre + s) == s
  {
    if pre == [] {
      assert pre + s == s;
    } else {
      assert (pre + s)[1..] == pre[1..] + s;
      TrimStartSpaces(pre[1..], s);
    }
  }

  /** Trailing whitespace after a non-space character is all that `rstrip` removes. */
  lemma {:induction false} TrimEndSpaces(s: string, post: string)
    requires forall i | 0 <= i < |post| :: IsSpace(post[i])
    requires s != [] && !IsSpace(s[|s| - 1])
    ensures TrimEnd(s + post) == s
  {
    if post == [] {
      assert s + post == s;
    } else {
      var init := post[..|post| - 1];
      assert (s + post)[..|s + post| - 1] == s + init;
      TrimEndSpaces(s, init);
    }
  }

  /** With no padding asked for beyond its own digits, a number is written without leading zeros. */
  lemma {:induction false} PadNoLeadingZero(v: nat, width: nat)
    requires 1 <= width && Pow10(width - 1) <= v
    ensures Pad(v, width) == Pad(v, 0)
  {
    if width > 1 {
      assert v >= 10;
      PadNoLeadingZero(v / 10, width - 1);
    }
  }

  // ---------------------------------------------------------------------------
  // Whitespace
  // ---------------------------------------------------------------------------

  function TrimStart(s: string): (r: string)
    ensures |r| <= |s| && r == s[|s| - |r|..]
    ensures r == [] || !IsSpace(r[0])
    ensures forall i | 0 <= i < |s| - |r| :: IsSpace(s[i])
  {
    if s != [] && IsSpace(s[0]) then TrimStart(s[1..]) else s
  }

  function TrimEnd(s: string): (r: string)
    ensures |r| <= |s| && r == s[..|r|]
    ensures r == [] || !IsSpace(r[|r| - 1])
    ensures forall i | |r| <= i < |s| :: IsSpace(s[i])
  {
    if s != [] && IsSpace(s[|s| - 1]) then TrimEnd(s[..|s| - 1]) else s
  }

  /** A string with no whitespace at either end. */
  predicate IsStripped(s: string) {
    s == [] || (!IsSpace(s[0]) && !IsSpace(s[|s| - 1]))
  }

  /** Python's `str.strip()`. */
  function Strip(s: string): (r: string)
    ensures IsStripped(r)
    ensures |r| <= |s|
  {
    TrimEnd(TrimStart(s))
  }

  /** `strip` empties exactly the strings made only of whitespace, the empty string included. */
  lemma StripBlank(s: string)
    ensures Strip(s) == [] <==> forall i | 0 <= i < |s| :: IsSpace(s[i])
  {
    var t := TrimStart(s);
    assert t == [] ==> forall i | 0 <= i < |s| :: IsSpace(s[i]);
  }

  /** Strip leaves a string without outer whitespace alone, so it is idempotent. */
  lemma StripKeepsStripped(s: string)
    requires IsStripped(s)
    ensures Strip(s) == s
  {
  }

  // ---------------------------------------------------------------------------
  // Splitting and joining
  // ---------------------------------------------------------------------------

  /** Python's `s.split(sep)`: empty fields are kept, and "" splits to [""]. */
  function Split(s: string, sep: char): (parts: seq<string>)
    ensures |parts| >= 1
  {
    if s == [] then [""]
    else
      var rest := Split(s[1..], sep);
      if s[0] == sep then [""] + rest else [[s[0]] + rest[0]] + rest[1..]
  }

  /** No field of a split holds the separator. */
  lemma {:induction false} SplitAvoidsSep(s: string, sep: char)
    ensures forall i | 0 <= i < |Split(s, sep)| :: sep !in Split(s, sep)[i]
  {
    if s != [] {
      SplitAvoidsSep(s[1..], sep);
    }
  }

  /** Python's `sep.join(parts)`. */
  function Join(parts: seq<string>, sep: char): string
  {
    if parts == [] then ""
    else if |parts| == 1 then parts[0]
    else parts[0] + [sep] + Join(parts[1..], sep)
  }

  lemma {:induction false} SplitNoSep(p: string, sep: char)
    requires sep !in p
    ensures Split(p, sep) == [p]
  {
    if p != [] {
      SplitNoSep(p[1..], sep);
      assert [p[0]] + p[1..] == p;
    }
  }

  lemma {:induction false} SplitAfterField(p: string, sep: char, t: string)
    requires sep !in p
    ensures Split(p + [sep] + t, sep) == [p] + Split(t, sep)
  {
    var s := p + [sep] + t;
    if p == [] {
      assert s[1..] == t;
    } else {
      assert s[1..] == p[1..] + [sep] + t;
      SplitAfterField(p[1..], sep, t);
      assert [p[0]] + p[1..] == p;
    }
  }

  /** Joining fields that do not contain the separator and splitting again gives them back. */
  lemma {:induction false} SplitJoin(parts: seq<string>, sep: char)
    requires |parts| >= 1
    requires forall i | 0 <= i < |parts| :: sep !in parts[i]
    ensures Split(Join(parts, sep), sep) == parts
  {
    if |parts| == 1 {
      SplitNoSep(parts[0], sep);
    } else {
      SplitJoin(parts[1..], sep);
      SplitAfterField(parts[0], sep, Join(parts[1..], sep));
      assert [parts[0]] + parts[1..] == parts;
    }
  }

  /** Python's `s.rfind(c)`: the last index of c, or -1. */
  function LastIndexOf(s: string, c: char): (r: int)
    ensures -1 <= r < |s|
    ensures r >= 0 ==> s[r] == c && forall j | r < j < |s| :: s[j] != c
    ensures r == -1 ==> c !in s
  {
    if s == [] then -1
    else if s[|s| - 1] == c then |s| - 1
    else LastIndexOf(s[..|s| - 1], c)
  }

  // ---------------------------------------------------------------------------
  // Substrings and order
  // ---------------------------------------------------------------------------

  predicate StartsWith(s: string, prefix: string) {
    |prefix| <= |s| && s[..|prefix|] == prefix
  }

  /** Python's `s.endswith(suffix)`. */
  predicate EndsWith(s: string, suffix: string) {
    |suffix| <= |s| && s[|s| - |suffix|..] == suffix
  }

  /** Python's `needle in hay` on strings. */
  predicate Contains(hay: string, needle: string)
    decreases |hay|
  {
    StartsWith(hay, needle) || (hay != [] && Contains(hay[1..], needle))
  }

  /** Python's `a <= b` on strings: code-point lexicographic order. */
  predicate LexLe(a: string, b: string)
    decreases |a|
  {
    if a == [] then true
    else if b == [] then false
    else if a[0] != b[0] then a[0] < b[0]
    else LexLe(a[1..], b[1..])
  }

  lemma LexLeTotal(a: string, b: string)
    ensures LexLe(a, b) || LexLe(b, a)
  {
  }

  lemma LexLeTransitive(a: string, b: string, c: string)
    requires LexLe(a, b) && LexLe(b, c)
    ensures LexLe(a, c)
  {
  }

  lemma LexLeAntisymmetric(a: string, b: string)
    requires LexLe(a, b) && LexLe(b, a)
    ensures a == b
  {
  }
}
