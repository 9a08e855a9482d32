/**
 * The few java.lang.String operations the mail system relies on, with the exact
 * Java semantics where they matter: indexOf/lastIndexOf return -1 when the
 * character is absent, split drops trailing empty pieces, String.join, decimal
 * rendering of numbers and Long.parseLong.
 */
module Text {
  import opened Optional

  /** Java `s.indexOf(c)`: the first position of c, or -1. */
  function IndexOf(s: string, c: char): (k: int)
    ensures -1 <= k < |s|
    ensures k == -1 <==> c !in s
    ensures k >= 0 ==> s[k] == c && c !in s[..k]
  {
    if |s| == 0 then -1
    else if s[0] == c then 0
    else
      var k := IndexOf(s[1..], c);
      if k == -1 then -1
      else
        assert s[..k + 1] == [s[0]] + s[1..][..k];
        k + 1
  }

  /** Java `s.lastIndexOf(c)`: the last position of c, or -1. */
  function LastIndexOf(s: string, c: char): (k: int)
    ensures -1 <= k < |s|
    ensures k == -1 <==> c !in s
    ensures k >= 0 ==> s[k] == c && c !in s[k + 1..]
  {
    if |s| == 0 then -1
    else if s[|s| - 1] == c then |s| - 1
    else
      var init := s[..|s| - 1];
      var k := LastIndexOf(init, c);
      assert s == init + [s[|s| - 1]];
      assert c in s <==> c in init;
      assert k >= 0 ==> s[k + 1..] == init[k + 1..] + [s[|s| - 1]];
      k
  }

  /** Java `s.startsWith(prefix)`. */
  predicate StartsWith(s: string, prefix: string) {
    |prefix| <= |s| && s[..|prefix|] == prefix
  }

  /**
   * Every piece of s between occurrences of sep, empty ones included; the
   * recursion peels the piece after the last separator, as lastIndexOf does.
   */
  function Split(s: string, sep: char): (parts: seq<string>)
    ensures |parts| >= 1
    ensures forall i :: 0 <= i < |parts| ==> sep !in parts[i]
    decreases |s|
  {
    var k := LastIndexOf(s, sep);
    if k == -1 then [s] else Split(s[..k], sep) + [s[k + 1..]]
  }

  /** Java `String.join(sep, parts)`. */
  function Join(parts: seq<string>, sep: string): string
    decreases |parts|
  {
    if |parts| == 0 then ""
    else if |parts| == 1 then parts[0]
    else Join(parts[..|parts| - 1], sep) + sep + parts[|parts| - 1]
  }

  /** Removes the empty pieces at the end, as Java's split with limit 0 does. */
  function DropTrailingEmpty(parts: seq<string>): seq<string>
    decreases |parts|
  {
    if |parts| > 0 && parts[|parts| - 1] == "" then DropTrailingEmpty(parts[..|parts| - 1])
    else parts
  }

  /**
   * Java `s.split(sep)` for a one-character literal separator: when the
   * separator does not occur the result is `[s]` (so `"".split(",")` is
   * `[""]`); otherwise every piece, minus the empty ones at the end.
   */
  function JavaSplit(s: string, sep: char): seq<string> {
    if sep !in s then [s] else DropTrailingEmpty(Split(s, sep))
  }

  /** Pieces that are all empty are all dropped. */
  lemma {:induction false} DropAllEmpty(parts: seq<string>)
    requires forall i :: 0 <= i < |parts| ==> parts[i] == ""
    ensures DropTrailingEmpty(parts) == []
    decreases |parts|
  {
    if |parts| > 0 {
      DropAllEmpty(parts[..|parts| - 1]);
    }
  }

  /** Java's `"@@".split("@")` is empty: every piece is empty and dropped. */
  lemma SplitOnlySeparators()
    ensures JavaSplit("@@", '@') == []
  {
    assert LastIndexOf("@@", '@') == 1 && "@@"[..1] == "@" && "@@"[2..] == "";
    assert LastIndexOf("@", '@') == 0 && "@"[..0] == "" && "@"[1..] == "";
    assert LastIndexOf("", '@') == -1;
    assert Split("@@", '@') == ["", "", ""];
    DropAllEmpty(["", "", ""]);
    assert "@@"[0] == '@';
  }

  lemma {:induction false} LastIndexOfAppend(x: string, c: char, p: string)
    requires c !in p
    ensures LastIndexOf(x + [c] + p, c) == |x|
    decreases |p|
  {
    var s := x + [c] + p;
    if |p| == 0 {
    } else {
      assert s[..|s| - 1] == x + [c] + p[..|p| - 1];
      LastIndexOfAppend(x, c, p[..|p| - 1]);
    }
  }

  /** Joining the pieces with the separator gives back the string. */
  lemma {:induction false} JoinSplit(s: string, sep: char)
    ensures Join(Split(s, sep), [sep]) == s
    decreases |s|
  {
    var k := LastIndexOf(s, sep);
    if k != -1 {
      var parts := Split(s, sep);
      var init := Split(s[..k], sep);
      var last := s[k + 1..];
      assert parts == init + [last];
      assert parts[..|parts| - 1] == init;
      assert Join(parts, [sep]) == Join(init, [sep]) + [sep] + last;
      JoinSplit(s[..k], sep);
      assert s == s[..k] + [sep] + last;
    }
  }

  /** Splitting a join of separator-free pieces gives back the pieces. */
  lemma {:induction false} SplitJoin(parts: seq<string>, sep: char)
    requires |parts| >= 1
    requires forall i :: 0 <= i < |parts| ==> sep !in parts[i]
    ensures Split(Join(parts, [sep]), sep) == parts
    decreases |parts|
  {
    if |parts| == 1 {
    } else {
      var init := parts[..|parts| - 1];
      var last := parts[|parts| - 1];
      assert forall i :: 0 <= i < |init| ==> sep !in init[i] by {
        forall i | 0 <= i < |init| ensures sep !in init[i] { assert init[i] == parts[i]; }
      }
      SplitJoin(init, sep);
      var j := Join(init, [sep]);
      var s := j + [sep] + last;
      assert Join(parts, [sep]) == s;
      LastIndexOfAppend(j, sep, last);
      assert s[..|j|] == j && s[|j| + 1..] == last;
      assert Split(s, sep) == Split(j, sep) + [last];
      assert parts == init + [last];
    }
  }

  /** Java's split keeps a prefix of the pieces and drops only empty ones. */
  lemma {:induction false} DropTrailingEmptyPrefix(parts: seq<string>)
    ensures var r := DropTrailingEmpty(parts);
      |r| <= |parts| && r == parts[..|r|] &&
      (forall i :: |r| <= i < |parts| ==> parts[i] == "") &&
      (|r| > 0 ==> r[|r| - 1] != "")
    decreases |parts|
  {
    if |parts| > 0 && parts[|parts| - 1] == "" {
      DropTrailingEmptyPrefix(parts[..|parts| - 1]);
    }
  }

  /** One separator: the pieces are the text before and after it. */
  lemma SplitOnce(a: string, sep: char, b: string)
    requires sep !in a && sep !in b
    ensures Split(a + [sep] + b, sep) == [a, b]
  {
    LastIndexOfAppend(a, sep, b);
    var s := a + [sep] + b;
    assert s[..|a|] == a;
    assert s[|a| + 1..] == b;
  }

  // ---------------------------------------------------------------------
  // Commands: the text before the first space, and the rest.

  /**
   * Splits a protocol line at its first space: the command is everything
   * before it and the content everything after it; a line without a space
   * is all command, with empty content.
   */
  function SplitCommand(line: string): (r: (string, string))
    ensures ' ' !in r.0
    ensures ' ' in line ==> line == r.0 + " " + r.1
    ensures ' ' !in line ==> r.0 == line && r.1 == ""
  {
    var k := IndexOf(line, ' ');
    if k == -1 then (line, "")
    else
      assert line == line[..k] + " " + line[k + 1..];
      (line[..k], line[k + 1..])
  }

  // ---------------------------------------------------------------------
  // Decimal numbers.

  predicate IsDigit(c: char) { '0' <= c <= '9' }

  /** The regular expression `\d+` (ASCII digits). */
  predicate IsDigits(s: string) {
    |s| >= 1 && forall i :: 0 <= i < |s| ==> IsDigit(s[i])
  }

  function DigitChar(d: nat): char
    requires d < 10
  {
    ['0', '1', '2', '3', '4', '5', '6', '7', '8', '9'][d]
  }

  /** The value of a string of ASCII digits. */
  function DigitsValue(s: string): nat
    requires forall i :: 0 <= i < |s| ==> IsDigit(s[i])
    decreases |s|
  {
    if |s| == 0 then 0
    else
      assert IsDigit(s[|s| - 1]);
      DigitsValue(s[..|s| - 1]) * 10 + (s[|s| - 1] as int - '0' as int)
  }

  /** Java's decimal rendering of a non-negative number (`"" + n`). */
  function NatToString(n: nat): (s: string)
    ensures IsDigits(s)
    decreases n
  {
    if n < 10 then [DigitChar(n)] else NatToString(n / 10) + [DigitChar(n % 10)]
  }

  /** Java's decimal rendering of a (long) integer, with a minus sign when negative. */
  function IntToString(n: int): string {
    if n < 0 then "-" + NatToString(-n) else NatToString(n)
  }

  /** Reading back a rendered number gives the number. */
  lemma {:induction false} NatToStringValue(n: nat)
    ensures DigitsValue(NatToString(n)) == n
    decreases n
  {
    if n >= 10 {
      NatToStringValue(n / 10);
      var s := NatToString(n);
      assert s[..|s| - 1] == NatToString(n / 10);
    }
  }

  const LongMin: int := -0x8000_0000_0000_0000
  const LongMax: int := 0x7FFF_FFFF_FFFF_FFFF

  /** The text after an optional leading '+' or '-'. */
  function Unsigned(s: string): (t: string)
    ensures |t| <= |s| && t == s[|s| - |t|..]
  {
    if |s| >= 1 && (s[0] == '-' || s[0] == '+') then s[1..] else s
  }

  /** The value of an optionally signed decimal numeral. */
  function SignedValue(s: string): int
    requires IsDigits(Unsigned(s))
  {
    if |s| >= 1 && s[0] == '-' then -(DigitsValue(Unsigned(s)) as int) else DigitsValue(Unsigned(s))
  }

  /**
   * Java `Long.parseLong(s)` for ASCII digits: an optional sign followed by
   * at least one digit, within the range of a long; None stands for the
   * NumberFormatException.
   */
  function ParseLong(s: string): (r: Option<int>)
    ensures r.Some? <==> IsDigits(Unsigned(s)) && LongMin <= SignedValue(s) <= LongMax
    ensures r.Some? ==> r.value == SignedValue(s)
    ensures r.Some? ==> LongMin <= r.value <= LongMax
    ensures IsDigits(s) && DigitsValue(s) <= LongMax ==> r == Some(DigitsValue(s))
  {
    if |s| >= 1 && (s[0] == '-' || s[0] == '+') && IsDigits(s[1..]) then
      var m: int := DigitsValue(s[1..]);
      var v: int := if s[0] == '-' then 0 - m else m;
      if LongMin <= v <= LongMax then Some(v) else None
    else if IsDigits(s) && DigitsValue(s) <= LongMax then Some(DigitsValue(s))
    else None
  }

  /** Rendering a long and parsing it back is the identity. */
  lemma ParseLongRoundTrip(n: int)
    requires LongMin <= n <= LongMax
    ensures ParseLong(IntToString(n)) == Some(n)
  {
    if n < 0 {
      ParseNegative(n);
    } else {
      ParseNatString(n);
    }
  }

  /** An unsigned rendering within the range parses back to its number. */
  lemma ParseNatString(n: nat)
    requires n <= LongMax
    ensures ParseLong(NatToString(n)) == Some(n as int)
  {
    NatToStringValue(n);
  }

  lemma ParseNegative(n: int)
    requires LongMin <= n < 0
    ensures ParseLong(IntToString(n)) == Some(n)
  {
    NatToStringValue(-n);
    ParseMinus(NatToString(-n), -n);
  }

  /** A minus sign and digits worth m, with -m a long, parse to -m. */
  lemma ParseMinus(t: string, m: nat)
    requires IsDigits(t) && DigitsValue(t) == m && m <= -LongMin
    ensures ParseLong("-" + t) == Some(-(m as int))
  {
    var s := "-" + t;
    assert s[0] == '-' && s[1..] == t;
  }
}
