/**
 * The PHP string primitives the sitemap model relies on: `empty()` on strings,
 * `trim`, `rtrim($s, '/')`, `preg_split('/\r\n|\r|\n/', ...)`, case-insensitive
 * substring search (`mb_stripos(...) !== false`) and decimal rendering of ids.
 */
module PhpStrings {

  /** PHP's `empty()` on a string: both "" and "0" are empty. */
  predicate PhpEmpty(s: string)
  {
    s == "" || s == "0"
  }

  // ---------------------------------------------------------------------------
  // Case folding and substring search

  /** Case folding of one character; only ASCII letters are folded. */
  function LowerChar(c: char): char
  {
    if 'A' <= c <= 'Z' then (c as int + 32) as char else c
  }

  function Lower(s: string): (r: string)
    ensures |r| == |s|
    ensures forall i :: 0 <= i < |s| ==> r[i] == LowerChar(s[i])
  {
    if s == [] then [] else [LowerChar(s[0])] + Lower(s[1..])
  }

  predicate IsPrefix(p: string, s: string)
  {
    |p| <= |s| && s[..|p|] == p
  }

  /** `t` occurs in `s` (the empty string occurs everywhere). */
  predicate Contains(s: string, t: string)
    decreases |s|
  {
    IsPrefix(t, s) || (s != [] && Contains(s[1..], t))
  }

  /** `t` occurs in `s` starting at position `i`. */
  predicate OccursAt(s: string, t: string, i: int)
  {
    0 <= i && i + |t| <= |s| && s[i..i + |t|] == t
  }

  /** The recursive search finds exactly the positional occurrences. */
  lemma {:induction false} ContainsIffOccurs(s: string, t: string)
    ensures Contains(s, t) <==> exists i :: OccursAt(s, t, i)
    decreases |s|
  {
    if s != [] {
      ContainsIffOccurs(s[1..], t);
    }
    if Contains(s, t) {
      if IsPrefix(t, s) {
        assert OccursAt(s, t, 0);
      } else {
        var i :| OccursAt(s[1..], t, i);
        assert s[i + 1..i + 1 + |t|] == s[1..][i..i + |t|];
        assert OccursAt(s, t, i + 1);
      }
    }
    if exists i :: OccursAt(s, t, i) {
      var i :| OccursAt(s, t, i);
      if i == 0 {
        assert IsPrefix(t, s);
      } else {
        assert s[1..][i - 1..i - 1 + |t|] == s[i..i + |t|];
        assert OccursAt(s[1..], t, i - 1);
      }
    }
  }

  /** `mb_stripos($haystack, $needle) !== false`, with ASCII case folding. */
  predicate ContainsCI(haystack: string, needle: string)
  {
    Contains(Lower(haystack), Lower(needle))
  }

  // ---------------------------------------------------------------------------
  // trim and rtrim

  /** The characters PHP's `trim` strips by default: " \t\n\r\0\x0B". */
  predicate IsTrimChar(c: char)
  {
    c == ' ' || c == '\t' || c == '\n' || c == '\r' || c == '\0' || c == '\U{0B}'
  }

  predicate AllTrimChars(s: string)
  {
    forall i :: 0 <= i < |s| ==> IsTrimChar(s[i])
  }

  function TrimLeft(s: string): (r: string)
    ensures |r| <= |s| && r == s[|s| - |r|..]
    ensures AllTrimChars(s[..|s| - |r|])
    ensures r == [] || !IsTrimChar(r[0])
  {
    if s != [] && IsTrimChar(s[0]) then TrimLeft(s[1..]) else s
  }

  function TrimRight(s: string): (r: string)
    ensures |r| <= |s| && r == s[..|r|]
    ensures AllTrimChars(s[|r|..])
    ensures r == [] || !IsTrimChar(r[|r| - 1])
  {
    if s != [] && IsTrimChar(s[|s| - 1]) then TrimRight(s[..|s| - 1]) else s
  }

  /**
   * PHP's `trim`: what is left of `s` after removing the longest runs of
   * trim characters at both ends (see `TrimBounds`).
   */
  function Trim(s: string): (r: string)
    ensures |r| <= |s|
    ensures r == [] || (!IsTrimChar(r[0]) && !IsTrimChar(r[|r| - 1]))
  {
    TrimRight(TrimLeft(s))
  }

  /** The result of `Trim` is the infix of `s` between two runs of trim characters. */
  lemma TrimBounds(s: string) returns (i: nat, j: nat)
    ensures i <= j <= |s| && Trim(s) == s[i..j]
    ensures AllTrimChars(s[..i]) && AllTrimChars(s[j..])
  {
    var l := TrimLeft(s);
    var r := TrimRight(l);
    i, j := |s| - |l|, |s| - |l| + |r|;
    assert r == s[i..j];
    assert s[j..] == l[|r|..];
  }

  /** `rtrim($s, '/')`: drop every trailing slash. */
  function RTrimSlash(s: string): (r: string)
    ensures |r| <= |s| && r == s[..|r|]
    ensures forall i :: |r| <= i < |s| ==> s[i] == '/'
    ensures r == [] || r[|r| - 1] != '/'
  {
    if s != [] && s[|s| - 1] == '/' then RTrimSlash(s[..|s| - 1]) else s
  }

  // ---------------------------------------------------------------------------
  // preg_split('/\r\n|\r|\n/', $s)

  predicate IsBreak(c: char)
  {
    c == '\r' || c == '\n'
  }

  predicate NoBreaks(s: string)
  {
    forall i :: 0 <= i < |s| ==> !IsBreak(s[i])
  }

  function Concat(lines: seq<string>): string
  {
    if lines == [] then "" else lines[0] + Concat(lines[1..])
  }

  /** `s` with every '\r' and '\n' removed. */
  function RemoveBreaks(s: string): string
  {
    if s == [] then ""
    else (if IsBreak(s[0]) then "" else [s[0]]) + RemoveBreaks(s[1..])
  }

  /** `s` with every separator ("\r\n", else "\r", else "\n") written as one "\n". */
  function NormalizeBreaks(s: string): string
    decreases |s|
  {
    if s == [] then ""
    else if |s| > 1 && s[0] == '\r' && s[1] == '\n' then "\n" + NormalizeBreaks(s[2..])
    else if s[0] == '\r' then "\n" + NormalizeBreaks(s[1..])
    else [s[0]] + NormalizeBreaks(s[1..])
  }

  /** The lines joined back together with "\n" between them. */
  function JoinLines(lines: seq<string>): string
    requires |lines| >= 1
  {
    if |lines| == 1 then lines[0] else lines[0] + "\n" + JoinLines(lines[1..])
  }

  /**
   * Splits on "\r\n", "\r" or "\n", trying "\r\n" first; empty pieces are kept.
   * The pieces carry no line break, and joined with "\n" they give `s` with
   * each separator written as "\n": so there is one cut per separator, and
   * the pieces are the text between consecutive separators.
   */
  function SplitLines(s: string): (r: seq<string>)
    ensures |r| >= 1
    ensures forall i :: 0 <= i < |r| ==> NoBreaks(r[i])
    ensures JoinLines(r) == NormalizeBreaks(s)
    ensures Concat(r) == RemoveBreaks(s)
    decreases |s|
  {
    if s == [] then [""]
    else if IsBreak(s[0]) then
      // the separator is "\r\n" when it fits, otherwise the single character
      var width := if s[0] == '\r' && |s| > 1 && s[1] == '\n' then 2 else 1;
      var rest := SplitLines(s[width..]);
      assert RemoveBreaks(s) == RemoveBreaks(s[width..]) by {
        if width == 2 {
          assert s[1..][1..] == s[2..];
          assert RemoveBreaks(s[1..]) == RemoveBreaks(s[2..]);
        }
      }
      SeparatorLine(rest)
    else
      var rest := SplitLines(s[1..]);
      JoinFirst(s[0], rest)
  }

  /** A separator starts a new, so far empty, line. */
  function SeparatorLine(rest: seq<string>): (r: seq<string>)
    requires |rest| >= 1
    ensures |r| == |rest| + 1 && r[0] == "" && r[1..] == rest
    ensures Concat(r) == Concat(rest)
    ensures JoinLines(r) == "\n" + JoinLines(rest)
  {
    var r := [""] + rest;
    assert r[1..] == rest;
    r
  }

  /** Any other character is prepended to the first line. */
  function JoinFirst(c: char, rest: seq<string>): (r: seq<string>)
    requires |rest| >= 1
    ensures |r| == |rest| && r[0] == [c] + rest[0] && r[1..] == rest[1..]
    ensures Concat(r) == [c] + Concat(rest)
    ensures JoinLines(r) == [c] + JoinLines(rest)
  {
    var r := [[c] + rest[0]] + rest[1..];
    assert r[1..] == rest[1..];
    r
  }

  // ---------------------------------------------------------------------------
  // Decimal rendering of a non-negative integer (string concatenation of an int)

  predicate IsDigit(c: char)
  {
    '0' <= c <= '9'
  }

  function DigitChar(d: nat): (c: char)
    requires d < 10
    ensures IsDigit(c) && c as int - '0' as int == d
  {
    (d + '0' as int) as char
  }

  /** The decimal notation PHP produces when an integer is concatenated. */
  function NatToString(n: nat): (r: string)
    ensures |r| >= 1
    ensures forall i :: 0 <= i < |r| ==> IsDigit(r[i])
    decreases n
  {
    if n < 10 then [DigitChar(n)] else NatToString(n / 10) + [DigitChar(n % 10)]
  }

  function ParseDigits(s: string): nat
    requires forall i :: 0 <= i < |s| ==> IsDigit(s[i])
  {
    if s == [] then 0
    else
      var last := s[|s| - 1];
      assert IsDigit(last);
      ParseDigits(s[..|s| - 1]) * 10 + (last as int - '0' as int)
  }

  /** Reading the digits back gives the number. */
  lemma {:induction false} ParseNatToString(n: nat)
    ensures ParseDigits(NatToString(n)) == n
    decreases n
  {
    if n >= 10 {
      var s := NatToString(n);
      assert s[..|s| - 1] == NatToString(n / 10);
      ParseNatToString(n / 10);
    }
  }

  /** The longest prefix of `s` made of digits. */
  function DigitPrefix(s: string): (r: string)
    ensures IsPrefix(r, s)
    ensures forall i :: 0 <= i < |r| ==> IsDigit(r[i])
    ensures |r| == |s| || !IsDigit(s[|r|])
  {
    if s != [] && IsDigit(s[0]) then [s[0]] + DigitPrefix(s[1..]) else ""
  }

  lemma {:induction false} DigitPrefixOfDigits(d: string, rest: string)
    requires forall i :: 0 <= i < |d| ==> IsDigit(d[i])
    requires rest == [] || !IsDigit(rest[0])
    ensures DigitPrefix(d + rest) == d
  {
    if d != [] {
      assert (d + rest)[1..] == d[1..] + rest;
      DigitPrefixOfDigits(d[1..], rest);
    } else {
      assert d + rest == rest;
    }
  }
}
