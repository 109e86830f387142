/** The parts of Rust's string API that the parsers use: `str::lines`,
    `str::trim`, `str::split` on one character, `str::split_once`,
    `char::to_digit(10)` and `u64::from_str`. Strings are sequences of
    Unicode scalar values, so indices are `chars()` indices. */
module Text {
  import opened Common

  const U64Limit: nat := 0x1_0000_0000_0000_0000

  predicate IsDigit(c: char) { '0' <= c <= '9' }

  /** `c.to_digit(10)`: only the ASCII digits are accepted. */
  function ToDigit(c: char): (r: Option<nat>)
    ensures r.Some? <==> IsDigit(c)
    ensures r.Some? ==> r.value < 10 && c == (r.value + '0' as int) as char
  {
    if IsDigit(c) then Some(c as int - '0' as int) else None
  }

  /** `char::is_whitespace`: the Unicode White_Space property. */
  predicate IsWhitespace(c: char)
  {
    || '\U{9}' <= c <= '\U{D}' || c == ' ' || c == '\U{85}' || c == '\U{A0}'
    || c == '\U{1680}' || '\U{2000}' <= c <= '\U{200A}' || c == '\U{2028}'
    || c == '\U{2029}' || c == '\U{202F}' || c == '\U{205F}' || c == '\U{3000}'
  }

  /** The number of whitespace characters at the start of `s`. */
  function LeadingWhitespace(s: string): (k: nat)
    ensures k <= |s|
    ensures k < |s| ==> !IsWhitespace(s[k])
  {
    if s != [] && IsWhitespace(s[0]) then 1 + LeadingWhitespace(s[1..]) else 0
  }

  /** The number of whitespace characters at the end of `s`. */
  function TrailingWhitespace(s: string): (k: nat)
    ensures k <= |s|
    ensures k < |s| ==> !IsWhitespace(s[|s| - 1 - k])
  {
    if s != [] && IsWhitespace(s[|s| - 1]) then 1 + TrailingWhitespace(s[..|s| - 1]) else 0
  }

  /** `str::trim_start`. */
  function TrimStart(s: string): (r: string)
    ensures r == s[LeadingWhitespace(s)..]
  {
    if s != [] && IsWhitespace(s[0]) then TrimStart(s[1..]) else s
  }

  /** `str::trim_end`. */
  function TrimEnd(s: string): (r: string)
    ensures r == s[..|s| - TrailingWhitespace(s)]
  {
    if s != [] && IsWhitespace(s[|s| - 1]) then TrimEnd(s[..|s| - 1]) else s
  }

  /** `str::trim`: `s` without its leading and trailing whitespace. */
  function Trim(s: string): (r: string)
    ensures var k := LeadingWhitespace(s);
            k + |r| <= |s| && r == s[k..k + |r|]
    ensures r != [] ==> !IsWhitespace(r[0]) && !IsWhitespace(r[|r| - 1])
  {
    var t := TrimStart(s);
    var r := TrimEnd(t);
    assert r != [] ==> r[0] == t[0];
    r
  }

  /** Everything `Trim` removes is whitespace: the leading part ... */
  lemma TrimRemovesLeading(s: string)
    ensures forall i :: 0 <= i < LeadingWhitespace(s) ==> IsWhitespace(s[i])
  {
    LeadingAreWhitespace(s);
  }

  /** ... and the trailing part. */
  lemma TrimRemovesTrailing(s: string)
    ensures forall i :: LeadingWhitespace(s) + |Trim(s)| <= i < |s| ==> IsWhitespace(s[i])
  {
    var k := LeadingWhitespace(s);
    var t := s[k..];
    assert Trim(s) == TrimEnd(t);
    TrailingAreWhitespace(t);
    WhitespaceSuffixShift(s, k, |t| - TrailingWhitespace(t));
  }

  lemma WhitespaceSuffixShift(s: string, k: nat, m: nat)
    requires k <= |s|
    requires forall j :: m <= j < |s| - k ==> IsWhitespace(s[k..][j])
    ensures forall i :: k + m <= i < |s| ==> IsWhitespace(s[i])
  {
    forall i | k + m <= i < |s| ensures IsWhitespace(s[i]) {
      assert s[i] == s[k..][i - k];
    }
  }

  lemma {:induction false} LeadingAreWhitespace(s: string)
    ensures forall i :: 0 <= i < LeadingWhitespace(s) ==> IsWhitespace(s[i])
  {
    if s != [] && IsWhitespace(s[0]) {
      LeadingAreWhitespace(s[1..]);
      forall i | 1 <= i < LeadingWhitespace(s) ensures IsWhitespace(s[i]) {
        assert s[i] == s[1..][i - 1];
      }
    }
  }

  lemma {:induction false} TrailingAreWhitespace(s: string)
    ensures forall i :: |s| - TrailingWhitespace(s) <= i < |s| ==> IsWhitespace(s[i])
  {
    if s != [] && IsWhitespace(s[|s| - 1]) {
      var p := s[..|s| - 1];
      TrailingAreWhitespace(p);
      forall i | |s| - TrailingWhitespace(s) <= i < |s| - 1 ensures IsWhitespace(s[i]) {
        assert s[i] == p[i];
      }
    }
  }

  /** A string that neither starts nor ends with whitespace is its own trim. */
  lemma TrimUnpadded(s: string)
    requires s != [] ==> !IsWhitespace(s[0]) && !IsWhitespace(s[|s| - 1])
    ensures Trim(s) == s
  {
    assert TrimStart(s) == s;
    assert TrimEnd(s) == s;
  }

  /** The index of the first occurrence of `c` in `s`, if any. */
  function IndexOf(s: string, c: char): (r: Option<nat>)
    ensures r.None? <==> c !in s
    ensures r.Some? ==> r.value < |s| && s[r.value] == c && c !in s[..r.value]
  {
    if s == [] then None
    else if s[0] == c then Some(0)
    else match IndexOf(s[1..], c)
      case None => None
      case Some(i) => assert s[..i + 1] == [s[0]] + s[1..][..i]; Some(i + 1)
  }

  /** One line of `str::lines` without its `\n`: a `\r` just before the `\n` is dropped too. */
  function StripCr(line: string): string
  {
    if line != [] && line[|line| - 1] == '\r' then line[..|line| - 1] else line
  }

  /** `str::lines`: split after every `\n`; a final line needs no `\n`, and an empty
      string has no lines. */
  function Lines(s: string): (r: seq<string>)
    ensures forall i :: 0 <= i < |r| ==> '\n' !in r[i]
    ensures s == [] <==> r == []
    decreases |s|
  {
    if s == [] then []
    else match IndexOf(s, '\n')
      case None => [s]
      case Some(i) => [StripCr(s[..i])] + Lines(s[i + 1..])
  }

  /** The lines of `ls` written out, each ended by a `\n`. */
  function Unlines(ls: seq<string>): string
  {
    if ls == [] then [] else ls[0] + "\n" + Unlines(ls[1..])
  }

  lemma {:induction false} IndexOfAfter(a: string, c: char, b: string)
    requires c !in a
    ensures IndexOf(a + [c] + b, c) == Some(|a|)
  {
    if a != [] {
      assert (a + [c] + b)[1..] == a[1..] + [c] + b;
      IndexOfAfter(a[1..], c, b);
    }
  }

  /** `lines` undoes writing lines out, whenever no line holds a `\n` or ends in `\r`. */
  lemma {:induction false} LinesUnlines(ls: seq<string>)
    requires forall i :: 0 <= i < |ls| ==> '\n' !in ls[i]
    requires forall i :: 0 <= i < |ls| ==> ls[i] == [] || ls[i][|ls[i]| - 1] != '\r'
    ensures Lines(Unlines(ls)) == ls
  {
    if ls != [] {
      var s := Unlines(ls);
      var l := ls[0];
      var rest := Unlines(ls[1..]);
      assert s == l + ['\n'] + rest;
      IndexOfAfter(l, '\n', rest);
      assert s[..|l|] == l;
      assert s[|l| + 1..] == rest;
      LinesUnlines(ls[1..]);
    }
  }

  /** `s.split(sep)` on one character: the pieces between separators, empty ones included. */
  function Split(s: string, sep: char): (r: seq<string>)
    ensures |r| >= 1
    ensures forall i :: 0 <= i < |r| ==> sep !in r[i]
    decreases |s|
  {
    match IndexOf(s, sep)
      case None => [s]
      case Some(i) => [s[..i]] + Split(s[i + 1..], sep)
  }

  function Join(pieces: seq<string>, sep: char): string
    requires |pieces| >= 1
  {
    if |pieces| == 1 then pieces[0] else pieces[0] + [sep] + Join(pieces[1..], sep)
  }

  /** Joining the pieces of a split with the separator gives the string back. */
  lemma {:induction false} JoinSplit(s: string, sep: char)
    ensures Join(Split(s, sep), sep) == s
    decreases |s|
  {
    match IndexOf(s, sep)
      case None =>
      case Some(i) =>
        var rest := Split(s[i + 1..], sep);
        assert Split(s, sep) == [s[..i]] + rest;
        JoinSplit(s[i + 1..], sep);
        assert ([s[..i]] + rest)[1..] == rest;
        assert s == s[..i] + [sep] + s[i + 1..];
  }

  /** Splitting a join gives the pieces back, when no piece holds the separator. */
  lemma {:induction false} SplitJoin(pieces: seq<string>, sep: char)
    requires |pieces| >= 1
    requires forall i :: 0 <= i < |pieces| ==> sep !in pieces[i]
    ensures Split(Join(pieces, sep), sep) == pieces
  {
    if |pieces| > 1 {
      var p := pieces[0];
      var rest := Join(pieces[1..], sep);
      assert Join(pieces, sep) == p + [sep] + rest;
      SplitAfter(p, sep, rest);
      SplitJoin(pieces[1..], sep);
      assert pieces == [p] + pieces[1..];
    } else {
      assert IndexOf(pieces[0], sep).None?;
    }
  }

  /** A split cuts at the first separator. */
  lemma SplitAfter(p: string, sep: char, rest: string)
    requires sep !in p
    ensures Split(p + [sep] + rest, sep) == [p] + Split(rest, sep)
  {
    var s := p + [sep] + rest;
    IndexOfAfter(p, sep, rest);
    assert s[..|p|] == p;
    assert s[|p| + 1..] == rest;
  }

  /** `s.split_once(sep)` for a two-character separator: the parts before and after
      its first occurrence. */
  function SplitOnce(s: string, sep0: char, sep1: char): (r: Option<(string, string)>)
    ensures r.Some? ==> s == r.value.0 + [sep0, sep1] + r.value.1
    ensures r.None? ==> forall i :: 0 <= i < |s| - 1 ==> !(s[i] == sep0 && s[i + 1] == sep1)
    ensures r.Some? ==> forall i :: 0 <= i < |r.value.0| ==> !(s[i] == sep0 && s[i + 1] == sep1)
  {
    if |s| < 2 then None
    else if s[0] == sep0 && s[1] == sep1 then Some(([], s[2..]))
    else match SplitOnce(s[1..], sep0, sep1)
      case None => None
      case Some((a, b)) =>
        assert s == [s[0]] + s[1..];
        Some(([s[0]] + a, b))
  }

  /** `split_once` stops at the first separator, so it finds the one after a prefix
      free of the separator's first character. */
  lemma {:induction false} SplitOnceAfter(x: string, sep0: char, sep1: char, rest: string)
    requires sep0 !in x
    ensures SplitOnce(x + [sep0, sep1] + rest, sep0, sep1) == Some((x, rest))
  {
    var s := x + [sep0, sep1] + rest;
    if x != [] {
      assert s[1..] == x[1..] + [sep0, sep1] + rest;
      SplitOnceAfter(x[1..], sep0, sep1, rest);
      assert [s[0]] + x[1..] == x;
    } else {
      assert s[2..] == rest;
    }
  }

  function DigitOf(c: char): nat
    requires IsDigit(c)
  {
    c as int - '0' as int
  }

  /** The value of a string of decimal digits, most significant first. */
  function DigitsValue(s: string): nat
    requires forall i :: 0 <= i < |s| ==> IsDigit(s[i])
  {
    if s == [] then 0 else DigitsValue(s[..|s| - 1]) * 10 + DigitOf(s[|s| - 1])
  }

  /** The digits `parse::<u64>` reads: the text after an optional leading `+`. */
  function Unsigned(s: string): string
  {
    if s != [] && s[0] == '+' then s[1..] else s
  }

  /** `s.parse::<u64>()`: an optional `+`, then at least one ASCII digit, and a value
      below 2^64. */
  function ParseU64(s: string): (r: Option<nat>)
    ensures r.Some? ==> r.value < U64Limit
    ensures r.Some? <==> var d := Unsigned(s);
                         d != [] && (forall i :: 0 <= i < |d| ==> IsDigit(d[i])) && DigitsValue(d) < U64Limit
    ensures r.Some? ==> r.value == DigitsValue(Unsigned(s))
  {
    var d := Unsigned(s);
    if d != [] && (forall i :: 0 <= i < |d| ==> IsDigit(d[i])) && DigitsValue(d) < U64Limit
    then Some(DigitsValue(d)) else None
  }

  /** A leading zero does not change the value of a digit string. */
  lemma {:induction false} DigitsValueLeadingZero(s: string)
    requires forall i :: 0 <= i < |s| ==> IsDigit(s[i])
    ensures DigitsValue(['0'] + s) == DigitsValue(s)
  {
    if s == [] {
      assert (['0'] + s)[..0] == [];
    } else {
      assert (['0'] + s)[..|s|] == ['0'] + s[..|s| - 1];
      DigitsValueLeadingZero(s[..|s| - 1]);
    }
  }

  /** `parse::<u64>` ignores leading zeros: "007" parses as "7" does. */
  lemma ParseLeadingZero(s: string)
    requires s != [] && s[0] != '+'
    ensures ParseU64(['0'] + s) == ParseU64(s)
  {
    var z := ['0'] + s;
    assert Unsigned(z) == z && Unsigned(s) == s;
    if forall i :: 0 <= i < |s| ==> IsDigit(s[i]) {
      DigitsValueLeadingZero(s);
      assert forall i :: 0 <= i < |z| ==> IsDigit(z[i]) by {
        forall i | 0 <= i < |z| ensures IsDigit(z[i]) {
          if i > 0 { assert z[i] == s[i - 1]; }
        }
      }
    } else {
      var j :| 0 <= j < |s| && !IsDigit(s[j]);
      assert !IsDigit(Unsigned(s)[j]) && !IsDigit(Unsigned(z)[j + 1]);
    }
  }

  /** The decimal representation of `n` (what `n.to_string()` writes). */
  function ShowNat(n: nat): (r: string)
    ensures r != [] && forall i :: 0 <= i < |r| ==> IsDigit(r[i])
    ensures DigitsValue(r) == n
  {
    var last := [(n % 10 + '0' as int) as char];
    assert DigitsValue(last) == n % 10 by {
      assert last[..0] == [];
    }
    if n < 10 then last
    else
      var r := ShowNat(n / 10) + last;
      assert r[..|r| - 1] == ShowNat(n / 10);
      r
  }

  /** Writing a 64-bit value in decimal and parsing it gives the value back. */
  lemma ParseShow(n: nat)
    requires n < U64Limit
    ensures ParseU64(ShowNat(n)) == Some(n)
  {
  }
}
