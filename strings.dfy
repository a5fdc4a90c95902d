/**
 * The parts of Rust's `str`/`String` API that the server's framing code relies
 * on, written out over Dafny strings: `split` on a character pattern and on
 * "\r\n", `trim`, `trim_left_matches`, the decimal rendering of an integer by
 * `format!("{}")`, and `as_bytes` (UTF-8 encoding).
 */
module Strings {

  newtype byte = x: int | 0 <= x < 256

  /**
   * Rust's `char::is_whitespace`: the characters with the Unicode White_Space
   * property, U+0009 to U+000D, U+0020, U+0085, U+00A0, U+1680, U+2000 to
   * U+200A, U+2028, U+2029, U+202F, U+205F and U+3000.
   */
  predicate IsWhitespace(c: char) {
    var x := c as int;
    || (0x09 <= x <= 0x0D) || x == 0x20 || x == 0x85 || x == 0xA0 || x == 0x1680
    || (0x2000 <= x <= 0x200A) || x == 0x2028 || x == 0x2029 || x == 0x202F || x == 0x205F || x == 0x3000
  }

  /** The character pattern a `split` is given. */
  datatype Delimiter = AnyWhitespace | Exactly(c: char)

  predicate Delimits(d: Delimiter, c: char) {
    match d
    case AnyWhitespace => IsWhitespace(c)
    case Exactly(x) => c == x
  }

  predicate Undelimited(s: string, d: Delimiter) {
    forall i :: 0 <= i < |s| ==> !Delimits(d, s[i])
  }

  /* ---------------------------------------------------------------------- */
  /* str::split with a character pattern                                     */
  /* ---------------------------------------------------------------------- */

  /**
   * `s.split(pattern)`: the pieces between consecutive delimiters, so that two
   * adjacent delimiters give an empty piece and the empty string gives one
   * empty piece. No piece contains a delimiter.
   */
  function Split(s: string, d: Delimiter): (pieces: seq<string>)
    ensures |pieces| >= 1
    ensures forall i :: 0 <= i < |pieces| ==> Undelimited(pieces[i], d)
  {
    if s == [] then [""]
    else
      var rest := Split(s[1..], d);
      if Delimits(d, s[0]) then [""] + rest
      else [[s[0]] + rest[0]] + rest[1..]
  }

  /** How many characters of `s` the delimiter matches. */
  function DelimiterCount(s: string, d: Delimiter): nat {
    if s == [] then 0
    else (if Delimits(d, s[0]) then 1 else 0) + DelimiterCount(s[1..], d)
  }

  /** A split yields exactly one more piece than there are delimiters. */
  lemma {:induction false} SplitCount(s: string, d: Delimiter)
    ensures |Split(s, d)| == DelimiterCount(s, d) + 1
  {
    if s != [] {
      SplitCount(s[1..], d);
    }
  }

  /** The inverse of splitting on one character: put the character back between the pieces. */
  function Join(pieces: seq<string>, sep: char): string {
    if |pieces| == 0 then ""
    else if |pieces| == 1 then pieces[0]
    else pieces[0] + [sep] + Join(pieces[1..], sep)
  }

  /** Splitting on a character loses nothing: joining the pieces gives the input back. */
  lemma {:induction false} JoinSplit(s: string, c: char)
    ensures Join(Split(s, Exactly(c)), c) == s
  {
    if s != [] {
      var rest := Split(s[1..], Exactly(c));
      JoinSplit(s[1..], c);
      if s[0] == c {
        assert Split(s, Exactly(c)) == [""] + rest;
        assert s == [c] + s[1..];
      } else {
        var ps := Split(s, Exactly(c));
        assert ps == [[s[0]] + rest[0]] + rest[1..];
        if |rest| == 1 {
          assert s == [s[0]] + s[1..];
        } else {
          assert ps[1..] == rest[1..];
          assert Join(rest, c) == rest[0] + [c] + Join(rest[1..], c);
          assert s == [s[0]] + s[1..];
        }
      }
    }
  }

  /** A string with no delimiter in it is a single piece. */
  lemma {:induction false} SplitUndelimited(s: string, d: Delimiter)
    requires Undelimited(s, d)
    ensures Split(s, d) == [s]
  {
    if s != [] {
      SplitUndelimited(s[1..], d);
      assert [s[0]] + s[1..] == s;
    }
  }

  /** A field free of delimiters followed by one delimiter is the first piece. */
  lemma {:induction false} SplitField(a: string, c: char, rest: string, d: Delimiter)
    requires Undelimited(a, d) && Delimits(d, c)
    ensures Split(a + [c] + rest, d) == [a] + Split(rest, d)
  {
    var s := a + [c] + rest;
    if a == [] {
      assert s[1..] == rest;
    } else {
      assert s[1..] == a[1..] + [c] + rest;
      SplitField(a[1..], c, rest, d);
      assert [a[0]] + a[1..] == a;
    }
  }

  /* ---------------------------------------------------------------------- */
  /* str::split("\r\n")                                                      */
  /* ---------------------------------------------------------------------- */

  predicate HasCrlfAt(s: string, i: int) {
    0 <= i && i + 1 < |s| && s[i] == '\r' && s[i + 1] == '\n'
  }

  /**
   * `s.split("\r\n")`: the leftmost "\r\n" ends the first line, and so on; a
   * trailing "\r\n" leaves a last, empty line. No line contains "\r\n", and
   * the first line is a prefix of the input.
   */
  function SplitLines(s: string): (lines: seq<string>)
    ensures |lines| >= 1
    ensures lines[0] <= s
    ensures forall i, j :: 0 <= i < |lines| ==> !HasCrlfAt(lines[i], j)
  {
    if s == [] then [""]
    else if HasCrlfAt(s, 0) then
      [""] + SplitLines(s[2..])
    else
      var rest := SplitLines(s[1..]);
      var first := [s[0]] + rest[0];
      assert forall j :: !HasCrlfAt(first, j) by {
        forall j | 0 < j ensures !HasCrlfAt(first, j) {
          if HasCrlfAt(first, j) {
            assert HasCrlfAt(rest[0], j - 1);
          }
        }
      }
      [first] + rest[1..]
  }

  /** A character missing from the input is missing from every line. */
  lemma {:induction false} SplitLinesWithout(s: string, c: char)
    requires c !in s
    ensures forall i :: 0 <= i < |SplitLines(s)| ==> c !in SplitLines(s)[i]
  {
    if s == [] {
    } else if HasCrlfAt(s, 0) {
      SplitLinesWithout(s[2..], c);
      assert SplitLines(s) == [""] + SplitLines(s[2..]);
    } else {
      var rest := SplitLines(s[1..]);
      SplitLinesWithout(s[1..], c);
      assert SplitLines(s) == [[s[0]] + rest[0]] + rest[1..];
    }
  }

  /** The inverse of line splitting: put "\r\n" back between the lines. */
  function JoinLines(lines: seq<string>): string {
    if |lines| == 0 then ""
    else if |lines| == 1 then lines[0]
    else lines[0] + "\r\n" + JoinLines(lines[1..])
  }

  /** Line splitting loses nothing: joining the lines gives the input back. */
  lemma {:induction false} JoinSplitLines(s: string)
    ensures JoinLines(SplitLines(s)) == s
  {
    if s == [] {
    } else if HasCrlfAt(s, 0) {
      JoinSplitLines(s[2..]);
      assert s == "\r\n" + s[2..];
    } else {
      JoinSplitLines(s[1..]);
      JoinConsLine(s[0], SplitLines(s[1..]));
      assert s == [s[0]] + s[1..];
    }
  }

  /** Putting a character in front of the first line puts it in front of the joined text. */
  lemma JoinConsLine(c: char, lines: seq<string>)
    requires |lines| >= 1
    ensures JoinLines([[c] + lines[0]] + lines[1..]) == [c] + JoinLines(lines)
  {
    if |lines| == 1 {
      assert [[c] + lines[0]] + lines[1..] == [[c] + lines[0]];
    } else {
      JoinConsLines(c, lines[0], JoinLines(lines[1..]));
      assert ([[c] + lines[0]] + lines[1..])[1..] == lines[1..];
    }
  }

  /** The same, once the rest is joined: a character in front of the first line is in front of all. */
  lemma JoinConsLines(c: char, first: string, rest: string)
    ensures ([c] + first) + "\r\n" + rest == [c] + (first + "\r\n" + rest)
  {
  }

  /** A line free of carriage returns followed by "\r\n" is the first line. */
  lemma {:induction false} SplitLinesField(a: string, rest: string)
    requires '\r' !in a
    ensures SplitLines(a + "\r\n" + rest) == [a] + SplitLines(rest)
  {
    var s := a + "\r\n" + rest;
    if a == [] {
      assert s[2..] == rest;
    } else {
      assert s[0] == a[0];
      assert s[1..] == a[1..] + "\r\n" + rest;
      SplitLinesField(a[1..], rest);
      assert [a[0]] + a[1..] == a;
    }
  }

  /* ---------------------------------------------------------------------- */
  /* str::trim                                                               */
  /* ---------------------------------------------------------------------- */

  predicate IsTrimmed(s: string) {
    s == [] || (!IsWhitespace(s[0]) && !IsWhitespace(s[|s| - 1]))
  }

  /** Drops the leading whitespace, and nothing else. */
  function TrimStart(s: string): (r: string)
    ensures |r| <= |s| && r == s[|s| - |r|..]
    ensures forall i :: 0 <= i < |s| - |r| ==> IsWhitespace(s[i])
    ensures r == [] || !IsWhitespace(r[0])
  {
    if |s| > 0 && IsWhitespace(s[0]) then
      var r := TrimStart(s[1..]);
      assert forall i :: 1 <= i < |s| ==> s[i] == s[1..][i - 1];
      r
    else s
  }

  /** Drops the trailing whitespace, and nothing else. */
  function TrimEnd(s: string): (r: string)
    ensures |r| <= |s| && r == s[..|r|]
    ensures forall i :: |r| <= i < |s| ==> IsWhitespace(s[i])
    ensures r == [] || !IsWhitespace(r[|r| - 1])
  {
    if |s| > 0 && IsWhitespace(s[|s| - 1]) then TrimEnd(s[..|s| - 1]) else s
  }

  /** `s.trim()`: neither starts nor ends with whitespace. */
  function Trim(s: string): (r: string)
    ensures IsTrimmed(r) && |r| <= |s|
  {
    TrimEnd(TrimStart(s))
  }

  /**
   * What `trim` keeps is a middle part of `s`, and everything cut off on
   * either side is whitespace.
   */
  lemma TrimCut(s: string)
    ensures exists i :: TrimmedAt(s, Trim(s), i)
  {
    TrimCutAt(s);
  }

  /** The kept part starts where the leading whitespace ends. */
  lemma TrimCutAt(s: string)
    ensures TrimmedAt(s, Trim(s), |s| - |TrimStart(s)|)
  {
    var t := TrimStart(s);
    CutAt(s, t, TrimEnd(t));
  }

  /** A whitespace prefix, then a whitespace-ended cut of the rest, leave a middle part with whitespace around it. */
  lemma CutAt(s: string, t: string, r: string)
    requires |t| <= |s| && t == s[|s| - |t|..]
    requires forall j :: 0 <= j < |s| - |t| ==> IsWhitespace(s[j])
    requires |r| <= |t| && r == t[..|r|]
    requires forall j :: |r| <= j < |t| ==> IsWhitespace(t[j])
    ensures TrimmedAt(s, r, |s| - |t|)
  {
    var i := |s| - |t|;
    assert r == s[i..i + |r|];
    forall j | i + |r| <= j < |s| ensures IsWhitespace(s[j]) {
      assert s[j] == t[j - i];
    }
  }

  /** `r` is the part of `s` that starts at `i`, with only whitespace around it. */
  predicate TrimmedAt(s: string, r: string, i: int) {
    && 0 <= i <= |s| - |r| && r == s[i..i + |r|]
    && (forall j :: 0 <= j < i ==> IsWhitespace(s[j]))
    && (forall j :: i + |r| <= j < |s| ==> IsWhitespace(s[j]))
  }

  /** Trimming leaves an already-trimmed string as it is. */
  lemma TrimTrimmed(s: string)
    requires IsTrimmed(s)
    ensures TrimStart(s) == s && TrimEnd(s) == s && Trim(s) == s
  {
    assert TrimStart(s) == s;
  }

  /** A single space in front of a trimmed value is trimmed away. */
  lemma TrimAfterSpace(v: string)
    requires IsTrimmed(v)
    ensures Trim(" " + v) == v
  {
    var s := " " + v;
    assert s[0] == ' ' && s[1..] == v;
    assert TrimStart(s) == TrimStart(v);
    TrimTrimmed(v);
  }

  /* ---------------------------------------------------------------------- */
  /* str::trim_left_matches with a string pattern                            */
  /* ---------------------------------------------------------------------- */

  /** `t` is zero or more copies of `pat`, back to back. */
  predicate IsRepetition(t: string, pat: string)
    requires pat != []
    decreases |t|
  {
    t == [] || (pat <= t && IsRepetition(t[|pat|..], pat))
  }

  /**
   * `s.trim_left_matches(pat)`: removes every leading copy of `pat`, not just
   * one. What is removed is a run of copies of `pat`; what is left does not
   * start with `pat`.
   */
  function TrimLeftMatches(s: string, pat: string): (r: string)
    requires pat != []
    ensures |r| <= |s| && r == s[|s| - |r|..]
    ensures IsRepetition(s[..|s| - |r|], pat)
    ensures !(pat <= r)
    decreases |s|
  {
    if pat <= s then
      var s' := s[|pat|..];
      var r := TrimLeftMatches(s', pat);
      var u := s'[..|s'| - |r|];
      assert s[..|s| - |r|] == pat + u;
      RepetitionCons(pat, u);
      r
    else
      s
  }

  /** One more copy of the pattern in front of a run of copies is a run of copies. */
  lemma RepetitionCons(pat: string, u: string)
    requires pat != [] && IsRepetition(u, pat)
    ensures IsRepetition(pat + u, pat)
  {
    assert (pat + u)[|pat|..] == u;
  }

  /**
   * The result is determined by the two properties above: any split of `s`
   * into copies of `pat` followed by a rest that does not start with `pat`
   * has that rest as the result.
   */
  lemma {:induction false} TrimLeftMatchesUnique(t: string, r: string, pat: string)
    requires pat != []
    requires IsRepetition(t, pat) && !(pat <= r)
    ensures TrimLeftMatches(t + r, pat) == r
    decreases |t|
  {
    if t == [] {
      assert t + r == r;
    } else {
      assert pat <= t + r;
      assert (t + r)[|pat|..] == t[|pat|..] + r;
      TrimLeftMatchesUnique(t[|pat|..], r, pat);
      assert TrimLeftMatches(t + r, pat) == TrimLeftMatches(t[|pat|..] + r, pat);
    }
  }

  /* ---------------------------------------------------------------------- */
  /* format!("{}", n) for an unsigned integer                                */
  /* ---------------------------------------------------------------------- */

  predicate IsDigit(c: char) {
    '0' <= c <= '9'
  }

  predicate AllDigits(s: string) {
    forall i :: 0 <= i < |s| ==> IsDigit(s[i])
  }

  function DigitChar(d: nat): (c: char)
    requires d < 10
    ensures IsDigit(c) && (c as int) - ('0' as int) == d
  {
    (48 + d) as char
  }

  /** The decimal rendering of `n`: digits only, without leading zeros. */
  function DecimalString(n: nat): (s: string)
    ensures |s| >= 1 && AllDigits(s)
    ensures |s| > 1 ==> s[0] != '0'
  {
    if n < 10 then [DigitChar(n)] else DecimalString(n / 10) + [DigitChar(n % 10)]
  }

  /** Reads a string of decimal digits back as a number. */
  function DecimalValue(s: string): nat
    requires AllDigits(s)
  {
    if s == [] then 0
    else 10 * DecimalValue(s[..|s| - 1]) + ((s[|s| - 1] as int) - ('0' as int))
  }

  /** Rendering a number in decimal and reading it back gives the number. */
  lemma {:induction false} DecimalRoundTrip(n: nat)
    ensures DecimalValue(DecimalString(n)) == n
  {
    if n >= 10 {
      DecimalRoundTrip(n / 10);
      var s := DecimalString(n);
      assert s[..|s| - 1] == DecimalString(n / 10);
    }
  }

  /* ---------------------------------------------------------------------- */
  /* String::as_bytes: UTF-8                                                  */
  /* ---------------------------------------------------------------------- */

  predicate IsContinuation(b: byte) {
    0x80 <= b < 0xC0
  }

  /**
   * The UTF-8 encoding of one scalar value: one byte below 0x80, otherwise a
   * lead byte of at least 0xC0 followed by continuation bytes.
   */
  function CharUtf8(c: char): (b: seq<byte>)
    ensures 1 <= |b| <= 4
    ensures (c as int) < 0x80 <==> |b| == 1
    ensures (c as int) < 0x80 ==> b[0] as int == c as int
    ensures |b| > 1 ==> 0xC0 <= b[0] && forall i :: 1 <= i < |b| ==> IsContinuation(b[i])
  {
    var cp := c as int;
    if cp < 0x80 then
      [cp as byte]
    else if cp < 0x800 then
      [(0xC0 + cp / 0x40) as byte, (0x80 + cp % 0x40) as byte]
    else if cp < 0x1_0000 then
      [(0xE0 + cp / 0x1000) as byte, (0x80 + (cp / 0x40) % 0x40) as byte, (0x80 + cp % 0x40) as byte]
    else
      [(0xF0 + cp / 0x4_0000) as byte, (0x80 + (cp / 0x1000) % 0x40) as byte,
       (0x80 + (cp / 0x40) % 0x40) as byte, (0x80 + cp % 0x40) as byte]
  }

  /** Reads one encoded scalar value back from its bytes. */
  function CharValue(b: seq<byte>): int
    requires 1 <= |b| <= 4
  {
    if |b| == 1 then b[0] as int
    else if |b| == 2 then (b[0] as int - 0xC0) * 0x40 + (b[1] as int - 0x80)
    else if |b| == 3 then (b[0] as int - 0xE0) * 0x1000 + (b[1] as int - 0x80) * 0x40 + (b[2] as int - 0x80)
    else (b[0] as int - 0xF0) * 0x4_0000 + (b[1] as int - 0x80) * 0x1000 + (b[2] as int - 0x80) * 0x40 + (b[3] as int - 0x80)
  }

  /** Each character's encoding decodes back to that character. */
  lemma CharUtf8RoundTrip(c: char)
    ensures CharValue(CharUtf8(c)) == c as int
  {
    var cp := c as int;
    if cp >= 0x1_0000 {
      FourByteDigits(cp);
    } else if cp >= 0x800 {
      ThreeByteDigits(cp);
    }
  }

  /** A code point is recovered from its four base-64 digits. */
  lemma FourByteDigits(cp: nat)
    ensures cp == (cp / 0x4_0000) * 0x4_0000 + ((cp / 0x1000) % 0x40) * 0x1000 + ((cp / 0x40) % 0x40) * 0x40 + cp % 0x40
  {
    ThreeByteDigits(cp);
    ThirdDigit(cp);
  }

  /** A code point is recovered from its three base-64 digits. */
  lemma ThreeByteDigits(cp: nat)
    ensures cp == (cp / 0x1000) * 0x1000 + ((cp / 0x40) % 0x40) * 0x40 + cp % 0x40
  {
    SecondDigit(cp);
  }

  /** The quotient by 0x40 splits into the quotient by 0x1000 and one base-64 digit. */
  lemma SecondDigit(cp: nat)
    ensures cp / 0x40 == (cp / 0x1000) * 0x40 + (cp / 0x40) % 0x40
  {
  }

  /** The quotient by 0x1000 splits into the quotient by 0x4_0000 and one base-64 digit. */
  lemma ThirdDigit(cp: nat)
    ensures cp / 0x1000 == (cp / 0x4_0000) * 0x40 + (cp / 0x1000) % 0x40
  {
  }

  /** `s.as_bytes()`: the characters' encodings, one after another. */
  function Utf8(s: string): (b: seq<byte>)
    ensures |b| >= |s|
  {
    if s == [] then [] else CharUtf8(s[0]) + Utf8(s[1..])
  }

  /** Encoding distributes over concatenation. */
  lemma {:induction false} Utf8Append(a: string, b: string)
    ensures Utf8(a + b) == Utf8(a) + Utf8(b)
  {
    if a != [] {
      assert (a + b)[0] == a[0];
      assert (a + b)[1..] == a[1..] + b;
      Utf8Append(a[1..], b);
      calc {
        Utf8(a + b);
        { assert a + b != []; }
        CharUtf8((a + b)[0]) + Utf8((a + b)[1..]);
        CharUtf8(a[0]) + Utf8(a[1..] + b);
        CharUtf8(a[0]) + (Utf8(a[1..]) + Utf8(b));
        (CharUtf8(a[0]) + Utf8(a[1..])) + Utf8(b);
      }
    } else {
      assert a + b == b;
    }
  }

  predicate IsAscii(s: string) {
    forall i :: 0 <= i < |s| ==> (s[i] as int) < 0x80
  }

  /** An ASCII string encodes to one byte per character, each equal to its code. */
  lemma {:induction false} Utf8Ascii(s: string)
    requires IsAscii(s)
    ensures |Utf8(s)| == |s|
    ensures forall i :: 0 <= i < |s| ==> Utf8(s)[i] as int == s[i] as int
  {
    if s != [] {
      Utf8Ascii(s[1..]);
    }
  }
}
