/** Models of the Rust standard-library string operations the puzzles
    rely on. Strings are sequences of Unicode scalar values; byte lengths
    are taken to equal character counts (the inputs are ASCII). */
module RustStr {
  import opened Wrappers

  /** `char::is_whitespace`: the Unicode White_Space property. */
  predicate IsWhitespace(c: char) {
    var n := c as int;
    (9 <= n <= 13) || n == 32 || n == 0x85 || n == 0xA0 || n == 0x1680
    || (0x2000 <= n <= 0x200A) || n == 0x2028 || n == 0x2029 || n == 0x202F
    || n == 0x205F || n == 0x3000
  }

  /** `char::is_ascii_digit`. */
  predicate IsAsciiDigit(c: char) {
    '0' <= c <= '9'
  }

  /** `char::is_ascii_hexdigit`: both letter cases are accepted. */
  predicate IsAsciiHexDigit(c: char) {
    IsAsciiDigit(c) || 'a' <= c <= 'f' || 'A' <= c <= 'F'
  }

  predicate AllDigits(s: string) {
    forall i :: 0 <= i < |s| ==> IsAsciiDigit(s[i])
  }

  predicate NoWhitespace(s: string) {
    forall i :: 0 <= i < |s| ==> !IsWhitespace(s[i])
  }

  /** The concatenation of a sequence of strings. */
  function Flatten(ss: seq<string>): string
    decreases |ss|
  {
    if ss == [] then [] else ss[0] + Flatten(ss[1..])
  }

  // ---------------------------------------------------------------------
  // `str::split(sep)` with a single-character separator

  /** The pieces between separators; `n` separators give `n + 1` pieces. */
  function Split(s: string, sep: char): (pieces: seq<string>)
    ensures |pieces| >= 1
    ensures forall i :: 0 <= i < |pieces| ==> sep !in pieces[i]
    decreases |s|
  {
    if s == [] then [[]]
    else
      var rest := Split(s[1..], sep);
      if s[0] == sep then [[]] + rest
      else
        assert forall i :: 1 <= i < |rest| ==> rest[1..][i - 1] == rest[i];
        [[s[0]] + rest[0]] + rest[1..]
  }

  /** The pieces put back together with the separator between them. */
  function Join(pieces: seq<string>, sep: char): string
    requires |pieces| >= 1
    decreases |pieces|
  {
    if |pieces| == 1 then pieces[0] else pieces[0] + [sep] + Join(pieces[1..], sep)
  }

  /** Splitting loses nothing: joining the pieces gives back the string. */
  lemma {:induction false} JoinSplit(s: string, sep: char)
    ensures Join(Split(s, sep), sep) == s
    decreases |s|
  {
    if s != [] {
      JoinSplit(s[1..], sep);
      var rest := Split(s[1..], sep);
      if s[0] != sep {
        if |rest| == 1 {
          assert Split(s, sep) == [[s[0]] + rest[0]];
        } else {
          assert Split(s, sep)[1..] == rest[1..];
        }
      } else {
        assert Split(s, sep)[1..] == rest;
      }
    }
  }

  /** There is a second piece exactly when the separator occurs. */
  lemma {:induction false} SplitHasSep(s: string, sep: char)
    ensures |Split(s, sep)| >= 2 <==> sep in s
    decreases |s|
  {
    if s != [] {
      SplitHasSep(s[1..], sep);
      assert s == [s[0]] + s[1..];
    }
  }

  /** A string without the separator is a single piece. */
  lemma {:induction false} SplitNoSep(s: string, sep: char)
    requires sep !in s
    ensures Split(s, sep) == [s]
    decreases |s|
  {
    if s != [] {
      assert sep !in s[1..];
      SplitNoSep(s[1..], sep);
      assert [s[0]] + s[1..] == s;
    }
  }

  /** A separator-free prefix followed by the separator is the first piece. */
  lemma {:induction false} SplitAfter(a: string, b: string, sep: char)
    requires sep !in a
    ensures Split(a + [sep] + b, sep) == [a] + Split(b, sep)
    decreases |a|
  {
    if a == [] {
      assert a + [sep] + b == [sep] + b;
      assert ([sep] + b)[1..] == b;
    } else {
      assert (a + [sep] + b)[1..] == a[1..] + [sep] + b;
      assert sep !in a[1..];
      SplitAfter(a[1..], b, sep);
      assert [a[0]] + a[1..] == a;
    }
  }

  // ---------------------------------------------------------------------
  // `str::split_whitespace`

  /** The length of the leading run of non-whitespace characters. */
  function TokenLength(s: string): (n: nat)
    ensures n <= |s|
    ensures forall i :: 0 <= i < n ==> !IsWhitespace(s[i])
    ensures n == |s| || IsWhitespace(s[n])
    decreases |s|
  {
    if s == [] || IsWhitespace(s[0]) then 0 else 1 + TokenLength(s[1..])
  }

  /** The maximal runs of non-whitespace characters, in order. */
  function SplitWhitespace(s: string): (tokens: seq<string>)
    ensures forall i :: 0 <= i < |tokens| ==> |tokens[i]| > 0 && NoWhitespace(tokens[i])
    ensures forall i, j :: 0 <= i < |tokens| && 0 <= j < |tokens[i]| ==> tokens[i][j] in s
    decreases |s|
  {
    if s == [] then []
    else if IsWhitespace(s[0]) then SplitWhitespace(s[1..])
    else
      var n := TokenLength(s);
      var rest := SplitWhitespace(s[n..]);
      assert forall i :: 1 <= i < |rest| + 1 ==> ([s[..n]] + rest)[i] == rest[i - 1];
      [s[..n]] + rest
  }

  /** `s` with every whitespace character removed. */
  function RemoveWhitespace(s: string): string
    decreases |s|
  {
    if s == [] then []
    else (if IsWhitespace(s[0]) then [] else [s[0]]) + RemoveWhitespace(s[1..])
  }

  lemma {:induction false} RemoveWhitespaceAppend(a: string, b: string)
    ensures RemoveWhitespace(a + b) == RemoveWhitespace(a) + RemoveWhitespace(b)
    decreases |a|
  {
    if a != [] {
      assert (a + b)[1..] == a[1..] + b;
      RemoveWhitespaceAppend(a[1..], b);
    } else {
      assert a + b == b;
    }
  }

  lemma {:induction false} RemoveWhitespaceNone(a: string)
    requires NoWhitespace(a)
    ensures RemoveWhitespace(a) == a
    decreases |a|
  {
    if a != [] {
      RemoveWhitespaceNone(a[1..]);
      assert [a[0]] + a[1..] == a;
    }
  }

  /** The tokens hold exactly the non-whitespace characters of the input. */
  lemma {:induction false} SplitWhitespaceKeepsText(s: string)
    ensures Flatten(SplitWhitespace(s)) == RemoveWhitespace(s)
    decreases |s|
  {
    if s != [] {
      if IsWhitespace(s[0]) {
        SplitWhitespaceKeepsText(s[1..]);
      } else {
        var n := TokenLength(s);
        SplitWhitespaceKeepsText(s[n..]);
        assert s == s[..n] + s[n..];
        RemoveWhitespaceAppend(s[..n], s[n..]);
        RemoveWhitespaceNone(s[..n]);
        assert ([s[..n]] + SplitWhitespace(s[n..]))[1..] == SplitWhitespace(s[n..]);
      }
    }
  }

  /** A leading token followed by whitespace becomes the first token. */
  lemma {:induction false} SplitWhitespaceAfter(a: string, w: char, b: string)
    requires |a| > 0 && NoWhitespace(a) && IsWhitespace(w)
    ensures SplitWhitespace(a + [w] + b) == [a] + SplitWhitespace(b)
  {
    var s := a + [w] + b;
    TokenLengthOf(a, [w] + b);
    assert s == a + ([w] + b);
    assert s[..|a|] == a;
    assert s[|a|..] == [w] + b;
    assert ([w] + b)[1..] == b;
  }

  lemma {:induction false} TokenLengthOf(a: string, b: string)
    requires NoWhitespace(a)
    requires b == [] || IsWhitespace(b[0])
    ensures TokenLength(a + b) == |a|
    decreases |a|
  {
    if a != [] {
      assert (a + b)[1..] == a[1..] + b;
      TokenLengthOf(a[1..], b);
    } else {
      assert a + b == b;
    }
  }

  /** A string of one token and nothing else. */
  lemma {:induction false} SplitWhitespaceSingle(a: string)
    requires |a| > 0 && NoWhitespace(a)
    ensures SplitWhitespace(a) == [a]
  {
    TokenLengthOf(a, []);
    assert a + [] == a;
    assert a[|a|..] == [];
  }

  // ---------------------------------------------------------------------
  // `str::trim`

  /** `trim_start`: the suffix left after dropping leading whitespace. */
  function TrimStart(s: string): (t: string)
    ensures |t| <= |s| && t == s[|s| - |t|..]
    ensures t == [] || !IsWhitespace(t[0])
    ensures forall i :: 0 <= i < |s| - |t| ==> IsWhitespace(s[i])
    decreases |s|
  {
    if s != [] && IsWhitespace(s[0]) then TrimStart(s[1..]) else s
  }

  /** `trim_end`: the prefix left after dropping trailing whitespace. */
  function TrimEnd(s: string): (t: string)
    ensures |t| <= |s| && t == s[..|t|]
    ensures t == [] || !IsWhitespace(t[|t| - 1])
    ensures forall i :: |t| <= i < |s| ==> IsWhitespace(s[i])
    decreases |s|
  {
    if s != [] && IsWhitespace(s[|s| - 1]) then TrimEnd(s[..|s| - 1]) else s
  }

  function Trim(s: string): string {
    TrimEnd(TrimStart(s))
  }

  /** Trimming a string that has no whitespace at either end changes nothing,
      and leading whitespace in front of it is all removed. */
  lemma {:induction false} TrimAfterWhitespace(w: string, t: string)
    requires forall i :: 0 <= i < |w| ==> IsWhitespace(w[i])
    requires t == [] || (!IsWhitespace(t[0]) && !IsWhitespace(t[|t| - 1]))
    ensures Trim(w + t) == t
    decreases |w|
  {
    if w == [] {
      assert w + t == t;
      if t != [] {
        assert TrimStart(t) == t;
        assert TrimEnd(t) == t;
      }
    } else {
      assert (w + t)[1..] == w[1..] + t;
      TrimAfterWhitespace(w[1..], t);
      assert TrimStart(w + t) == TrimStart(w[1..] + t);
    }
  }

  // ---------------------------------------------------------------------
  // `str::lines`

  /** The index of the first line feed, or the length when there is none. */
  function LineLength(s: string): (n: nat)
    ensures n <= |s|
    ensures '\n' !in s[..n]
    ensures n == |s| || s[n] == '\n'
    decreases |s|
  {
    if s == [] || s[0] == '\n' then 0
    else
      var m := LineLength(s[1..]);
      assert s[..1 + m] == [s[0]] + s[1..][..m];
      1 + m
  }

  /** A line ended by a line feed loses one carriage return before it. */
  function StripCR(line: string): string {
    if |line| > 0 && line[|line| - 1] == '\r' then line[..|line| - 1] else line
  }

  /** Lines end at "\n" or "\r\n"; a final line ending is optional and a
      final bare carriage return stays in the last line. */
  function Lines(s: string): (lines: seq<string>)
    ensures forall i :: 0 <= i < |lines| ==> '\n' !in lines[i]
    decreases |s|
  {
    if s == [] then []
    else
      var n := LineLength(s);
      if n == |s| then [s]
      else
        var rest := Lines(s[n + 1..]);
        assert forall i :: 1 <= i < |rest| + 1 ==> ([StripCR(s[..n])] + rest)[i] == rest[i - 1];
        [StripCR(s[..n])] + rest
  }

  /** The number of line feeds in `s`. */
  function LineFeeds(s: string): nat
    decreases |s|
  {
    if s == [] then 0 else (if s[0] == '\n' then 1 else 0) + LineFeeds(s[1..])
  }

  lemma {:induction false} LineFeedsAppend(a: string, b: string)
    ensures LineFeeds(a + b) == LineFeeds(a) + LineFeeds(b)
    decreases |a|
  {
    if a != [] {
      assert (a + b)[1..] == a[1..] + b;
      LineFeedsAppend(a[1..], b);
    } else {
      assert a + b == b;
    }
  }

  lemma {:induction false} LineFeedsNone(a: string)
    requires '\n' !in a
    ensures LineFeeds(a) == 0
    decreases |a|
  {
    if a != [] {
      assert '\n' !in a[1..];
      LineFeedsNone(a[1..]);
    }
  }

  /** The first line feed, and the ones after it. */
  lemma LineFeedsAfterFirst(s: string, n: nat)
    requires n < |s| && s[n] == '\n' && '\n' !in s[..n]
    ensures LineFeeds(s) == 1 + LineFeeds(s[n + 1..])
  {
    assert s == s[..n] + [s[n]] + s[n + 1..];
    LineFeedsAppend(s[..n] + [s[n]], s[n + 1..]);
    LineFeedsAppend(s[..n], [s[n]]);
    LineFeedsNone(s[..n]);
    assert LineFeeds([s[n]]) == 1;
  }

  /** One line per line feed, plus one for text after the last line feed. */
  lemma {:induction false} LinesCount(s: string)
    ensures |Lines(s)| == LineFeeds(s) + (if s != [] && s[|s| - 1] != '\n' then 1 else 0)
    decreases |s|
  {
    if s != [] {
      var n := LineLength(s);
      if n == |s| {
        LineFeedsNone(s);
      } else {
        var rest := s[n + 1..];
        LinesCount(rest);
        LineFeedsAfterFirst(s, n);
        if rest != [] {
          assert s[|s| - 1] == rest[|rest| - 1];
        }
      }
    }
  }

  // ---------------------------------------------------------------------
  // `str::split("")` and single-character strings

  /** Each character as a one-character string. */
  function Cells(s: string): (cells: seq<string>)
    ensures |cells| == |s|
  {
    seq(|s|, i requires 0 <= i < |s| => [s[i]])
  }

  lemma {:induction false} FlattenCells(s: string)
    ensures Flatten(Cells(s)) == s
    decreases |s|
  {
    if s != [] {
      FlattenCells(s[1..]);
      assert Cells(s)[1..] == Cells(s[1..]);
      assert [s[0]] + s[1..] == s;
    }
  }

  /** Splitting on the empty pattern matches at every character boundary,
      both ends included: an empty piece, each character, an empty piece. */
  function SplitEmpty(s: string): seq<string> {
    [[]] + Cells(s) + [[]]
  }

  // ---------------------------------------------------------------------
  // `u32::from_str`

  const U32_LIMIT: nat := 0x1_0000_0000

  /** The value of a string of decimal digits. */
  function DecimalValue(digits: string): nat
    requires AllDigits(digits)
    decreases |digits|
  {
    if digits == [] then 0
    else
      var n := |digits| - 1;
      DecimalValue(digits[..n]) * 10 + (digits[n] as int - '0' as int)
  }

  /** An optional '+', then at least one digit (leading zeros allowed), with
      a value below 2^32; anything else is a parse error. */
  function ParseU32(s: string): Option<nat> {
    var digits := if |s| > 0 && s[0] == '+' then s[1..] else s;
    if |digits| > 0 && AllDigits(digits) && DecimalValue(digits) < U32_LIMIT
    then Some(DecimalValue(digits))
    else None
  }

  /** The shortest decimal spelling of `n`. */
  function DecimalString(n: nat): (s: string)
    ensures |s| > 0 && AllDigits(s)
    decreases n
  {
    var d := [(('0' as int) + n % 10) as char];
    if n < 10 then d else DecimalString(n / 10) + d
  }

  lemma {:induction false} DecimalRoundTrip(n: nat)
    ensures DecimalValue(DecimalString(n)) == n
    decreases n
  {
    var s := DecimalString(n);
    if n >= 10 {
      DecimalRoundTrip(n / 10);
      assert s[..|s| - 1] == DecimalString(n / 10);
    }
  }

  /** Parsing the decimal spelling of a 32-bit value gives that value back. */
  lemma ParsePrintedU32(n: nat)
    requires n < U32_LIMIT
    ensures ParseU32(DecimalString(n)) == Some(n)
  {
    DecimalRoundTrip(n);
    var s := DecimalString(n);
    assert s[0] != '+';
  }

}
