/** Password policies: each input line `min-max c: password` names a
    character and two numbers, read once as an occurrence range and once
    as two 1-based positions. */
module PasswordPolicy {
  import opened Wrappers
  import opened RustStr
  import Iter

  datatype Policy = Policy(character: string, min: nat, max: nat)

  datatype PasswordFile = PasswordFile(policy: Policy, password: string)

  // ---------------------------------------------------------------------
  // The first policy: an occurrence range

  /** How many pieces of `password.split("")` equal `character`. */
  function CharCount(password: string, character: string): nat {
    Iter.CountIf(SplitEmpty(password), (piece: string) => piece == character)
  }

  /** The number of positions of `s` that hold `c`. */
  function Occurrences(s: string, c: char): nat {
    Iter.CountIf(s, (x: char) => x == c)
  }

  /** For a one-character policy, the count is the number of occurrences of
      that character (the two empty end pieces never match). */
  lemma CharCountOfChar(password: string, c: char)
    ensures CharCount(password, [c]) == Occurrences(password, c)
  {
    var p := (piece: string) => piece == [c];
    Iter.CountIfAppend([[]] + Cells(password), [[]], p);
    Iter.CountIfAppend([[]], Cells(password), p);
    CountCells(password, c);
  }

  lemma {:induction false} CountCells(s: string, c: char)
    ensures Iter.CountIf(Cells(s), (piece: string) => piece == [c]) == Iter.CountIf(s, (x: char) => x == c)
    decreases |s|
  {
    if s != [] {
      assert Cells(s)[1..] == Cells(s[1..]);
      CountCells(s[1..], c);
    }
  }

  /** `is_valid_1`: the count, truncated to 32 bits, lies in `[min, max]`. */
  predicate IsValid1(file: PasswordFile) {
    var count := CharCount(file.password, file.policy.character) % U32_LIMIT;
    file.policy.min <= count && count <= file.policy.max
  }

  /** For a one-character policy, validity is exactly "the number of
      occurrences lies in the inclusive range". */
  lemma IsValid1Occurrences(file: PasswordFile, c: char)
    requires file.policy.character == [c]
    requires |file.password| < U32_LIMIT
    ensures IsValid1(file) <==>
      file.policy.min <= Occurrences(file.password, c) <= file.policy.max
  {
    CharCountOfChar(file.password, c);
  }

  // ---------------------------------------------------------------------
  // The second policy: exactly one of two 1-based positions

  /** `get_char_at_position`: 1-based; position 0 or a position past the end
      of the password panics. */
  function GetCharAtPosition(file: PasswordFile, position: nat): (r: Option<string>)
    ensures r.Some? <==> 0 < position <= |file.password|
    ensures r.Some? ==> |r.value| == 1 && r.value[0] == file.password[position - 1]
  {
    if 0 < position <= |file.password| then Some([file.password[position - 1]]) else None
  }

  /** `is_valid_2`: both positions are read (either may panic), then exactly
      one of them must match the policy's character. */
  function IsValid2(file: PasswordFile): Option<bool> {
    match (GetCharAtPosition(file, file.policy.min), GetCharAtPosition(file, file.policy.max))
    case (Some(posOne), Some(posTwo)) =>
      var posOneMatches := posOne == file.policy.character;
      var posTwoMatches := posTwo == file.policy.character;
      Some((posOneMatches && !posTwoMatches) || (!posOneMatches && posTwoMatches))
    case _ => None
  }

  /** `is_valid_2` answers exactly when both positions lie in the password,
      and then it is the exclusive or of the two position tests, whatever
      the policy's character token is. */
  lemma IsValid2Positions(file: PasswordFile)
    ensures IsValid2(file).Some? <==>
      0 < file.policy.min <= |file.password| && 0 < file.policy.max <= |file.password|
    ensures IsValid2(file).Some? ==>
      var pw, ch := file.password, file.policy.character;
      IsValid2(file).value == (([pw[file.policy.min - 1]] == ch) != ([pw[file.policy.max - 1]] == ch))
  {
  }

  /** For a one-character policy, the exclusive or of the two characters. */
  lemma IsValid2Char(file: PasswordFile, c: char)
    requires file.policy.character == [c]
    ensures IsValid2(file).Some? ==>
      IsValid2(file).value == ((file.password[file.policy.min - 1] == c) != (file.password[file.policy.max - 1] == c))
  {
    IsValid2Positions(file);
  }

  /** A character token that is not one character long matches no position,
      so the second policy refuses every password it does not panic on. */
  lemma IsValid2LongToken(file: PasswordFile)
    requires |file.policy.character| != 1
    ensures IsValid2(file).Some? ==> !IsValid2(file).value
  {
    IsValid2Positions(file);
  }

  // ---------------------------------------------------------------------
  // Parsing `min-max c: password`

  /** `from_str`: every `unwrap` that fails is a panic. The password is the
      text between the first and second ':', trimmed; the character is the
      second whitespace-separated token before the first ':'; the numbers are
      the first two '-'-separated pieces of the first token. */
  function FromStr(s: string): (r: Option<PasswordFile>)
    ensures r.Some? ==> r.value.policy.min < U32_LIMIT && r.value.policy.max < U32_LIMIT
    ensures r.Some? ==> |r.value.policy.character| > 0 && NoWhitespace(r.value.policy.character)
    ensures r.Some? ==> ':' !in r.value.password && ':' !in r.value.policy.character
    ensures ':' !in s ==> r == None
    ensures r.Some? ==> |Split(s, ':')| >= 2 && r.value.password == Trim(Split(s, ':')[1])
    ensures r.Some? ==>
      var policyParts := SplitWhitespace(Split(s, ':')[0]);
      && |policyParts| >= 2 && r.value.policy.character == policyParts[1]
      && |Split(policyParts[0], '-')| >= 2
      && ParseU32(Split(policyParts[0], '-')[0]) == Some(r.value.policy.min)
      && ParseU32(Split(policyParts[0], '-')[1]) == Some(r.value.policy.max)
  {
    var parts := Split(s, ':');
    var policy := parts[0];
    if |parts| < 2 then
      assert ':' !in s ==> parts == [s] by { if ':' !in s { SplitNoSep(s, ':'); } }
      None
    else
      var password := Trim(parts[1]);
      var policyParts := SplitWhitespace(policy);
      if |policyParts| < 2 then None
      else
        var num := policyParts[0];
        var c := policyParts[1];
        var minMax := Split(num, '-');
        match ParseU32(minMax[0])
        case None => None
        case Some(min) =>
          if |minMax| < 2 then None
          else
            match ParseU32(minMax[1])
            case None => None
            case Some(max) =>
              assert ':' !in s ==> false by { if ':' !in s { SplitNoSep(s, ':'); } }
              Some(PasswordFile(Policy(c, min, max), password))
  }

  /** The line a record is written as. */
  function Format(file: PasswordFile): string {
    DecimalString(file.policy.min) + "-" + DecimalString(file.policy.max) + " "
    + file.policy.character + ": " + file.password
  }

  /** A record whose parts can be told apart in its line. */
  predicate WellFormed(file: PasswordFile) {
    && file.policy.min < U32_LIMIT && file.policy.max < U32_LIMIT
    && |file.policy.character| > 0 && NoWhitespace(file.policy.character)
    && ':' !in file.policy.character
    && ':' !in file.password
    && (file.password == [] || (!IsWhitespace(file.password[0]) && !IsWhitespace(file.password[|file.password| - 1])))
  }

  lemma DigitsHaveNoSeparators(n: nat)
    ensures ':' !in DecimalString(n) && '-' !in DecimalString(n) && NoWhitespace(DecimalString(n))
  {
    var d := DecimalString(n);
    forall i | 0 <= i < |d| ensures d[i] != ':' && d[i] != '-' && !IsWhitespace(d[i]) {
      assert IsAsciiDigit(d[i]);
    }
  }

  /** Parsing the line of a well-formed record gives back that record. */
  lemma FromStrFormat(file: PasswordFile)
    requires WellFormed(file)
    ensures FromStr(Format(file)) == Some(file)
  {
    var d1, d2 := DecimalString(file.policy.min), DecimalString(file.policy.max);
    var num := d1 + "-" + d2;
    var policy := num + " " + file.policy.character;
    var rest := " " + file.password;
    FormatSplitsAtColon(file);
    FormatPolicyTokens(file);
    FromStrOfParts(Format(file), policy, rest, num, d1, d2, file);
  }

  /** The line splits at its one ':' into the policy and the padded password. */
  lemma FormatSplitsAtColon(file: PasswordFile)
    requires WellFormed(file)
    ensures var policy := DecimalString(file.policy.min) + "-" + DecimalString(file.policy.max) + " " + file.policy.character;
      Split(Format(file), ':') == [policy, " " + file.password]
    ensures Trim(" " + file.password) == file.password
  {
    var d1, d2 := DecimalString(file.policy.min), DecimalString(file.policy.max);
    var policy := d1 + "-" + d2 + " " + file.policy.character;
    var rest := " " + file.password;
    assert Format(file) == policy + [':'] + rest;
    assert ':' !in policy by {
      DigitsHaveNoSeparators(file.policy.min);
      DigitsHaveNoSeparators(file.policy.max);
    }
    assert Split(Format(file), ':') == [policy, rest] by {
      SplitAfter(policy, rest, ':');
      SplitNoSep(rest, ':');
    }
    TrimAfterWhitespace(" ", file.password);
  }

  /** The policy reads back as its two numbers and its character. */
  lemma FormatPolicyTokens(file: PasswordFile)
    requires WellFormed(file)
    ensures var d1, d2 := DecimalString(file.policy.min), DecimalString(file.policy.max);
      && SplitWhitespace(d1 + "-" + d2 + " " + file.policy.character) == [d1 + "-" + d2, file.policy.character]
      && Split(d1 + "-" + d2, '-') == [d1, d2]
      && ParseU32(d1) == Some(file.policy.min) && ParseU32(d2) == Some(file.policy.max)
  {
    RangeTokens(file.policy.min, file.policy.max, file.policy.character);
    ParsePrintedU32(file.policy.min);
    ParsePrintedU32(file.policy.max);
  }

  /** `min-max c` is two tokens, and the first splits at '-' into the two
      numbers. */
  lemma RangeTokens(min: nat, max: nat, character: string)
    requires |character| > 0 && NoWhitespace(character)
    ensures var d1, d2 := DecimalString(min), DecimalString(max);
      && SplitWhitespace(d1 + "-" + d2 + " " + character) == [d1 + "-" + d2, character]
      && Split(d1 + "-" + d2, '-') == [d1, d2]
  {
    var num := DecimalString(min) + "-" + DecimalString(max);
    RangeToken(min, max);
    assert num + " " + character == num + [' '] + character;
    SplitWhitespaceAfter(num, ' ', character);
    SplitWhitespaceSingle(character);
  }

  /** `min-max` is one token that splits at '-' into the two numbers. */
  lemma RangeToken(min: nat, max: nat)
    ensures var d1, d2 := DecimalString(min), DecimalString(max);
      && |d1 + "-" + d2| > 0 && NoWhitespace(d1 + "-" + d2)
      && Split(d1 + "-" + d2, '-') == [d1, d2]
  {
    var d1, d2 := DecimalString(min), DecimalString(max);
    DigitsHaveNoSeparators(min);
    DigitsHaveNoSeparators(max);
    var num := d1 + "-" + d2;
    forall i | 0 <= i < |num| ensures !IsWhitespace(num[i]) {
      if i < |d1| { assert num[i] == d1[i]; }
      else if i > |d1| { assert num[i] == d2[i - |d1| - 1]; }
    }
    assert num == d1 + ['-'] + d2;
    SplitAfter(d1, d2, '-');
    SplitNoSep(d2, '-');
  }

  /** The result of `from_str` once each split and parse is known. */
  lemma FromStrOfParts(s: string, policy: string, rest: string, num: string,
                       d1: string, d2: string, file: PasswordFile)
    requires Split(s, ':') == [policy, rest]
    requires Trim(rest) == file.password
    requires SplitWhitespace(policy) == [num, file.policy.character]
    requires Split(num, '-') == [d1, d2]
    requires ParseU32(d1) == Some(file.policy.min) && ParseU32(d2) == Some(file.policy.max)
    ensures FromStr(s) == Some(file)
  {
  }

  /** The malformed lines: `from_str` panics exactly when the line has no
      ':', when fewer than two whitespace-separated tokens precede the first
      ':', when the first token has no '-', or when a bound is not a u32. */
  lemma FromStrPanics(s: string)
    ensures FromStr(s).None? <==>
      || ':' !in s
      || |SplitWhitespace(Split(s, ':')[0])| < 2
      || (var num := SplitWhitespace(Split(s, ':')[0])[0];
          || '-' !in num
          || ParseU32(Split(num, '-')[0]).None?
          || (|Split(num, '-')| >= 2 && ParseU32(Split(num, '-')[1]).None?))
  {
    SplitHasSep(s, ':');
    var policyParts := SplitWhitespace(Split(s, ':')[0]);
    if |policyParts| >= 2 {
      SplitHasSep(policyParts[0], '-');
    }
  }

  /** The password is the text between the first and the second ':', trimmed,
      whatever follows the second ':'. */
  lemma FromStrPassword(policy: string, between: string, rest: string)
    requires ':' !in policy && ':' !in between
    requires rest == [] || rest[0] == ':'
    ensures FromStr(policy + ":" + between + rest).Some? ==>
      FromStr(policy + ":" + between + rest).value.password == Trim(between)
  {
    var s := policy + ":" + between + rest;
    assert s == policy + [':'] + (between + rest);
    SplitAfter(policy, between + rest, ':');
    if rest == [] {
      assert between + rest == between;
      SplitNoSep(between, ':');
    } else {
      assert between + rest == between + [':'] + rest[1..];
      SplitAfter(between, rest[1..], ':');
    }
  }

  // ---------------------------------------------------------------------
  // The two answers

  /** `task_1`: the number of records valid under the first policy. */
  function Task1(files: seq<PasswordFile>): (n: nat)
    ensures n <= |files|
    ensures n == |Iter.Positions(files, IsValid1)|
  {
    Iter.CountIfIsCardinality(files, IsValid1);
    Iter.CountIf(files, IsValid1)
  }

  /** `task_2`: the number of records valid under the second policy; a record
      whose positions fall outside its password panics. */
  function Task2(files: seq<PasswordFile>): (r: Option<nat>)
    ensures r.Some? <==> forall i :: 0 <= i < |files| ==> IsValid2(files[i]).Some?
    ensures r.Some? ==> r.value == Iter.CountIf(files, (f: PasswordFile) => IsValid2(f) == Some(true))
    decreases |files|
  {
    if files == [] then Some(0)
    else
      match IsValid2(files[0])
      case None => None
      case Some(valid) =>
        var rest := Task2(files[1..]);
        assert forall i :: 1 <= i < |files| ==> files[i] == files[1..][i - 1];
        match rest
        case None => None
        case Some(n) => Some((if valid then 1 else 0) + n)
  }

  /** The second answer never exceeds the number of records. */
  lemma Task2Bound(files: seq<PasswordFile>)
    ensures Task2(files).Some? ==> Task2(files).value <= |files|
  {
  }

  // ---------------------------------------------------------------------
  // The example in the tests

  function ExampleFiles(): seq<PasswordFile> {
    [ PasswordFile(Policy("a", 1, 3), "abcde"),
      PasswordFile(Policy("b", 1, 3), "cdefg"),
      PasswordFile(Policy("c", 2, 9), "ccccccccc") ]
  }

  /** Each example line is the line of its record. */
  lemma ExampleLine(file: PasswordFile, line: string, min: string, max: string)
    requires DecimalString(file.policy.min) == min && DecimalString(file.policy.max) == max
    requires line == min + "-" + max + " " + file.policy.character + ": " + file.password
    requires WellFormed(file)
    ensures FromStr(line) == Some(file)
  {
    FromStrFormat(file);
  }

  /** The example lines parse to the example records. */
  lemma ExampleParses1()
    ensures FromStr("1-3 a: abcde") == Some(ExampleFiles()[0])
  {
    assert DecimalString(1) == "1" && DecimalString(3) == "3";
    ExampleLine(ExampleFiles()[0], "1-3 a: abcde", "1", "3");
  }

  lemma ExampleParses2()
    ensures FromStr("1-3 b: cdefg") == Some(ExampleFiles()[1])
  {
    assert DecimalString(1) == "1" && DecimalString(3) == "3";
    ExampleLine(ExampleFiles()[1], "1-3 b: cdefg", "1", "3");
  }

  lemma ExampleParses3()
    ensures FromStr("2-9 c: ccccccccc") == Some(ExampleFiles()[2])
  {
    assert DecimalString(2) == "2" && DecimalString(9) == "9";
    ExampleLine(ExampleFiles()[2], "2-9 c: ccccccccc", "2", "9");
  }

  /** A password made of the policy's character only passes the first
      policy exactly when its length is within the bounds. */
  lemma IsValid1Uniform(file: PasswordFile, c: char)
    requires file.policy.character == [c]
    requires |file.password| < U32_LIMIT
    requires forall i :: 0 <= i < |file.password| ==> file.password[i] == c
    ensures IsValid1(file) <==> file.policy.min <= |file.password| <= file.policy.max
  {
    IsValid1Occurrences(file, c);
  }

  /** A password without the policy's character passes the first policy
      exactly when the lower bound is zero. */
  lemma IsValid1Absent(file: PasswordFile, c: char)
    requires file.policy.character == [c]
    requires |file.password| < U32_LIMIT
    requires forall i :: 0 <= i < |file.password| ==> file.password[i] != c
    ensures IsValid1(file) <==> file.policy.min == 0
  {
    IsValid1Occurrences(file, c);
  }

  /** Which example records pass the first policy. */
  lemma ExampleFirstValid1()
    ensures IsValid1(ExampleFiles()[0])
  {
    var f := ExampleFiles()[0];
    IsValid1Occurrences(f, 'a');
    var s: string := "abcde";
    assert forall i :: 0 <= i < |s[1..]| ==> s[1..][i] != 'a';
    assert Occurrences(s[1..], 'a') == 0;
  }

  lemma ExampleSecondInvalid1()
    ensures !IsValid1(ExampleFiles()[1])
  {
    var f := ExampleFiles()[1];
    assert forall i :: 0 <= i < |f.password| ==> f.password[i] != 'b';
    IsValid1Absent(f, 'b');
  }

  lemma ExampleThirdValid1()
    ensures IsValid1(ExampleFiles()[2])
  {
    var f := ExampleFiles()[2];
    assert forall i :: 0 <= i < |f.password| ==> f.password[i] == 'c';
    IsValid1Uniform(f, 'c');
  }

  /** On the example, two records pass the first policy. */
  lemma ExampleTask1()
    ensures Task1(ExampleFiles()) == 2
  {
    var fs := ExampleFiles();
    ExampleFirstValid1();
    ExampleSecondInvalid1();
    ExampleThirdValid1();
    assert Iter.CountIf(fs[3..], IsValid1) == 0;
    assert Iter.CountIf(fs[2..], IsValid1) == 1;
    assert Iter.CountIf(fs[1..], IsValid1) == 1;
  }

  /** On the example, one record passes the second policy. */
  lemma ExampleTask2()
    ensures Task2(ExampleFiles()) == Some(1)
  {
    var fs := ExampleFiles();
    IsValid2Char(fs[0], 'a');
    IsValid2Char(fs[1], 'b');
    IsValid2Char(fs[2], 'c');
    assert Task2(fs[3..]) == Some(0);
    assert Task2(fs[2..]) == Some(0);
    assert Task2(fs[1..]) == Some(0);
  }

}
