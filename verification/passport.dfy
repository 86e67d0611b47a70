/** Day 4: passports. The batch file is cut into records at blank lines,
    each record is read into a key/value map, and the maps that hold every
    required key are checked field by field. */
module Passport {
  import opened Wrappers
  import opened RustStr
  import Iter

  /** A parsed passport: field name to field value. */
  type Record = map<string, string>

  /** The keys a passport must hold; "cid" is not among them. */
  const REQUIRED_FIELDS: seq<string> := ["byr", "iyr", "eyr", "hgt", "hcl", "ecl", "pid"]

  const EYE_COLORS: seq<string> := ["amb", "blu", "brn", "gry", "grn", "hzl", "oth"]

  // ---------------------------------------------------------------------
  // Records: the lines of the batch file grouped at blank lines

  /** The runs of lines between empty lines, in order. */
  function Blocks(lines: seq<string>): (blocks: seq<seq<string>>)
    ensures |blocks| >= 1
    decreases |lines|
  {
    if lines == [] then [[]]
    else
      var rest := Blocks(lines[1..]);
      if |lines[0]| == 0 then [[]] + rest
      else [[lines[0]] + rest[0]] + rest[1..]
  }

  /** No run holds an empty line. */
  lemma {:induction false} BlocksNonEmpty(lines: seq<string>)
    ensures forall b :: 0 <= b < |Blocks(lines)| ==> forall j :: 0 <= j < |Blocks(lines)[b]| ==> |Blocks(lines)[b][j]| > 0
    decreases |lines|
  {
    if lines != [] {
      BlocksNonEmpty(lines[1..]);
      var rest := Blocks(lines[1..]);
      if |lines[0]| > 0 {
        assert forall b :: 1 <= b < |rest| ==> rest[1..][b - 1] == rest[b];
      }
    }
  }

  /** The runs put back together with one empty line between neighbours. */
  function Unblock(blocks: seq<seq<string>>): seq<string>
    requires |blocks| >= 1
    decreases |blocks|
  {
    if |blocks| == 1 then blocks[0] else blocks[0] + [""] + Unblock(blocks[1..])
  }

  /** Grouping loses nothing: the runs joined at empty lines are the lines. */
  lemma {:induction false} UnblockBlocks(lines: seq<string>)
    ensures Unblock(Blocks(lines)) == lines
    decreases |lines|
  {
    if lines != [] {
      UnblockBlocks(lines[1..]);
      var rest := Blocks(lines[1..]);
      if |lines[0]| == 0 {
        assert lines[0] == "";
        assert Blocks(lines)[1..] == rest;
      } else if |rest| == 1 {
        assert Blocks(lines) == [[lines[0]] + rest[0]];
      } else {
        assert Blocks(lines)[1..] == rest[1..];
      }
    }
  }

  /** There is one run more than there are empty lines. */
  lemma {:induction false} BlocksCount(lines: seq<string>)
    ensures |Blocks(lines)| == 1 + Iter.CountIf(lines, (line: string) => |line| == 0)
    decreases |lines|
  {
    if lines != [] {
      BlocksCount(lines[1..]);
    }
  }

  /** One record: each line of the run followed by one space. */
  function Terminated(block: seq<string>): string
    decreases |block|
  {
    if block == [] then [] else block[0] + " " + Terminated(block[1..])
  }

  /** The records still to be pushed when `current` holds the record under
      construction and `rest` are the lines not read yet. */
  function Pending(rest: seq<string>, current: string): (records: seq<string>)
    decreases |rest|
  {
    if rest == [] then [current]
    else if |rest[0]| > 0 then Pending(rest[1..], current + rest[0] + " ")
    else [current] + Pending(rest[1..], "")
  }

  /** The record under construction completed by the first run of `rest`,
      then one record per further run. */
  function Completed(rest: seq<string>, current: string): seq<string> {
    var blocks := Blocks(rest);
    [current + Terminated(blocks[0])] + Iter.Map(blocks[1..], Terminated)
  }

  lemma CompletedLine(rest: seq<string>, current: string)
    requires |rest| > 0 && |rest[0]| > 0
    ensures Completed(rest, current) == Completed(rest[1..], current + rest[0] + " ")
  {
    var blocks := Blocks(rest[1..]);
    assert Blocks(rest)[1..] == blocks[1..];
    assert current + Terminated(Blocks(rest)[0]) == current + rest[0] + " " + Terminated(blocks[0]);
  }

  lemma CompletedBreak(rest: seq<string>, current: string)
    requires |rest| > 0 && |rest[0]| == 0
    ensures Completed(rest, current) == [current] + Completed(rest[1..], "")
  {
    var blocks := Blocks(rest[1..]);
    assert Blocks(rest)[1..] == blocks;
    assert current + Terminated([]) == current;
    assert "" + Terminated(blocks[0]) == Terminated(blocks[0]);
    Iter.MapCons(blocks, Terminated);
  }

  /** What is pending is the record under construction completed by the
      first run of the remaining lines, then one record per further run. */
  lemma {:induction false} PendingRecords(rest: seq<string>, current: string)
    ensures Pending(rest, current) == Completed(rest, current)
    decreases |rest|
  {
    if rest == [] {
      assert current + Terminated([]) == current;
    } else if |rest[0]| > 0 {
      PendingRecords(rest[1..], current + rest[0] + " ");
      CompletedLine(rest, current);
    } else {
      PendingRecords(rest[1..], "");
      CompletedBreak(rest, current);
    }
  }

  /** `file_to_passport_strings`: one record per run of non-empty lines,
      each line followed by one space. */
  method FileToPassportStrings(file: string) returns (passports: seq<string>)
    ensures passports == Iter.Map(Blocks(Lines(file)), Terminated)
  {
    var input := Lines(file);
    passports := [];
    var current: string := "";
    var i := 0;
    while i < |input|
      invariant i <= |input|
      invariant passports + Pending(input[i..], current) == Pending(input, "")
    {
      var line := input[i];
      assert input[i..][1..] == input[i + 1..];
      if |line| > 0 {
        current := current + line + " ";
      } else {
        passports := passports + [current];
        current := "";
      }
      i := i + 1;
    }
    assert input[i..] == [];
    passports := passports + [current];
    assert Pending(input, "") == Iter.Map(Blocks(input), Terminated) by {
      PendingRecords(input, "");
      assert Pending(input, "") == ["" + Terminated(Blocks(input)[0])] + Iter.Map(Blocks(input)[1..], Terminated);
      assert "" + Terminated(Blocks(input)[0]) == Terminated(Blocks(input)[0]);
      Iter.MapCons(Blocks(input), Terminated);
    }
  }

  /** The number of records is one more than the number of empty lines. */
  lemma RecordCount(file: string)
    ensures |Iter.Map(Blocks(Lines(file)), Terminated)|
      == 1 + Iter.CountIf(Lines(file), (line: string) => |line| == 0)
  {
    BlocksCount(Lines(file));
  }

  // ---------------------------------------------------------------------
  // `parse_passport`

  /** `split_whitespace().flat_map(|p| p.split(':'))`. */
  function Pieces(s: string): seq<string> {
    Iter.FlatMap(SplitWhitespace(s), (token: string) => Split(token, ':'))
  }

  /** `.tuples()` on the pieces: consecutive pieces as key and value. */
  function Fields(s: string): seq<(string, string)> {
    Iter.Pairs(Pieces(s))
  }

  /** `collect::<HashMap<_, _>>()`: the pairs inserted in turn, so the keys
      are those of the pairs. */
  function Collect(pairs: seq<(string, string)>): (m: Record)
    ensures forall k :: k in m <==> exists i :: 0 <= i < |pairs| && pairs[i].0 == k
    decreases |pairs|
  {
    if pairs == [] then map[]
    else
      var n := |pairs| - 1;
      var m := Collect(pairs[..n]);
      assert forall i :: 0 <= i < n ==> pairs[..n][i] == pairs[i];
      m[pairs[n].0 := pairs[n].1]
  }

  /** A key repeated in a record keeps the value of its last pair. */
  lemma {:induction false} CollectLastWins(pairs: seq<(string, string)>, i: nat)
    requires i < |pairs|
    requires forall j :: i < j < |pairs| ==> pairs[j].0 != pairs[i].0
    ensures pairs[i].0 in Collect(pairs) && Collect(pairs)[pairs[i].0] == pairs[i].1
    decreases |pairs|
  {
    var n := |pairs| - 1;
    if i < n {
      CollectLastWins(pairs[..n], i);
    }
  }

  /** The record holds a pair for every required key. */
  predicate HasRequired(fields: seq<(string, string)>) {
    forall r :: 0 <= r < |REQUIRED_FIELDS| ==>
      exists i :: 0 <= i < |fields| && fields[i].0 == REQUIRED_FIELDS[r]
  }

  lemma HasRequiredKeys(fields: seq<(string, string)>)
    ensures HasRequired(fields) <==>
      forall r :: 0 <= r < |REQUIRED_FIELDS| ==> REQUIRED_FIELDS[r] in Collect(fields)
  {
    var m := Collect(fields);
    forall r | 0 <= r < |REQUIRED_FIELDS|
      ensures REQUIRED_FIELDS[r] in m <==> exists i :: 0 <= i < |fields| && fields[i].0 == REQUIRED_FIELDS[r]
    {
    }
  }

  /** `parse_passport`: the map of the record, refused when a required key
      is missing. */
  function ParsePassport(s: string): (r: Option<Record>)
    ensures r.Some? <==> HasRequired(Fields(s))
    ensures r.Some? ==> forall i :: 0 <= i < |REQUIRED_FIELDS| ==> REQUIRED_FIELDS[i] in r.value
    ensures r.Some? ==> forall k :: k in r.value <==> exists i :: 0 <= i < |Fields(s)| && Fields(s)[i].0 == k
  {
    HasRequiredKeys(Fields(s));
    var passport := Collect(Fields(s));
    if exists i :: 0 <= i < |REQUIRED_FIELDS| && REQUIRED_FIELDS[i] !in passport then None
    else Some(passport)
  }

  /** A key of the record's pairs is in the parsed passport, with the
      value of its last pair. */
  lemma ParsedFields(s: string, i: nat)
    requires ParsePassport(s).Some? && i < |Fields(s)|
    requires forall j :: i < j < |Fields(s)| ==> Fields(s)[j].0 != Fields(s)[i].0
    ensures Fields(s)[i].0 in ParsePassport(s).value
    ensures ParsePassport(s).value[Fields(s)[i].0] == Fields(s)[i].1
  {
    CollectLastWins(Fields(s), i);
  }

  // ---------------------------------------------------------------------
  // Records written as `key:value` entries

  /** Each field as `key:value`, followed by one space. */
  function FormatFields(fields: seq<(string, string)>): string
    decreases |fields|
  {
    if fields == [] then [] else fields[0].0 + ":" + fields[0].1 + " " + FormatFields(fields[1..])
  }

  /** Keys and values fit the format: no ':' and no whitespace. */
  predicate Plain(s: string) {
    ':' !in s && NoWhitespace(s)
  }

  /** The keys and values, alternately. */
  function KeysAndValues(fields: seq<(string, string)>): (kv: seq<string>)
    ensures |kv| == 2 * |fields|
    decreases |fields|
  {
    if fields == [] then [] else [fields[0].0, fields[0].1] + KeysAndValues(fields[1..])
  }

  /** One entry is one whitespace-free token that splits into key and value. */
  lemma EntryPieces(key: string, value: string)
    requires Plain(key) && Plain(value)
    ensures |key + ":" + value| > 0 && NoWhitespace(key + ":" + value)
    ensures Split(key + ":" + value, ':') == [key, value]
  {
    var entry := key + ":" + value;
    assert forall j :: 0 <= j < |entry| ==> entry[j] == ':' || entry[j] in key || entry[j] in value;
    assert entry == key + [':'] + value;
    SplitAfter(key, value, ':');
    SplitNoSep(value, ':');
  }

  /** The first entry of a written record is its first token. */
  lemma PiecesOfEntry(fields: seq<(string, string)>)
    requires |fields| > 0 && Plain(fields[0].0) && Plain(fields[0].1)
    ensures Pieces(FormatFields(fields)) == [fields[0].0, fields[0].1] + Pieces(FormatFields(fields[1..]))
  {
    var (k, v) := fields[0];
    var entry := k + ":" + v;
    var rest := FormatFields(fields[1..]);
    EntryPieces(k, v);
    assert FormatFields(fields) == entry + [' '] + rest;
    SplitWhitespaceAfter(entry, ' ', rest);
    var tokens := SplitWhitespace(FormatFields(fields));
    assert tokens[0] == entry && tokens[1..] == SplitWhitespace(rest);
  }

  lemma {:induction false} PiecesOfFormat(fields: seq<(string, string)>)
    requires forall i :: 0 <= i < |fields| ==> Plain(fields[i].0) && Plain(fields[i].1)
    ensures Pieces(FormatFields(fields)) == KeysAndValues(fields)
    decreases |fields|
  {
    if fields != [] {
      PiecesOfEntry(fields);
      PiecesOfFormat(fields[1..]);
    }
  }

  lemma {:induction false} PairsOfKeysAndValues(fields: seq<(string, string)>)
    ensures Iter.Pairs(KeysAndValues(fields)) == fields
    decreases |fields|
  {
    if fields != [] {
      PairsOfKeysAndValues(fields[1..]);
      assert KeysAndValues(fields)[2..] == KeysAndValues(fields[1..]);
    }
  }

  /** Reading back a record written as `key:value` entries gives its pairs. */
  lemma FieldsOfFormat(fields: seq<(string, string)>)
    requires forall i :: 0 <= i < |fields| ==> Plain(fields[i].0) && Plain(fields[i].1)
    ensures Fields(FormatFields(fields)) == fields
  {
    PiecesOfFormat(fields);
    PairsOfKeysAndValues(fields);
  }

  /** A record written as entries is accepted exactly when its entries name
      every required key. */
  lemma ParseFormatted(fields: seq<(string, string)>)
    requires forall i :: 0 <= i < |fields| ==> Plain(fields[i].0) && Plain(fields[i].1)
    ensures ParsePassport(FormatFields(fields)).Some? <==> HasRequired(fields)
  {
    FieldsOfFormat(fields);
  }

  // ---------------------------------------------------------------------
  // Field rules

  /** A year field: a u32 within an inclusive range; a value that does not
      parse panics on `unwrap`. */
  function YearIn(value: string, lo: nat, hi: nat): Option<bool> {
    match ParseU32(value)
    case None => None
    case Some(year) => Some(lo <= year <= hi)
  }

  /** The number before the two-character unit, 0 when it does not parse. */
  function HeightNumber(value: string): nat
    requires |value| >= 2
  {
    match ParseU32(value[..|value| - 2])
    case None => 0
    case Some(height) => height
  }

  /** `hgt`: a number followed by "cm" (150 to 193) or "in" (59 to 76); a
      value shorter than two characters underflows the slice bound and
      panics. */
  function HeightValid(value: string): Option<bool> {
    if |value| < 2 then None
    else
      var height := HeightNumber(value);
      var unit := value[|value| - 2..];
      Some(
        if unit == "cm" then 150 <= height <= 193
        else if unit == "in" then 59 <= height <= 76
        else false)
  }

  /** `hcl`: '#' and six hexadecimal digits of either case. */
  predicate HairColorValid(value: string) {
    && |value| > 0 && value[0] == '#'
    && |value| == 7
    && forall i :: 1 <= i < |value| ==> IsAsciiHexDigit(value[i])
  }

  /** `pid`: nine decimal digits, leading zeros included. */
  predicate PassportIdValid(value: string) {
    |value| == 9 && AllDigits(value)
  }

  predicate IsYearField(key: string) {
    key == "byr" || key == "iyr" || key == "eyr"
  }

  predicate IsKnownField(key: string) {
    key in REQUIRED_FIELDS || key == "cid"
  }

  /** The check of one field; `None` is a panic: an unknown key
      (`unreachable!`), a year that is not a u32, or a height shorter than
      its unit. */
  function FieldCheck(key: string, value: string): Option<bool> {
    if key == "byr" then YearIn(value, 1920, 2002)
    else if key == "iyr" then YearIn(value, 2010, 2020)
    else if key == "eyr" then YearIn(value, 2020, 2030)
    else if key == "hcl" then Some(HairColorValid(value))
    else if key == "ecl" then Some(value in EYE_COLORS)
    else if key == "pid" then Some(PassportIdValid(value))
    else if key == "hgt" then HeightValid(value)
    else if key == "cid" then Some(true)
    else None
  }

  /** The panicking fields. */
  lemma FieldPanics(key: string, value: string)
    ensures FieldCheck(key, value).None? <==>
      || !IsKnownField(key)
      || (IsYearField(key) && ParseU32(value).None?)
      || (key == "hgt" && |value| < 2)
  {
  }

  /** A height is accepted exactly when the number before "cm" is within
      150 to 193, or the number before "in" within 59 to 76; a number that
      does not parse counts as 0 and is refused. */
  lemma HeightAccepts(value: string)
    ensures HeightValid(value) == Some(true) <==>
      && |value| >= 2
      && ParseU32(value[..|value| - 2]).Some?
      && var height := ParseU32(value[..|value| - 2]).value;
         var unit := value[|value| - 2..];
         (unit == "cm" && 150 <= height <= 193) || (unit == "in" && 59 <= height <= 76)
  {
  }

  /** A hair colour is accepted exactly when it is '#' followed by six
      characters drawn from the hexadecimal digits of either case. */
  lemma HairColorAccepts(value: string)
    ensures FieldCheck("hcl", value) == Some(true) <==>
      && |value| == 7 && value[..1] == "#"
      && forall c :: c in value[1..] ==> c in "0123456789abcdefABCDEF"
  {
    if |value| == 7 && value[..1] == "#" {
      forall i | 1 <= i < |value|
        ensures value[i] in value[1..]
      {
        assert value[1..][i - 1] == value[i];
      }
    }
  }

  /** An eye colour is accepted exactly when it is one of the seven names. */
  lemma EyeColorAccepts(value: string)
    ensures FieldCheck("ecl", value) == Some(true) <==>
      value in {"amb", "blu", "brn", "gry", "grn", "hzl", "oth"}
  {
  }

  /** A passport id is accepted exactly when it is nine decimal digits. */
  lemma PassportIdAccepts(value: string)
    ensures FieldCheck("pid", value) == Some(true) <==>
      |value| == 9 && forall c :: c in value ==> '0' <= c <= '9'
  {
    if forall c :: c in value ==> '0' <= c <= '9' {
      forall i | 0 <= i < |value|
        ensures IsAsciiDigit(value[i])
      {
        assert value[i] in value;
      }
    }
  }

  /** A year written in decimal is checked against its range. */
  lemma YearSpelled(year: nat, lo: nat, hi: nat)
    requires year < U32_LIMIT
    ensures YearIn(DecimalString(year), lo, hi) == Some(lo <= year <= hi)
  {
    ParsePrintedU32(year);
  }

  /** A height written as a decimal number and a unit. */
  lemma HeightSpelled(height: nat, unit: string)
    requires height < U32_LIMIT && |unit| == 2
    ensures HeightValid(DecimalString(height) + unit) == Some(
      || (unit == "cm" && 150 <= height <= 193)
      || (unit == "in" && 59 <= height <= 76))
  {
    var value := DecimalString(height) + unit;
    assert value[..|value| - 2] == DecimalString(height);
    assert value[|value| - 2..] == unit;
    ParsePrintedU32(height);
  }

  /** Heights inside and outside the "cm" and "in" ranges. */
  lemma ExampleHeightInches()
    ensures HeightValid("60in") == Some(true)
  {
    assert DecimalString(60) == "60";
    assert "60in" == DecimalString(60) + "in";
    HeightSpelled(60, "in");
  }

  lemma ExampleHeightCentimetres()
    ensures HeightValid("190cm") == Some(true)
  {
    assert DecimalString(190) == "190";
    assert "190cm" == DecimalString(190) + "cm";
    HeightSpelled(190, "cm");
  }

  lemma ExampleHeightTooTall()
    ensures HeightValid("190in") == Some(false)
  {
    assert DecimalString(190) == "190";
    assert "190in" == DecimalString(190) + "in";
    HeightSpelled(190, "in");
  }

  /** A height without its unit is refused; one shorter than a unit panics. */
  lemma ExampleHeightErrors()
    ensures HeightValid("190") == Some(false)
    ensures HeightValid("m") == None
  {
    var value := "190";
    assert value[|value| - 2..] == "90";
  }

  lemma ExampleYearInRange()
    ensures FieldCheck("byr", "2002") == Some(true)
  {
    assert DecimalString(2002) == "2002";
    YearSpelled(2002, 1920, 2002);
  }

  lemma ExampleYearOutOfRange()
    ensures FieldCheck("byr", "2003") == Some(false)
  {
    assert DecimalString(2003) == "2003";
    YearSpelled(2003, 1920, 2002);
  }

  /** A year that is not a number panics. */
  lemma ExampleYearPanics()
    ensures FieldCheck("byr", "") == None
  {
  }

  lemma ExampleHairColors()
    ensures FieldCheck("hcl", "#123abc") == Some(true)
    ensures FieldCheck("hcl", "#123abz") == Some(false)
    ensures FieldCheck("hcl", "123abc") == Some(false)
  {
    var bad := "#123abz";
    assert !IsAsciiHexDigit(bad[6]);
  }

  lemma ExampleEyeColors()
    ensures FieldCheck("ecl", "brn") == Some(true)
    ensures FieldCheck("ecl", "wat") == Some(false)
  {
  }

  /** Nine digits with leading zeros pass; ten digits do not. */
  lemma ExamplePassportIds()
    ensures FieldCheck("pid", "000000001") == Some(true)
    ensures FieldCheck("pid", "0123456789") == Some(false)
  {
  }

  /** "cid" always passes; a key outside the rules panics. */
  lemma ExampleOtherKeys()
    ensures FieldCheck("cid", "anything") == Some(true)
    ensures FieldCheck("xyz", "1") == None
  {
  }

  // ---------------------------------------------------------------------
  // `is_valid_passport`

  /** A rule for one field, given its key and value; `None` is a panic. */
  type Check = (string, string) -> Option<bool>

  /** The order in which the map's iterator visits the keys: each key once. */
  ghost predicate Enumerates(order: seq<string>, passport: Record) {
    && (forall i, j :: 0 <= i < j < |order| ==> order[i] != order[j])
    && (forall k :: k in passport <==> k in order)
  }

  /** `all` over the fields in the given order: stops at the first field
      that fails, and panics at a panicking field reached before that. */
  function CheckInOrder(passport: Record, order: seq<string>, check: Check): Option<bool>
    requires forall i :: 0 <= i < |order| ==> order[i] in passport
    decreases |order|
  {
    if order == [] then Some(true)
    else
      match check(order[0], passport[order[0]])
      case None => None
      case Some(false) => Some(false)
      case Some(true) => CheckInOrder(passport, order[1..], check)
  }

  /** Every field passes `check`. */
  predicate AllPass(passport: Record, check: Check) {
    forall k :: k in passport ==> check(k, passport[k]) == Some(true)
  }

  /** No field panics under `check`. */
  predicate NonePanics(passport: Record, check: Check) {
    forall k :: k in passport ==> check(k, passport[k]).Some?
  }

  lemma {:induction false} CheckInOrderTrue(passport: Record, order: seq<string>, check: Check)
    requires forall i :: 0 <= i < |order| ==> order[i] in passport
    ensures CheckInOrder(passport, order, check) == Some(true) <==>
      forall i :: 0 <= i < |order| ==> check(order[i], passport[order[i]]) == Some(true)
    decreases |order|
  {
    if order != [] {
      CheckInOrderTrue(passport, order[1..], check);
      assert forall i :: 1 <= i < |order| ==> order[i] == order[1..][i - 1];
    }
  }

  lemma {:induction false} CheckInOrderNoPanic(passport: Record, order: seq<string>, check: Check)
    requires forall i :: 0 <= i < |order| ==> order[i] in passport
    requires forall i :: 0 <= i < |order| ==> check(order[i], passport[order[i]]).Some?
    ensures CheckInOrder(passport, order, check).Some?
    decreases |order|
  {
    if order != [] {
      CheckInOrderNoPanic(passport, order[1..], check);
    }
  }

  lemma {:induction false} CheckInOrderPanics(passport: Record, order: seq<string>, check: Check)
    requires forall i :: 0 <= i < |order| ==> order[i] in passport
    requires CheckInOrder(passport, order, check).None?
    ensures exists i :: 0 <= i < |order| && check(order[i], passport[order[i]]).None?
    decreases |order|
  {
    if check(order[0], passport[order[0]]).Some? {
      CheckInOrderPanics(passport, order[1..], check);
      var i :| 0 <= i < |order[1..]| && check(order[1..][i], passport[order[1..][i]]).None?;
      assert order[1..][i] == order[i + 1];
    }
  }

  /** Visiting every key, `all` holds exactly when every field passes. */
  lemma AllInOrder(passport: Record, order: seq<string>, check: Check)
    requires Enumerates(order, passport)
    ensures CheckInOrder(passport, order, check) == Some(true) <==> AllPass(passport, check)
  {
    CheckInOrderTrue(passport, order, check);
  }

  /** Without a panicking field, `all` is the same in every order. */
  lemma AnyOrder(passport: Record, order: seq<string>, check: Check)
    requires Enumerates(order, passport) && NonePanics(passport, check)
    ensures CheckInOrder(passport, order, check) == Some(AllPass(passport, check))
  {
    forall i | 0 <= i < |order| ensures check(order[i], passport[order[i]]).Some? {
      assert order[i] in passport;
    }
    CheckInOrderNoPanic(passport, order, check);
    AllInOrder(passport, order, check);
    var verdict := CheckInOrder(passport, order, check);
    assert verdict.Some?;
    assert verdict.value <==> AllPass(passport, check);
  }

  /** `is_valid_passport`, with the map's iteration order as a parameter. */
  function IsValidPassport(passport: Record, order: seq<string>): Option<bool>
    requires Enumerates(order, passport)
  {
    CheckInOrder(passport, order, FieldCheck)
  }

  /** Every field of the passport passes its rule. */
  predicate AllFieldsValid(passport: Record) {
    AllPass(passport, FieldCheck)
  }

  /** No field of the passport panics. */
  predicate NoPanic(passport: Record) {
    NonePanics(passport, FieldCheck)
  }

  /** A passport is valid exactly when every one of its fields passes, in
      whatever order the map is visited. */
  lemma ValidIffAllFields(passport: Record, order: seq<string>)
    requires Enumerates(order, passport)
    ensures IsValidPassport(passport, order) == Some(true) <==> AllFieldsValid(passport)
  {
    AllInOrder(passport, order, FieldCheck);
  }

  /** Without a panicking field the verdict does not depend on the order. */
  lemma ValidOrderIndependent(passport: Record, order: seq<string>)
    requires Enumerates(order, passport) && NoPanic(passport)
    ensures IsValidPassport(passport, order) == Some(AllFieldsValid(passport))
  {
    AnyOrder(passport, order, FieldCheck);
  }

  /** A panic comes from a field that panics. */
  lemma PanicFromField(passport: Record, order: seq<string>)
    requires Enumerates(order, passport) && IsValidPassport(passport, order).None?
    ensures !NoPanic(passport)
  {
    CheckInOrderPanics(passport, order, FieldCheck);
  }

  // ---------------------------------------------------------------------
  // The two answers

  /** `task_1`: `filter_map` of `parse_passport` over the records. */
  function Task1(passports: seq<string>): (parsed: seq<Record>)
    ensures |parsed| <= |passports|
    ensures forall i :: 0 <= i < |parsed| ==> forall r :: 0 <= r < |REQUIRED_FIELDS| ==> REQUIRED_FIELDS[r] in parsed[i]
  {
    var parsed := Iter.FilterMap(passports, ParsePassport);
    assert forall j :: 0 <= j < |parsed| ==> exists i :: 0 <= i < |passports| && ParsePassport(passports[i]) == Some(parsed[j]) by {
      forall j | 0 <= j < |parsed|
        ensures exists i :: 0 <= i < |passports| && ParsePassport(passports[i]) == Some(parsed[j])
      {
        Iter.FilterMapFrom(passports, ParsePassport, j);
      }
    }
    parsed
  }

  /** The first answer counts the records that hold every required key. */
  lemma {:induction false} Task1Count(passports: seq<string>)
    ensures |Task1(passports)| == Iter.CountIf(passports, (s: string) => HasRequired(Fields(s)))
    decreases |passports|
  {
    if passports != [] {
      Task1Count(passports[1..]);
    }
  }

  /** Every kept map is the parsed map of one of the records. */
  lemma Task1From(passports: seq<string>, j: nat)
    requires j < |Task1(passports)|
    ensures exists i :: 0 <= i < |passports| && ParsePassport(passports[i]) == Some(Task1(passports)[j])
  {
    Iter.FilterMapFrom(passports, ParsePassport, j);
  }

  /** The parsed map of every record that parses is kept. */
  lemma Task1Keeps(passports: seq<string>, i: nat)
    requires i < |passports| && ParsePassport(passports[i]).Some?
    ensures ParsePassport(passports[i]).value in Task1(passports)
  {
    Iter.FilterMapKeeps(passports, ParsePassport, i);
  }

  /** Among the kept maps, those whose every field passes are as many as
      the records that parse to such a map. */
  lemma {:induction false} Task1Valid(passports: seq<string>)
    ensures Iter.CountIf(Task1(passports), AllFieldsValid)
      == Iter.CountIf(passports, (s: string) => ParsePassport(s).Some? && AllFieldsValid(ParsePassport(s).value))
    decreases |passports|
  {
    if passports != [] {
      Task1Valid(passports[1..]);
    }
  }

  /** Each parsed passport comes with the order its map is visited in. */
  ghost predicate Visits(parsed: seq<Record>, orders: seq<seq<string>>) {
    && |orders| == |parsed|
    && forall i :: 0 <= i < |parsed| ==> Enumerates(orders[i], parsed[i])
  }

  lemma VisitsTail(parsed: seq<Record>, orders: seq<seq<string>>)
    requires Visits(parsed, orders) && parsed != []
    ensures Visits(parsed[1..], orders[1..])
  {
    assert forall i :: 0 <= i < |parsed| - 1 ==> parsed[1..][i] == parsed[i + 1] && orders[1..][i] == orders[i + 1];
  }

  /** `filter(..).count()` with `check` as the rule: the passports that
      pass, counted; a panic in any of them is a panic of the whole count. */
  function CountValid(parsed: seq<Record>, orders: seq<seq<string>>, check: Check): (r: Option<nat>)
    requires Visits(parsed, orders)
    ensures r.Some? ==> r.value <= |parsed|
    decreases |parsed|
  {
    if parsed == [] then Some(0)
    else
      VisitsTail(parsed, orders);
      match CheckInOrder(parsed[0], orders[0], check)
      case None => None
      case Some(valid) =>
        match CountValid(parsed[1..], orders[1..], check)
        case None => None
        case Some(n) => Some((if valid then 1 else 0) + n)
  }

  /** Some passport panics under `check`. */
  ghost predicate SomePanics(parsed: seq<Record>, orders: seq<seq<string>>, check: Check)
    requires Visits(parsed, orders)
  {
    exists i :: 0 <= i < |parsed| && CheckInOrder(parsed[i], orders[i], check).None?
  }

  lemma SomePanicsCons(parsed: seq<Record>, orders: seq<seq<string>>, check: Check)
    requires Visits(parsed, orders) && parsed != []
    ensures Visits(parsed[1..], orders[1..])
    ensures SomePanics(parsed, orders, check) <==>
      CheckInOrder(parsed[0], orders[0], check).None? || SomePanics(parsed[1..], orders[1..], check)
  {
    VisitsTail(parsed, orders);
    if SomePanics(parsed, orders, check) {
      var i :| 0 <= i < |parsed| && CheckInOrder(parsed[i], orders[i], check).None?;
      if i > 0 {
        assert parsed[1..][i - 1] == parsed[i] && orders[1..][i - 1] == orders[i];
      }
    }
    if SomePanics(parsed[1..], orders[1..], check) {
      var i :| 0 <= i < |parsed[1..]| && CheckInOrder(parsed[1..][i], orders[1..][i], check).None?;
      assert parsed[1..][i] == parsed[i + 1] && orders[1..][i] == orders[i + 1];
    }
  }

  lemma {:induction false} CountValidPanics(parsed: seq<Record>, orders: seq<seq<string>>, check: Check)
    requires Visits(parsed, orders)
    ensures CountValid(parsed, orders, check).None? <==> SomePanics(parsed, orders, check)
    decreases |parsed|
  {
    if parsed != [] {
      SomePanicsCons(parsed, orders, check);
      CountValidPanics(parsed[1..], orders[1..], check);
    }
  }

  /** `task_2`: the number of parsed passports that are valid. */
  function Task2(parsed: seq<Record>, orders: seq<seq<string>>): (r: Option<nat>)
    requires Visits(parsed, orders)
    ensures r.Some? ==> r.value <= |parsed|
  {
    CountValid(parsed, orders, FieldCheck)
  }

  /** Whenever the second answer is defined, it counts the passports whose
      every field passes, whatever the iteration orders: a passport whose
      panicking field is visited after a failing one still counts as
      invalid. */
  lemma {:induction false} Task2Count(parsed: seq<Record>, orders: seq<seq<string>>)
    requires Visits(parsed, orders)
    ensures Task2(parsed, orders).Some? ==>
      Task2(parsed, orders).value == Iter.CountIf(parsed, AllFieldsValid)
    decreases |parsed|
  {
    if parsed != [] {
      VisitsTail(parsed, orders);
      ValidIffAllFields(parsed[0], orders[0]);
      Task2Count(parsed[1..], orders[1..]);
    }
  }

  /** End to end: whenever the second answer on the maps the first answer
      kept is defined, it counts the records that parse to a map whose every
      field passes. */
  lemma Task2OfRecords(passports: seq<string>, orders: seq<seq<string>>)
    requires Visits(Task1(passports), orders)
    ensures Task2(Task1(passports), orders).Some? ==>
      Task2(Task1(passports), orders).value
        == Iter.CountIf(passports, (s: string) => ParsePassport(s).Some? && AllFieldsValid(ParsePassport(s).value))
  {
    Task2Count(Task1(passports), orders);
    Task1Valid(passports);
  }

  /** The second answer panics exactly when some passport panics. */
  lemma Task2Panics(parsed: seq<Record>, orders: seq<seq<string>>)
    requires Visits(parsed, orders)
    ensures Task2(parsed, orders).None? <==>
      exists i :: 0 <= i < |parsed| && IsValidPassport(parsed[i], orders[i]).None?
  {
    CountValidPanics(parsed, orders, FieldCheck);
  }
}
