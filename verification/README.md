# Advent of Code 2020, days 1 to 4, in Dafny

This project models four small Rust puzzle solvers and proves what each of them computes.

- **Day 1, the expense ledger** (`ledger.dfy`, module `Ledger`). Find two, or three, entries at distinct positions whose sum is 2020. The answer is their product.
- **Day 2, password policies** (`password_policy.dfy`, module `PasswordPolicy`).
  - Each line has the form `min-max c: password`.
  - The first policy counts the occurrences of `c` and requires the count to lie in `[min, max]`.
  - The second policy requires exactly one of the 1-based positions `min` and `max` to hold `c`.
- **Day 3, the toboggan slope** (`toboggan.dfy`, module `Toboggan`).
  - The map is a grid of one-character cells that repeats to the right.
  - A slope moves `run` columns right for every `rise` rows down, wrapping at the row's width.
  - The answer counts the `#` cells the slope lands on.
- **Day 4, passports** (`passport.dfy`, module `Passport`).
  - The batch file is cut into records at blank lines.
  - Each record is split into `key:value` fields and collected into a map.
  - A map that holds every required key is then checked field by field.

Supporting modules:
- `wrappers.dfy` (`Wrappers`): the `Option` type. A Rust panic (`unwrap` of nothing, `unreachable!`, a modulo by zero, a `step_by(0)`, a slice bound that underflows) is modelled as `None`.
- `rust_str.dfy` (`RustStr`): the Rust string operations the solvers call, written out on `seq<char>`. They cover `split`, `split_whitespace`, `trim`, `lines`, `split("")` and `parse::<u32>()`.
- `iter.dfy` (`Iter`): `filter(..).count()`, `map`, `flat_map`, `filter_map` and `itertools::tuples` on sequences.
- `arith.dfy` (`Arith`): facts about multiplication and Euclidean division used by the slope proofs.

How each solver's state is modelled:
- Day 3's `hits_on_slope` and `get_contents_from_input`, and day 4's `file_to_passport_strings`, update local variables in a loop. They are methods with loop invariants. Each is proved equal to a reference function, and the properties are proved about that function.
- The other operations are expressions over iterators. They are functions.

The iteration order of a Rust `HashMap` is not fixed, and `is_valid_passport` stops at the first field that fails. So whether a record with both a failing field and a panicking field panics depends on that order. The model therefore takes the order as an explicit argument. Any enumeration of the map's keys is allowed.

## Model

| member | source | states |
|---|---|---|
| Ledger.Combinations | day_1/src/main.rs:40-42 | every enumerated combination has k strictly increasing positions inside the ledger, so no position is used twice |
| Ledger.CombinationsComplete | day_1/src/main.rs:40-42 | every k-element set of distinct positions is enumerated |
| Ledger.FirstMatch | day_1/src/main.rs:10-14 | the loop with early return answers with the product of the first combination that sums to 2020, and answers nothing exactly when none does |
| Ledger.SearchSpec | day_1/src/main.rs:7-25 | the search answers with the product of some k-combination summing to 2020, and answers nothing exactly when no k-combination sums to 2020 |
| Ledger.PairSumProduct | day_1/src/main.rs:11-12 | the sum and product of a two-position combination are those of its two entries |
| Ledger.TripleSumProduct | day_1/src/main.rs:21-22 | the sum and product of a three-position combination are those of its three entries |
| Ledger.SumBound | day_1/src/main.rs:11 | a combination of entries each at most m sums to at most its size times m |
| Ledger.SumFitsU32 | day_1/src/main.rs:7-25 | for pairs and triples of entries at most 0x5555_5555, the sum stays below 2^32, so the u32 `sum()` neither panics nor wraps and equals the model's sum |
| Ledger.Task1Found | day_1/src/main.rs:7-15 | an answer of `task_1` is `a * b` for entries at positions i < j with `a + b == 2020` |
| Ledger.Task1None | day_1/src/main.rs:7-15 | `task_1` has no answer exactly when no two entries at distinct positions sum to 2020 |
| Ledger.Task2Found | day_1/src/main.rs:17-25 | an answer of `task_2` is `a * b * c` for entries at positions i < j < l with `a + b + c == 2020` |
| Ledger.Task2None | day_1/src/main.rs:17-25 | `task_2` has no answer exactly when no three entries at distinct positions sum to 2020 |
| Ledger.Task1Unique | day_1/src/main.rs:7-15 | when exactly one pair sums to 2020, `task_1` is that pair's product |
| Ledger.Task2Unique | day_1/src/main.rs:17-25 | when exactly one triple sums to 2020, `task_2` is that triple's product |
| Ledger.ExamplePairs | day_1/src/main.rs:67-78 | in the test ledger only positions 0 and 3 (1721 and 299) sum to 2020 |
| Ledger.ExampleTriples | day_1/src/main.rs:67-78 | in the test ledger only positions 1, 2 and 4 (979, 366 and 675) sum to 2020 |
| Ledger.ExampleTask1 | day_1/src/main.rs:67-72 | `task_1` of the test ledger is 514579 |
| Ledger.ExampleTask2 | day_1/src/main.rs:74-78 | `task_2` of the test ledger is 241861950 |
| PasswordPolicy.CharCountOfChar | day_2/src/main.rs:23-28 | the pieces of `password.split("")` equal to a one-character string are exactly that character's occurrences |
| PasswordPolicy.IsValid1Occurrences | day_2/src/main.rs:22-31 | `is_valid_1` holds exactly when the number of occurrences of the character lies in `[min, max]` |
| PasswordPolicy.IsValid1Uniform | day_2/src/main.rs:22-31 | a password made only of the policy's character is valid exactly when its length lies in `[min, max]` |
| PasswordPolicy.IsValid1Absent | day_2/src/main.rs:22-31 | a password without the policy's character is valid exactly when `min` is 0 |
| PasswordPolicy.GetCharAtPosition | day_2/src/main.rs:33-35 | positions are 1-based: position p gives the character at index p - 1, and position 0 or one past the length panics |
| PasswordPolicy.IsValid2Positions | day_2/src/main.rs:37-45 | for any character token, `is_valid_2` panics unless both positions lie in the password, and otherwise is the exclusive or of the two tests "the one-character string at the position equals the token" |
| PasswordPolicy.IsValid2Char | day_2/src/main.rs:37-45 | for a one-character token c, an answer of `is_valid_2` is the exclusive or of "position min holds c" and "position max holds c" |
| PasswordPolicy.IsValid2LongToken | day_2/src/main.rs:38-44 | a token that is not one character long matches no position, so `is_valid_2` is false whenever it does not panic |
| PasswordPolicy.FromStr | day_2/src/main.rs:51-74 | a parsed line takes the second whitespace token before the first ':' as its character, the u32 values of the first two '-' pieces of the first token as its bounds, and the trimmed second ':'-separated piece as its password; a line without ':' is an error |
| PasswordPolicy.FromStrFormat | day_2/src/main.rs:51-74 | parsing the line `min-max c: password` written from a record gives that record back |
| PasswordPolicy.FromStrPanics | day_2/src/main.rs:51-65 | `from_str` fails exactly when the line has no ':', fewer than two tokens precede the first ':', the first token has no '-', or a bound is not a u32 |
| PasswordPolicy.FromStrPassword | day_2/src/main.rs:52-55 | the password is the text between the first and the second ':', trimmed, whatever follows the second ':' |
| PasswordPolicy.Task1 | day_2/src/main.rs:77-79 | `task_1` is the number of records valid under the first policy, so at most the number of records |
| PasswordPolicy.Task2 | day_2/src/main.rs:81-83 | `task_2` has an answer exactly when no record panics, and it is the number of records valid under the second policy |
| PasswordPolicy.Task2Bound | day_2/src/main.rs:81-83 | `task_2` is at most the number of records |
| PasswordPolicy.ExampleParses1 | day_2/src/main.rs:122 | `1-3 a: abcde` parses to character "a", range 1 to 3 and password "abcde" |
| PasswordPolicy.ExampleParses2 | day_2/src/main.rs:123 | `1-3 b: cdefg` parses to character "b", range 1 to 3 and password "cdefg" |
| PasswordPolicy.ExampleParses3 | day_2/src/main.rs:124 | `2-9 c: ccccccccc` parses to character "c", range 2 to 9 and password "ccccccccc" |
| PasswordPolicy.ExampleFirstValid1 | day_2/src/main.rs:120-133 | the first test record passes the first policy |
| PasswordPolicy.ExampleSecondInvalid1 | day_2/src/main.rs:120-133 | the second test record fails the first policy |
| PasswordPolicy.ExampleThirdValid1 | day_2/src/main.rs:120-133 | the third test record passes the first policy |
| PasswordPolicy.ExampleTask1 | day_2/src/main.rs:128-133 | `task_1` of the test records is 2 |
| PasswordPolicy.ExampleTask2 | day_2/src/main.rs:135-140 | `task_2` of the test records is 1 |
| Toboggan.VisitedRowsExactly | day_3/src/main.rs:29 | `skip(1).step_by(rise)` visits exactly the rows i with 1 <= i < row count and (i - 1) divisible by rise |
| Toboggan.VisitFromClosed | day_3/src/main.rs:29 | the k-th visited row is `1 + k * rise` |
| Toboggan.WalkBound | day_3/src/main.rs:29-36 | after each step the column lies inside the row just entered, and the trees met are at most the rows visited |
| Toboggan.WalkDefined | day_3/src/main.rs:30-31 | the walk panics exactly when it enters an empty row, a modulo by zero |
| Toboggan.ColumnClosed | day_3/src/main.rs:30-31 | with a common width w, the column after k steps is `(k * run) mod w` |
| Toboggan.WalkUniform | day_3/src/main.rs:29-36 | with a common width the walk stands at `(k * run) mod w` after k steps and counts the `#` cells at those columns |
| Toboggan.HitsOnSlope | day_3/src/main.rs:25-39 | the loop computes the slope's count: nothing for rise 0 or an empty visited row, otherwise the trees met on the visited rows |
| Toboggan.SlopeHitsUniform | day_3/src/main.rs:25-39 | on a grid of one non-zero width the count is the number of visited rows k with a `#` at column `(k * run) mod w` |
| Toboggan.SlopeHitsBound | day_3/src/main.rs:25-39 | the count is at most the number of visited rows |
| Toboggan.SlopeHitsDefined | day_3/src/main.rs:25-39 | with rise > 0 the count is defined exactly when no visited row is empty |
| Toboggan.Task1IsSlopeHits | day_3/src/main.rs:14-16 | `task_1` is the count of slope right 3, down 1; the cast to u32 changes nothing below 2^32 rows |
| Toboggan.Task2IsProduct | day_3/src/main.rs:18-23 | `task_2` is the product of the counts for runs 1, 3, 5, 7 at rise 1 and run 1 at rise 2, and is defined exactly when all five are |
| Toboggan.GetContents | day_3/src/main.rs:41-58 | the loop produces one row per input line, each row made from the line by the reference row function |
| Toboggan.RowIsTrimmedLine | day_3/src/main.rs:47-52 | a row is the trimmed line cut into single-character cells, read back in order |
| Toboggan.NonEmptySplitEmpty | day_3/src/main.rs:49-50 | `split("")` followed by dropping the empty pieces gives the single characters |
| Passport.FileToPassportStrings | day_4/src/main.rs:123-141 | the loop produces one record per run of non-empty lines between blank lines, each line followed by one space |
| Passport.UnblockBlocks | day_4/src/main.rs:128-136 | the runs put back together with one blank line between neighbours are the input lines, so grouping loses nothing |
| Passport.BlocksNonEmpty | day_4/src/main.rs:129-131 | no run holds a blank line |
| Passport.BlocksCount | day_4/src/main.rs:128-138 | there is one run more than there are blank lines |
| Passport.RecordCount | day_4/src/main.rs:123-141 | there is one record more than there are blank lines in the file |
| Passport.PendingRecords | day_4/src/main.rs:128-138 | the records still to be pushed are the record under construction completed by the next run, then one record per further run |
| Passport.Collect | day_4/src/main.rs:71-72 | the collected map's keys are exactly the keys of the pairs |
| Passport.CollectLastWins | day_4/src/main.rs:71-72 | a key repeated in the pairs keeps the value of its last pair |
| Passport.ParsePassport | day_4/src/main.rs:67-83 | a record parses exactly when all seven required keys appear among its fields; the map's keys are then exactly the keys of its fields, so all seven are present and `cid` is not required |
| Passport.ParsedFields | day_4/src/main.rs:67-72 | in a parsed record each key maps to the value of its last occurrence |
| Passport.HasRequiredKeys | day_4/src/main.rs:74-76 | a record has the required fields exactly when each of the seven keys is the key of some field |
| Passport.FieldsOfFormat | day_4/src/main.rs:68-71 | splitting `key:value ` entries at whitespace and ':' and pairing the pieces gives the fields back |
| Passport.ParseFormatted | day_4/src/main.rs:67-83 | a record written as `key:value ` entries parses exactly when its fields include the seven required keys |
| Passport.FieldPanics | day_4/src/main.rs:96-121 | checking a field panics exactly for an unknown key, a year that is not a u32, or a height shorter than two characters |
| Passport.HeightAccepts | day_4/src/main.rs:108-117 | a height is accepted exactly when its number parses and is 150 to 193 before "cm", or 59 to 76 before "in" |
| Passport.HairColorAccepts | day_4/src/main.rs:101-105 | a hair colour is accepted exactly when it is '#' followed by six hexadecimal digits of either case |
| Passport.EyeColorAccepts | day_4/src/main.rs:19 | an eye colour is accepted exactly when it is one of amb, blu, brn, gry, grn, hzl, oth |
| Passport.PassportIdAccepts | day_4/src/main.rs:107 | a passport id is accepted exactly when it is nine decimal digits, leading zeros included |
| Passport.YearSpelled | day_4/src/main.rs:98-100 | a year written in decimal is accepted exactly when it lies in the field's inclusive range |
| Passport.HeightSpelled | day_4/src/main.rs:108-117 | a decimal number followed by a two-character unit is accepted exactly when the unit and range match |
| Passport.ExampleHeightInches | day_4/src/main.rs:108-117 | "60in" is accepted |
| Passport.ExampleHeightCentimetres | day_4/src/main.rs:108-117 | "190cm" is accepted |
| Passport.ExampleHeightTooTall | day_4/src/main.rs:108-117 | "190in" is refused |
| Passport.ExampleHeightErrors | day_4/src/main.rs:108-117 | "190" is refused (its unit is "90"), and "m" panics |
| Passport.ExampleYearInRange | day_4/src/main.rs:98 | birth year 2002 is accepted |
| Passport.ExampleYearOutOfRange | day_4/src/main.rs:98 | birth year 2003 is refused |
| Passport.ExampleYearPanics | day_4/src/main.rs:98 | an empty birth year panics |
| Passport.ExampleHairColors | day_4/src/main.rs:101-105 | "#123abc" is accepted; "#123abz" and "123abc" are refused |
| Passport.ExampleEyeColors | day_4/src/main.rs:106 | "brn" is accepted and "wat" refused |
| Passport.ExamplePassportIds | day_4/src/main.rs:107 | "000000001" is accepted and the ten-digit "0123456789" refused |
| Passport.ExampleOtherKeys | day_4/src/main.rs:118-119 | "cid" is always accepted and an unknown key panics |
| Passport.CheckInOrderTrue | day_4/src/main.rs:97 | `all` over the entries in a given order is true exactly when every entry passes |
| Passport.AnyOrder | day_4/src/main.rs:97 | when no entry panics, `all` in any order of the keys answers whether every entry passes |
| Passport.ValidIffAllFields | day_4/src/main.rs:96-121 | in every key order, `is_valid_passport` is true exactly when every field passes its rule |
| Passport.ValidOrderIndependent | day_4/src/main.rs:96-121 | when no field panics, `is_valid_passport` gives the same answer in every key order |
| Passport.PanicFromField | day_4/src/main.rs:96-121 | `is_valid_passport` panics only if some field's check panics |
| Passport.Task1 | day_4/src/main.rs:43-48 | `task_1`, the `filter_map` of `parse_passport` over the records, keeps at most one map per record, and every kept map holds the seven required keys |
| Passport.Task1Count | day_4/src/main.rs:43-48 | `task_1` keeps exactly as many maps as there are records with all required fields |
| Passport.Task1From | day_4/src/main.rs:43-48 | every kept map is the parsed map of one of the records |
| Passport.Task1Keeps | day_4/src/main.rs:43-48 | the parsed map of every record that parses is kept |
| Passport.Task1Valid | day_4/src/main.rs:43-48 | among the kept maps, those whose every field passes are as many as the records that parse to such a map |
| Passport.Task2 | day_4/src/main.rs:50-55 | `task_2` is at most the number of maps `task_1` kept |
| Passport.Task2Count | day_4/src/main.rs:50-55 | whenever `task_2` answers, the answer is the number of maps whose every field passes, whatever the key orders |
| Passport.Task2OfRecords | day_4/src/main.rs:36-40 | end to end, whenever `task_2` on the maps `task_1` kept is defined, it counts the records that parse to a map whose every field passes |
| Passport.Task2Panics | day_4/src/main.rs:50-55 | `task_2` panics exactly when `is_valid_passport` panics on one of the maps |
| RustStr.JoinSplit | day_2/src/main.rs:52 | the pieces of `split` joined with the separator give back the string |
| RustStr.SplitWhitespaceKeepsText | day_4/src/main.rs:69 | the tokens of `split_whitespace` are the string's non-whitespace characters in order |
| RustStr.LinesCount | day_4/src/main.rs:128 | `lines` yields one line per line feed, plus one for a final line without a line feed |
| RustStr.ParsePrintedU32 | day_2/src/main.rs:64-65 | `parse::<u32>()` of a number below 2^32 written in decimal gives the number back |
| Iter.CountIfIsCardinality | day_2/src/main.rs:78 | `filter(..).count()` is the number of positions whose element passes the filter |

## Left out

- Reading the input file, `main`, `env::args` and `println!` are left out. They are file and command-line I/O; the panics on unreadable files go with them. Each solver starts from the file's text or from the parsed values.
- The day 3 and day 4 tests read fixture files (`testInput.txt`, `testInput2.txt`). Those files are not part of this model, so the answers 7 and 336 (day 3) and 2 and 4 (day 4) are not stated.
- `Ledger.Combinations`: the enumeration order of the `combinations` crate is not modelled. No order of the combinations is promised. The order decides only which match is reported when several combinations sum to 2020.
- `Ledger.Task1`, `Ledger.Task2`: the day 1 source does not compile (`===`, and no value after the loop). The model follows the evident intent and answers `None` when nothing matches.
- `Ledger.Task1Found`, `Ledger.Task2Found`: the u32 product in day 1 is unbounded here. Its wrap-around on overflow is not modelled.
- `Ledger.Sum`: the u32 `sum()` of a combination is unbounded here. Its overflow is not modelled: a debug build panics and a release build wraps, and a wrapped sum can equal 2020 (entries 4294967295 and 2021 give `None` here, but a release build answers their wrapped product). `SumFitsU32` shows this cannot happen for pairs and triples when every entry is at most 0x5555_5555.
- `Toboggan.HitsOnSlope`: `x_pos` is an unbounded integer. The u32 overflow of `x_pos + run` and the `line.len() as u32` truncation are not modelled. Neither can happen for rows shorter than 2^31 and runs below 2^31.
- `Toboggan.Task2IsProduct`: the u64 fold and product are unbounded. Their overflow is not modelled.
- `PasswordPolicy.IsValid1Occurrences`: stated for passwords shorter than 2^32 characters and a one-character policy. `IsValid1` itself writes the `as u32` truncation out, and also covers a multi-character token, which matches no piece.
- Strings are sequences of characters, and lengths count characters rather than UTF-8 bytes. Byte slicing that panics inside a multi-byte character (`value[0..(value.len()-2)]` for `hgt`) is not modelled.
- `str::lines` follows the current standard library: a line ends at "\n" or "\r\n", and a lone final "\r" is kept.
- Hashing and the iteration order of `HashMap` are not modelled. The order is an argument of `Passport.IsValidPassport`, and the lemmas prove the answer is order-independent when no field panics.
- A whole record string parsed end to end on a literal example is not stated. The parse is covered by the general round trip `Passport.FieldsOfFormat` and by the field-rule examples.
- `hcl` also accepts upper-case hexadecimal digits, because the code uses `is_ascii_hexdigit`. This differs from the comment above `is_valid_passport`, which says 0-9 or a-f; the model follows the code.
