# Fixed-point numbers with a 64-bit whole part and a 64-bit fraction

This is a Dafny model of the implemented part of `fixedpoint.c`, a C library for
sign-magnitude fixed-point numbers. A `Fixedpoint` holds:

- a `uint64_t` whole part;
- a `uint64_t` fraction, read as `frac / 2^64`;
- a tag that carries the sign (valid nonnegative, valid negative) or one of five
  error states (positive/negative overflow, positive/negative underflow, error).

The model covers these operations:

- the two constructors and the two accessors;
- the validity and zero predicates;
- negation;
- the hexadecimal reader `fixedpoint_create_from_hex`, with its validator
  `isValidHex`, its digit test `isValidChar` and its decoder `parseHex`.

Modules and files:

- `representation.dfy` (`Representation`): the value type.
  - `u64` is a subset type of `nat`.
  - Each C routine is a function: `Create`, `Create2`, `WholePart`, `FracPart`,
    `IsValid`, `IsZero`.
  - `Scaled(v) = whole * 2^64 + frac` is the magnitude in units of 2^-64.
    `SignedScaled` is the signed value of a valid number. Contracts are stated
    against these two.
- `arithmetic.dfy` (`Arithmetic`): `fixedpoint_negate` and what it does to the
  signed value.
- `hex_digits.dfy` (`HexDigits`) covers three things:
  - the character class of `isValidChar`;
  - the digit values and the base-16 numeral value (`HexVal`) that
    `strtoul(..., 16)` computes for a run of hex digits;
  - the nibble view of a word and a fixed-width renderer used as the inverse of
    reading.
- `hex_parser.dfy` (`HexParser`): the literal grammar and the C routines.
  - The grammar is an optional `-`, then at most 16 hex digits, then optionally a
    `.` followed by at most 16 hex digits. Both a declarative predicate
    (`WellFormedLiteral`) and a parts datatype (`Literal`/`Text`) capture it.
  - The C routines are imperative methods:
    - `IsValidHex`: the scanning loop;
    - `ParseHex`: the sign, the cut at the first `.`, and the padding loop;
    - `CreateFromHex`: the length guard and the error path.
  - Each method is proved equal to a specification function (`WellFormedLiteral`,
    `Decode`, `FromHex`).
- `parser_properties.dfy` (`ParserProperties`): what the reader computes for every
  text:
  - validity exactly on well-formed literals;
  - the sign rule;
  - the place of every digit in the two words;
  - the exact value (nothing rounded);
  - a round trip from every valid number through a full-width literal.
- `examples_from_tests.dfy` (`TestExpectations`): a selection of the expectations
  of `fixedpoint_tests.c` about these operations, proved of the model. The `"-0"`
  expectation (`fixedpoint_tests.c:483-486`) does not hold of the code; see
  `ParserProperties.MinusZeroIsNegative`.

A C string is modelled as the sequence of characters before its terminator.
`strchr` returning `NULL` is modelled as `Point(s) == |s|`.

## Where the code and its tests differ

The model follows the code in each of these cases. The first contradicts a test;
the other two are behaviour the tests do not cover.

- **Zero is not canonicalised by the reader.** The test at
  `fixedpoint_tests.c:483-486` expects `"-0"` to give `VALID_NONNEGATIVE`. `parseHex` sets the tag from the leading `-`
  alone (`fixedpoint.c:137-146`), so `"-0"`, `"-"` and `"-.0"` give a zero tagged
  `VALID_NEGATIVE`.
  - `ParserProperties.MinusZeroIsNegative` proves this for `"-0"`.
  - `ParserProperties.FromHexSign` proves the general rule.
  - Code that uses the tag alone (rather than `IsZero`) sees such a zero as
    negative.
- **Negation turns error states into valid numbers.** `fixedpoint_negate` always
  starts from `VALID_NONNEGATIVE` (`fixedpoint.c:204`). An overflow, underflow or
  error value therefore comes back valid and nonnegative with the same words
  (`Arithmetic.NegateForgetsErrors`).
- **Texts with no digits are accepted.** `""`, `"."`, `"-"` and `"-."` pass
  `isValidHex` and read as zero (`ParserProperties.EmptyTextIsZero` and its
  neighbours).

## Model

| member | source | states |
|---|---|---|
| Representation.Create | fixedpoint.c:11-20 | the result is valid and nonnegative; its signed value is `whole * 2^64`; its accessors give back `whole` and 0 |
| Representation.Create2 | fixedpoint.c:22-31 | the result is valid and nonnegative; its signed value is `whole * 2^64 + frac`; its accessors give back both words |
| Representation.WholePart | fixedpoint.c:175-178 | the whole word is the magnitude (in units of 2^-64) divided by 2^64 |
| Representation.FracPart | fixedpoint.c:180-183 | the fraction word is the magnitude modulo 2^64 |
| Representation.IsValid | fixedpoint.c:290-293 | valid exactly when the tag is none of the five error tags |
| Representation.IsZero | fixedpoint.c:238-246 | true exactly for a valid number whose magnitude is 0; false for every error state even with zero words |
| Representation.ZeroIsSignedZero | fixedpoint.c:238-246 | on a valid number, zero means exactly that the signed value is 0, whichever sign tag it carries |
| Representation.ScaledInjective | fixedpoint.c:11-31 | tag plus magnitude determine the record: the two words are the only representation of a magnitude |
| Arithmetic.Negate | fixedpoint.c:199-215 | both words are kept; the result is always valid; it is negative exactly when the input is nonnegative and nonzero |
| Arithmetic.NegateIsArithmetic | fixedpoint.c:199-215 | on a valid number the signed value of the result is the negation of the signed value |
| Arithmetic.NegateTwice | fixedpoint.c:199-215 | negating twice restores every valid number whose zero is tagged nonnegative |
| Arithmetic.NegateZero | fixedpoint.c:204-212 | zero with either tag, and zero words with any tag, negate to the nonnegative zero |
| Arithmetic.NegateForgetsErrors | fixedpoint.c:204-212 | an error-state number negates to the valid nonnegative number with the same words |
| HexDigits.IsValidChar | fixedpoint.c:104-122 | true exactly for the 22 hex digit characters `0-9`, `a-f` and `A-F` |
| HexDigits.DigitValSpelling | fixedpoint.c:104-122 | every accepted character is the lower- or upper-case spelling of its digit value, so the reader is case-insensitive and loses nothing else |
| HexDigits.HexVal | fixedpoint.c:171-172 | the base-16 value of a run of k hex digits is below 16^k; its meaning digit by digit is stated by the `HexValAppend`, `HexValNibble` and `HexValToHex` rows |
| HexDigits.HexValFitsWord | fixedpoint.c:171-172 | a run of at most 16 hex digits has a value below 2^64, so `strtoul` never saturates on an accepted literal |
| HexDigits.HexValAppend | fixedpoint.c:171-172 | reading `a + b` in base 16 is reading `a`, shifting it by the length of `b` in digits, and adding `b` |
| HexDigits.HexValPadded | fixedpoint.c:162-165 | appending k digits `0` multiplies a numeral's value by 16^k |
| HexDigits.HexValNibble | fixedpoint.c:171-172 | digit i of a numeral, counted from the left, is nibble `n-1-i` of its value, where n is the number of digits |
| HexDigits.HexValToHex | fixedpoint.c:171-172 | reading the fixed-width rendering of a number gives the number back |
| HexParser.Split | fixedpoint.c:131-160 | cutting a text at the sign and the first `.` loses nothing: the parts put together give back the text |
| HexParser.SplitOfText | fixedpoint.c:131-160 | cutting the text of well-formed parts gives back those parts, so the grammar is unambiguous |
| HexParser.WellFormedIsGrammar | fixedpoint.c:54-102 | the accepted texts are exactly the texts of `["-"] hex{0,16} ["." hex{0,16}]` |
| HexParser.WellFormedIsShort | fixedpoint.c:41-42 | every well-formed literal has at most 34 characters, so the length guard rejects only texts the scan would reject too |
| HexParser.SecondPointRejected | fixedpoint.c:67-88 | a second `.` anywhere makes the text ill-formed |
| HexParser.MisplacedMinusRejected | fixedpoint.c:62-88 | a `-` at any index but 0 makes the text ill-formed |
| HexParser.ForeignCharRejected | fixedpoint.c:82-88 | a character that is not a hex digit, `.` or `-` makes the text ill-formed |
| HexParser.NumeralHasNoPoint | fixedpoint.c:131-153 | a text made only of hex digits has no point and no sign: all of it is the whole part |
| HexParser.IsValidHex | fixedpoint.c:54-102 | the scan returns true exactly for well-formed literals |
| HexParser.Decode | fixedpoint.c:124-173 | the decoded value of a well-formed literal is valid |
| HexParser.FracValue | fixedpoint.c:160-172 | the fraction word is the value of the fraction digits padded with `0` to 16 |
| HexParser.FracStringValue | fixedpoint.c:148-166 | the text handed to `strtoul` for the fraction (padded digits, or `"0"` without a point) reads as the fraction digits' value shifted to the top of the word |
| HexParser.ParseHex | fixedpoint.c:124-173 | the tag is negative exactly when the text starts with `-`; the whole word is the value of the digits before the first `.`; the fraction word is the value of the digits after it, times 16^(16 - their count) |
| HexParser.CreateFromHex | fixedpoint.c:33-52 | the method returns `FromHex(hex)`: Error with both words 0 for a text over 34 characters or rejected by the scan, the parsed value otherwise |
| ParserProperties.FromHexValidIff | fixedpoint.c:33-52 | the result is valid exactly for well-formed literals; every other text gives Error with both words 0; no other error tag is produced |
| ParserProperties.FromHexSign | fixedpoint.c:137-146 | on a well-formed literal the tag is negative exactly when the text starts with `-`, whatever the magnitude |
| ParserProperties.MinusZeroIsNegative | fixedpoint.c:137-146 | `"-0"` gives a zero (IsZero holds) tagged ValidNegative, not ValidNonnegative |
| ParserProperties.EmptyTextIsZero | fixedpoint.c:54-153 | the empty text is accepted and reads as the nonnegative zero |
| ParserProperties.LonePointIsZero | fixedpoint.c:54-166 | `"."` is accepted and reads as the nonnegative zero |
| ParserProperties.LoneMinusIsNegativeZero | fixedpoint.c:137-153 | `"-"` is accepted and reads as a zero tagged negative |
| ParserProperties.DigitlessText | fixedpoint.c:137-172 | every text with no digits reads as a zero whose tag is the text's sign |
| ParserProperties.FromHexWholeNibbles | fixedpoint.c:157-171 | digit i of the whole digits is nibble `n-1-i` of the whole word, where n is the number of whole digits, and every nibble above them is 0 |
| ParserProperties.FromHexFracNibbles | fixedpoint.c:160-172 | digit i of the fraction digits is nibble `15-i` of the fraction word, and the nibbles below the last digit are 0 |
| ParserProperties.FromHexFracPadded | fixedpoint.c:160-172 | the fraction word is the numeral of the fraction digits padded to 16 |
| ParserProperties.FromHexValue | fixedpoint.c:124-173 | the magnitude times 16^k, where k is the number of fraction digits, equals the numeral `H F` (the digits without the point) times 2^64: the literal's value is stored exactly |
| ParserProperties.FromHexOfParts | fixedpoint.c:33-52 | the text of well-formed parts reads as the value of the whole digits, the padded fraction and the sign of the parts |
| ParserProperties.FullWidthText | fixedpoint.c:41-42 | the full-width literal of a valid number has 33 characters, or 34 with a `-` |
| ParserProperties.FromHexFullWidth | fixedpoint.c:33-52 | every valid number, a zero tagged negative included, is the result of reading its full-width literal |
| TestExpectations.ParsesWholeAndFraction | fixedpoint_tests.c:166-177 | `"f6a5865.00f2"` reads as whole `0xf6a5865` and fraction `0x00f2000000000000`, valid nonnegative |
| TestExpectations.ParsesEmptyFraction | fixedpoint_tests.c:488-492 | `"5ba9f."` reads as whole `0x5ba9f`, fraction 0, nonnegative |
| TestExpectations.ParsesFractionOnly | fixedpoint_tests.c:494-498 | `".cda133"` reads as whole 0, fraction `0xcda1330000000000`, nonnegative |
| TestExpectations.ParsesNegativeFraction | fixedpoint_tests.c:506-510 | `"-.0ed"` reads as whole 0, fraction `0x0ed0000000000000`, negative |
| TestExpectations.RejectsSecondMinus | fixedpoint_tests.c:512-514 | `"-0a-fb"` gives Error |
| TestExpectations.RejectsMinusInFraction | fixedpoint_tests.c:516-518 | `"0.b7-a"` gives Error |
| TestExpectations.RejectsSecondPoint | fixedpoint_tests.c:520-522 | `"108.1d43f9.0c5572f"` gives Error |
| TestExpectations.RejectsLongText | fixedpoint_tests.c:524-526 | a 35-character text gives Error |
| TestExpectations.RejectsLongFraction | fixedpoint_tests.c:532-534 | seventeen fraction digits give Error |
| TestExpectations.RejectsLongWhole | fixedpoint_tests.c:536-538 | seventeen whole digits without a point give Error |
| TestExpectations.RejectsForeignCharacter | fixedpoint_tests.c:540-542 | `"130284yhufdjaads"` gives Error |
| TestExpectations.NegatedFixtures | fixedpoint_tests.c:208-249 | negating the fixtures zero, one and one half keeps the words; zero stays nonnegative and the others become negative |

## Left out

- `fixedpoint_add`, `fixedpoint_sub`, `fixedpoint_halve`, `fixedpoint_double`,
  `fixedpoint_compare`, `fixedpoint_is_err`, `fixedpoint_is_neg`,
  `fixedpoint_is_overflow_neg`, `fixedpoint_is_overflow_pos`,
  `fixedpoint_is_underflow_neg`, `fixedpoint_is_underflow_pos` and
  `fixedpoint_format_as_hex` (`fixedpoint.c:185-197`, `217-236`, `248-288`,
  `295-302`) are not modelled. Their bodies are `assert(0)` followed by a
  placeholder return, so there is no behaviour to model.
- The `DUMMY` placeholder value (`fixedpoint.c:9`) belongs only to those stubs.
- The 17-byte scratch buffers of `parseHex` and the `strcpy`/`strncpy` calls are
  modelled as sequence slices and concatenation. The validator bounds both digit
  runs by 16, so no buffer overflows on an accepted text. The model does not
  follow the bytes in memory.
- `strtoul` is modelled only on what it receives here: a run of 0 to 16 hex digits,
  read in base 16 (`HexVal`). Its whitespace skipping, `0x` prefix, sign handling,
  saturation and `errno` are not modelled, because no accepted text reaches them.
- `unsigned long` is assumed to be 64 bits wide, as the `UL` constants of
  `fixedpoint_tests.c` assume. With a 32-bit `unsigned long`, `strtoul` would
  saturate on runs of more than 8 digits; the model does not cover that platform.
- `parseHex` writes through a pointer into the caller's record. The model returns
  the record instead, because the pointer always refers to a fresh local of
  `fixedpoint_create_from_hex`.
- C strings are the characters before the terminator, so an embedded `'\0'` is not
  modelled. C's `char` is modelled as a Dafny `char`.
- The test harness and every test of a stub operation (`fixedpoint_tests.c`) are
  not modelled. `fixedpoint.h` is not part of this model. The type name and the
  tags `VALID_NONNEGATIVE`, `VALID_NEGATIVE` and `ERROR` are taken from their uses
  in `fixedpoint.c`. The tags `OVERFLOW_POSITIVE`, `OVERFLOW_NEGATIVE`,
  `UNDERFLOW_POSITIVE` and `UNDERFLOW_NEGATIVE` are taken from
  `fixedpoint_tests.c:609`, `:631`, `:751` and `:767`.
