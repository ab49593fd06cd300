# ape-template: string helpers and version type in Dafny

This project models the two logic-bearing parts of the `ape_template`
library and proves properties of the model.

- `ape_template::utils` string helpers (`string_utils.dfy`, module
  `StringUtils`). They are `trim_left`, `trim_right`, `trim`, the two
  `split` overloads, `join`, `to_upper`, `to_lower`, `starts_with`,
  `ends_with` and `contains`. Their laws are in `string_utils_properties.dfy`
  (module `StringUtilsProperties`).
- `ape_template::core` version type (`version.dfy`, module `Core`). It
  covers `Version::to_string`, `Version::to_number` and the `VERSION`
  constant behind `get_version` and `get_version_string`. Its laws are in
  `version_properties.dfy` (module `VersionProperties`).

Modelling choices:

- A C++ `char` is a Dafny `char`, and a `std::string` or
  `std::string_view` is a `string` (`seq<char>`).
- `std::isspace`, `std::toupper` and `std::tolower` take their "C" locale
  meaning. Whitespace is space, `\t`, `\n`, `\v`, `\f` and `\r`. Case
  conversion touches only `a`-`z` and `A`-`Z`.
- `std::string_view::find` is `StringUtils.Find`, which returns `None` for
  `npos`.
- `split(str, char)`, `split(str, string_view)`, `join`, `to_upper` and
  `to_lower` loop in the source, so they are methods with loops. Each is
  proved equal to a specification function: `Fields`, `Pieces`, `Joined`,
  `Upper` and `Lower`. The laws are proved about those functions.
- The trims and the three predicates are single expressions in the source,
  so they are functions.
- `Version` keeps three `uint32` fields (`0 <= x < 2^32`). In `to_number`:
  - `x << k` is `ShiftLeft`, a multiplication by `2^k` reduced modulo `2^32`;
  - `|` is `Or32`, built on `BitOr`, which is OR one binary digit at a time.
  `BitOrIsBitwise` proves that `BitOr` is bitwise OR.

`split(str, string_view)` is not total. With an empty delimiter,
`find("", start)` returns `start` and `start = end + 0` never moves, so the
loop at src/utils/string_utils.cpp:53-57 never ends. The model therefore
requires a non-empty delimiter on `SplitByString` and `Pieces`.
`EmptyDelimiterNeverAdvances` proves that on every pass with the empty
delimiter `find` succeeds where it starts, so `start` and `end` never
change, while `result` grows by one empty fragment per pass (line 54).

## Model

| member | source | states |
|---|---|---|
| StringUtils.IsSpace | src/utils/string_utils.cpp:10 | `isspace` in the "C" locale: true exactly for code 0x20 and codes 0x09 to 0x0D |
| StringUtils.UpperChar | src/utils/string_utils.cpp:83 | the k-th lower-case ASCII letter becomes the k-th upper-case one; every other byte is unchanged |
| StringUtils.LowerChar | src/utils/string_utils.cpp:93 | the k-th upper-case ASCII letter becomes the k-th lower-case one; every other byte is unchanged |
| StringUtils.Find | src/utils/string_utils.cpp:51-56 | a found position is at or after `from` and `d` occurs there |
| StringUtils.FindFirst | src/utils/string_utils.cpp:51-56 | no occurrence lies between `from` and the returned position; on `npos`, none lies at or after `from` |
| StringUtils.FirstNonSpace | src/utils/string_utils.cpp:9-11 | the `find_if` position: everything before it is whitespace, and the byte there (if any) is not |
| StringUtils.TrimLeft | src/utils/string_utils.cpp:8-13 | the result is the suffix after a whitespace-only prefix; it is empty or starts with non-whitespace; it is empty iff the input is all whitespace |
| StringUtils.TrimRight | src/utils/string_utils.cpp:15-20 | the result is the prefix before a whitespace-only suffix; it is empty or ends with non-whitespace; it is empty iff the input is all whitespace |
| StringUtils.Trim | src/utils/string_utils.cpp:22-24 | the result neither starts nor ends with whitespace, and it is empty iff the input is all whitespace |
| StringUtils.Upper | src/utils/string_utils.cpp:78-86 | same length as the input, each byte mapped by `toupper` on its own |
| StringUtils.Lower | src/utils/string_utils.cpp:88-96 | same length as the input, each byte mapped by `tolower` on its own |
| StringUtils.ToUpper | src/utils/string_utils.cpp:78-86 | the `transform` loop produces exactly `Upper(s)` |
| StringUtils.ToLower | src/utils/string_utils.cpp:88-96 | the `transform` loop produces exactly `Lower(s)` |
| StringUtils.StartsWith | src/utils/string_utils.cpp:98-101 | true exactly when `prefix` is a prefix of `str` |
| StringUtils.EndsWith | src/utils/string_utils.cpp:103-106 | true exactly when the reversed `suffix` is a prefix of the reversed `str` |
| StringUtils.Contains | src/utils/string_utils.cpp:108-110 | true exactly when `substr` occurs at some position of `str` |
| StringUtils.ReversePrefix | src/utils/string_utils.cpp:103-106 | the slice test used by `ends_with` holds iff the reversed suffix is a prefix of the reversed string |
| StringUtils.Fields | src/utils/string_utils.cpp:26-46 | the specification of `split(str, char)`: maximal delimiter-free runs from left to right, empty ones dropped; laws in `FieldsWellFormed`, `FieldsConcat`, `FieldsEmptyIff`, `FieldsCount` |
| StringUtils.FieldsAfterRun | src/utils/string_utils.cpp:30-35 | a delimiter after a non-empty delimiter-free run ends that run as one fragment |
| StringUtils.FieldsOfRun | src/utils/string_utils.cpp:41-43 | a delimiter-free tail is one fragment, or none when empty |
| StringUtils.FieldsSkip | src/utils/string_utils.cpp:31-32 | a delimiter with an empty `current` emits nothing |
| StringUtils.SplitByCharPush | src/utils/string_utils.cpp:31-35 | a delimiter after a non-empty `current` pushes it, and "pushed so far + fields still to come" stays `Fields(s, c)` |
| StringUtils.SplitByCharSkip | src/utils/string_utils.cpp:31-32 | a delimiter with an empty `current` pushes nothing, and "pushed so far + fields still to come" stays `Fields(s, c)` |
| StringUtils.SplitByCharExtend | src/utils/string_utils.cpp:36-38 | any other byte is appended to `current`, and the text still to be split is unchanged |
| StringUtils.SplitByChar | src/utils/string_utils.cpp:26-46 | the loop returns exactly `Fields(s, c)` |
| StringUtils.PiecesFrom | src/utils/string_utils.cpp:51-59 | the specification of the `split(str, string_view)` loop from `start`: always at least one fragment, the last being the tail after the last match; laws in `PiecesFromJoin`, `PiecesFromAvoidDelimiter` |
| StringUtils.Pieces | src/utils/string_utils.cpp:48-61 | string split with a non-empty delimiter always yields at least one fragment |
| StringUtils.PiecesFromUnfold | src/utils/string_utils.cpp:53-59 | without a further match the tail `s[start..]` is emitted; otherwise `s[start..end]` is emitted and the scan resumes after the delimiter |
| StringUtils.PiecesFromStep | src/utils/string_utils.cpp:53-57 | one loop iteration keeps "emitted so far + still to come" fixed |
| StringUtils.SplitByString | src/utils/string_utils.cpp:48-61 | the `while` loop returns exactly `Pieces(s, d)`, for a non-empty delimiter |
| StringUtils.EmptyDelimiterNeverAdvances | src/utils/string_utils.cpp:51-57 | with an empty delimiter `find` succeeds at `start`, the fragment pushed is empty, and the new `start` equals the old one, so the loop never ends |
| StringUtils.Joined | src/utils/string_utils.cpp:63-76 | the specification of `join`: the parts in order with `sep` between neighbours, empty for no parts; laws in `JoinedSnoc`, `JoinedCons`, `JoinedLength`, `PiecesJoin` |
| StringUtils.JoinedSnoc | src/utils/string_utils.cpp:71-73 | appending one more part appends the separator and that part |
| StringUtils.Join | src/utils/string_utils.cpp:63-76 | the stream loop returns exactly `Joined(parts, sep)` |
| StringUtilsProperties.TrimLeftUnique | src/utils/string_utils.cpp:8-13 | any suffix after a whitespace-only prefix that starts with non-whitespace (or is empty) is `trim_left`'s result |
| StringUtilsProperties.TrimRightUnique | src/utils/string_utils.cpp:15-20 | any prefix before a whitespace-only suffix that ends with non-whitespace (or is empty) is `trim_right`'s result |
| StringUtilsProperties.TrimBounds | src/utils/string_utils.cpp:22-24 | unless the input is all whitespace, `trim` keeps exactly the bytes from the first to the last non-whitespace byte |
| StringUtilsProperties.TrimIsSlice | src/utils/string_utils.cpp:22-24 | `trim(s)` is the contiguous slice of `s` that starts where `trim_left` starts |
| StringUtilsProperties.TrimRemovesSpace | src/utils/string_utils.cpp:22-24 | the bytes `trim` drops on each side are whitespace |
| StringUtilsProperties.TrimIdempotent | src/utils/string_utils.cpp:22-24 | `trim(trim(s)) == trim(s)` |
| StringUtilsProperties.TrimEitherOrder | src/utils/string_utils.cpp:22-24 | `trim_right(trim_left(s)) == trim_left(trim_right(s))` |
| StringUtilsProperties.TrimAroundWord | src/utils/string_utils.cpp:22-24 | whitespace around a word with non-whitespace ends is exactly what `trim` removes |
| StringUtilsProperties.TrimLeftExample | tests/unit/test_string_utils.cpp:7 | `trim_left("  hello") == "hello"` |
| StringUtilsProperties.TrimLeftUnchangedExample | tests/unit/test_string_utils.cpp:8 | `trim_left("hello") == "hello"` |
| StringUtilsProperties.TrimLeftBlankExample | tests/unit/test_string_utils.cpp:9 | `trim_left("  ") == ""` |
| StringUtilsProperties.TrimRightExample | tests/unit/test_string_utils.cpp:13 | `trim_right("hello  ") == "hello"` |
| StringUtilsProperties.TrimRightUnchangedExample | tests/unit/test_string_utils.cpp:14 | `trim_right("hello") == "hello"` |
| StringUtilsProperties.TrimRightBlankExample | tests/unit/test_string_utils.cpp:15 | `trim_right("  ") == ""` |
| StringUtilsProperties.TrimSpacesExample | tests/unit/test_string_utils.cpp:19 | `trim("  hello  ") == "hello"` |
| StringUtilsProperties.TrimUnchangedExample | tests/unit/test_string_utils.cpp:20 | `trim("hello") == "hello"` |
| StringUtilsProperties.TrimBlankExample | tests/unit/test_string_utils.cpp:21 | `trim("  ") == ""` |
| StringUtilsProperties.TrimControlExample | tests/unit/test_string_utils.cpp:22 | `trim("\t\nhello\r\n") == "hello"` |
| StringUtilsProperties.FieldsWellFormed | src/utils/string_utils.cpp:26-46 | no fragment of the character split is empty, and none contains the delimiter |
| StringUtilsProperties.Without | src/utils/string_utils.cpp:31-37 | the delimiter-removed text, used as a reference, holds no delimiter |
| StringUtilsProperties.FieldsConcat | src/utils/string_utils.cpp:26-46 | concatenating the fragments gives the input with every delimiter removed |
| StringUtilsProperties.FieldsEmptyIff | src/utils/string_utils.cpp:26-46 | the result is empty iff every byte is the delimiter (including the empty input) |
| StringUtilsProperties.FieldsCount | src/utils/string_utils.cpp:26-46 | there are at most half as many fragments as input bytes, rounded up, because fragments are non-empty and separated by delimiters |
| StringUtilsProperties.FieldsJoinNotRoundTrip | src/utils/string_utils.cpp:31-35 | because empty fragments are dropped, `join(split(",a", ','), ",")` is `"a"`, not `",a"` |
| StringUtilsProperties.FieldsExample | tests/unit/test_string_utils.cpp:25-31 | `split("a,b,c", ',') == ["a", "b", "c"]` |
| StringUtilsProperties.PiecesFromJoin | src/utils/string_utils.cpp:53-59 | joining the fragments from `start` with the delimiter rebuilds `s[start..]` |
| StringUtilsProperties.PiecesJoin | src/utils/string_utils.cpp:48-61 | `join(split(s, d), d) == s` for every non-empty `d` |
| StringUtilsProperties.PiecesFromAvoidDelimiter | src/utils/string_utils.cpp:53-59 | because each cut is at the leftmost match, no fragment from `start` on contains the delimiter |
| StringUtilsProperties.PiecesAvoidDelimiter | src/utils/string_utils.cpp:48-61 | no fragment of `split(s, d)` contains `d` |
| StringUtilsProperties.PiecesSingleIff | src/utils/string_utils.cpp:51-59 | there is exactly one fragment iff `d` does not occur, and that fragment is then `s` |
| StringUtilsProperties.FindLeftmost | src/utils/string_utils.cpp:51-56 | the first occurrence at or after `from` is what `find` returns |
| StringUtilsProperties.FirstByteAbsent | src/utils/string_utils.cpp:51-56 | a needle whose first byte is absent from `s[from..]` gives `npos` |
| StringUtilsProperties.PiecesExample | tests/unit/test_string_utils.cpp:33-39 | `split("a::b::c", "::") == ["a", "b", "c"]` |
| StringUtilsProperties.PiecesKeepEmptyExample | src/utils/string_utils.cpp:53-57 | adjacent delimiters keep an empty fragment: `split("a::::b", "::") == ["a", "", "b"]` |
| StringUtilsProperties.PiecesTrailingExample | src/utils/string_utils.cpp:59 | a trailing delimiter still emits an empty tail: `split("a::", "::") == ["a", ""]` |
| StringUtilsProperties.PiecesEmptyExample | src/utils/string_utils.cpp:59 | the empty input gives one empty fragment |
| StringUtilsProperties.JoinedCons | src/utils/string_utils.cpp:69-73 | joining a part in front of a non-empty list puts one separator between them |
| StringUtilsProperties.JoinedLength | src/utils/string_utils.cpp:63-76 | the length of the join of n > 0 parts is the parts' total length plus (n - 1) separators |
| StringUtilsProperties.JoinExamples | tests/unit/test_string_utils.cpp:41-46 | `join(["a","b","c"], ",") == "a,b,c"`, the same with `"::"`, and `join([], ",") == ""` |
| StringUtilsProperties.CaseConversionComplete | src/utils/string_utils.cpp:78-96 | `to_upper` leaves no `a`-`z` byte, and `to_lower` leaves no `A`-`Z` byte |
| StringUtilsProperties.UpperFixedIff | src/utils/string_utils.cpp:78-86 | `to_upper(s) == s` iff `s` has no `a`-`z` byte |
| StringUtilsProperties.LowerFixedIff | src/utils/string_utils.cpp:88-96 | `to_lower(s) == s` iff `s` has no `A`-`Z` byte |
| StringUtilsProperties.CaseRoundTrips | src/utils/string_utils.cpp:78-96 | `to_upper(to_lower(s)) == to_upper(s)` and the reverse, for every input; both conversions are idempotent |
| StringUtilsProperties.UpperExamples | tests/unit/test_string_utils.cpp:48-52 | `to_upper` of `"hello"`, `"Hello World"` and `""` |
| StringUtilsProperties.LowerExamples | tests/unit/test_string_utils.cpp:54-58 | `to_lower` of `"HELLO"`, `"Hello World"` and `""` |
| StringUtilsProperties.PredicatesEdges | src/utils/string_utils.cpp:98-110 | the empty needle is a prefix, a suffix and a substring of anything; a needle longer than the text is none of these |
| StringUtilsProperties.PrefixSuffixOccur | src/utils/string_utils.cpp:98-110 | a prefix or a suffix is also contained |
| StringUtilsProperties.EndsWithIffConcat | src/utils/string_utils.cpp:103-106 | `w + x` ends with `x`; and if `s` ends with `x`, then `s` is its front followed by `x` |
| StringUtilsProperties.ContainsIffConcat | src/utils/string_utils.cpp:108-110 | `a + t + b` contains `t`; and if `s` contains `t`, it splits around the found position as `front + t + back` |
| StringUtilsProperties.StartsWithExamples | tests/unit/test_string_utils.cpp:60-65 | the four `starts_with` cases |
| StringUtilsProperties.EndsWithExamples | tests/unit/test_string_utils.cpp:67-72 | the four `ends_with` cases |
| StringUtilsProperties.ContainsExample | tests/unit/test_string_utils.cpp:75 | `contains("hello world", "lo wo")` |
| StringUtilsProperties.ContainsMissingExample | tests/unit/test_string_utils.cpp:76 | `!contains("hello world", "xyz")` |
| StringUtilsProperties.ContainsWholeExample | tests/unit/test_string_utils.cpp:77 | `contains("hello", "hello")` |
| Core.BitOrBound | src/core/version.cpp:15 | OR of two numbers below `2^k` is below `2^k`, so the OR of two `uint32` values is a `uint32` |
| Core.BitOr | src/core/version.cpp:15 | bitwise OR of naturals: the result is at least each operand and at most their sum; `BitOrIsBitwise` proves it is bitwise OR |
| Core.ShiftLeft | src/core/version.cpp:15 | `x << k` on a `uint32`: exactly `x * 2^k` when that fits in 32 bits, bits above bit 31 discarded otherwise (`ShiftLeftDiscards`) |
| Core.Or32 | src/core/version.cpp:15 | bitwise OR on two `uint32` values: at least each operand and at most their sum |
| Core.Version.ToString | src/core/version.cpp:8-12 | `major`, '.', `minor`, '.', `patch` in decimal, with the two dots right after the first and second fields; laws in `ToStringFields`, `ToStringParses`, `ToStringInjective` |
| Core.Version.ToNumber | src/core/version.cpp:14-16 | `major << 16`, `minor << 8` and `patch` OR-ed together in `uint32` arithmetic: at least `patch`, at most the sum of the three shifted fields; laws in `ToNumberPacked`, `ToNumberUnpacks`, `ToNumberTruncates` |
| Core.GetVersion | src/core/version.cpp:6-20 | `get_version()` returns `VERSION`, which is `{0, 1, 0}` |
| Core.Decimal | src/core/version.cpp:10 | what `oss << n` writes for an unsigned number: at least one digit, all decimal digits, no leading zero |
| Core.GetVersionString | src/core/version.cpp:22-24 | the literal `"0.1.0"` equals `get_version().to_string()` |
| VersionProperties.BitOrIsBitwise | src/core/version.cpp:15 | bit i of `BitOr(a, b)` is set iff bit i of `a` or of `b` is set |
| VersionProperties.BitOrDisjoint | src/core/version.cpp:15 | OR of a multiple of `2^k` and a number below `2^k` is their sum |
| VersionProperties.ShiftLeftDiscards | src/core/version.cpp:15 | `x << 8` keeps the low 24 bits of `x`, and `x << 16` the low 16 bits |
| VersionProperties.ToNumberPacked | src/core/version.cpp:14-16 | with every field below 256, `to_number() == major * 65536 + minor * 256 + patch` |
| VersionProperties.ToNumberUnpacks | src/core/version.cpp:14-16 | with every field below 256, each field can be read back from the packed number |
| VersionProperties.ToNumberInjective | src/core/version.cpp:14-16 | with every field below 256, two versions pack equally iff they are equal |
| VersionProperties.ToNumberOrder | src/core/version.cpp:14-16 | with every field below 256, numeric order of the packed numbers is lexicographic order of (major, minor, patch) |
| VersionProperties.ToNumberTruncates | src/core/version.cpp:14-16 | `to_number` depends only on the low 16 bits of `major` and the low 24 bits of `minor` |
| VersionProperties.ToNumberCollision | src/core/version.cpp:15 | past 8 bits per field versions collide: `{0,256,0}` and `{1,0,0}` pack equally |
| VersionProperties.ToNumberExample | tests/unit/test_version.cpp:18-22 | `Version{1,2,3}.to_number()` is 0x10203, the OR of `1 << 16`, `2 << 8` and `3` |
| VersionProperties.DecimalRoundTrip | src/core/version.cpp:10 | reading back the decimal digits gives the number written |
| VersionProperties.ToStringFields | src/core/version.cpp:8-12 | splitting `to_string()` at '.' gives the three decimal fields |
| VersionProperties.ToStringParses | src/core/version.cpp:8-12 | splitting `to_string()` at '.' and reading each field gives back `major`, `minor` and `patch` |
| VersionProperties.ToStringInjective | src/core/version.cpp:8-12 | two versions render equally iff they are equal |
| VersionProperties.ToStringExample | tests/unit/test_version.cpp:13-16 | `Version{1,2,3}.to_string() == "1.2.3"` |
| VersionProperties.GetVersionNumber | src/core/version.cpp:18-20 | `get_version().to_number() == 0x100` |
| VersionProperties.GetVersionStringExample | tests/unit/test_version.cpp:24-27 | `get_version_string() == "0.1.0"` |

## Left out

- `get_build_info` (src/core/version.cpp:26-32): it returns one of two constant strings, chosen by the `NDEBUG` macro at compile time.
- Locale dependence of `std::isspace`, `std::toupper` and `std::tolower`: only the "C" locale is modelled.
- `std::ostringstream`, `reserve`, `std::move`, `clear` and allocation in `join`, `to_upper`, `to_lower`, the splits and `to_string`: the model keeps only their results.
- `std::string_view` versus `std::string`: both are `string`. The model has no views that alias the input.
- SplitByString: requires a non-empty delimiter, because with an empty one the source loop never terminates (see `EmptyDelimiterNeverAdvances`).
- Pieces: states the string split only for a non-empty delimiter, for the same reason.
- `unsigned char` conversions in the `isspace`, `toupper` and `tolower` lambdas: a Dafny `char` stands for one byte. Character values above 255 have no C++ counterpart.
- Build configuration (conanfile.py), the benchmark and the fuzz harness: they have no behaviour to model.
