# Whitespace trimming (str_trim)

A Dafny model of the string helpers in `src/str_trim.cpp` of the FAT32 disk
image parser: `ltrim`, `rtrim` and `trim`, which erase leading and/or trailing
whitespace from a `std::string&` in place, and `ltrim_copy`, `rtrim_copy` and
`trim_copy`, which take the string by value, trim that copy and return it.

Everything is in module `StrTrim` (`str_trim.dfy`):

- `IsSpace` is `std::isspace` in the C locale: space, `\t`, `\n`, `\v`,
  `\f`, `\r`. It is the test both searches negate, at
  `src/str_trim.cpp:10` and `src/str_trim.cpp:16`.
- `FirstNonSpace` and `ContentEnd` are the two cut points. The first is where
  the forward `std::find_if` for a non-space character stops. The second is
  the `.base()` of the reverse `std::find_if`: the position just past the last
  non-space character. Their contracts state what the searches promise.
- `LTrimmed`, `RTrimmed` and `Trimmed` specify what each trim leaves.
  `Trimmed` is defined as the source computes it: start first, then end.
- `FindFirstNonSpace` and `FindContentEnd` are the two searches as loops.
  Each is proved to stop at its cut point.
- `MutableString` stands for the `std::string&` argument. Its `chars` field is
  reassigned by `LTrim`, `RTrim` and `Trim` the way `erase` shrinks the string.
- `LTrimCopy`, `RTrimCopy` and `TrimCopy` take a `seq<char>` by value. Each
  trims a fresh `MutableString` holding that value and returns what is left.
  A value parameter cannot be changed, so the caller's string is never
  modified. `TrimCopy` trims the end first and then the start, as the source
  does. Its contract says it returns the same string the in-place `Trim`
  leaves.

## Model

| member | source | states |
|---|---|---|
| `StrTrim.FirstNonSpace` | src/str_trim.cpp:9-10 | the forward search stops at a position within the string; everything before it is whitespace; the character there, if any, is not whitespace |
| `StrTrim.ContentEnd` | src/str_trim.cpp:15-17 | the reverse search's base position lies within the string; everything from it to the end is whitespace; the character just before it, if any, is not whitespace |
| `StrTrim.FindFirstNonSpace` | src/str_trim.cpp:9-10 | the scan from the start returns the first non-whitespace position, or the length when all is whitespace |
| `StrTrim.FindContentEnd` | src/str_trim.cpp:15-17 | the scan from the end returns the position just past the last non-whitespace character, or 0 when all is whitespace |
| `StrTrim.LTrimmed` | src/str_trim.cpp:7-11 | ltrim leaves a suffix of the input, no longer than it; every removed character is whitespace; the result is empty or starts with a non-whitespace character |
| `StrTrim.RTrimmed` | src/str_trim.cpp:14-19 | rtrim leaves a prefix of the input, no longer than it; every removed character is whitespace; the result is empty or ends with a non-whitespace character |
| `StrTrim.Trimmed` | src/str_trim.cpp:22-25 | trim leaves the contiguous slice `s[i..j]`, where `i` is the forward search's stop and, when the slice is non-empty, `j` is the reverse search's; only whitespace lies after `j`; the slice is empty or starts and ends with non-whitespace; interior characters, interior spaces included, are kept |
| `StrTrim.LTrimmedCharacterized` | src/str_trim.cpp:7-11 | conversely, whitespace followed by a string that is empty or starts with non-whitespace ltrims to exactly that string |
| `StrTrim.RTrimmedCharacterized` | src/str_trim.cpp:14-19 | conversely, a string that is empty or ends with non-whitespace, followed by whitespace, rtrims to exactly that string |
| `StrTrim.EmptiedIffAllSpace` | src/str_trim.cpp:7-25 | each of ltrim, rtrim and trim yields the empty string exactly when the input is all whitespace or empty |
| `StrTrim.UnchangedIffNoSpaceAtEnds` | src/str_trim.cpp:7-25 | ltrim (rtrim) leaves the string unchanged exactly when its first (last) character is not whitespace; trim does so exactly when neither end is whitespace |
| `StrTrim.Idempotent` | src/str_trim.cpp:7-25 | applying ltrim, rtrim or trim a second time changes nothing |
| `StrTrim.TrimOrderIrrelevant` | src/str_trim.cpp:39-43 | rtrim followed by ltrim gives the same string as ltrim followed by rtrim |
| `StrTrim.ShrinksIffSpaceAtEnds` | src/str_trim.cpp:8-18 | a trim makes the string strictly shorter exactly when an end it looks at holds whitespace |
| `StrTrim.MutableString.LTrim` | src/str_trim.cpp:7-11 | the string becomes what `LTrimmed` gives for its old value |
| `StrTrim.MutableString.RTrim` | src/str_trim.cpp:14-19 | the string becomes what `RTrimmed` gives for its old value |
| `StrTrim.MutableString.Trim` | src/str_trim.cpp:22-25 | ltrim then rtrim in place: the string becomes what `Trimmed` gives for its old value |
| `StrTrim.LTrimCopy` | src/str_trim.cpp:28-31 | returns the string the in-place ltrim would leave; the caller's value is not modified |
| `StrTrim.RTrimCopy` | src/str_trim.cpp:34-37 | returns the string the in-place rtrim would leave; the caller's value is not modified |
| `StrTrim.TrimCopy` | src/str_trim.cpp:39-43 | rtrim then ltrim on a copy returns the same string the in-place trim (ltrim then rtrim) would leave |

## Left out

- Locales: `std::isspace` is modelled in the C locale only. Other locales can
  classify more characters as whitespace.
- Negative `char` values: passing a negative `char` to `std::isspace` is
  undefined behaviour in C++. The model treats every character through the
  fixed `IsSpace` predicate instead.
- Characters are Dafny `char`s, not bytes; `std::string` holds bytes and has
  no encoding. Every character outside the six whitespace ones is simply
  non-whitespace in the model, as every byte outside them is in the C locale.
- Storage: `erase` shifting characters inside the string's buffer, its
  capacity, and iterator invalidation are not modelled. The string is a
  sequence that each trim replaces by a slice of itself.
- `src/argparser.cpp`, `src/argparser.h` and `src/main.cpp`: command-line
  parsing through an external library and printing to standard output. They
  are not part of this model.
- The disk-image decoding parts of the program are not part of this model,
  which covers `src/str_trim.cpp` only.
