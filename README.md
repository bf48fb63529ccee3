# Person::from_str, verified

A Dafny model of the `FromStr` implementation for `Person` in the rustlings
exercise `exercises/conversions/from_str.rs`. It parses a text of the form
`name,age` into `Person { name, age: usize }`. Every malformed text gets the same
error, `ParsePersonError("parse error")`, which displays as
`"There is an error: parse error"`.

The model has four modules:

- `Wrappers` (wrappers.dfy): `Option` and `Result`.
- `StrSplit` (str_split.dfy): `str::split` with a one-character pattern, as
  used by `s.split(",").collect()`. `Join` is its inverse. The lemmas prove
  that `Split(s, sep)` is the only separator-free list of pieces that joins
  back to `s`, and that there is one more piece than there are separators.
- `UsizeParse` (usize_parse.dfy): `usize::from_str`, which is
  `"…".parse::<usize>()`. It rejects the empty text and accepts one optional
  leading `+`. It rejects `-` and every other non-digit, and it fails above
  `USIZE_MAX`. `ToDecimal` (the decimal text of a number) is its inverse.
- `PersonFromStr` (person_from_str.dfy): `Person`, `ParsePersonError`, its
  `Display` text, and `FromStr`, which follows lines 37-54 step by step.
  `ParseFields` holds lines 41-53. The lemmas state when the parse succeeds,
  what it returns, each error case, a format/parse round trip, and the test
  suite's cases.

The exercise's steps (exercises/conversions/from_str.rs:20-21) parse the age
with `parse::<usize>()`, and line 47 calls it. That function accepts one
leading `+`, so `"John,+32"` parses to `("John", 32)` (`PlusSignedAge`). A lone
`+` and `++` are still rejected.

## Model

| member | source | states |
|---|---|---|
| PersonFromStr.FromStr | exercises/conversions/from_str.rs:37-54 | every failure is `ParsePersonError("parse error")`; a parsed name is non-empty and holds no comma |
| PersonFromStr.ParseFields | exercises/conversions/from_str.rs:41-53 | the part after the empty-text check fails only with `ParsePersonError("parse error")` and yields only non-empty, comma-free names |
| PersonFromStr.Display | exercises/conversions/from_str.rs:28-32 | an error displays as "There is an error: " followed by its detail text |
| PersonFromStr.FromStrOkIff | exercises/conversions/from_str.rs:37-54 | the parse gives `p` if and only if the text is `p.name` (non-empty, no comma), one comma, then a comma-free age text that `usize::from_str` turns into `p.age`; the name is not trimmed |
| PersonFromStr.FromStrFields | exercises/conversions/from_str.rs:41-54 | for two comma-free fields around one comma: an error on an empty name, otherwise success exactly when the age text parses, with the name as given |
| PersonFromStr.SplitFields | exercises/conversions/from_str.rs:41-46 | two comma-free fields around one comma split into exactly those two pieces |
| PersonFromStr.OneCommaNeeded | exercises/conversions/from_str.rs:41-44 | a text with no comma, or with two or more, is rejected |
| PersonFromStr.TwoCommasRejected | exercises/conversions/from_str.rs:41-44 | a text with two or more commas is rejected, even when nothing follows the second comma |
| PersonFromStr.EmptyNameRejected | exercises/conversions/from_str.rs:42-44 | a text starting with a comma (empty name) is rejected whatever follows |
| PersonFromStr.BadAgeRejected | exercises/conversions/from_str.rs:47-53 | with a well-formed name, an age text that `usize::from_str` rejects makes the parse fail |
| PersonFromStr.RoundTrip | exercises/conversions/from_str.rs:41-51 | for a non-empty, comma-free name and any `usize` age, parsing `name,age` gives back that person |
| PersonFromStr.ReparseFormatted | exercises/conversions/from_str.rs:37-54 | every parsed person, written back as `name,age`, parses to the same person |
| PersonFromStr.EmptyCheckRedundant | exercises/conversions/from_str.rs:38-44 | dropping the empty-text check changes no result, because the empty text splits into one piece |
| PersonFromStr.EmptyInputRejected | exercises/conversions/from_str.rs:38-40 | the empty text is rejected |
| PersonFromStr.ErrorMessage | exercises/conversions/from_str.rs:28-32 | every error the parser returns displays as "There is an error: parse error" |
| PersonFromStr.GoodInput | exercises/conversions/from_str.rs:71-77 | "John,32" parses to ("John", 32) |
| PersonFromStr.PlusSignedAge | exercises/conversions/from_str.rs:47 | "John,+32" parses to ("John", 32), because `usize::from_str` accepts a leading `+` |
| PersonFromStr.MissingAge | exercises/conversions/from_str.rs:79-81 | "John," is rejected |
| PersonFromStr.InvalidAge | exercises/conversions/from_str.rs:83-86 | "John,twenty" is rejected |
| PersonFromStr.MissingCommaAndAge | exercises/conversions/from_str.rs:88-91 | "John" is rejected |
| PersonFromStr.MissingName | exercises/conversions/from_str.rs:93-106 | ",1", "," and ",one" are rejected |
| PersonFromStr.TrailingComma | exercises/conversions/from_str.rs:108-111 | "John,32," is rejected |
| PersonFromStr.TrailingCommaAndSomeString | exercises/conversions/from_str.rs:113-116 | "John,32,man" is rejected |
| StrSplit.Split | exercises/conversions/from_str.rs:41 | `split(",")` yields at least one piece and no piece contains the separator |
| StrSplit.JoinSplit | exercises/conversions/from_str.rs:41 | joining the pieces with the separator gives the text back |
| StrSplit.SplitJoin | exercises/conversions/from_str.rs:41 | splitting the join of separator-free pieces gives those pieces back |
| StrSplit.SplitCount | exercises/conversions/from_str.rs:41-42 | the number of pieces is the number of separators plus one |
| UsizeParse.ParseUsize | exercises/conversions/from_str.rs:47 | `parse::<usize>()` takes off one optional leading `+`; it succeeds only when the rest is non-empty and all decimal digits, and then gives that text's decimal value; it fails when the rest is empty, holds a non-digit, or has a value above `USIZE_MAX` |
| UsizeParse.ParseToDecimal | exercises/conversions/from_str.rs:47 | `parse::<usize>()` of a number's decimal text gives the number back if it is at most `USIZE_MAX`, and fails with overflow otherwise |
| UsizeParse.ParseEmpty | exercises/conversions/from_str.rs:47 | the empty text and a lone `+` do not parse |
| UsizeParse.ParseRejectsNonDigit | exercises/conversions/from_str.rs:47 | any non-digit other than one leading `+`, including every `-`, makes the parse fail |
| UsizeParse.ParsePlus | exercises/conversions/from_str.rs:47 | one leading `+` changes nothing; a second `+` fails |
| UsizeParse.LeadingZero | exercises/conversions/from_str.rs:47 | prepending `0` to a digit string does not change its decimal value |
| UsizeParse.ParseLeadingZero | exercises/conversions/from_str.rs:47 | a leading `0` does not change the result of `parse::<usize>()` on a non-empty text that does not start with `+` |
| UsizeParse.CanonicalDigits | exercises/conversions/from_str.rs:47 | a digit string with no leading zero is the decimal text of its own value |
| UsizeParse.ParseCanonical | exercises/conversions/from_str.rs:47 | a value parsed from a canonical digit string formats back to that string |

## Left out

- `main` (lines 57-60): it only prints a parsed person to the console.
- `Box<dyn error::Error>` and the `error::Error` impl (lines 34, 36): the error is the plain datatype `ParsePersonError`, returned through `Result`.
- `fmt::Formatter` (lines 28-32): `Display` is modelled as string concatenation of the message.
- The difference between UTF-8 bytes and characters behind `s.len()` and `strs[0].len()`: only the test for zero length is used, and that test gives the same answer for bytes and for characters. Texts are sequences of characters.
- The width of `usize` depends on the platform. The model fixes `USIZE_MAX` at 2^64 - 1, the value on a 64-bit target.
- `UsizeParse.ParseUsize` returns an `Option`. It does not model the `ParseIntError` kind (empty, invalid digit, overflow) that `usize::from_str` reports. `from_str` throws the kind away, so nothing that it returns depends on it.
