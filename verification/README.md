# Upload validator model

A Dafny model of the two file-upload validator classes of the library:
`Validator` (rules set one by one through fluent setters) and
`FileValidator` (rules given at once as an array, with the `"min:max"` range
form for width and height). Both take a file either by path or as an upload
descriptor (one entry of `$_FILES`), and both have a `validate` that:

1. stops with one message when the upload reports an error code;
2. throws when the file is not readable (or no file was given);
3. when an image is required, stops with one message when the image probe
   fails, and otherwise runs the six dimension checks;
4. checks the size against a megabyte bound (strictly) and the extension
   against an allowed list (exactly);
5. appends every message to the instance's error list (never cleared) and
   returns whether that whole list is empty.

The two classes are kept apart, one module each, because they differ in
detail: which upload codes stop validation, what the size-limit message of
codes 1 and 2 quotes, how `isSended` behaves in path mode, and the fact that
`FileValidator` bounds may be strings.

Modules:

- `Files` — values both classes share: what the filesystem and image probe
  report (`Metadata`), the upload descriptor, the `Outcome` of a run
  (`Throws`, or `Returned(ok, errors)` with the whole error list), the
  megabyte bound (an unset bound is PHP's null and multiplies to 0), and
  the check-order predicates.
- `Strings` — `strpos`/`explode` for one separator character, with `Join` as
  the inverse of `Split`; the value PHP compares a string against an integer
  with (its leading decimal digits); the decimal text an integer
  interpolates to.
- `Validator` — `src/Validator.php`. Each setter is a `Call`, applied by
  `Apply` and folded by `Build`; `Validate`, `AfterValidate` (the instance
  afterwards, whose `errors` field `errors()` returns) and `IsSended`.
- `FileValidator` — `src/FileValidator.php`. `ExpandRules` is `rules` (range
  expansion, derived `image` flag); `WithPath` and `WithFile` are `path` and
  `file`; `Validate`, `AfterValidate`, `IsSended`.
- `Comparison` — how the two classes relate: for the same integer rules, the
  same file by path and the same metadata they decide alike, with the same
  messages in the same order. They differ on upload codes outside
  `Validator`'s table and on `isSended` in path mode.

Error messages are datatype constructors carrying the values they quote.
In `FileValidator` a bound is quoted as the text it interpolates to, so that
`"100:200"` and the integer bounds 100 and 200 give the same messages.

The size check has no guard on its rule: it runs whether or not a size rule
is set. An unset size rule is PHP's null, and `null * 1024 * 1024` is 0, so
without a size rule every non-empty file fails the size check
(`NoSizeRuleRejectsNonEmpty` in both modules). A caller who sets only
dimension rules therefore gets the size error for every non-empty file.

## Model

| member | source | states |
|---|---|---|
| `Files.ByteLimit` | src/Validator.php:213 | the byte bound is the megabyte value times 1024·1024, and 0 when no size was set |
| `Files.Oversized` | src/Validator.php:213 | without a size rule every non-empty file is oversized; with a rule of `n` MiB exactly the files larger than n·1024·1024 bytes are |
| `Files.ExtensionAllowed` | src/Validator.php:217 | an empty allowed list admits every extension; otherwise the extension is admitted exactly when it equals one of the listed entries |
| `Strings.IndexOf` | src/FileValidator.php:20 | `strpos` for one character: None iff the character does not occur; otherwise the position of its first occurrence |
| `Strings.Split` | src/FileValidator.php:22 | `explode` for one character: at least one piece, no piece contains the separator, and joining the pieces with it gives back the input |
| `Strings.Join` | src/FileValidator.php:22 | the joined text starts with the first piece, followed by the separator when more pieces follow and by nothing when it is the only piece |
| `Strings.SplitJoin` | src/FileValidator.php:22 | splitting a join of separator-free pieces gives back those pieces (the inverse direction of `Split`'s round trip) |
| `Strings.DigitPrefix` | src/FileValidator.php:118 | the longest prefix made only of decimal digits |
| `Strings.DecimalText` | src/FileValidator.php:119 | an integer's interpolated text is a non-empty digit string with no leading zero ("0" for zero) |
| `Strings.DecimalTextValue` | src/FileValidator.php:119 | the decimal text of `n` reads back as `n` |
| `Strings.NumericValue` | src/FileValidator.php:118 | a string compared with an integer by `<` or `>` counts as 0 when it does not start with a digit, and as the number its digits denote when it is all digits |
| `Strings.NumericValueOfDecimal` | src/FileValidator.php:118-134 | a bound that is the decimal text of `n` (alone or followed by a non-digit) compares as the number `n` |
| `Validator.Apply` | src/Validator.php:28-149 | each dimension setter stores its value and raises the image flag; `size` and `exts` store theirs; `file` sets path and extension and keeps a stored upload code; `uploadedFile` reads the temporary path, the extension of the submitted name and the code; no setter touches the error list; the flag stays equal to "some dimension rule is set" |
| `Validator.Build` | src/Validator.php:28-149 | a fresh instance after any chain of setters has no errors, its image flag is raised iff some call set a dimension, and without `uploadedFile` no upload code is stored |
| `Validator.DimensionErrors` | src/Validator.php:193-209 | an error is reported iff its rule is set and violated (`<` minimum, `!==` exact, `>` maximum), in the fixed order min/exact/max width then height |
| `Validator.CheckErrors` | src/Validator.php:193-218 | the errors after the probe are exactly the violated dimension, size and extension checks, each at most once and in check order |
| `Validator.Validate` | src/Validator.php:157-221 | a code of the table (1, 2, 3, 4, 6, 7) returns false with its message; otherwise a file the filesystem reports as not readable throws; a failed probe when an image is required appends only "not an image"; otherwise exactly the violated checks are appended in order; the list is only ever appended to, and the result is true iff the whole list is empty |
| `Validator.AfterValidate` | src/Validator.php:228-231 | `errors()` after a run is the run's list; a throwing run leaves the instance unchanged, and no run changes anything but the list |
| `Validator.IsSended` | src/Validator.php:238-241 | false exactly when the stored code is 4, and true when no code was stored |
| `Validator.UploadErrorShortCircuits` | src/Validator.php:160-176 | a listed code gives false with its one message whatever the filesystem and the image say |
| `Validator.UnlistedCodeFallsThrough` | src/Validator.php:171-176 | a code outside the table (5, 8, negative) validates exactly as if no code were stored |
| `Validator.UnreadableThrows` | src/Validator.php:179-180 | a missing file, or one the filesystem reports as not readable, throws and the error list is left as it was |
| `Validator.ProbeFailureStops` | src/Validator.php:185-191 | a failed probe appends only "not an image", whatever the size and the allowed extensions |
| `Validator.SizeBoundary` | src/Validator.php:213-214 | a file of exactly `size` MiB passes the size check and one byte more fails it |
| `Validator.NoSizeRuleRejectsNonEmpty` | src/Validator.php:213-214 | without a `size` rule every non-empty readable file gets the size error and the run returns false |
| `Validator.UploadTmpNameIrrelevant` | src/Validator.php:131-137 | two uploads that differ only in their temporary path validate alike, given the same filesystem and image-probe answers |
| `Validator.UploadExtensionFromName` | src/Validator.php:134 | In upload mode the extension error is appended exactly when the allowed list is non-empty and does not contain the extension of the submitted name. |
| `Validator.FailureIsSticky` | src/Validator.php:220 | once a run returns false, every later run on the instance returns false or throws |
| `Validator.PathModeIsSended` | src/Validator.php:238-241 | an instance configured without `uploadedFile` counts as sent |
| `Validator.SizeThenExtension` | src/Validator.php:212-218 | with `size(1)`, `exts(["png"])` and a readable 2 MiB `photo.jpg`, the size error then the extension error are reported and the result is false |
| `FileValidator.RangeHalves` | src/FileValidator.php:20-24 | a rule is a range iff it is a string with a colon not at position 0; the halves are the first two pieces of the split, the first non-empty |
| `FileValidator.ExpandRules` | src/FileValidator.php:18-49 | a range width becomes min/max width and the width key goes (likewise height); other rules stay; the image flag is on iff the caller set it or some dimension key is present |
| `FileValidator.WithRules` | src/FileValidator.php:47-48 | `rules` stores the expanded rules and leaves the file and the error list as they were |
| `FileValidator.WithPath` | src/FileValidator.php:57-65 | `path` stores the path and its extension, dropping any descriptor |
| `FileValidator.WithFile` | src/FileValidator.php:73-82 | `file` reads the temporary path, takes the extension from the submitted name and keeps the descriptor |
| `FileValidator.DimensionErrors` | src/FileValidator.php:118-134 | an error is reported iff its rule is set and violated, quoting the rule's text; a string exact rule is always violated (an integer is never `===` a string); bounds compare by their numeric value |
| `FileValidator.CheckErrors` | src/FileValidator.php:118-143 | the errors after the probe are exactly the violated dimension, size and extension checks, each at most once and in check order |
| `FileValidator.UploadError` | src/FileValidator.php:95-98 | codes 1 and 2 give the size-limit message quoting `weight`; every other positive code gives the numbered message |
| `FileValidator.Validate` | src/FileValidator.php:90-146 | any positive code of a descriptor returns false with one message; otherwise an unset file, or one the filesystem reports as not readable, throws; a failed probe when an image is required appends only "not an image"; otherwise exactly the violated checks are appended in order; the result is true iff the whole list is empty |
| `FileValidator.AfterValidate` | src/FileValidator.php:153-156 | `errors()` after a run is the run's list; a throwing run changes nothing |
| `FileValidator.IsSended` | src/FileValidator.php:163-166 | true iff a descriptor is stored and its code is not 4 |
| `FileValidator.FirstTwoPiecesUnique` | src/FileValidator.php:22-24 | the first two pieces of a text are determined by the text |
| `FileValidator.RangeSugarSplits` | src/FileValidator.php:20-26 | `width = "a:b"` with non-empty, colon-free `a` and colon-free `b` becomes `min_width = a`, `max_width = b`, drops `width` and requires an image |
| `FileValidator.RangeSugarDropsRest` | src/FileValidator.php:22-24 | in `"a:b:c"` only the first two pieces become bounds |
| `FileValidator.NoRangeKeepsWidth` | src/FileValidator.php:20 | a width that is not a range (an integer, colon-free, or starting with a colon) is kept as given, with min/max width untouched, and an image is required |
| `FileValidator.ImageFlagIffDimensionRule` | src/FileValidator.php:36-45 | the image flag after `rules` is on iff the caller set it or the caller gave some dimension key |
| `FileValidator.UploadErrorShortCircuits` | src/FileValidator.php:93-101 | a positive code gives false with its one message whatever the filesystem and the image say |
| `FileValidator.PathModeIgnoresCodes` | src/FileValidator.php:57-65 | After `path`, no upload code stops validation, validation throws exactly when the filesystem reports the file as not readable, and `isSended` returns false. |
| `FileValidator.UnreadableThrows` | src/FileValidator.php:104-105 | an unset file, or one the filesystem reports as not readable, throws and the error list is left as it was |
| `FileValidator.ProbeFailureStops` | src/FileValidator.php:110-116 | a failed probe appends only "not an image", whatever the size and the allowed extensions |
| `FileValidator.SizeBoundary` | src/FileValidator.php:138-139 | a file of exactly `weight` MiB passes the size check and one byte more fails it |
| `FileValidator.NoSizeRuleRejectsNonEmpty` | src/FileValidator.php:138-139 | without a `weight` rule every non-empty readable file gets the size error and the run returns false |
| `FileValidator.UploadExtensionFromName` | src/FileValidator.php:77 | In upload mode the extension error is appended exactly when `extensions` is non-empty and does not contain the extension of the submitted name. |
| `FileValidator.FailureIsSticky` | src/FileValidator.php:145 | once a run returns false, every later run on the instance returns false or throws |
| `FileValidator.ExpandDecimalRange` | src/FileValidator.php:20-26 | the range of two decimal numbers expands to their texts as min and max bounds |
| `FileValidator.DecimalBoundAlike` | src/FileValidator.php:118-125 | a bound given as the decimal text of `n` is quoted and compared like the integer `n` |
| `FileValidator.CheckErrorsCongruent` | src/FileValidator.php:118-143 | rules whose bounds quote and compare alike give the same errors after the probe |
| `FileValidator.RangeSugarEquivalent` | src/FileValidator.php:18-49 | `width = "a:b"` of decimal numbers validates exactly like `min_width = a, max_width = b`, messages included |
| `Comparison.ExpandKeepsIntegerRules` | src/FileValidator.php:18-49 | integer rules whose image flag equals "some dimension is set" pass through `rules` unchanged |
| `Comparison.CheckErrorsAgree` | src/FileValidator.php:118-143 | the two classes report the same checks after the probe, bounds quoted as decimal text |
| `Comparison.PathModeAgreement` | src/FileValidator.php:90-146 | in path mode a `Validator` and a `FileValidator` with the same rules and the same file both throw, or both return the same boolean with the same messages in the same order |
| `Comparison.UnlistedCodeDiverges` | src/FileValidator.php:93-101 | for an upload code of at least 3 outside `Validator`'s table, `Validator` goes on to the file checks while `FileValidator` stops with the numbered message |
| `Comparison.ListedCodeStopsBoth` | src/Validator.php:160-176 | a code of `Validator`'s table stops both classes with exactly one message |
| `Comparison.PathModeIsSendedDiffers` | src/FileValidator.php:163-166 | in path mode `Validator` counts the file as sent and `FileValidator` does not |

## Left out

- The filesystem and the image probe (`is_readable`, `@getimagesize`, `filesize`) are not called: their answers are the `Metadata` parameter of `Validate`.
- `pathinfo(…, PATHINFO_EXTENSION)` is the parameter `extensionOf`; only which string it is applied to (the path, or the submitted name) is modelled.
- Message texts, `ini_get('upload_max_filesize')` and the exception classes are not modelled: each message is an `Err` constructor carrying what it quotes, and a throw is `Throws`.
- PHP's loose typing of setter and rule arguments is not modelled: `Validator` bounds, sizes and `FileValidator` integer bounds and `weight` are naturals. Negative or fractional values, floats, and numeric strings passed to `Validator` setters are out of scope.
- A `FileValidator` string bound compares as the number its leading decimal digits denote. Signs, whitespace, decimal points, exponents and PHP 8's string comparison of non-numeric strings are not modelled.
- The `image` rule is a boolean; other truthy or falsy values a caller could pass are not modelled.
- The 64-bit overflow of `size * 1024 * 1024` into a float is not modelled (integers are unbounded).
- Rule keys other than `width`, `min_width`, `max_width`, `height`, `min_height`, `max_height`, `weight`, `extensions` and `image` are ignored.
- An upload descriptor always has `tmp_name`, `name` and an integer `error`; missing keys and non-integer codes are not modelled.
- Fluent chaining (`return $this`) is function composition here; `Validator`'s setters are the `Call` datatype applied by `Apply`.
- `Validator.Apply`: does not state that a `size` call leaves the exts list alone, or the like for the other setters' untouched fields, beyond the file, upload code, image flag and error list.
