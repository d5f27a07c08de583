# ExtendAllTheThings, modelled in Dafny

ExtendAllTheThings is a C# helper library for ASP.NET applications. This
project models four parts of it and proves their rules.

- **Calendar rules** (`Dates`, `DateExtensions`). The United States federal
  holidays, with their weekend "observed" shifts. The Catholic (Gregorian)
  Easter date. The Christmas Eve cutoff at 13:00:00. The dates are proleptic
  Gregorian dates, and the weekday is counted the way `DateTime` counts it.
- **String utilities** (`StringExtensions`, `Strings`). Choosing, trimming,
  padding, reversing, repeating, before/between/after, left/right,
  pluralising, sequential replace-all, compiling a `{n}` template into a
  regular-expression pattern, truncating and slug generation.
  `StringExtensions` slices with `value[0..]`, which is the whole string; it
  is modelled as written. `Strings` cuts with `Substring`.
- **Validation attributes**: `FileSizeAttribute`, `PasswordStrengthAttribute`,
  `FileTypeAttribute`, both copies of `ImageValidatorAttribute`, and
  `CheckBoxRequiredAttribute`.
  - An uploaded file (`IFormFile`) is a record of its file name, content type
    and length.
  - A validated value is null, a file, a bool, a string or anything else.
  - A `ValidationResult` is success or a failure message.
- **Host names** (`RequestExtensions`). The lower-cased host, its sub-domains,
  its nearest sub-domain and its domain.

Exceptions are values: an operation that can throw returns a `Result` that is
either `Ok(value)` or `Throw(exception)`. `int` arithmetic is unbounded, so
32-bit wrap-around (`Wrap32`) and C#'s truncating division (`CDiv`, `CMod`)
are written out where the source depends on them.

Modules:

- `Common`: Option, Result, exceptions, 32-bit integers, decimal strings.
- `Text`: the .NET string operations used, with ordinal comparisons.
- `Calendar`: dates, day numbers, weekdays, ticks.
- `Dates` and `DateExtensions`.
- `StringExtensions` and `Strings`.
- `Validation`: the shared value and result types.
- `FileSize`, `PasswordStrength`, `FileType`, `ImageValidator`,
  `CustomValidators` and `CheckboxRequired`.
- `RequestExtensions`.

`Strings.cs` has methods that behave exactly like the `StringExtensions`
method of the same name. Each such method is modelled once, in
`StringExtensions`, and its contract covers both copies:

- `Reverse` (`Strings.cs` lines 169-177);
- `Repeat` (lines 219-228);
- `GetBetween` (lines 342-352), whose repeated `xPos == -1` test leaves a
  missing `y` to the position test in both copies;
- `GetAfter` (lines 361-370);
- `Right` (lines 492-499) and `SubstringFrom` (lines 505-508);
- the three `ReplaceAll` overloads (lines 627-637, 657-664 and 685-699);
- `Slugify` (lines 709-713), which is the same as `GenerateSlug`.

## Model

| member | source | states |
|---|---|---|
| Calendar.NewDate | ExtendAllTheThings/Dates.cs:172-177 | `new DateTime(y, m, d)` succeeds exactly for a valid proleptic Gregorian date, and otherwise throws ArgumentOutOfRangeException |
| Calendar.AddDays | ExtendAllTheThings/Dates.cs:81 | `date.AddDays(k)` gives a valid date whose day number is `k` more |
| Calendar.NewYearFollows | ExtendAllTheThings/Dates.cs:61 | January 1 is the day after December 31 of the year before |
| Dates.NthWeekDay | ExtendAllTheThings/Dates.cs:53 | `ceil(day / 7)` is the `n` with `7(n-1) < day <= 7n` |
| Dates.IsFederalHoliday | ExtendAllTheThings/Dates.cs:50-129 | no Saturday and no Sunday is ever a holiday |
| Dates.FederalHolidayRules | ExtendAllTheThings/Dates.cs:50-129 | the holiday chain holds exactly when a calendar rule holds. The rules: Mondays on days 15-21 of January and February, the last May Monday (day 25 or later), Mondays on days 1-7 of September and 8-14 of October, Thursdays on days 22-28 of November, and each fixed holiday observed on the Friday before or the Monday after a weekend |
| Dates.MemorialDayWindow | ExtendAllTheThings/Dates.cs:81-84 | a May date is a week before June exactly when its day is 25 or more |
| Dates.HolidayNearFixedDay | ExtendAllTheThings/Dates.cs:87-126 | on the day before, on or after a fixed-date holiday, the date is a holiday exactly when it is the observed day |
| Dates.HolidayOnNewYearsEve | ExtendAllTheThings/Dates.cs:60-62 | December 31 is a holiday exactly when it is a Friday |
| Dates.ObservedTripleExactlyOne | ExtendAllTheThings/Dates.cs:87-126 | of the day before, the day of and the day after July 4, November 11 or December 25, exactly one is a holiday |
| Dates.IndependenceDayExactlyOne | ExtendAllTheThings/Dates.cs:87-92 | exactly one of July 3, 4 and 5 is a holiday, in every year |
| Dates.VeteransDayExactlyOne | ExtendAllTheThings/Dates.cs:107-112 | exactly one of November 10, 11 and 12 is a holiday, in every year |
| Dates.ChristmasDayExactlyOne | ExtendAllTheThings/Dates.cs:121-126 | exactly one of December 24, 25 and 26 is a holiday, in every year |
| Dates.NewYearsDayExactlyOne | ExtendAllTheThings/Dates.cs:60-66 | exactly one of December 31 of the year before, January 1 and January 2 is a holiday |
| Dates.GoldenNumber | ExtendAllTheThings/Dates.cs:145 | G lies in 1..19 |
| Dates.Epact | ExtendAllTheThings/Dates.cs:160-162 | E lies in 0..29 and is never 24 after the bumps |
| Dates.FullMoon | ExtendAllTheThings/Dates.cs:165-166 | the full moon N is a day of March from 21 to 49 |
| Dates.SundayAfter | ExtendAllTheThings/Dates.cs:169 | P is the first day after N with `P + Z` a multiple of 7 ("up to Sunday") |
| Dates.GetCatholicEaster | ExtendAllTheThings/Dates.cs:136-178 | a result is a valid date in the requested year; otherwise ArgumentOutOfRangeException |
| Dates.EasterWindow | ExtendAllTheThings/Dates.cs:136-178 | for years 1 to 8999 Easter is a date from March 22 to April 25 |
| Dates.EasterIsSunday | ExtendAllTheThings/Dates.cs:168-169 | for years 1 to 8999 Easter falls on a Sunday |
| Dates.Easter2024 | ExtendAllTheThings/Dates.cs:145-177 | Easter 2024 is March 31 |
| Dates.Easter2025 | ExtendAllTheThings/Dates.cs:145-177 | Easter 2025 is April 20 |
| Dates.Easter2000 | ExtendAllTheThings/Dates.cs:160-162 | Easter 2000 is April 23, after the epact 24 is bumped to 25 |
| Dates.EasterOutOfRange | ExtendAllTheThings/Dates.cs:172-177 | for a year outside 1..9999 the date constructor throws ArgumentOutOfRangeException |
| Dates.IsChristmasEve | ExtendAllTheThings/Dates.cs:181-195 | true exactly on December 24 strictly after 13:00:00, compared to the tick |
| Dates.ChristmasEveBoundary | ExtendAllTheThings/Dates.cs:185-194 | 13:00:00 exactly is not Christmas Eve; one tick later is |
| DateExtensions.IsFederalHoliday | ExtendAllTheThings/Extensions/DateExtensions.cs:33-112 | no Saturday and no Sunday is a holiday |
| DateExtensions.FederalHolidayAgrees | ExtendAllTheThings/Extensions/DateExtensions.cs:33-112 | the extension-method holiday test agrees with `Dates.IsFederalHoliday` on every valid date |
| DateExtensions.FederalHolidayRules | ExtendAllTheThings/Extensions/DateExtensions.cs:33-112 | the holiday chain holds exactly when one of the calendar rules holds |
| DateExtensions.ObservedTriplesExactlyOne | ExtendAllTheThings/Extensions/DateExtensions.cs:44-109 | exactly one date of each observed triple is a holiday: December 31/January 1/January 2, July 3-5, November 10-12 and December 24-26 |
| DateExtensions.GetCatholicEaster | ExtendAllTheThings/Extensions/DateExtensions.cs:119-162 | a result is a valid date in the given year; otherwise ArgumentOutOfRangeException |
| DateExtensions.EasterAgrees | ExtendAllTheThings/Extensions/DateExtensions.cs:119-162 | the extension on `int` returns what `Dates.GetCatholicEaster` returns, for every year |
| DateExtensions.EasterSundayWindow | ExtendAllTheThings/Extensions/DateExtensions.cs:148-160 | for years 1 to 8999 Easter is a Sunday from March 22 to April 25 |
| DateExtensions.ChristmasEveAgrees | ExtendAllTheThings/Extensions/DateExtensions.cs:164-171 | agrees with `Dates.IsChristmasEve` for every timestamp |
| DateExtensions.IsChristmasEve | ExtendAllTheThings/Extensions/DateExtensions.cs:164-171 | true exactly on December 24 strictly after 13:00:00, compared to the tick |
| StringExtensions.Coalesce | ExtendAllTheThings/Extensions/StringExtensions.cs:39-44 | the result is the value when it is neither null nor empty; otherwise the first such alternative; null exactly when all of them are null or empty |
| StringExtensions.TrimToMaxLength | ExtendAllTheThings/Extensions/StringExtensions.cs:63-66 | as written (`value[0..]`), the value comes back unshortened |
| StringExtensions.TrimToMaxLengthWithSuffix | ExtendAllTheThings/Extensions/StringExtensions.cs:75-78 | the result is null exactly for null and always starts with the value; a long value gets the suffix appended, a short one is unchanged |
| StringExtensions.PadBoth | ExtendAllTheThings/Extensions/StringExtensions.cs:108-123 | a wider width, up to the maximum string length, gives exactly `width` characters: ceil(diff/2) pad characters, the value, floor(diff/2) pad characters. A width past that maximum throws OutOfMemoryException. A narrower width whose 32-bit `diff` does not wrap gives the value back whole, truncate or not. A `diff` that wraps around throws OutOfMemoryException |
| StringExtensions.PadCentred | ExtendAllTheThings/Extensions/StringExtensions.cs:120-122 | with the true difference, the value centred in exactly `width` characters, or OutOfMemoryException past the maximum string length. With a wrapped difference the left width wraps past that maximum, so `PadLeft` throws OutOfMemoryException |
| StringExtensions.PadBothWrapsAround | ExtendAllTheThings/Extensions/StringExtensions.cs:110-122 | `PadBoth("ab", -2147483647, ' ', false)` throws OutOfMemoryException: the difference wraps to 2147483647 and the left width to 1073741826 |
| StringExtensions.Reverse | ExtendAllTheThings/Extensions/StringExtensions.cs:130-140 | null stays null; the result has the same length and mirrored characters |
| StringExtensions.ReverseInvolution | ExtendAllTheThings/Extensions/StringExtensions.cs:130-140 | reversing twice gives the string back |
| StringExtensions.EnsureStartsWith | ExtendAllTheThings/Extensions/StringExtensions.cs:154-157 | the result starts with the prefix; a value that already does comes back unchanged; otherwise the prefix is put in front |
| StringExtensions.EnsureEndsWith | ExtendAllTheThings/Extensions/StringExtensions.cs:171-174 | the result ends with the suffix; a value that already does comes back unchanged; otherwise the suffix is appended |
| StringExtensions.EnsureIdempotent | ExtendAllTheThings/Extensions/StringExtensions.cs:154-174 | ensuring a prefix or suffix twice is ensuring it once |
| StringExtensions.Repeat | ExtendAllTheThings/Extensions/StringExtensions.cs:182-196 | a one-character value: ArgumentOutOfRangeException for a negative count, OutOfMemoryException past the maximum string length, else the character repeated. Otherwise: a negative 32-bit capacity throws ArgumentOutOfRangeException; one past the largest array throws OutOfMemoryException; more than `int.MaxValue` characters appended throws ArgumentOutOfRangeException; a result past the maximum string length throws OutOfMemoryException; else `repeatCount` copies of the value |
| StringExtensions.RepeatedLength | ExtendAllTheThings/Extensions/StringExtensions.cs:190-193 | `n` copies of `v` have `n * |v|` characters |
| StringExtensions.RepeatedSingleChar | ExtendAllTheThings/Extensions/StringExtensions.cs:184-187 | `new string(c, n)` is the one-character value repeated `n` times, so the shortcut agrees with the loop |
| StringExtensions.ExtractDigits | ExtendAllTheThings/Extensions/StringExtensions.cs:222-225 | null throws ArgumentNullException; otherwise the result is `Digits` of the value: its digits, in order and each as often as it occurs |
| StringExtensions.DigitsIdempotent | ExtendAllTheThings/Extensions/StringExtensions.cs:222-225 | extracting digits twice is extracting them once |
| StringExtensions.GetBefore | ExtendAllTheThings/Extensions/StringExtensions.cs:288-292 | as written (`value[0..]`), the whole value when `x` occurs, otherwise "" |
| StringExtensions.GetBetween | ExtendAllTheThings/Extensions/StringExtensions.cs:302-314 | "" when `x` is missing, when `y` is missing, or when the last `y` starts before the end of the first `x`; any result is trimmed |
| StringExtensions.GetBetweenText | ExtendAllTheThings/Extensions/StringExtensions.cs:307-313 | in every other case, the trimmed text from the end of the first `x` to the start of the last `y` |
| StringExtensions.GetAfter | ExtendAllTheThings/Extensions/StringExtensions.cs:323-334 | "" when `x` does not occur; otherwise the trimmed text after its last occurrence |
| StringExtensions.Left | ExtendAllTheThings/Extensions/StringExtensions.cs:442-455 | null throws ArgumentNullException and a count that is not below the length throws ArgumentOutOfRangeException. As written (`value[0..]`), success returns the whole value |
| StringExtensions.Right | ExtendAllTheThings/Extensions/StringExtensions.cs:463-476 | null throws ArgumentNullException; a count outside `0..length-1` throws ArgumentOutOfRangeException; otherwise exactly `characterCount` characters that end the value |
| StringExtensions.SubstringFrom | ExtendAllTheThings/Extensions/StringExtensions.cs:482-485 | a negative index returns the value; an index past the end throws ArgumentOutOfRangeException; otherwise the tail of `length - index` characters |
| StringExtensions.SingleWordPlural | ExtendAllTheThings/Extensions/StringExtensions.cs:519-552 | the single-word rules, tried in order ("es" after sh/ch/us/ss, "ies" for y, "oes" for o, else "s"): the plural is longer, keeps all but the last letter, and ends in "s" |
| StringExtensions.ToPlural | ExtendAllTheThings/Extensions/StringExtensions.cs:511-553 | the plural is longer than the singular, keeps all of it but the last character, and ends in "s" |
| StringExtensions.ToPluralPhrase | ExtendAllTheThings/Extensions/StringExtensions.cs:511-553 | as written, "A of B" becomes the whole phrase followed by the plural of " of B" |
| StringExtensions.ToPluralRepeatsPhrase | ExtendAllTheThings/Extensions/StringExtensions.cs:517 | "x of b" becomes "x of b of bs" |
| StringExtensions.ReplaceAllBy | ExtendAllTheThings/Extensions/StringExtensions.cs:630-640 | each old value, in list order, is replaced by its predicate image in the text rewritten so far. It throws ArgumentException exactly when an old value is empty |
| StringExtensions.ReplaceAllWith | ExtendAllTheThings/Extensions/StringExtensions.cs:657-666 | each old value, in list order, is replaced by the single new value; ArgumentException exactly when an old value is empty |
| StringExtensions.ReplaceAllPaired | ExtendAllTheThings/Extensions/StringExtensions.cs:684-703 | the i-th old value is replaced by the i-th new value, in order. An empty old value among the paired positions throws ArgumentException; otherwise lists of different lengths throw ArgumentOutOfRangeException |
| StringExtensions.EscapeBySequentialReplace | ExtendAllTheThings/Extensions/StringExtensions.cs:1014-1018 | replacing `\ ^ $ * + ? . ( )` one after another, backslash first, puts exactly one backslash before each operator of the template |
| StringExtensions.PlaceholdersAfterEscape | ExtendAllTheThings/Extensions/StringExtensions.cs:1031-1037 | substituting the placeholders of the escaped text gives the template's token-by-token meaning: escaping neither creates nor hides a `{n}` |
| StringExtensions.PlaceholderGroup | ExtendAllTheThings/Extensions/StringExtensions.cs:1031-1037 | a `{n}` becomes `(?<n+1>.*?)` |
| StringExtensions.GroupFor | ExtendAllTheThings/Extensions/StringExtensions.cs:1033-1036 | the group throws OverflowException exactly when `int.Parse` of the digits overflows |
| StringExtensions.NoPlaceholderCompilesEscaped | ExtendAllTheThings/Extensions/StringExtensions.cs:1018-1037 | a template without placeholders compiles to its escaped text |
| StringExtensions.GetRegexPattern | ExtendAllTheThings/Extensions/StringExtensions.cs:1016-1045 | the pattern is the start anchor, the compiled template, then the end anchor. `^` comes for FromStart and Whole. `$` comes for AtTheEnd and Whole, and for Default when the template ends in `}`. An overflowing placeholder throws |
| StringExtensions.Truncate | ExtendAllTheThings/Extensions/StringExtensions.cs:1194-1208 | InvalidOperationException exactly when `length` does not exceed the number of dots, unless `length - e` wraps around, which never throws. Null, empty and short values come back as they are. As written (`[0..]`), a long value keeps all of itself and gains the dots |
| StringExtensions.TruncateWrapsAround | ExtendAllTheThings/Extensions/StringExtensions.cs:1196-1200 | at `int.MinValue` with ellipses the 32-bit `length - 3` wraps to a positive number: "abcd" gives "abcd..." |
| StringExtensions.TruncateKeepsLongValue | ExtendAllTheThings/Extensions/StringExtensions.cs:1207 | as written, `Truncate("abcdefgh", 5, true)` gives "abcdefgh..."; the corrected slice gives "ab..." |
| StringExtensions.TruncateToLength | ExtendAllTheThings/Extensions/StringExtensions.cs:1194-1208 | the evident intent: a truncated value is at most `length` characters long |
| StringExtensions.GenerateSlug | ExtendAllTheThings/Extensions/StringExtensions.cs:1244-1248 | throws ArgumentOutOfRangeException exactly for a negative bound |
| StringExtensions.SlugShape | ExtendAllTheThings/Extensions/StringExtensions.cs:1244-1248 | a slug holds only `[a-z0-9-]`, no doubled hyphens, and at most `maxLength` characters |
| StringExtensions.SlugFixpoint | ExtendAllTheThings/Extensions/StringExtensions.cs:1244-1248 | a slug within the bound is its own slug |
| StringExtensions.SlugIdempotent | ExtendAllTheThings/Extensions/StringExtensions.cs:1244-1248 | slugging a slug again with the same bound changes nothing |
| Strings.Prefix | ExtendAllTheThings/Strings.cs:57-60 | `Substring(0, n)` is the first `n` characters and throws ArgumentOutOfRangeException outside `0..length` |
| Strings.TrimToMaxLength | ExtendAllTheThings/Strings.cs:42-45 | null or short values come back unchanged; a longer value becomes its first `maxLength` characters; a negative bound on a long value throws |
| Strings.TrimToMaxLengthWithSuffix | ExtendAllTheThings/Strings.cs:57-60 | as above, with the suffix after the first `maxLength` characters |
| Strings.TrimToMaxLengthNullSuffix | ExtendAllTheThings/Strings.cs:42-60 | the suffix overload with a null suffix equals the plain overload |
| Strings.PadBoth | ExtendAllTheThings/Strings.cs:104-119 | a wider width, up to the maximum string length, pads ceil(diff/2) before and floor(diff/2) after, giving `width` characters. A narrower width with truncate gives the first `width` characters, and a negative width throws ArgumentOutOfRangeException. Otherwise the value is unchanged. A width past the maximum string length, or a 32-bit `diff` that wraps around, throws OutOfMemoryException |
| Strings.GetBefore | ExtendAllTheThings/Strings.cs:328-332 | the untrimmed text before the first `x`, or "" when `x` is absent |
| Strings.Left | ExtendAllTheThings/Strings.cs:477-484 | null throws ArgumentNullException and a count outside `0..length-1` throws ArgumentOutOfRangeException; otherwise the first `characterCount` characters |
| Strings.LeftRightSplit | ExtendAllTheThings/Strings.cs:477-499 | `Left(k)` followed by `Right(length - k)` gives the value back |
| Strings.ToPlural | ExtendAllTheThings/Strings.cs:536-554 | the plural is longer than the singular, keeps all of it but the last character, and ends in "s" |
| Strings.ToPluralPhrase | ExtendAllTheThings/Strings.cs:536-554 | "A of B" becomes A followed by the single-word plural of " of B", so B is the word made plural |
| Strings.ToPluralCupOfTea | ExtendAllTheThings/Strings.cs:538-540 | "cup of tea" gives "cup of teas", while the comment's rule gives "cups of tea" |
| Strings.ToPluralFirstPart | ExtendAllTheThings/Strings.cs:538 | the rule the comment states: in "A of B" only A is made plural and " of B" is kept |
| Strings.ToPluralRepeatsTail | ExtendAllTheThings/Strings.cs:540 | the `StringExtensions` version keeps all of "A of B" and adds the plural of " of B"; the `Strings` version keeps only A |
| Strings.GetNumbers | ExtendAllTheThings/Strings.cs:720-724 | `Digits` of the text, in order and in number; null gives "". Agrees with `StringExtensions.ExtractDigits` on non-null text |
| Strings.GetNumbersKeepsOrder | ExtendAllTheThings/Strings.cs:720-724 | "5a51" gives "551": order and repeats are kept |
| Strings.Truncate | ExtendAllTheThings/Strings.cs:882-892 | null, empty or short text, or a non-positive bound, comes back unchanged; otherwise the first `maxCharacters` characters followed by the trailing text |
| Strings.TruncateTo | ExtendAllTheThings/Strings.cs:870-873 | with a positive bound the result is at most `maxCharacters` long, or is the text itself |
| Strings.WholeValueSlices | ExtendAllTheThings/Extensions/StringExtensions.cs:63-66 | on the same inputs, the `[0..]` slices of `TrimToMaxLength`, `PadBoth`, `GetBefore` and `Left` return the whole value where the `Substring` versions cut it |
| FileSize.Megabytes | ExtendAllTheThings/Validators/FileSizeAttribute.cs:41 | `mb * 1024 * 1024` in 32-bit arithmetic: exact for -2048..2047, wrapped to a negative number for 2048..4095 |
| FileSize.FileSizeAttribute.constructor | ExtendAllTheThings/Validators/FileSizeAttribute.cs:39-42 | MaximumSize is the wrapped byte count of the megabyte argument; the minimum starts at 0 |
| FileSize.FileSizeAttribute.MinimumSize | ExtendAllTheThings/Validators/FileSizeAttribute.cs:29-31 | the getter returns the stored megabytes times 1,048,576, in 32-bit arithmetic |
| FileSize.FileSizeAttribute.SetMinimumSize | ExtendAllTheThings/Validators/FileSizeAttribute.cs:32 | the setter stores the raw value; the getter then returns its byte count |
| FileSize.SetThenGetScales | ExtendAllTheThings/Validators/FileSizeAttribute.cs:29-33 | setting then getting MinimumSize is not the identity: a positive value comes back multiplied by 1,048,576 |
| FileSize.FileSizeAttribute.EnsureLegalSizes | ExtendAllTheThings/Validators/FileSizeAttribute.cs:85-96 | InvalidOperationException exactly when MaximumSize is negative or below MinimumSize |
| FileSize.FileSizeAttribute.IsValid | ExtendAllTheThings/Validators/FileSizeAttribute.cs:54-64 | illegal sizes throw first. Null is valid. A file is valid exactly when MinimumSize <= Length <= MaximumSize. Any other value throws InvalidCastException |
| FileSize.ConfiguredRangeDecides | ExtendAllTheThings/Validators/FileSizeAttribute.cs:61-63 | for megabyte bounds below 2048, a file is valid exactly when its length is within the configured byte range, both ends inclusive |
| FileSize.WrappedMaximumThrows | ExtendAllTheThings/Validators/FileSizeAttribute.cs:41 | a maximum of 2048 to 4095 MB wraps negative, so every IsValid and FormatErrorMessage throws |
| FileSize.FileSizeAttribute.FormatErrorMessage | ExtendAllTheThings/Validators/FileSizeAttribute.cs:72-80 | throws exactly when the sizes are illegal. Otherwise it uses the maximum-only message when MinimumSize is 0, and the message with both limits otherwise, each limit divided back to MB |
| FileSize.MessageReportsConfiguredSizes | ExtendAllTheThings/Validators/FileSizeAttribute.cs:76-79 | the message reports the configured megabyte limits |
| PasswordStrength.IsValid | ExtendAllTheThings/Validators/PasswordStrengthAttribute.cs:15-43 | Success exactly when `MinimumLength <= length <= MaximumLength` and the password has a digit and a letter; a failure carries one of the four reasons |
| PasswordStrength.FirstFailingCheckDecides | ExtendAllTheThings/Validators/PasswordStrengthAttribute.cs:21-36 | the result is the first failing check of too short, too long, no digit, no letter, in that order |
| PasswordStrength.FirstFailureOfFour | ExtendAllTheThings/Validators/PasswordStrengthAttribute.cs:21-40 | four checks in order: success when all pass, otherwise the reason of the first that fails |
| PasswordStrength.NullIsTooShort | ExtendAllTheThings/Validators/PasswordStrengthAttribute.cs:19-23 | null is treated as "" and fails with the "at least MinimumLength characters" reason |
| PasswordStrength.CrossedBoundsRejectEverything | ExtendAllTheThings/Validators/PasswordStrengthAttribute.cs:21-28 | with MinimumLength > MaximumLength no password is accepted |
| PasswordStrength.DefaultBounds | ExtendAllTheThings/Validators/PasswordStrengthAttribute.cs:12-13 | with the defaults 8 and 50, "abcdefg1" passes and "abcdef1" is too short |
| FileType.New | ExtendAllTheThings/Validators/FileTypeAttribute.cs:17-21 | ValidTypes are the comma pieces of the argument, each trimmed, in order; the message joins them with " or " |
| FileType.IsValid | ExtendAllTheThings/Validators/FileTypeAttribute.cs:23-30 | only a file can fail. A file passes exactly when its name ends with one of the types, ignoring case, and a failure carries the message |
| FileType.EmptyTypeAcceptsAll | ExtendAllTheThings/Validators/FileTypeAttribute.cs:25 | an empty type accepts every value |
| FileType.TrailingCommaAcceptsAll | ExtendAllTheThings/Validators/FileTypeAttribute.cs:19 | a trailing comma gives an empty type, so every file passes |
| FileType.NoCommaInTypes | ExtendAllTheThings/Validators/FileTypeAttribute.cs:19 | no valid type contains a comma |
| FileType.TypesWithoutSpacesKept | ExtendAllTheThings/Validators/FileTypeAttribute.cs:19 | without white space, the types are the comma pieces unchanged, and joining them with commas gives the argument back |
| FileType.TwoTypes | ExtendAllTheThings/Validators/FileTypeAttribute.cs:19 | "x,y" gives the types `[x, y]` |
| FileType.CaseIsIgnored | ExtendAllTheThings/Validators/FileTypeAttribute.cs:25 | with types "jpg,png", "photo.JPG" passes |
| ImageValidator.FileIsWebFriendlyImage | ExtendAllTheThings/Validators/ImageValidatorAttribute.cs:36-46 | true exactly when the content type is one of the four listed types |
| ImageValidator.FileIsWebFriendlyImageWithin | ExtendAllTheThings/Validators/ImageValidatorAttribute.cs:48-52 | true exactly when the length is at most the size and the content type is listed |
| ImageValidator.Decide | ExtendAllTheThings/Validators/ImageValidatorAttribute.cs:16-34 | null is valid exactly when not required. A file is valid exactly when Length <= 8 MiB and its type is listed. Anything else throws InvalidCastException |
| ImageValidator.ImageValidatorAttribute.IsValid | ExtendAllTheThings/Validators/ImageValidatorAttribute.cs:16-34 | returns the decision; ErrorMessage becomes "You must upload an image." only on the required-null path and is otherwise unchanged |
| ImageValidator.ContentTypeIsCaseSensitive | ExtendAllTheThings/Validators/ImageValidatorAttribute.cs:40 | "image/png" is accepted and "IMAGE/PNG" is not |
| ImageValidator.SizeLimitIsInclusive | ExtendAllTheThings/Validators/ImageValidatorAttribute.cs:30-32 | 8,388,608 bytes pass and 8,388,609 bytes fail |
| CustomValidators.FileIsWebFriendlyImage | ExtendAllTheThings/CustomValidators.cs:32-42 | the four listed content types accept exactly what the `Validators` attribute's list accepts |
| CustomValidators.FileIsWebFriendlyImageWithin | ExtendAllTheThings/CustomValidators.cs:44-48 | agrees with the `ImageValidatorAttribute` overload |
| CustomValidators.ImageValidatorAttribute.IsValid | ExtendAllTheThings/CustomValidators.cs:16-30 | null is valid exactly when not required, which sets ErrorMessage when required. A file is valid exactly when it is at most 8 MiB with a listed type. It agrees with the other copy on every input |
| CheckboxRequired.IsValid | ExtendAllTheThings/Validators/CheckboxRequiredAttribute.cs:12-20 | true exactly for the boolean `true`; null and non-bool values give false |
| CheckboxRequired.Merged | ExtendAllTheThings/Validators/CheckboxRequiredAttribute.cs:29-37 | insert-if-absent: the keys gain the key, existing entries keep their values, and an absent key maps to the value |
| CheckboxRequired.MergeAttribute | ExtendAllTheThings/Validators/CheckboxRequiredAttribute.cs:29-37 | returns true exactly when the key was absent; the dictionary becomes the insert-if-absent merge |
| CheckboxRequired.AddValidation | ExtendAllTheThings/Validators/CheckboxRequiredAttribute.cs:22-27 | merges "data-val" then "data-val-checkboxrequired"; existing entries are never overwritten |
| CheckboxRequired.FirstValueStays | ExtendAllTheThings/Validators/CheckboxRequiredAttribute.cs:31-34 | merging an existing key a second time changes nothing |
| CheckboxRequired.FreshAttributes | ExtendAllTheThings/Validators/CheckboxRequiredAttribute.cs:24-26 | on empty attributes, AddValidation produces exactly the two entries |
| RequestExtensions.Host | ExtendAllTheThings/RequestExtensions.cs:19-22 | the host lower-cased: same length, no upper-case letter |
| RequestExtensions.IsIPAddress | ExtendAllTheThings/RequestExtensions.cs:43-46 | a host already in lower case is tested by the address test as it is written |
| RequestExtensions.IsLocalHost | ExtendAllTheThings/RequestExtensions.cs:49-52 | true exactly when the lower-cased host is "localhost", which is when the host equals "localhost" ignoring case |
| RequestExtensions.SubDomainList | ExtendAllTheThings/RequestExtensions.cs:55-86 | empty for an IP address. Otherwise the first `k - 2` of the `k` labels, in order, when `k > 2`, and empty when `k <= 2` |
| RequestExtensions.SubDomains | ExtendAllTheThings/RequestExtensions.cs:76-82 | the indexed loop collects exactly that list |
| RequestExtensions.SubDomain | ExtendAllTheThings/RequestExtensions.cs:89-101 | the last sub-domain (the label at `k - 3`), or "" when there is none; it has no dot |
| RequestExtensions.Domain | ExtendAllTheThings/RequestExtensions.cs:104-135 | "" for an IP address and "localhost" for the local host. Otherwise the last two labels of the original-case host joined by ".", or "" for one label |
| RequestExtensions.HostRecomposes | ExtendAllTheThings/RequestExtensions.cs:55-135 | for a lower-case host of more than two labels, the sub-domains, a dot and the domain give the host back |
| RequestExtensions.TwoLabelHostIsDomain | ExtendAllTheThings/RequestExtensions.cs:128-131 | a two-label host has no sub-domain and is its own domain |

## Left out

- Null receivers. A null `this` string in an extension method, or a null `value` where the source would throw NullReferenceException, is not a modelled input; the parameter is a non-null `string`. Null is modelled where the source tests for it.
- UTF-16. A string is a sequence of Unicode scalar values, not of UTF-16 code units. For text outside the Basic Multilingual Plane, C# lengths and indices count a surrogate pair as two characters. The model counts one, and it cannot represent the lone surrogate that C# slicing can produce.
- Maximum string length. .NET cannot allocate a string longer than 0x3FFFFFDF characters and throws OutOfMemoryException. Padding, `new string(c, n)`, `PadBoth` and `Repeat` model this limit, and input strings are at most that long. Other operations whose result can grow past it (concatenation with `+`, `Replace`, the suffix of `TrimToMaxLength`, the dots of `Truncate`, `EnsureStartsWith`, `EnsureEndsWith`, `ToPlural`, `ReplaceAll`, `GetRegexPattern`) return the long string where .NET would throw. Running out of memory below the limit is not modelled.
- Culture. Comparisons are ordinal. `ToLower`/`ToUpper`, `char.IsDigit` and `char.IsLetter` are ASCII only. `char.IsWhiteSpace` is the exact .NET set.
- Regular-expression matching. `GetRegexPattern` is modelled as the string it builds, not as a matcher. The placeholder `Regex.Replace` is modelled as a left-to-right scan for `{digits}`. `GenerateSlug`'s character filter and run collapsing are written as the string functions those patterns denote. `IsValidIPAddress` is a parameter of the host functions (`isValidIPAddress`), because its pattern needs .NET regex semantics.
- PasswordStrength.IsValid: the value is given as the string `value.ToString()` would produce. The conversion of arbitrary objects is not modelled.
- ErrorMessage overrides and `ValidationAttribute.FormatErrorMessage` are framework code. `FileSizeAttribute`'s default message is taken to be its maximum-only template.
- `AddValidation` of `PasswordStrengthAttribute` and `FileTypeAttribute`: only the `CheckBoxRequiredAttribute` merges are modelled.
- FileType.New: a null `validTypes` argument, which throws NullReferenceException, is not a modelled input.
- Calendar.AddDays: only steps of up to 28 days are modelled, which is all the Memorial Day rule uses.
- Dates.EasterIsSunday, Dates.EasterWindow and DateExtensions.EasterSundayWindow: proved for years 1 to 8999. From 9000 on, the epact dividend `11G + 20 + Y - X` can be negative, and there C#'s truncating division differs from Dafny's.
- `Dates.Now` reads the clock and the time zone. The formatting helpers are not modelled either.
- Helpers that depend on library or culture code: `ToTitleCase`, `FormatWith`, `ToGuid`, `IsNumeric`, `GetBytes`, `Raw`, the enum parsers and the date-string formatters.
- The XML loaders in `Strings.cs`.
- `EncodeEmailAddress` and `PhoneNumberFormatter`: their `[0..]` slices make the output an artefact with no stateable intent.
- `ToHtmlSafe`: its replace branch calls `StringBuilder.Replace("", …)`, which .NET rejects.
- The regex helpers: `IsMatchingTo`, `ReplaceWith`, `GetMatches`, `GetMatchingValues`, `Split`, `GetWords`, `GetWordByIndex`, `AdjustInput`, `SpaceOnUpper`, the matching half of `ExtractArguments`, `TruncateHtml`, `StripHtml` and `TruncateWords`.
- The other validators and extension classes depend on reflection, the clock, floating point, serializers or the web framework.
- The `MyArray == null` guards in `RequestExtensions.cs` (lines 68-71 and 122-125) cannot fire, because `Split` never returns null, so they have no model.
- `IsEmpty()` in `Strings.cs` is not part of this model; it is read as null-or-empty.

## Findings

| source | as written | input that shows it | evidently intended | confidence | as-written member | corrected member |
|---|---|---|---|---|---|---|
| ExtendAllTheThings/Extensions/StringExtensions.cs:1207 | `@this[0..] + new string('.', e)` keeps the whole value | `Truncate("abcdefgh", 5, true)` gives "abcdefgh..." | `@this[0..(length - e)]`, giving "ab..." | not executed | StringExtensions.TruncateKeepsLongValue | StringExtensions.TruncateToLength |
| ExtendAllTheThings/Extensions/StringExtensions.cs:65 | `TrimToMaxLength` returns `value[0..]`, the whole value | `TrimToMaxLength("abcdef", 3)` gives "abcdef" | `value[0..maxLength]`, giving "abc" | not executed | Strings.WholeValueSlices | Strings.TrimToMaxLength |
| ExtendAllTheThings/Extensions/StringExtensions.cs:117 | `PadBoth`'s truncate branch returns `value[0..]` | `PadBoth("abcdef", 3, ' ', true)` gives "abcdef" | the first `width` characters, "abc" | not executed | Strings.WholeValueSlices | Strings.PadBoth |
| ExtendAllTheThings/Extensions/StringExtensions.cs:291 | `GetBefore` returns `value[0..]` | `GetBefore("key=value", "=")` gives "key=value" | the text before `x`, "key" | not executed | Strings.WholeValueSlices | Strings.GetBefore |
| ExtendAllTheThings/Extensions/StringExtensions.cs:454 | `Left` returns `value[0..]` | `Left("abcdef", 3)` gives "abcdef" | the first three characters, "abc" | not executed | Strings.WholeValueSlices | Strings.Left |
| ExtendAllTheThings/Extensions/StringExtensions.cs:517 | `singular[0..]` keeps the whole phrase before the plural of its tail | `ToPlural("x of b")` gives "x of b of bs" | only "x" made plural, as the comment at line 512 says, giving "xs of b"; `singular[0..index]` alone would give "x of bs", the defect of Strings.cs:540 | not executed | StringExtensions.ToPluralRepeatsPhrase | Strings.ToPluralFirstPart |
| ExtendAllTheThings/Strings.cs:540 | the " of B" tail is passed to `ToPlural`, so B is made plural, against the comment at line 538 | `ToPlural("cup of tea")` gives "cup of teas" | the first part made plural, "cups of tea" | not executed | Strings.ToPluralCupOfTea | Strings.ToPluralFirstPart |
