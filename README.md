# UsefulExtensions in Dafny

A model of the logic at the core of RoyRao2333/UsefulExtensions, a collection of
Swift, Kotlin, TypeScript and React helpers, with proofs about that model. Each
source file has its own module:

- `StringExtension` covers the Swift `String` and `StringProtocol` extensions. These are
  finding the n-th occurrence of a character, splitting into chunks, blank tests,
  counting Chinese characters, prefix and suffix, chained replacement, the ASCII value at
  an index, and the integer subscripts. `Text` holds the string operations they share
  with other modules: counting, filtering, `components(separatedBy:)`, `joined()` and
  `replacingOccurrences(of:with:)`.
- `ColorExtension` covers hex colour decoding: `Color(hex:)`, `NSColor(hex:)`,
  `NSColor(hex:alpha:)`, `NSColor(red:green:blue:)`, `NSColor(red:green:blue:alpha:)`
  and `UIColor(hex:)`. `UInt64` values are naturals below 2^64. `>>` and `&` are
  written out as arithmetic on naturals, with lemmas that connect masks and shifts to
  division and remainder. `Scanner.scanHexInt64` and `UInt(_:radix:)` are modelled as
  explicit scanners.
- `SequenceExtension` covers `Array[safe:]`, `filterDuplicates` and the two
  `Sequence.group(by:)` overloads. Each is proved against a reference definition: the
  first occurrence of each key, or the members of each key's group. The array
  extension in common/ArrayExtension.swift repeats the subscript and `filterDuplicates`
  of Swift/SequenceExtension.swift for `Array`, whose indices are `0..<count`. On a
  Dafny sequence the two copies are one operation, so the same members model both.
- `PatternFormatter` covers `StringPatternFormatter`. It is a class holding its
  `patterns`. `process` applies them in order. `processReplace` and
  `processAttributedKey` rewrite the text from the last match backwards. The methods are
  proved equal to a left-to-right rebuild of the text. The regular-expression engine is a
  parameter and is assumed well formed: its matches are in range, in order and do not
  overlap.
- `PublisherExtension` covers `withPrevious()` and `withPrevious(_:)` over the finite
  sequence of values an upstream publisher emits.
- `NumberOnlyTextField` covers the `onChange` closure of the view modifier. It is a
  class whose `text` field is the binding.
- `JsObjects` models the JavaScript values the TypeScript files work on: truthiness,
  `||`, property access, `?.`, spread into an object literal, and property keys.
- `NetQueryUtils` covers `makeQueryClient` and `makeQueryKey` (net-query/utils.ts).
- `UseQuery` covers the react-query hook (net-query/useQuery.ts). This includes the
  query key, the precedence of the option objects passed to `useQuery`, `fetchData`,
  `queryFn` and the projection into the returned value.
- `EnumTransform` covers `enumTransformMap` (enum.ts). It is a loop writing into a map,
  proved against the reduction it performs.
- `ResponsiveItemWidth` covers `useResponsiveItemWidth`. It is a class whose
  `itemWidth` field is the React state. Widths are exact reals. A division by zero gives
  an infinity or NaN by the sign of the dividend, with the sign flipped where the row
  count is the -0 a negative divisor makes of a zero dividend.
- `KeyPress` covers `useKeyPress`. It is a class whose `keyPressed` field is the React
  state updated by the key handlers.
- `KotlinStringExtension` covers `String.isNumeric()`. Its regular expression is decided
  by a scan, and the scan is proved equivalent to the pattern.
- `KotlinUtils` covers `notNull`.

`Wrappers` holds `Option` and `Result`.

## Model

| member | source | states |
|---|---|---|
| Text.CountOf | Swift/StringExtension.swift:14-17 | the occurrence counter never exceeds the length of the text |
| Text.CountWhere | Swift/NumberOnlyTextField.swift:16-17 | the number of characters with a property never exceeds the length |
| Text.CountOfPrefix | Swift/StringExtension.swift:15-19 | a prefix holds no more occurrences than the whole string, so a count stopped early is bounded by the full count |
| Text.Without | Swift/NumberOnlyTextField.swift:27 | `filter` keeps no character with the excluded property and is never longer than its input |
| Text.Components | Swift/StringExtension.swift:83 | `components(separatedBy:)` always yields at least one piece |
| Text.NonEmpty | Swift/StringExtension.swift:83 | after `filter { !$0.isEmpty }` no piece is empty |
| Text.ComponentsCount | Swift/NumberOnlyTextField.swift:16-17 | there is exactly one more component than there are separators |
| Text.JoinedNonEmptyComponents | Swift/StringExtension.swift:83 | splitting at separators, dropping empty pieces and joining is the same as deleting the separator characters |
| Text.ReplacingAbsent | Swift/StringExtension.swift:147 | `replacingOccurrences` returns the string unchanged when the target does not occur in it |
| Text.ReplacingWithItself | Swift/StringExtension.swift:147 | replacing a target by itself changes nothing |
| StringExtension.IndexOfRepeatingCharacter | Swift/StringExtension.swift:13-26 | a returned index holds the character and is its `count`-th occurrence; nil exactly when `count <= 0` or there are fewer than `count` occurrences |
| StringExtension.ChunkEnd | Swift/StringExtension.swift:33 | a chunk ends `length` characters on, or at the end of the string, and always after its start |
| StringExtension.Split | Swift/StringExtension.swift:28-39 | the chunks concatenate to the string; all but the last have exactly `length` characters; the last has 1 to `length`; there are no chunks exactly when the string is empty, and the empty string is split for any length |
| StringExtension.Stripped | Swift/StringExtension.swift:83 | the whitespace-stripped string is the input with every whitespace character removed |
| StringExtension.IsWhitespace | Swift/StringExtension.swift:83 | `isWhitespace` as the Unicode whitespace code points; `Stripped` and `BlankIffNothingLeft` state that exactly these characters are removed |
| StringExtension.IsBlank | Swift/StringExtension.swift:123-125 | a string is blank exactly when nothing is left after stripping whitespace; the empty string is blank |
| StringExtension.BlankIffNothingLeft | Swift/StringExtension.swift:123-125 | all characters are whitespace exactly when removing the whitespace leaves nothing |
| StringExtension.ChineseCharactersCount | Swift/StringExtension.swift:82-121 | the loop counts the non-whitespace scalars in the listed CJK ranges, and the count is at most the stripped length |
| StringExtension.ChineseCount | Swift/StringExtension.swift:82-121 | the count of non-whitespace scalars in the CJK ranges; `ChineseCharactersCount` proves the loop computes it and `ChineseCountIsFull` bounds it by the length |
| StringExtension.ChineseCountIsFull | Swift/StringExtension.swift:87-118 | the count is at most the length, and equals it exactly when every scalar lies in a listed range |
| StringExtension.Prefix | Swift/StringExtension.swift:135-137 | `prefix(by:)` is a prefix of length `min(length, count)` |
| StringExtension.Suffix | Swift/StringExtension.swift:139-141 | `suffix(by:)` is the tail of length `min(length, count)` |
| StringExtension.PrefixSuffixSplit | Swift/StringExtension.swift:135-141 | a prefix and the complementary suffix make up the whole string |
| StringExtension.Replace | Swift/StringExtension.swift:143-151 | the loop replaces each pattern in argument order, each applied to the previous result; no patterns leave the string unchanged |
| StringExtension.ReplaceEach | Swift/StringExtension.swift:143-151 | each pattern applied in turn to the previous result; `Replace` proves the loop computes it, `ReplaceEachAppend` and `ReplaceEachAbsent` state how it composes and when it changes nothing |
| StringExtension.ReplaceEachAppend | Swift/StringExtension.swift:143-151 | replacing one list of patterns and then another is the same as replacing their concatenation |
| StringExtension.ReplaceEachAbsent | Swift/StringExtension.swift:143-151 | patterns that occur nowhere along the way leave the string unchanged |
| StringExtension.AsciiAt | Swift/StringExtension.swift:182-191 | the result is the scalar value exactly when the scalar is ASCII (below 128), and nil otherwise |
| StringExtension.CharacterAt | Swift/StringExtension.swift:313-316 | the result is nil exactly for offsets outside `0..<count`, and otherwise the character at the offset |
| StringExtension.SliceHalfOpen | Swift/StringExtension.swift:318-320 | `self[a..<b]` is the `b - a` characters ending at `b`, cut back at both ends of the string, and it is `s[a..b]` when the range is in bounds |
| StringExtension.SliceClosed | Swift/StringExtension.swift:322-324 | `self[a...b]` is the `b - a + 1` characters ending at `b`, cut back at both ends of the string, and it is `s[a..b+1]` when the range is in bounds |
| StringExtension.PrefixThrough | Swift/StringExtension.swift:326-328 | `self[...b]` is the prefix through `b`, cut to the string |
| StringExtension.PrefixUpTo | Swift/StringExtension.swift:330-332 | `self[..<b]` is the prefix before `b`, cut to the string |
| StringExtension.SuffixFrom | Swift/StringExtension.swift:334-336 | `self[a...]` is the suffix from `a`, where a negative `a` gives the whole string and `a >= count` gives the empty string; its length is stated |
| StringExtension.UpToAndFromSplit | Swift/StringExtension.swift:330-336 | `self[..<k] + self[k...]` is the whole string |
| StringExtension.ClosedIsHalfOpen | Swift/StringExtension.swift:318-324 | the closed range `a...b` selects the same characters as the half-open range `a..<b+1` |
| ColorExtension.BitAndLowMask | Swift/ColorExtension.swift:19-23 | masking with `0xF` or `0xFF` (the k low bits) is the remainder modulo 2^k |
| ColorExtension.ShrIsDivision | Swift/ColorExtension.swift:19-23 | `v >> k` is `v` divided by 2^k |
| ColorExtension.BitAndShiftedMask | Swift/ColorExtension.swift:55-56 | masking with a shifted mask is shifting the value down, masking, and shifting back |
| ColorExtension.HexDigitValue | Swift/ColorExtension.swift:15 | a hex digit has a value below 16 |
| ColorExtension.HexValue | Swift/ColorExtension.swift:15 | n hex digits have a value below 16^n |
| ColorExtension.HexField | Swift/ColorExtension.swift:19-23 | shifting by 4 bits per trailing digit and masking 4 bits per digit reads off the value of the digits from position i to j |
| ColorExtension.Rgb12 | Swift/ColorExtension.swift:19 | the 12-bit shifts and masks; `Rgb12Bytes` bounds the channels and `Rgb12Digits` reads them off three hex digits |
| ColorExtension.Rgb24 | Swift/ColorExtension.swift:21 | the 24-bit shifts and masks; `Rgb24Bytes` bounds the channels and `Rgb24Digits` reads them off six hex digits |
| ColorExtension.Argb32 | Swift/ColorExtension.swift:23 | the 32-bit shifts and masks; `Argb32Bytes` bounds the channels and `Argb32Digits` reads them off eight hex digits |
| ColorExtension.HexRun | Swift/ColorExtension.swift:15 | the scanner reads the longest leading run of hex digits |
| ColorExtension.SkipWhitespace | Swift/ColorExtension.swift:15 | the scanner skips exactly the leading whitespace |
| ColorExtension.ScanHexInt64 | Swift/ColorExtension.swift:15 | the scanned value always fits in a `UInt64` |
| ColorExtension.ScanBelow | Swift/ColorExtension.swift:15 | scanning at most 16 characters gives a value below 16^count |
| ColorExtension.ScanAllHex | Swift/ColorExtension.swift:15 | a string of at most 16 hex digits scans to its hexadecimal value |
| ColorExtension.LeadingCount | Swift/ColorExtension.swift:13 | the leading non-alphanumerics are counted up to the first alphanumeric |
| ColorExtension.TrailingCount | Swift/ColorExtension.swift:13 | the trailing non-alphanumerics are counted back to the last alphanumeric |
| ColorExtension.TrimNonAlphanumerics | Swift/ColorExtension.swift:13 | the trimmed string is the contiguous middle of the input; it starts and ends with an alphanumeric, and only non-alphanumerics follow it |
| ColorExtension.ColorChannels | Swift/ColorExtension.swift:17-26 | a trimmed length other than 3, 6 or 8 gives the default (a, r, g, b) = (1, 1, 1, 0) |
| ColorExtension.Rgb12Bytes | Swift/ColorExtension.swift:19 | a 12-bit value gives channels within 0..255 |
| ColorExtension.Rgb24Bytes | Swift/ColorExtension.swift:21 | a 24-bit value gives channels within 0..255 |
| ColorExtension.Argb32Bytes | Swift/ColorExtension.swift:23 | a 32-bit value gives channels within 0..255 |
| ColorExtension.ColorChannelsInRange | Swift/ColorExtension.swift:12-26 | for 3, 6 and 8 trimmed characters every channel is a byte, whatever the characters are |
| ColorExtension.Rgb12Digits | Swift/ColorExtension.swift:19 | the channels of three hex digits are each digit times 17, with alpha 255 |
| ColorExtension.Rgb24Digits | Swift/ColorExtension.swift:21 | the channels of six hex digits are the successive byte pairs, with alpha 255 |
| ColorExtension.Argb32Digits | Swift/ColorExtension.swift:23 | the channels of eight hex digits are alpha, red, green, blue in digit-pair order |
| ColorExtension.ColorShorthand | Swift/ColorExtension.swift:12-26 | `Color(hex:)` on three hex digits (after trimming) gives each channel as its digit times 17 |
| ColorExtension.ColorRgb | Swift/ColorExtension.swift:12-26 | `Color(hex:)` on six hex digits gives alpha 255 and red, green, blue from the successive bytes |
| ColorExtension.ColorArgb | Swift/ColorExtension.swift:12-26 | `Color(hex:)` on eight hex digits gives alpha, red, green, blue from the successive bytes |
| ColorExtension.NSColorHexChannels | Swift/ColorExtension.swift:49-65 | `NSColor(hex:alpha:)` passes the given alpha through |
| ColorExtension.NSColorHex | Swift/ColorExtension.swift:45-47 | `NSColor(hex:)` is `NSColor(hex:alpha:)` with alpha 1 |
| ColorExtension.MasksAgree | Swift/ColorExtension.swift:55-57 | `(v & 0xff0000) >> 16` and `(v & 0xff00) >> 8` pick the same bytes as `(v >> k) & 0xFF` |
| ColorExtension.LowBytes | Swift/ColorExtension.swift:55-57 | the three masked bytes are each at most 255, and together they are the low 24 bits of the value |
| ColorExtension.NSColorHexBytes | Swift/ColorExtension.swift:49-65 | every `NSColor(hex:alpha:)` channel is a byte, and together they are the low 24 bits of the scanned value |
| ColorExtension.NSColorHashIsBlack | Swift/ColorExtension.swift:50-53 | a string starting with '#' is not skipped by the scanner, so the colour is black |
| ColorExtension.NSColorComponents | Swift/ColorExtension.swift:71-81 | the components are passed on as given, as a release build does, and the alpha is always 1.0 |
| ColorExtension.AlphaIgnored | Swift/ColorExtension.swift:71-81 | the alpha argument of `NSColor(red:green:blue:alpha:)` has no effect |
| ColorExtension.NSColorRgb | Swift/ColorExtension.swift:67-69 | `NSColor(red:green:blue:)` is the four-argument form with alpha 1 |
| ColorExtension.Lowercased | Swift/ColorExtension.swift:102 | `lowercased()` keeps the length and lowercases each character |
| ColorExtension.Doubled | Swift/ColorExtension.swift:111-115 | every character is written twice, in order |
| ColorExtension.ExpandShorthand | Swift/ColorExtension.swift:111-115 | the `forEach` loop builds the doubled string |
| ColorExtension.ParseHexUInt | Swift/ColorExtension.swift:117 | `UInt(_:radix: 16)` accepts only values that fit in 64 bits, and rejects the empty string |
| ColorExtension.ParseAllHex | Swift/ColorExtension.swift:117 | 1 to 16 hex digits parse to their value |
| ColorExtension.ParseRejects | Swift/ColorExtension.swift:117 | an unsigned string that is not all hex digits is rejected |
| ColorExtension.HasHexMarker | Swift/ColorExtension.swift:15 | a "0x" marker followed by a hex digit, which the scanner skips; `PlainHexDigits` states that a string of hex digits has none, so all of it is read |
| ColorExtension.StrippedHex | Swift/ColorExtension.swift:101-109 | the prefix handling; `StripHashPrefix`, `StripHexMarker` and `StripRemovesEveryMarker` state what it removes |
| ColorExtension.HexBody | Swift/ColorExtension.swift:111-115 | the stripped string, doubled when it has three characters; `UIColorFallback` and `UIColorMatchesNSColorMasks` state what becomes of it |
| ColorExtension.UIColorOf | Swift/ColorExtension.swift:100-131 | the channels or the 0xFFFFFF fallback; `UIColorFromHex` proves the initialiser computes it, and `UIColorRgb` and `UIColorShorthand` give its channels |
| ColorExtension.UIColorFromHex | Swift/ColorExtension.swift:100-131 | the initialiser, step by step, computes the prefix-stripped, shorthand-expanded, parsed and masked channels, or the 0xFFFFFF fallback |
| ColorExtension.UIColorFallback | Swift/ColorExtension.swift:117-120 | the 0xFFFFFF fallback is taken exactly when the body does not parse |
| ColorExtension.UIColorMatchesNSColorMasks | Swift/ColorExtension.swift:126-128 | a parsed `UIColor` uses the same bytes that `NSColor(hex:alpha:)` masks out of the same value |
| ColorExtension.UIColorRgb | Swift/ColorExtension.swift:100-131 | six hex digits after the prefix give red, green, blue from the successive bytes |
| ColorExtension.UIColorShorthand | Swift/ColorExtension.swift:111-128 | three hex digits after the prefix are doubled, so each channel is its digit times 17 |
| ColorExtension.NoMarkerAfterHash | Swift/ColorExtension.swift:103-106 | a string starting with '#' never takes the "0x" branch |
| ColorExtension.StripHashPrefix | Swift/ColorExtension.swift:105-106 | a '#' prefix with no other '#' is removed and nothing else changes |
| ColorExtension.StripHexMarker | Swift/ColorExtension.swift:103-104 | a "0x" or "0X" prefix is removed and the rest lowercased |
| ColorExtension.StripRemovesEveryMarker | Swift/ColorExtension.swift:103-104 | every "0x" is removed, not only the leading one: "0x10X2" becomes "12" |
| SequenceExtension.SafeGet | Swift/SequenceExtension.swift:13-18 | the result is nil exactly for an index outside `startIndex..<endIndex`, and otherwise the element |
| SequenceExtension.Keys | Swift/SequenceExtension.swift:25 | `map { filter($0) }` has one key per element, in order |
| SequenceExtension.FirstByKey | Swift/SequenceExtension.swift:21-30 | the first element of each key, in order; the `FirstByKey…` lemmas state its keys, distinctness, order and idempotence, and `FilterDuplicates` proves the loop computes it |
| SequenceExtension.FirstByKeyKeys | Swift/SequenceExtension.swift:21-30 | the kept elements carry every key of the input and no other |
| SequenceExtension.FirstByKeyDistinct | Swift/SequenceExtension.swift:21-30 | no two kept elements share a key |
| SequenceExtension.FirstByKeySubsequence | common/ArrayExtension.swift:20-29 | the kept elements are a subsequence of the input, in order |
| SequenceExtension.FirstByKeyKeepsFirsts | common/ArrayExtension.swift:20-29 | an element is kept exactly when it is the first element with its key |
| SequenceExtension.FirstByKeyOfDistinct | Swift/SequenceExtension.swift:21-30 | an array whose keys are already distinct is kept whole |
| SequenceExtension.FirstByKeyIdempotent | common/ArrayExtension.swift:20-29 | removing duplicates twice is the same as removing them once |
| SequenceExtension.NewKeyTest | Swift/SequenceExtension.swift:25 | the loop's `contains` test fails exactly when no earlier element has the key |
| SequenceExtension.FilterDuplicates | Swift/SequenceExtension.swift:21-30 | the loop keeps the first element of each key: the result has distinct keys and the same set of keys as the input |
| SequenceExtension.MembersHaveKey | Swift/SequenceExtension.swift:38-52 | a group holds only elements with its key, in their original order |
| SequenceExtension.MembersNonEmpty | Swift/SequenceExtension.swift:38-52 | a key's group is non-empty exactly when the key occurs |
| SequenceExtension.Grouped | Swift/SequenceExtension.swift:39-45 | each occurring key to its members in order; `GroupedStep` states how one more element changes it and `Categorize` proves the loop builds it |
| SequenceExtension.GroupedStep | Swift/SequenceExtension.swift:41-45 | appending an element extends the group of its key and no other |
| SequenceExtension.Categorize | Swift/SequenceExtension.swift:39-45 | the first loop of `group(by:)` builds each key's group, one element at a time |
| SequenceExtension.GroupDictionary | Swift/SequenceExtension.swift:38-52 | the dictionary has exactly the keys that occur, and each maps to the non-empty list of its members in order |
| SequenceExtension.GroupSizesSum | Swift/SequenceExtension.swift:55-63 | over any list of distinct keys covering the input, the group sizes add up to the input's length |
| SequenceExtension.GroupArrays | Swift/SequenceExtension.swift:55-63 | there is one array per distinct key, every key's group appears, and every array is some key's group |
| PublisherExtension.Scan | Swift/PublisherExtension.swift:23 | `scan` emits one value per input; the first combines the seed, and each later one combines the previous output |
| PublisherExtension.CompactMap | Swift/PublisherExtension.swift:24 | `compactMap { $0 }` is never longer than its input, and is the values themselves when all are present |
| PublisherExtension.PreviousStep | Swift/PublisherExtension.swift:23 | `($0?.1, $1)`; `PreviousStateAt` states that every state it produces is present and holds (previous, current) |
| PublisherExtension.PreviousStates | Swift/PublisherExtension.swift:23 | the scan in `withPrevious()` has one state per element |
| PublisherExtension.WithPreviousSeeded | Swift/PublisherExtension.swift:39-41 | `withPrevious(_:)` emits one pair per element |
| PublisherExtension.PreviousStateAt | Swift/PublisherExtension.swift:22-24 | every scan state is present and already holds (previous, current) for its element |
| PublisherExtension.WithPrevious | Swift/PublisherExtension.swift:22-25 | `scan` then `compactMap`; `WithPreviousPairs` and `WithPreviousExample` state the pairs it emits |
| PublisherExtension.WithPreviousPairs | Swift/PublisherExtension.swift:12-26 | `withPrevious()` is as long as the input; the first pair is (nil, x0), and pair i is (x[i-1], x[i]) |
| PublisherExtension.WithPreviousSeededAt | Swift/PublisherExtension.swift:28-41 | pair i of `withPrevious(_:)` is (x[i-1], x[i]), and the first pair has the seed as previous |
| PublisherExtension.WithPreviousSeededCurrents | Swift/PublisherExtension.swift:39-41 | the current parts of `withPrevious(_:)` are the input, and the previous parts are the seed followed by the input shifted by one |
| PublisherExtension.WithPreviousExample | Swift/PublisherExtension.swift:15-19 | the documented example: 1...5 gives (nil, 1) (1, 2) (2, 3) (3, 4) (4, 5) |
| PublisherExtension.WithPreviousSeededExample | Swift/PublisherExtension.swift:31-35 | the documented example: 1...5 with seed 0 gives (0, 1) (1, 2) (2, 3) (3, 4) (4, 5) |
| NumberOnlyTextField.Filtered | Swift/NumberOnlyTextField.swift:27 | the filtered text holds only digits, '.' and ',', and is never longer |
| NumberOnlyTextField.PeriodCount | Swift/NumberOnlyTextField.swift:16 | `components(separatedBy: ".").count - 1`; `SeparatorCounts` proves it is the number of '.' |
| NumberOnlyTextField.CommaCount | Swift/NumberOnlyTextField.swift:17 | `components(separatedBy: ",").count - 1`; `SeparatorCounts` proves it is the number of ',' |
| NumberOnlyTextField.IsSecondSeparator | Swift/NumberOnlyTextField.swift:19 | the text ends in a second '.' or ','; `SecondPeriodDropped`, `SecondCommaDropped` and `OnlyPeriodAtEnd` state when it holds |
| NumberOnlyTextField.Sanitised | Swift/NumberOnlyTextField.swift:15-31 | the text one run of the closure writes, or none; `FilterBranch`, `SanitisedShortens` and the separator lemmas state it |
| NumberOnlyTextField.SeparatorCounts | Swift/NumberOnlyTextField.swift:16-17 | `components(separatedBy:).count - 1` is the number of '.' (respectively ',') |
| NumberOnlyTextField.FilteredKeepsIff | Swift/NumberOnlyTextField.swift:27-28 | filtering leaves the text unchanged exactly when it has no disallowed character |
| NumberOnlyTextField.SecondPeriodDropped | Swift/NumberOnlyTextField.swift:19-21 | a second '.' typed at the end is removed, and nothing else changes |
| NumberOnlyTextField.SecondCommaDropped | Swift/NumberOnlyTextField.swift:19-21 | a second ',' typed at the end is removed, and nothing else changes |
| NumberOnlyTextField.FilterBranch | Swift/NumberOnlyTextField.swift:26-30 | outside the separator case, the text is written exactly when it has a disallowed character, and then the filtered text is written |
| NumberOnlyTextField.DropLastKeepsOtherCharacters | Swift/NumberOnlyTextField.swift:19-21 | in one run of the closure the separator branch drops only the last character: "a1.." becomes "a1." |
| NumberOnlyTextField.FilterExample | Swift/NumberOnlyTextField.swift:27-29 | "+1,5" becomes "1,5" |
| NumberOnlyTextField.FilteredShortens | Swift/NumberOnlyTextField.swift:27-28 | a filter that changes the text makes it strictly shorter |
| NumberOnlyTextField.SanitisedShortens | Swift/NumberOnlyTextField.swift:15-31 | every text the closure writes is strictly shorter than the one it was called with |
| NumberOnlyTextField.Settled | Swift/NumberOnlyTextField.swift:15-31 | the closure re-run on each text it writes, as `onChange` does, until it writes nothing: no longer than the typed text, and left alone by a further run |
| NumberOnlyTextField.SettledIsAllowed | Swift/NumberOnlyTextField.swift:15-31 | a settled text holds only digits, '.' and ',', and does not end in a second separator |
| NumberOnlyTextField.AllowedIsSettled | Swift/NumberOnlyTextField.swift:15-31 | a text that already holds only allowed characters and does not end in a second separator is left as it is |
| NumberOnlyTextField.SettledExample | Swift/NumberOnlyTextField.swift:15-31 | "a1.." settles to "1.": the first run drops the second '.', the re-run filters out the 'a' |
| NumberOnlyTextField.NumberOnlyTextField.constructor | Swift/NumberOnlyTextField.swift:10 | the binding starts with the given text |
| NumberOnlyTextField.NumberOnlyTextField.OnChange | Swift/NumberOnlyTextField.swift:15-31 | the binding becomes the sanitised text, or is left as it was when nothing needs changing |
| PatternFormatter.ReplaceTexts | Swift/StringPatternFormatter.swift:51-53 | every match of a replace pattern turns into the replacement string |
| PatternFormatter.GroupTexts | Swift/StringPatternFormatter.swift:76-81 | a match with a capture group turns into the text of its first group, read from the original text |
| PatternFormatter.Rebuild | Swift/StringPatternFormatter.swift:51-53 | the text rebuilt left to right with each match replaced; `RebuildIdentity` gives the text back, and `ProcessReplace` and `ProcessAttributedKey` prove the last-first loops compute it |
| PatternFormatter.RebuildIdentity | Swift/StringPatternFormatter.swift:51-53 | replacing every match by its own text gives the text back |
| PatternFormatter.ApplyAllAppend | Swift/StringPatternFormatter.swift:34-43 | applying two lists of patterns one after the other is applying their concatenation, with the first error stopping both |
| PatternFormatter.ApplyPattern | Swift/StringPatternFormatter.swift:36-41 | one pattern by its kind; `ReplaceBySameText`, `NoMatchNoChange` and `ApplyAttributes` state its effect |
| PatternFormatter.Step | Swift/StringPatternFormatter.swift:35-42 | one iteration of `forEach` under `try`: an error is kept and the next pattern is skipped; `ApplyAllAppend` rests on it |
| PatternFormatter.ApplyAll | Swift/StringPatternFormatter.swift:34-43 | every pattern in order, stopping at the first error; `ApplyAllAppend` and `StringPatternFormatter.Process` state it |
| PatternFormatter.ReplaceBySameText | Swift/StringPatternFormatter.swift:45-54 | a replace pattern whose matches already read as the replacement leaves the text as it is |
| PatternFormatter.NoMatchNoChange | Swift/StringPatternFormatter.swift:45-65 | a pattern with no match changes nothing, whatever its kind |
| PatternFormatter.ApplyAttributes | Swift/StringPatternFormatter.swift:67-82 | without a capture group the error is thrown; otherwise the match is replaced by its group, which fixes the new length, and the text before the match is kept |
| PatternFormatter.StringPatternFormatter.constructor | Swift/StringPatternFormatter.swift:14-16 | the formatter holds the given patterns |
| PatternFormatter.StringPatternFormatter.AttributedString | Swift/StringPatternFormatter.swift:18-20 | formatting a plain string applies all patterns in order |
| PatternFormatter.StringPatternFormatter.Format | Swift/StringPatternFormatter.swift:22-27 | `format` applies all patterns in order, and with no patterns returns the text |
| PatternFormatter.StringPatternFormatter.Process | Swift/StringPatternFormatter.swift:34-43 | the loop applies each pattern to the previous result and stops at the first error |
| PatternFormatter.StringPatternFormatter.ProcessReplace | Swift/StringPatternFormatter.swift:45-54 | replacing the matches last-first gives the left-to-right rebuild, or the pattern error |
| PatternFormatter.StringPatternFormatter.ProcessAttributedKey | Swift/StringPatternFormatter.swift:56-65 | replacing each match by its first group, last-first, gives the left-to-right rebuild; a match without a group throws |
| JsObjects.Or | TypeScript/net-query/useQuery.ts:135 | the logical or of `a` and `b` is truthy exactly when either operand is, and is `a` when `a` is truthy |
| JsObjects.Truthy | TypeScript/enum.ts:12 | JavaScript truthiness; `FalsyValues` lists exactly the values that are falsy |
| JsObjects.FalsyValues | TypeScript/enum.ts:12 | a value is falsy exactly when it is `undefined`, `null`, `false`, `0`, `NaN` or `""` |
| JsObjects.Get | TypeScript/net-query/useQuery.ts:33-38 | a property lookup gives the property, or `undefined` when it is missing |
| JsObjects.OptionalGet | TypeScript/net-query/utils.ts:29 | `v?.key` gives `undefined` on `null` and `undefined`, and is a plain lookup otherwise |
| JsObjects.At | TypeScript/net-query/useQuery.ts:99 | `v[i]` gives the element, or `undefined` out of range |
| JsObjects.Spread | TypeScript/net-query/utils.ts:21 | `...v` contributes an object's properties, and nothing for `null` or `undefined` |
| JsObjects.NatString | TypeScript/enum.ts:16 | the key a whole number becomes is made of decimal digits, has no leading zero except for 0, and reads back as the number |
| JsObjects.ToPropertyKey | TypeScript/enum.ts:10-19 | `String(v)` as the key `o[v]` uses; the lemmas below state what it does with numbers and arrays |
| JsObjects.NumberKeySign | TypeScript/enum.ts:16 | the key of a whole number starts with '-' exactly when the number is negative |
| JsObjects.NumberKeysDistinct | TypeScript/enum.ts:16 | distinct whole numbers never share a key, so the reverse entries of a numeric enum do not collide |
| JsObjects.NumberAndStringKeysAgree | TypeScript/enum.ts:11 | a number and its decimal string look up the same property, which is why `enumData[values]` finds the reverse entry |
| JsObjects.ArrayKeyExample | TypeScript/enum.ts:10-11 | an array key joins its elements with commas, nested arrays flattened and `null` empty: `[1, null, [2, 3]]` gives "1,,2,3" |
| NetQueryUtils.MakeQueryKey | TypeScript/net-query/utils.ts:28-30 | the key has two elements and the request is the second; `null` gives `[undefined, null]` |
| NetQueryUtils.MakeQueryKeyInjective | TypeScript/net-query/utils.ts:28-30 | two keys are equal exactly when their requests are equal |
| NetQueryUtils.MakeQueryKeyUrl | TypeScript/net-query/utils.ts:29 | the first element of the key is the request's `url` |
| NetQueryUtils.DefaultOptions | TypeScript/net-query/utils.ts:12-22 | `defaultOptions` has `queries` plus every key of the supplied options |
| NetQueryUtils.MakeQueryClientConfig | TypeScript/net-query/utils.ts:10-25 | the configuration has only `defaultOptions` |
| NetQueryUtils.MakeQueryClientDefaults | TypeScript/net-query/utils.ts:13-20 | without options: no refetch on window focus, stale at once, kept for 300000 ms |
| NetQueryUtils.QueriesReplaced | TypeScript/net-query/utils.ts:21 | the spread is shallow: a supplied `queries` replaces the default one as a whole |
| NetQueryUtils.OtherOptionsKept | TypeScript/net-query/utils.ts:21 | every other top-level option is present exactly when supplied, with the supplied value |
| NetQueryUtils.QueriesReplacedExample | TypeScript/net-query/utils.ts:12-22 | `queries: {staleTime: 1000}` leaves no `refetchOnWindowFocus` and no `gcTime` |
| UseQuery.RequestQueryKey | TypeScript/net-query/useQuery.ts:42-46 | the key is `makeQueryKey` of the request, calling `req` first when it is a function |
| UseQuery.OptionField | TypeScript/net-query/useQuery.ts:33-38 | a destructured option takes its default exactly when it is `undefined` |
| UseQuery.NoCacheOptions | TypeScript/net-query/useQuery.ts:49-59 | `noCache` gives `staleTime` and `gcTime` 0, and nothing otherwise |
| UseQuery.NoExpirationOptions | TypeScript/net-query/useQuery.ts:62-72 | `noExpiration` gives `staleTime` and `gcTime` Infinity, and nothing otherwise |
| UseQuery.Enabled | TypeScript/net-query/useQuery.ts:113 | `!!req`; `EnabledPrecedence` states when it is the `enabled` option |
| UseQuery.QueryOptions | TypeScript/net-query/useQuery.ts:110-117 | the spread of the options in their order; `NoCacheWins`, `NoExpirationWins`, `NoFlagKeepsUserStaleTime`, `EnabledPrecedence` and `KeyAndFunctionKept` state which source wins for each key |
| UseQuery.BeforeFlags | TypeScript/net-query/useQuery.ts:110-117 | the flag options set only `staleTime` and `gcTime`: every other key is as the base and the user's options make it |
| UseQuery.NoCacheWins | TypeScript/net-query/useQuery.ts:110-117 | with `noCache` alone, `staleTime` and `gcTime` are 0 whatever the user's query options say |
| UseQuery.NoExpirationWins | TypeScript/net-query/useQuery.ts:110-117 | with `noExpiration`, `staleTime` and `gcTime` are Infinity, even over `noCache` |
| UseQuery.NoFlagKeepsUserStaleTime | TypeScript/net-query/useQuery.ts:110-117 | with neither flag, `staleTime` is the user's, or absent |
| UseQuery.EnabledPrecedence | TypeScript/net-query/useQuery.ts:113-114 | the user's `enabled` overrides `!!req` |
| UseQuery.KeyAndFunctionKept | TypeScript/net-query/types.ts:10-13 | query options without `queryKey` and `queryFn`, as their type requires, keep the hook's key and function |
| UseQuery.FetchData | TypeScript/net-query/useQuery.ts:74-94 | no request gives the common failure; a response is returned as is; a rejection gives an unsuccessful response without data, carrying the error's message |
| UseQuery.NoRequestNoFetch | TypeScript/net-query/useQuery.ts:76-78 | without a request the result does not depend on `net.fetch` |
| UseQuery.QueryFn | TypeScript/net-query/useQuery.ts:96-102 | `fetchData` of the second element of the key; `QueryFnFetchesRequest` and `RejectedFetchResult` state what it fetches and returns |
| UseQuery.QueryFnFetchesRequest | TypeScript/net-query/useQuery.ts:96-102 | `queryFn` fetches the request the query key was made from |
| UseQuery.UseQueryResult | TypeScript/net-query/useQuery.ts:133-141 | the hook returns `isFetching` as `isLoading` and its own key; data, message and code are projected from the response; `success` is truthy exactly when the response's is, and `false` otherwise |
| UseQuery.ReloadData | TypeScript/net-query/useQuery.ts:120-131 | the projection of a refetched response; `ReloadDataAgrees` states that it matches the hook's result |
| UseQuery.ReloadDataAgrees | TypeScript/net-query/useQuery.ts:120-131 | `reloadData` projects a response exactly as the hook's result does |
| UseQuery.NoResponseProjection | TypeScript/net-query/useQuery.ts:133-137 | before any response: no data, not successful, no message or code |
| UseQuery.RejectedFetchResult | TypeScript/net-query/useQuery.ts:84-89 | a failed fetch ends as an unsuccessful result carrying the message |
| EnumTransform.Lookup | TypeScript/enum.ts:10-11 | `enumData[k]` gives the property, or `undefined` when missing |
| EnumTransform.Step | TypeScript/enum.ts:9-22 | one call of the reducer; `StringEntry`, `NumericEntry`, `FalsyEntry` and `IgnoredEntry` state each branch |
| EnumTransform.TransformOf | TypeScript/enum.ts:8-23 | the reduction over the keys; `EnumTransformMap` proves the loop computes it and `LaterKeyOverwrites` states which write wins |
| EnumTransform.EnumTransformMap | TypeScript/enum.ts:6-24 | the loop builds the reduction over the keys in `Object.keys` order |
| EnumTransform.StringEntry | TypeScript/enum.ts:12-19 | a truthy value whose own lookup is neither truthy nor 0 maps back to its key |
| EnumTransform.NumericEntry | TypeScript/enum.ts:14-16 | a name whose lookup is a number n maps n to the name, also for 0 |
| EnumTransform.FalsyEntry | TypeScript/enum.ts:12 | a key with a falsy value contributes nothing |
| EnumTransform.IgnoredEntry | TypeScript/enum.ts:14-15 | a non-string value whose lookup is truthy, or a lookup that is not a number, contributes nothing |
| EnumTransform.LaterKeyOverwrites | TypeScript/enum.ts:9-19 | a later key writing the same property wins |
| EnumTransform.NumericEnumExample | TypeScript/enum.ts:6-24 | `enum Color { Red, Green }` turns into `{0: "Red", 1: "Green"}` |
| EnumTransform.StringEnumExample | TypeScript/enum.ts:6-24 | `enum Status { On = "on" }` turns into `{on: "On"}` |
| ResponsiveItemWidth.ContainerWidth | React/responsiveGridLayout/useResponsiveItemWidth.ts:29 | the logical or of `width` and `offsetWidth` uses the width unless it is absent or 0 |
| ResponsiveItemWidth.ItemsPerRow | React/responsiveGridLayout/useResponsiveItemWidth.ts:30-32 | the floored quotient; `ItemsPerRowIsFloor` states it is the largest count that fits |
| ResponsiveItemWidth.NewWidth | React/responsiveGridLayout/useResponsiveItemWidth.ts:30-33 | the width of each item; `WidthFillsRow`, `NarrowContainer` and the two examples state its value |
| ResponsiveItemWidth.ItemsPerRowIsFloor | React/responsiveGridLayout/useResponsiveItemWidth.ts:30-32 | the row count is the largest k such that k items and k gaps fit in the width plus one gap |
| ResponsiveItemWidth.WidthFillsRow | React/responsiveGridLayout/useResponsiveItemWidth.ts:33 | with at least one item per row, the items and one gap per item fill the width exactly |
| ResponsiveItemWidth.WidthBelowMinimumExample | React/responsiveGridLayout/useResponsiveItemWidth.ts:30-33 | because k gaps are subtracted, the width can fall below the minimum: width 100, minimum 45 and gap 10 give 40 |
| ResponsiveItemWidth.NegativeZeroRowExample | React/responsiveGridLayout/useResponsiveItemWidth.ts:30-33 | a gap of -5 with minimum 1 and container 5 makes the row count -0, and the width then -Infinity |
| ResponsiveItemWidth.NarrowContainer | React/responsiveGridLayout/useResponsiveItemWidth.ts:30-33 | a container narrower than one item gets no item per row, and the width is then Infinity (or NaN for width 0) |
| ResponsiveItemWidth.ResponsiveItemWidth.constructor | React/responsiveGridLayout/useResponsiveItemWidth.ts:23-25 | `gap` defaults to 0, and the first state is `minItemWidth` |
| ResponsiveItemWidth.ResponsiveItemWidth.OnResize | React/responsiveGridLayout/useResponsiveItemWidth.ts:27-36 | with no container nothing happens; otherwise the state becomes the new width computed from the container width |
| KeyPress.LastTargetEvent | React/useKeyPress.ts:6-18 | the last event for the target key, absent exactly when no event is for it |
| KeyPress.Step | React/useKeyPress.ts:6-18 | one handler call; `KeyPressState.DownHandler` and `KeyPressState.UpHandler` prove the handlers perform it |
| KeyPress.Replay | React/useKeyPress.ts:4-18 | the state after a run of events; `PressedIffLastWasDown` and `OtherKeysIgnored` state it |
| KeyPress.PressedIffLastWasDown | React/useKeyPress.ts:4-18 | after any events, the key counts as pressed exactly when its last event was a keydown; with no such event the state is the initial one |
| KeyPress.OtherKeysIgnored | React/useKeyPress.ts:6-18 | events for other keys change nothing |
| KeyPress.KeyPressState.constructor | React/useKeyPress.ts:4 | the key starts out not pressed |
| KeyPress.KeyPressState.DownHandler | React/useKeyPress.ts:6-11 | keydown of the target key sets pressed; other keys change nothing |
| KeyPress.KeyPressState.UpHandler | React/useKeyPress.ts:13-18 | keyup of the target key clears pressed; other keys change nothing |
| KotlinStringExtension.DigitRun | Kotlin/StringExtension.kt:4 | the digit run is the longest leading run of digits |
| KotlinStringExtension.DigitRunUnique | Kotlin/StringExtension.kt:4 | any digit run ending at a non-digit, or at the end, is that run |
| KotlinStringExtension.MatchesNumberIff | Kotlin/StringExtension.kt:4 | the scan accepts exactly the strings `^(-)?[0-9]*((\.)[0-9]+)?$` matches whole |
| KotlinStringExtension.BlankNeverMatches | Kotlin/StringExtension.kt:5 | a non-empty blank string could not match anyway |
| KotlinStringExtension.IsNumeric | Kotlin/StringExtension.kt:3-5 | `isNumeric()`; `IsNumericIff`, `NumericShape` and the examples state it |
| KotlinStringExtension.IsNumericIff | Kotlin/StringExtension.kt:3-5 | `isNumeric()` holds exactly for non-empty strings that match the pattern |
| KotlinStringExtension.NumericShape | Kotlin/StringExtension.kt:3-5 | a numeric string has at most one '.', and no '-' except at the front |
| KotlinStringExtension.AcceptedExamples | Kotlin/StringExtension.kt:3-5 | "-", ".5" and "-12.50" are numeric |
| KotlinStringExtension.RejectedExamples | Kotlin/StringExtension.kt:3-5 | "", "5.", "1.2.3", "+1" and " 1" are not numeric |
| KotlinUtils.FilterNotNull | Kotlin/Utils.kt:4 | `filterNotNull()` is never longer than its input |
| KotlinUtils.FilterNotNullKeepsAll | Kotlin/Utils.kt:4 | nothing is filtered exactly when no argument is null |
| KotlinUtils.NotNull | Kotlin/Utils.kt:3-4 | `notNull`; `AllPresent`, `SomeAbsent`, `NoArguments` and `OnlyNullnessMatters` state it |
| KotlinUtils.AllPresent | Kotlin/Utils.kt:3-4 | with every argument present, the block's result is returned |
| KotlinUtils.SomeAbsent | Kotlin/Utils.kt:3-4 | with a null argument the result is null, whatever the block would return |
| KotlinUtils.NoArguments | Kotlin/Utils.kt:3-4 | with no arguments the block runs |
| KotlinUtils.OnlyNullnessMatters | Kotlin/Utils.kt:3-4 | only which arguments are null matters, not their values |

## Left out

- Floating point. Colour channels are the integers before the division by 255, and
  `CGFloat`/`Double` components are not modelled. `isChinese` and `chinesePercentage`
  (a `Float` ratio) are left out for the same reason.
- `UIColor.hexString(includeAlpha:)` is left out: it formats rounded floating-point components.
- `NSColor.random` is left out: it uses randomness.
- The alpha clamp of `UIColor(hex:)` (lines 122-124) is left out, because `alpha` is a
  floating-point property of the colour under construction.
- `UIColor(hex: Int)` and `UIColor(red:green:blue:transparency:)` are not part of this
  model. `UIColor(hex:)` is modelled up to the value or channels it passes on to them.
- ColorExtension.Lowercased: lowercases ASCII letters only, whereas Swift's
  `lowercased()` is full Unicode.
- ColorExtension.TrimNonAlphanumerics: `CharacterSet.alphanumerics` is approximated by
  ASCII letters and digits.
- Swift `Character` is taken to be one Unicode scalar, so grapheme clusters made of
  several scalars are not modelled. The UTF-16 length `string.count` passed to the
  regular expression is the scalar count.
- StringExtension.Split: requires `length > 0` for a non-empty string. There Swift never
  ends with `length == 0`, because the loop does not advance. It traps with a negative
  `length`, because `index(_:offsetBy:limitedBy:)` would move before `startIndex`. The
  empty string gives `[]` for every length, and the model covers that case.
- StringExtension.Prefix and StringExtension.Suffix: require `length >= 0`. Swift's
  `prefix(_:)` and `suffix(_:)` trap on a negative length.
- StringExtension.SliceHalfOpen and StringExtension.SliceClosed: require
  `lower <= upper`, because building the `Range` or `ClosedRange` traps otherwise. They also
  require `lower + count` not to be negative, because `prefix(_:)` traps on that.
- StringExtension.PrefixThrough and StringExtension.PrefixUpTo: require a bound that gives
  `prefix(_:)` a non-negative length, because it traps otherwise.
- StringExtension.AsciiAt: requires `0 <= index < |s|`. Outside that range the index
  computation or the subscript of `unicodeScalars` traps.
- ColorExtension.NSColorComponents: the range checks of lines 72-74 are `assert`s, which
  a debug build checks and a release build skips. The model follows the release build and
  passes every component on.
- The other `String` members of StringExtension.swift are not part of this model: URL
  detection, localisation, path handling, `systemLanguage`, `appVersion`, and the
  `data`/`bytes` conversions. They are calls into Foundation or the bundle.
- PatternFormatter: the attributes an `NSAttributedString` carries are not modelled, only
  its text. `addAttributes` therefore has no effect in the model.
- PatternFormatter: `NSRegularExpression` is a parameter. It is assumed to compile or
  reject a pattern and to return matches that lie in the text, are in order and do not
  overlap, with each capture group inside its match.
- PublisherExtension: a publisher is the finite sequence of values it emits. Timing,
  failure and cancellation are not modelled. `assign(to:on:)` and its variants (lines
  45-77) are left out: they store into objects through key paths and manage
  subscriptions.
- NumberOnlyTextField.NumberOnlyTextField.OnChange: models one run of the closure. The re-runs SwiftUI makes
  after each write of `text` are not performed by the class; `Settled` states their
  combined outcome on values.
- NumberOnlyTextField: the haptic feedback (lines 23-25) and the decimal-pad keyboard are
  left out as side effects of the UI.
- JsObjects: JavaScript numbers are whole numbers, infinities and NaN; fractions are not
  needed by the modelled code. `ToPropertyKey` renders an object as `"[object Object]"`
  and a function by its name, where JavaScript uses the function's source text.
- UseQuery: react-query's cache, refetching and scheduling are left out. `isFetching` and
  the cached response are inputs. `net.fetch` is a parameter returning a response or a
  rejection, and `dealWithUnknownError` is a parameter mapping the error to a message.
  `useMemo`/`useCallback` memoisation is the identity.
- `createCtx`, `NetQueryProvider` and `useINetworkingContext` are left out: they are
  React context plumbing.
- EnumTransform: `Object.keys` order is given with the object; inherited properties are
  not modelled.
- ResponsiveItemWidth: the resize detector is left out. `onResize` is called directly
  with the width and the container's `offsetWidth`.
- ResponsiveItemWidth: widths are exact reals, not IEEE doubles. `ItemsPerRow` requires
  a non-zero `minItemWidth + gap`. For a zero divisor `NewWidth` yields NaN directly,
  which is what the JavaScript arithmetic ends in. The only signed zero modelled is the
  -0 row count a negative divisor makes; a -0 passed in as a prop is read as 0.
- KeyPress: registering and removing the window listeners (lines 20-28) is left out. The
  handlers are called directly with each event's key.
- KotlinStringExtension: `Char.isWhitespace()` is modelled by the Unicode whitespace code
  points; the regular expression engine is replaced by a scan proved equivalent to the pattern.
