# utils: string, object and CSS-variable helpers in Dafny

This project models three pieces of the `utils` collection. Each piece ships
in several near-identical copies, one per module format. One Dafny definition
serves every copy.

- **String helpers.** These are `toTitleCase` in its two behaviours (split
  into words, or one word), `normaliseMultiLineString`, the `{name}` template
  substitution `format`, and `constructURLWithSearchParams` with the
  `encodeURIComponent` it relies on.
- **Object helpers.** These are `extractAsObject` in both argument forms,
  `isObjectEmpty`, `kmap` and `vmap`, `createInterval`, `createTimestamp`, and
  the delay rule of `createCycle`.
- **The CSS-variable cache.** This is the module-level table `CSSVars` that
  `getCSSVar` and `getCSSVars` fill with converted values.

Files:

- `wrappers.dfy` holds `Option`, `Result` and the `TypeError` exception.
- `js.dfy` holds JavaScript values, numbers, prototypes and truthiness.
- `ascii.dfy` holds ASCII character classes and case mapping.
- `titlecase.dfy`, `normalise.dfy`, `format.dfy` hold the string helpers.
- `uri.dfy` holds `encodeURIComponent`, plus a decoder used to prove that
  encoding loses nothing.
- `search_params.dfy` holds `constructURLWithSearchParams` and the parse-back
  of its suffix.
- `objects.dfy` and `timing.dfy` hold the object helpers.
- `css_vars.dfy` holds the cache, as the class `CssVarCache`.

Where the source changes state step by step, the model does too.

- `toTitleCase` pushes into `toJoin` in a loop.
- `constructURLWithSearchParams` accumulates `search` in a loop.
- The three-argument `extractAsObject` writes into `to` in place.
- `getCSSVar` and `getCSSVars` update `CSSVars`.

Each of these is a method proved against a specification function. The
properties the source promises are lemmas about that function. Everything else
is a function.

Copies served by one member:

- Multi-word `toTitleCase`, at `src/common.mjs:144-156` and `index.js:91-103`,
  is `TitleCase.ToTitleCase`.
- Single-word `toTitleCase`, at `es/index.mjs:58-63`, `esm/index.mjs:20-26` and
  `utils.js:20-26`, is `TitleCase.TitleWord`.
- `normaliseMultiLineString`, at `index.js:81-83` and `es/index.mjs:66-68`, is
  `Normalise.NormaliseMultiLineString`.
- `constructURLWithSearchParams`, at `src/common.mjs:17-25` and
  `src/common.ts:1-9`, is `SearchParams.ConstructURLWithSearchParams`.
- `isObjectEmpty`, at `src/common.mjs:93-99` and `index.js:72-78`, is
  `Objects.IsObjectEmpty`.
- The CSS cache has five copies: `index.js:2-69`, `es/index.mjs:1-48`,
  `esm/index.mjs:1-58`, `src/browser.mjs:3-53` and `utils.js:1-58`. All five
  are `CssVars.CssVarCache`, together with `CssVars.DoCssVarConversion`.

The computed style is a parameter. It is a snapshot: the
property names in iteration order, plus the value of each property (missing
means `""`). `parseFloat` is also a parameter, an uninterpreted function from
strings to numbers. An object is a map from string keys to values. The
parameters of `constructURLWithSearchParams` are a sequence of key/value
pairs in `Object.entries` order.

The single `replaceAll` pass of `format` is modelled in two halves. A scan
over positions of the text cuts it into pieces: copied characters and matched
names. Rendering then replaces each name with its substitute. The scan never
looks at the properties, so a substituted value is never scanned again.

## Model

| member | source | states |
|---|---|---|
| TitleCase.ToTitleCase | src/common.mjs:144-156 | the loop builds exactly the specification result; it fails with TypeError exactly when the text holds no ASCII letter, which is when `match` returns null |
| TitleCase.Words | src/common.mjs:1 | every match of the word regex starts with a letter and continues with letters and digits |
| TitleCase.AlnumRun | src/common.mjs:1 | a match runs to the first character that is not a letter or a digit, so each word is maximal |
| TitleCase.AlnumRunStopsAt | src/common.mjs:1 | a run stops at the first character that is not a letter or digit, whatever follows |
| TitleCase.WordsSplit | src/common.mjs:147 | a separator character splits the matches: the words of `a + c + b` are the words of `a` followed by the words of `b` |
| TitleCase.WordsSkipNonLetters | src/common.mjs:147 | leading characters that are not letters, such as digits and punctuation, produce no word |
| TitleCase.NoWordsIffNoLetter | src/common.mjs:147 | the regex finds no match if and only if the text has no ASCII letter |
| TitleCase.WordsOfWord | src/common.mjs:1 | a single word matches as itself |
| TitleCase.AlnumRunOfAlnum | src/common.mjs:1 | a string made only of letters and digits is one run |
| TitleCase.WordsOfJoin | src/common.mjs:155 | joining words with single spaces and matching again gives back the same words |
| TitleCase.Join | src/common.mjs:155 | `toJoin.join(" ")`: the words with one separator between neighbours; TitleCase.WordsOfJoin states that matching the joined words again gives them back |
| TitleCase.TitleCaseOf | src/common.mjs:144-156 | the specification of the multi-word `toTitleCase`: a TypeError on letterless text, otherwise the title-cased matches joined by spaces; TitleCase.TitleCaseResult and TitleCase.TitleCaseIdempotent state what it promises |
| TitleCase.Capitalise | src/common.mjs:148-150 | keeps the length; the first character is upper-cased and the rest lower-cased |
| TitleCase.Titled | src/common.mjs:145-153 | `toJoin` holds one title-cased word per matched word, in order |
| TitleCase.CapitaliseIsWord | src/common.mjs:150 | a title-cased word is still a word of the regex |
| TitleCase.CapitaliseIdempotent | src/common.mjs:150 | title-casing a word twice is the same as once |
| TitleCase.TitleCaseResult | src/common.mjs:144-156 | fails exactly on letterless text; otherwise the words of the output are the input's words, each title-cased, in input order |
| TitleCase.TitleCaseIdempotent | index.js:91-103 | applying the multi-word `toTitleCase` to its own output gives the same output |
| TitleCase.TitleWord | es/index.mjs:58-63 | fails (TypeError) exactly on the empty string; otherwise keeps the length, upper-cases the first character and lower-cases the rest |
| TitleCase.TitleWordIdempotent | es/index.mjs:58-63 | the single-word `toTitleCase` applied to its own output changes nothing |
| Ascii.Upper | es/index.mjs:62 | `toUpperCase` on one character: a lower-case letter becomes its own capital (32 code points lower), and every other character is unchanged |
| Ascii.Lower | es/index.mjs:62 | `toLowerCase` on one character: a capital becomes its own lower-case letter (32 code points higher), and every other character is unchanged |
| Ascii.LowerAll | esm/index.mjs:25 | `tail.toLowerCase()` lower-cases each character in place |
| Normalise.NormaliseMultiLineString | index.js:81-83 | the four steps of `normaliseMultiLineString` in source order; Normalise.NormaliseShape, Normalise.NormaliseIdempotent and Normalise.NormaliseKeeps state what the result is |
| Normalise.DeleteTabs | index.js:82 | `replaceAll(/\t/g, "")`: keep every character but the tab; Normalise.NoTabAfterDelete states that no tab is left |
| Normalise.ReplaceRuns | index.js:82 | a global `replaceAll` of runs of one character at least `min` long, scanning left to right; Normalise.ReplaceRunsRemoves, Normalise.ReplaceRunsNoAdjacent and Normalise.ReplaceRunsKeeps state what it leaves |
| Normalise.TrimStart | index.js:82 | removes exactly the leading whitespace: what is removed is all whitespace, and the result does not start with whitespace |
| Normalise.TrimEnd | index.js:82 | removes exactly the trailing whitespace: what is removed is all whitespace, and the result does not end with whitespace |
| Normalise.Trim | index.js:82 | `trim()` leaves no leading or trailing whitespace, using the full ECMAScript whitespace and line-terminator set |
| Normalise.TrimIdentity | index.js:82 | trimming text with no leading or trailing whitespace changes nothing |
| Normalise.TrimKeepsNonWhitespace | index.js:82 | trimming keeps every non-whitespace character in order |
| Normalise.Filter | index.js:82 | deleting characters keeps only the kept class and never lengthens the text |
| Normalise.FilterConcat | index.js:82 | deleting characters works piecewise over a concatenation |
| Normalise.FilterNone | index.js:82 | deleting from text that holds only deleted characters gives the empty string |
| Normalise.FilterAll | index.js:82 | deleting from text with no deleted characters changes nothing |
| Normalise.FilterFilter | index.js:82 | a finer deletion after a coarser one is the finer deletion alone |
| Normalise.FilterFirst | index.js:82 | a kept first character stays first |
| Normalise.FilterLast | index.js:82 | a kept last character stays last |
| Normalise.FilterAbsent | index.js:82 | deletion introduces no new character |
| Normalise.TrimAbsent | index.js:82 | `trim()` introduces no new character |
| Normalise.TrimStartKeeps | index.js:82 | removing leading whitespace keeps every non-whitespace character in order |
| Normalise.TrimEndKeeps | index.js:82 | removing trailing whitespace keeps every non-whitespace character in order |
| Normalise.RunLength | index.js:82 | a run of one character extends to the first different character |
| Normalise.ReplaceRunsFirst | index.js:82 | replacing runs keeps a first character that is not the run character |
| Normalise.ReplaceRunsLast | index.js:82 | replacing runs keeps a last character that is not the run character |
| Normalise.ReplaceRunsRemoves | index.js:82 | `replaceAll(/[\n]+/g, " ")` leaves no LF |
| Normalise.ReplaceRunsAbsent | index.js:82 | replacing runs introduces no character beyond those of the text and the replacement |
| Normalise.NoAdjacentCons | index.js:82 | putting a character before a string keeps "no two adjacent copies of c" unless that creates a new pair |
| Normalise.ReplaceRunsNoAdjacent | index.js:82 | `replaceAll(/ {2,}/g, " ")` leaves no two adjacent spaces |
| Normalise.ReplaceRunsWithout | index.js:82 | run replacement on text without the run character changes nothing |
| Normalise.ReplaceRunsSingles | index.js:82 | collapsing runs of two or more changes nothing when no two copies are adjacent |
| Normalise.ReplaceRunsKeeps | index.js:82 | run replacement keeps every character other than the run character and the replacement, in order |
| Normalise.KeepsAcrossRun | index.js:82 | a run and its replacement both contribute nothing to the kept characters |
| Normalise.KeepsAcrossChar | index.js:82 | a character outside a run is copied, so it is kept on both sides alike |
| Normalise.RunFiltersOut | index.js:82 | a run of a deleted character contributes nothing to the kept characters |
| Normalise.NormaliseShape | index.js:81-83 | the output has no tab, no LF, no two adjacent spaces, and no leading or trailing whitespace |
| Normalise.NoTabAfterDelete | index.js:82 | after `replaceAll(/\t/g, "")` no tab is left |
| Normalise.NormaliseEnds | index.js:81-83 | the output has no whitespace at either end, because the trimmed text's first and last characters survive |
| Normalise.EndsSurvive | index.js:82 | tab deletion and the two run replacements keep a first and last character that is not tab, LF or space |
| Normalise.NormaliseIdempotent | index.js:81-83 | normalising twice is the same as normalising once |
| Normalise.NormaliseKeeps | index.js:82 | every character other than tab, LF and space is kept in order from the trimmed text, including an interior CR |
| Normalise.NormaliseKeepsNonWhitespace | index.js:82 | every non-whitespace character of the input is kept, in order |
| Normalise.NormaliseDeletesTabs | es/index.mjs:66-68 | on text with no space and no LF, the result is the trimmed text with its tabs deleted: a tab is not turned into a space |
| Normalise.NormaliseTabExample | es/index.mjs:67 | `"a\tb"` normalises to `"ab"` |
| Format.Format | src/common.mjs:86-90 | `format(text, properties)`: the scan of the whole text, rendered; Format.FormatSplice, Format.FormatConcat and Format.FormatWithoutPlaceholders state what the pass does |
| Format.Substitute | src/common.mjs:87 | the property's value when it is truthy (non-empty), otherwise the matched name; Format.FormatPlaceholder states both branches for a lone placeholder |
| Format.NameEnd | src/common.mjs:89 | the end of the `[a-z0-9_]+` run scanned after `{`, never before its start nor past the text; Format.NameEndSpec states that the run is maximal |
| Format.Head | src/common.mjs:89 | the piece at a position: the matched name when the pattern matches there, otherwise the character itself; Format.HeadConcat and Format.HeadShift state that it depends only on the text around it |
| Format.ScanFrom | src/common.mjs:89 | the left-to-right pass of the global regex from a position; Format.ScanFromConcat and Format.ScanFromShift state how it splits over a concatenation |
| Format.Render | src/common.mjs:87-89 | each copied character as itself and each matched name as its substitute; Format.RenderConcat states that this works piece by piece |
| Format.NameEndSpec | src/common.mjs:89 | the run scanned for a name holds only letters, digits and underscores and stops at the first other character |
| Format.MatchAt | src/common.mjs:89 | a match at a position is at least three characters long and lies within the text |
| Format.MatchAtSpec | src/common.mjs:89 | the pattern matches at a position exactly when a `{name}` placeholder starts there, and then it ends where that placeholder ends |
| Format.PlaceholderUnique | src/common.mjs:89 | a placeholder at a position has only one possible end, because `}` is not a name character |
| Format.NameEndBefore | src/common.mjs:89 | a name run stops no later than the first character that is not a name character |
| Format.NameEndConcat | src/common.mjs:89 | a name run that stops inside a text, or at its end when what follows cannot extend it, stops at the same place in the longer text |
| Format.NameEndShift | src/common.mjs:89 | a name run is unchanged by text put in front of it, up to the shift |
| Format.MatchAtConcat | src/common.mjs:89 | matching at a position of a text does not depend on what follows it, whenever `Separated(a, b)`: `a` leaves no `{name` open, or `b` starts with a character that neither extends nor closes a name |
| Format.MatchAtShift | src/common.mjs:89 | matching inside a text is unchanged by text put in front of it, up to the shift |
| Format.Next | src/common.mjs:89 | the scan always advances: behind a match's closing brace, or by one character |
| Format.HeadShift | src/common.mjs:89 | the piece found at a position, and where the scan resumes, are unchanged by text put in front |
| Format.HeadConcat | src/common.mjs:89 | the piece found at a position of a text, and where the scan resumes, do not depend on what follows it, whenever `Separated(a, b)`: `a` leaves no `{name` open, or `b` starts with a character that neither extends nor closes a name |
| Format.ScanFromShift | src/common.mjs:89 | the scan from inside the second of two texts is the scan of that text alone |
| Format.ScanFromConcat | src/common.mjs:89 | one left-to-right pass: the scan of a concatenation is the scan of each text in turn, whenever `Separated(a, b)`: `a` leaves no `{name` open, or `b` starts with a character that neither extends nor closes a name |
| Format.RenderConcat | src/common.mjs:87-89 | pieces are replaced one at a time, independently of each other |
| Format.FormatConcat | src/common.mjs:86-90 | formatting a concatenation formats each text separately, whenever `Separated(a, b)`: `a` leaves no `{name` open, or `b` starts with a character that neither extends nor closes a name |
| Format.FormatPlaceholder | src/common.mjs:87-89 | `{name}` becomes `properties[name]` when that value is truthy (non-empty), and otherwise the bare name with the braces dropped |
| Format.FormatOnePlaceholder | src/common.mjs:87-89 | a lone placeholder is replaced by its substitute |
| Format.ClosedIsNotDangling | src/common.mjs:89 | a text ending in `}` leaves no placeholder open |
| Format.FormatSplice | src/common.mjs:86-90 | a placeholder between any two texts, even after an unclosed `{name`, is substituted and both texts are formatted on their own, so a substituted value is never scanned again |
| Format.FormatNoRescan | src/common.mjs:87-89 | a value that is itself a placeholder is kept as written: `{x}` with `x` mapped to `{y}` gives `{y}` even when `y` has a value |
| Format.FormatWithoutPlaceholders | src/common.mjs:86-90 | text with no placeholder anywhere is returned unchanged |
| Format.CopyFrom | src/common.mjs:89 | a text with no placeholder is copied unchanged from any position on |
| Format.FormatCutInsidePlaceholder | src/common.mjs:89 | a cut inside a placeholder is not respected: `{a}` formats to `a`, while its halves `{a` and `}` format to `{a}` |
| Format.Separated | src/common.mjs:89 | a sufficient condition for cutting a text without changing how it formats: `a` leaves no `{name` open, or `b` starts with a character that neither extends nor closes a name |
| Format.FormatKeepsNonPlaceholders | src/common.mjs:89 | `{}` and `{a-b}` are left as they are |
| Uri.DecodeURIComponent | src/common.ts:5 | the inverse of `encodeURIComponent`, used to show that encoding loses nothing: Uri.DecodeEncode states that it undoes the encoding of every string |
| Uri.HexDigit | src/common.ts:5 | each octet is written with upper-case hexadecimal digits |
| Uri.PercentOctet | src/common.ts:5 | an octet is written as `%` and two upper-case hexadecimal digits |
| Uri.Utf8 | src/common.ts:5 | a character is encoded as one to four UTF-8 octets |
| Uri.PercentOctets | src/common.ts:5 | the octets of a character take three output characters each |
| Uri.EncodeChar | src/common.ts:5 | an encoded character is never empty and uses only the unreserved characters and `%` |
| Uri.EncodeURIComponent | src/common.ts:5 | the output uses only `A-Z a-z 0-9 - _ . ! ~ * ' ( )` and `%` |
| Uri.HexRoundTrip | src/common.ts:5 | reading a written hexadecimal digit gives back its value |
| Uri.OctetRoundTrip | src/common.ts:5 | reading a written `%XX` gives back the octet |
| Uri.Utf8Decodes | src/common.ts:5 | the percent-encoded UTF-8 of a character outside the unreserved set decodes back to that character |
| Uri.OneOctetDecodes | src/common.ts:5 | a one-octet encoding decodes back |
| Uri.TwoOctetsDecode | src/common.ts:5 | a two-octet encoding decodes back |
| Uri.ThreeOctetsDecode | src/common.ts:5 | a three-octet encoding decodes back |
| Uri.FourOctetsDecode | src/common.ts:5 | a four-octet encoding decodes back |
| Uri.PercentOctetsChars | src/common.ts:5 | percent-encoded octets consist of `%` and upper-case hexadecimal digits only |
| Uri.OctetsAt | src/common.ts:5 | the k-th `%XX` group of the encoded octets reads back as the k-th octet, whatever follows |
| Uri.DecodeStep | src/common.ts:5 | decoding reads one character and then decodes the rest |
| Uri.ThreeOctets | src/common.ts:5 | the three six-bit groups of a code point below U+10000 rebuild it |
| Uri.FourOctets | src/common.ts:5 | the four groups of a supplementary code point rebuild it |
| Uri.EncodeCharDecodes | src/common.ts:5 | decoding the start of an encoded character gives the character and its width |
| Uri.DecodeEncode | src/common.ts:5 | `decodeURIComponent(encodeURIComponent(s))` is `s` for every string |
| Uri.EncodeInjective | src/common.ts:5 | different strings have different encodings |
| SearchParams.PairText | src/common.mjs:21 | the text one loop step appends, `&enc(key)=enc(value)`; SearchParams.PairPiece states how it splits back |
| SearchParams.Search | src/common.mjs:18-22 | the whole suffix the loop builds, one pair text per entry in order; SearchParams.SearchRoundTrip states that the entries can be read back from it |
| SearchParams.ConstructURLWithSearchParams | src/common.mjs:17-25 | returns `url` followed by `&enc(k)=enc(v)` for each entry in entry order; with no entries it returns `url` unchanged |
| SearchParams.SearchAppend | src/common.mjs:21 | each loop step appends exactly one pair to the suffix built so far |
| SearchParams.Split | src/common.ts:5 | splitting always yields at least one piece |
| SearchParams.SplitPrefix | src/common.ts:5 | text without the separator becomes part of the first piece |
| SearchParams.EncodedPairs | src/common.ts:5 | the encoded pairs are the entries with key and value each encoded, in order |
| SearchParams.NoSeparatorIn | src/common.ts:5 | an encoded key or value never contains `&`, `=` or `?` |
| SearchParams.SplitPair | src/common.ts:5 | `k=v` with no `=` in either side splits on `=` into exactly `[k, v]` |
| SearchParams.SplitSearch | src/common.ts:4-8 | splitting the suffix on `&` gives an empty first piece, then one `k=v` piece per entry |
| SearchParams.PairPiece | src/common.ts:5 | one pair contributes exactly one `&`-piece, and that piece splits on `=` into the encoded key and value |
| SearchParams.PieceOf | src/common.ts:5 | an `&k=v` prefix splits into an empty piece and the piece `k=v` |
| SearchParams.SplitSearchStep | src/common.ts:5 | a piece without `&` after a leading `&` becomes a piece of its own |
| SearchParams.SearchRoundTrip | src/common.ts:5 | splitting the suffix on `&` and then `=` recovers the encoded pairs in order, and decoding them recovers the entries |
| SearchParams.DecodeEncodedPairs | src/common.mjs:21 | decoding the encoded keys and values gives back the original entries |
| SearchParams.SearchSeparators | src/common.ts:5 | a non-empty suffix starts with `&`, even before the first pair |
| SearchParams.NoQuestionMark | src/common.mjs:21 | the suffix never contains `?` |
| Objects.Assigned | src/common.mjs:76-78 | `to[key] = from[key]` for each attribute in order; Objects.AssignedProps states the keys and values it leaves |
| Objects.ExtractInto | src/common.mjs:67-83 | the three-argument form: `to`'s properties become the result of `to[key] = from[key]` for each attribute in order; the method returns nothing (`undefined`) |
| Objects.ExtractAsObject | src/common.mjs:67-83 | the two-argument form: a fresh object holding the copy of the attributes from `from`, and that object is returned |
| Objects.JsObject.constructor | src/common.mjs:73 | `to = {}`: a new object with no properties |
| Objects.AssignedProps | src/common.mjs:76-78 | the keys afterwards are the old keys plus the attributes; each attribute holds `from[key]`, or `undefined` when `from` lacks it; other keys keep their values |
| Objects.IsObjectEmpty | src/common.mjs:93-99 | `undefined` unless the argument is a plain object (so falsy values, arrays and class instances give `undefined`); for a plain object, true exactly when it has no own keys |
| Objects.ExtractedIsEmptyIff | src/common.mjs:67-99 | the object from the two-argument `extractAsObject` is empty exactly when no attributes were asked for |
| Objects.VMap | src/common.mjs:159 | the result has the input's length and holds `callback(value)` at each position |
| Objects.KMap | src/common.mjs:102 | the result has the input's length and holds `callback(index)` at each position, whatever the elements |
| Objects.Indices | src/common.mjs:102 | the keys `kmap` passes are 0, 1, ..., n - 1 |
| Objects.KMapIsVMapOfIndices | src/common.mjs:102 | `kmap` is `vmap` over the indices |
| Timing.CreateInterval | src/common.mjs:34 | `{type: "interval", amount: delay}`; Timing.IntervalDelay states the delay it gives |
| Timing.CreateTimestamp | src/common.mjs:35 | `{type: "timestamp", amount: timestamp}`; Timing.TimestampDelay states the delay it gives |
| Timing.DefaultTiming | src/common.mjs:36 | `_createTiming(1000)`: 1000 as the type and no amount; Timing.DefaultDelay states the delay it gives |
| Timing.CycleDelay | src/common.mjs:38-41 | the delay is `timing.amount` when the type is not `"timestamp"` and the amount is above zero, and 1000 otherwise; it is always positive |
| Timing.IntervalDelay | src/common.mjs:34 | an interval with a positive delay runs at that delay; zero, negative or NaN falls back to 1000 |
| Timing.TimestampDelay | src/common.mjs:35 | a timestamp timing always polls every 1000 |
| Timing.DefaultDelay | src/common.mjs:36 | the default `_createTiming(1000)` has no amount, is not a timestamp, and yields 1000 |
| CssVars.GetPropertyValue | index.js:44 | `getPropertyValue(property)` on the snapshot: the property's value, or `""` when the style does not define it |
| CssVars.GetStep | index.js:36-49 | one `getCSSVar` call as a value: the result and the table afterwards; CssVars.CacheHit and CssVars.CacheMiss state both branches |
| CssVars.FillStep | index.js:58-65 | one iteration of the `getCSSVars` loop: a falsy entry of a `--` property is replaced by its conversion, anything else is left; CssVars.FillResult states the effect of all iterations |
| CssVars.Fill | index.js:57-66 | the `getCSSVars` loop over the style's properties in order; CssVars.FillResult, CssVars.FillTouchesOnlyCustom and CssVars.FillKeepsTruthy state what it leaves |
| Js.Truthy | src/common.mjs:94 | ToBoolean: `false`, `0`, `NaN`, `""`, `null` and `undefined` are falsy, everything else is truthy; the `object &&` test here and the `if (cached)` test of the CSS cache use it |
| Js.PrototypeOf | src/common.mjs:94 | `Object.getPrototypeOf` on a value that is not `null` or `undefined`, boxing primitives |
| Js.Get | src/common.mjs:77 | the read `from[key]`: the own value, or `undefined` when the key is missing |
| CssVars.DoCssVarConversion | index.js:5-11 | `undefined` exactly when `parseFloat` gives NaN, otherwise the parsed number |
| CssVars.CssVarCache.constructor | index.js:2 | `CSSVars` starts as an empty table |
| CssVars.CssVarCache.GetCssVar | index.js:36-49 | the result and the table afterwards are exactly one specification step: a truthy hit is returned as is, and a miss stores and returns the converted value |
| CssVars.CssVarCache.GetCssVars | index.js:52-69 | the table afterwards is the specification loop over the style's properties, and the method returns the cache itself |
| CssVars.CacheHit | index.js:37-41 | a truthy cached value is returned without reading the style, and the table is unchanged |
| CssVars.CacheMiss | utils.js:36-41 | on a miss, including a cached `0` or `undefined`, the converted value is returned and stored under the property even when it is `undefined`; no other key changes, and there is no `--` check |
| CssVars.FillResult | index.js:57-66 | after `getCSSVars`, each `--` property of the style whose entry was falsy holds its converted value; every other entry is unchanged; the only new keys are `--` properties of the style |
| CssVars.FillCoversCustom | index.js:57-66 | after `getCSSVars`, every `--` property in the style is a key, and a following `getCSSVar` returns the kept truthy entry or the converted value |
| CssVars.FillTouchesOnlyCustom | es/index.mjs:36-47 | `getCSSVars` neither adds nor changes a key that does not start with `--` |
| CssVars.FillKeepsTruthy | es/index.mjs:36-47 | `getCSSVars` never overwrites a truthy entry |
| CssVars.ColdFill | esm/index.mjs:48-57 | on an empty cache, `getCSSVars` holds exactly the `--` properties of the style, each with its converted value |
| CssVars.FalsyIsReread | src/browser.mjs:25-30 | a falsy result (`0` or `undefined`) is not memoised: the next call reads the style again, returns the new conversion and stores it under the property, the rest of the table unchanged |
| CssVars.TruthyIsMemoised | src/browser.mjs:23-25 | a truthy result is memoised: the next call returns it again whatever the style has become, and changes nothing |

## Left out

- `getAllRoutes` (`src/server.mjs`) is not part of this model. It globs the filesystem and imports modules dynamically, and its `.slice(1)` relies on the glob listing the working directory first. The code has a single strict path, with no tolerant or logging mode.
- `sleep`, `sleepUntil`, `random` and the `setInterval` part of `createCycle` with its timestamp handler are left out: they depend on timers, the clock or randomness. Only the delay rule of `createCycle` is modelled.
- The DOM helpers `addMultipleEventsListener`, `append` and `isOutOfBounds` are left out, because their work is DOM calls. This includes the `Error` that `addMultipleEventsListener` throws when its last argument is not a function (`src/common.mjs:7-9`), a check made before any listener is added.
- `nullCallback` (`src/common.mjs:103`) is left out: it takes no argument, does nothing and returns `undefined`, so there is nothing to prove about it.
- `window.getComputedStyle` is a snapshot parameter. `parseFloat` is an uninterpreted parameter: floating-point parsing is not modelled.
- `quickResponseWithStatus`, `formDataToJson`, `src/with_cached_repr.py`, the environment-switching loaders and the build configuration are not part of this model. They are foreign API calls, Python reflection and build plumbing.
- Case mapping covers ASCII only; other characters are left unchanged. Full Unicode `toUpperCase` can change a string's length, and the word regex only matches ASCII letters.
- `ConstructURLWithSearchParams` takes the entries as an ordered sequence. It does not model the way `Object.entries` lists integer-like keys first, nor values that are not strings.
- `EncodeURIComponent` works on Unicode scalar values, so the URIError that `encodeURIComponent` raises for a lone surrogate cannot arise in the model.
- `Format.Format` takes properties as a map of own string values, where "truthy" means non-empty. Inherited names such as `constructor`, and values that are not strings, are not modelled.
- `Objects.ExtractAsObject` and `Objects.ExtractInto` cover the two call shapes the source distinguishes. Other shapes are not modelled: a falsy `to` with attributes (a TypeError on write), an attribute list that is not iterable, and a `from` that is the same object as `to`.
- `Objects.ExtractInto` and `Objects.ExtractAsObject` model `to[key] = from[key]` (`src/common.mjs:77`) as an own-key copy. Three behaviours of that line are not modelled. A read of an inherited name such as `from["toString"]` gives the inherited value in JavaScript, but `undefined` in the model. An assignment to `to["__proto__"]` sets the prototype instead of adding a key. A `null` or `undefined` `from` throws a TypeError.
- `Objects.IsObjectEmpty` models an object by its prototype and its own enumerable string keys. Symbol keys, non-enumerable keys and getters are not modelled.
- `Objects.KMap` and `Objects.VMap` take the callback as a pure function over a dense sequence. Side effects, the `this` binding and holes in sparse arrays are not modelled.
- `Timing.CycleDelay` takes the amount as an optional number. `Date` objects or strings as amounts, and the `>` comparison's coercions, are not modelled.
- `Js.Num` folds `-0` into `0`. The truthiness tests and the `> 0` test of the delay rule treat `-0` as `0`, so they are unaffected. But `getCSSVar` returns the number `parseFloat` gives (`index.js:45-48`) and `getCSSVars` stores it (`index.js:64`): where JavaScript hands a caller `-0`, for instance for the value `"-0"`, the model hands back `0`.
- `CssVars.CssVarCache` keys are own string keys. Inherited names such as `constructor` or `__proto__` are not modelled, and neither are concurrent callers.
