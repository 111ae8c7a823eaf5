# Order-message parser and client matcher, in Dafny

This project models the logic of a chat-bot webhook that takes orders for cheese. The
webhook is one JavaScript file, `cloudflare-worker/index.js`. It receives a free-form
message such as `добавить 2буррата 3 моцарелла иван петров 05.06` and works it out in
these steps:

- **mode**: `update`, `add` or `new`, from a leading keyword (`обновить`/`изменить`,
  `добавить`). The keyword, matched case-insensitively, is cut off.
- **tokens**: a space goes between a digit and a letter. The text is split on white
  space and empty pieces are dropped.
- **items**: one left-to-right scan for `<integer> <cheese name>` pairs, which records
  the indices it consumed.
- **delivery date**: the first remaining token of the form `day.month`. Failing that,
  the next Monday, Wednesday or Friday.
- **client name**: the remaining tokens without the `DD.MM`-shaped ones, joined with
  spaces and lower-cased.
- **client check**: whether that name is in the client list. If it is not, the closest
  list entry by edit distance is offered, provided it is at most two edits away.

The modules follow that order:

- `Chars`: character classes and lower-casing.
- `Strings`: `trim`, `join`, `split` on one character, and `Option` for `null`/`NaN`.
- `Numbers`: `parseInt`, `String(n)` and `padStart`.
- `Tokenizer`
- `Modes`
- `Items`
- `Dates`
- `Client`
- `EditDistance`
- `Matcher`
- `Orders`: the whole pipeline.

Pure code in the source (the tokenising chain, the filters, mode selection,
`formatSheetDate`) is modelled as functions and lemmas. The loops are methods, each
proved against a specification function:

- the item scan;
- `extractDate`;
- `getNextDeliveryDate`;
- `findClosest`;
- the table filling of `levenshtein`, on a two-dimensional array.

Inputs in place of the environment:

- the message text;
- today's weekday (0 is Sunday);
- a predicate `representable` that says whether `new Date(year, month - 1, day)` is a
  valid date;
- the client list that the source fetches from its database.

Behaviours of the code worth knowing:

- `parseInt("5.6")` is 5, so a date-shaped token right before a cheese name is taken
  as a quantity.
- Quantities of zero or below are accepted: nothing in the code checks the sign of
  the integer `parseInt` returns.
- The client-name filter `^\d{1,2}\.\d{1,2}$` is narrower than what `extractDate`
  accepts. So `123.4` or `1.2.3` can serve as the date and still stay in the client
  name.

## Model

| member | source | states |
|---|---|---|
| Chars.Lower | cloudflare-worker/index.js:11 | lower-casing changes only upper-case Latin and Cyrillic letters, leaves no upper-case letter, and keeps digits, white space and letters what they were |
| Strings.Trim | cloudflare-worker/index.js:10 | `trim` leaves no white space at either end and removes only white space, from both ends |
| Strings.JoinSplitOn | cloudflare-worker/index.js:108 | splitting on `.` loses nothing: joining the pieces with `.` gives back the token |
| Numbers.ParseInt | cloudflare-worker/index.js:33 | `parseInt` gives a number exactly when a digit follows the optional sign, and a negative one only after a minus sign |
| Numbers.ParseIntDigitsThen | cloudflare-worker/index.js:33 | `parseInt` reads the leading digits and ignores what follows them |
| Numbers.ParseIntNegative | cloudflare-worker/index.js:33 | a leading minus sign negates the value of the digits |
| Numbers.ParseIntPlus | cloudflare-worker/index.js:33 | a leading plus sign leaves the value of the digits unchanged: `parseInt("+3")` is 3 |
| Numbers.ParseIntRejects | cloudflare-worker/index.js:33 | a string that does not start with a sign or a digit gives `NaN` |
| Numbers.DecimalString | cloudflare-worker/index.js:90-91 | `String(n)` is a non-empty digit string of value `n` with no leading zero |
| Numbers.PadStart | cloudflare-worker/index.js:90-91 | `padStart` gives the string preceded by fill characters up to the width, never shorter than the string |
| Numbers.PadStartValue | cloudflare-worker/index.js:90-91 | zero padding keeps the value of a digit string |
| Numbers.ZerosValue | cloudflare-worker/index.js:90-91 | leading zeros in any number leave the value of a digit string alone |
| Numbers.PadToTwoDigits | cloudflare-worker/index.js:90-91 | a number below 100 padded to two places is exactly two digits |
| Numbers.ParseDecimalString | cloudflare-worker/index.js:90-91 | `parseInt(String(n))` is `n` |
| Tokenizer.SpaceBetween | cloudflare-worker/index.js:22-23 | one global `replace` pass keeps the first character of the text and leaves a single character alone; SpaceBetweenAppend fixes the rest |
| Tokenizer.SpaceBetweenAppend | cloudflare-worker/index.js:22-23 | for disjoint classes the pass works piece by piece, adding one space where two pieces meet at a match; with the single-character case this puts a space at each digit/letter junction and changes nothing else |
| Tokenizer.SpaceBetweenSeparates | cloudflare-worker/index.js:22-23 | after one replace pass no character of the first class is directly followed by one of the second |
| Tokenizer.SpaceBetweenKeepsText | cloudflare-worker/index.js:22-23 | a replace pass only inserts white space |
| Tokenizer.SpaceBetweenKeepsNoAdjacent | cloudflare-worker/index.js:22-23 | the second pass does not undo the separation made by the first |
| Tokenizer.SplitWhitespace | cloudflare-worker/index.js:24 | `split(/\s+/)` gives at least one piece, and no piece holds white space |
| Tokenizer.SplitGlue | cloudflare-worker/index.js:24 | words without white space, separated by non-empty runs of white space, split back into the words |
| Tokenizer.ConcatSplitWhitespace | cloudflare-worker/index.js:24 | the pieces together hold exactly the non-space characters of the text |
| Tokenizer.NonEmpty | cloudflare-worker/index.js:26 | `filter((w) => w)` keeps exactly the non-empty pieces |
| Tokenizer.NonEmptyAppend | cloudflare-worker/index.js:26 | the filter works piece by piece, so the kept pieces stay in their order and keep their repetitions |
| Tokenizer.NonEmptyOne | cloudflare-worker/index.js:26 | one piece is kept exactly when it is not empty |
| Tokenizer.TokensAreTokens | cloudflare-worker/index.js:21-26 | every token is non-empty, holds no white space, and has no digit next to a letter of `[а-яa-z]` in either order |
| Tokenizer.Tokenize | cloudflare-worker/index.js:21-26 | the word list holds no empty word; TokenizeGlue states where the text is cut |
| Tokenizer.TokensKeepText | cloudflare-worker/index.js:21-26 | the tokens end to end are the text without its white space |
| Tokenizer.TokenizeEmpty | cloudflare-worker/index.js:21-26 | an empty text has no tokens |
| Tokenizer.TokenizeJoin | cloudflare-worker/index.js:21-26 | tokens joined with single spaces tokenise back to the same tokens |
| Tokenizer.TokenizeIdempotent | cloudflare-worker/index.js:21-26 | tokenising the tokens rejoined with single spaces gives the same tokens |
| Tokenizer.SpaceBetweenGlue | cloudflare-worker/index.js:22-23 | on tokens written one after another, a pass turns exactly the empty separators at a junction of its two classes into a space |
| Tokenizer.TokenizeGlue | cloudflare-worker/index.js:21-26 | the text is cut only at white space and where a digit meets a letter: tokens separated by runs of white space, or by nothing at a digit/letter junction, tokenise back to the same tokens |
| Tokenizer.TokenizeNumberThenWord | cloudflare-worker/index.js:21-26 | digits written directly before letters become two tokens, the number and the word |
| Tokenizer.TokenizeQuantityGluedToName | cloudflare-worker/index.js:21-26 | `2буррата` tokenises to `2` and `буррата` |
| Modes.ModeOf | cloudflare-worker/index.js:13-17 | the mode is `new` exactly when the lowered text starts with none of the keywords; `update` and `add` each start with a keyword that selects them |
| Modes.StripKeyword | cloudflare-worker/index.js:19 | the keyword removal leaves a suffix of the text |
| Modes.StartsWithLowered | cloudflare-worker/index.js:11-19 | `lowered.startsWith(kw)` agrees with the case-insensitive match of the keyword at the start of the text |
| Modes.ModeAgreesWithStrip | cloudflare-worker/index.js:13-19 | the mode is `new` exactly when no keyword is stripped; otherwise exactly one keyword of that mode is cut from the very start |
| Modes.StripKeywordShape | cloudflare-worker/index.js:19 | at most one keyword is removed, and only from the start |
| Items.CheeseIsNoQuantity | cloudflare-worker/index.js:33-35 | a cheese name never parses as an integer |
| Items.PairsDoNotOverlap | cloudflare-worker/index.js:32-40 | the second token of a pair never starts a pair |
| Items.StartsApart | cloudflare-worker/index.js:32-40 | pair starts increase and are at least two apart, so items come in token order without sharing tokens |
| Items.ItemsFromStarts | cloudflare-worker/index.js:33-36 | item `k` has the quantity `parseInt` of the token starting the `k`-th pair and the lower-cased next token as its name, which is a cheese |
| Items.MarkedCount | cloudflare-worker/index.js:37-38 | `used` holds two indices per item |
| Items.MarkedGrows | cloudflare-worker/index.js:37-38 | a pair adds two indices to `used` that were not in it before |
| Items.MarkedIsPairs | cloudflare-worker/index.js:37-38 | an index is in `used` exactly when a pair starts at it or just before it |
| Items.ScanCount | cloudflare-worker/index.js:32-40 | after the scan `used` holds exactly two indices per item |
| Items.ScanBounds | cloudflare-worker/index.js:32-40 | every index in `used` is an index of the tokens |
| Items.ScanResult | cloudflare-worker/index.js:32-40 | after the scan every name is a cheese, `used` has exactly twice as many elements as there are items, all below the token count, and holds exactly the tokens of the pairs |
| Items.ScanItems | cloudflare-worker/index.js:32-40 | the loop produces the items and the `used` set of the scan specification, with the properties of `ScanResult` |
| Items.DateBeforeCheeseIsQuantity | cloudflare-worker/index.js:33-35 | `5.6 буррата` is an item with quantity 5 |
| Items.NegativeQuantityIsKept | cloudflare-worker/index.js:33-36 | `-3 Моцарелла` is an item with quantity -3 |
| Items.KeptIndicesSpec | cloudflare-worker/index.js:42 | the kept indices are exactly the unused ones, in increasing order, as many as the indices minus the used ones |
| Items.RemainingAtKept | cloudflare-worker/index.js:42 | `remainingWords` is the words at the unused indices, in their original order |
| Items.RemainingCount | cloudflare-worker/index.js:42 | exactly as many words are removed as `used` holds |
| Items.Remaining | cloudflare-worker/index.js:42 | the filter keeps no more words than there are, and only words of the list |
| Dates.DateFields | cloudflare-worker/index.js:108-112 | a token names a day and a month only if it holds a dot |
| Dates.FirstDateIsFirst | cloudflare-worker/index.js:106-118 | the date is `null` exactly when no token names a valid date; otherwise it is the date of a token that does, with none such before it |
| Dates.ExtractDate | cloudflare-worker/index.js:106-118 | the loop with early return gives that first date, or `null` |
| Dates.DateFieldsOfDigits | cloudflare-worker/index.js:108-112 | digits, a dot and digits give the two digit values as day and month |
| Dates.DateShapedHasFields | cloudflare-worker/index.js:46 | every `DD.MM`-shaped token the name filter drops has day and month fields |
| Dates.IsDateShaped | cloudflare-worker/index.js:46 | a `DD.MM`-shaped token has three to five characters, holds a dot, and starts and ends with a digit |
| Dates.LongDayIsNotDateShaped | cloudflare-worker/index.js:46 | a token with a three-digit day, such as `123.4`, names that day and month for `extractDate` but is not dropped from the client name |
| Dates.ThreePiecesIsNotDateShaped | cloudflare-worker/index.js:46 | `1.2.3` names day 1 of month 2 but is not dropped from the client name |
| Dates.FormatSheetDate | cloudflare-worker/index.js:89-93 | `extractDate` reads the rendering back as the same day and month number |
| Dates.FormatSheetDateRoundTrip | cloudflare-worker/index.js:89-93 | for day and month below 100 the rendering is a five-character `DD.MM` token that the name filter drops |
| Dates.OffsetFromFinds | cloudflare-worker/index.js:98-102 | the loop from offset `i` stops at the first delivery day at or after `i` |
| Dates.DeliveryOffsetIsNearest | cloudflare-worker/index.js:95-104 | the next delivery date is the nearest Monday, Wednesday or Friday, at most two days away, so the fallback after the loop is never reached |
| Dates.NextDeliveryOffset | cloudflare-worker/index.js:95-104 | the loop returns the offset of that specification |
| Client.DropDateShaped | cloudflare-worker/index.js:46 | the filter keeps exactly the words that are not `DD.MM`-shaped |
| Client.DropDateShapedAppend | cloudflare-worker/index.js:46 | the filter works word by word, so the kept words stay in their order and keep their repetitions |
| Client.DropDateShapedOne | cloudflare-worker/index.js:46 | one word is kept exactly when it is not `DD.MM`-shaped |
| Client.LowerStrJoin | cloudflare-worker/index.js:47 | lower-casing the joined words is joining the lower-cased words |
| Client.ClientName | cloudflare-worker/index.js:46-47 | the client name has no white space at either end |
| Client.ClientNameShape | cloudflare-worker/index.js:46-47 | for tokens the name is the kept words lower-cased and joined with single spaces, has no white space at either end, and is empty exactly when no word is kept |
| EditDistance.DistBounds | cloudflare-worker/index.js:132-146 | the distance is at least the difference of the lengths and at most the longer length |
| EditDistance.DistSymmetric | cloudflare-worker/index.js:132-146 | the distance is symmetric |
| EditDistance.DropLastOfB | cloudflare-worker/index.js:132-146 | dropping one character changes the distance by at most one |
| EditDistance.MatchShortcut | cloudflare-worker/index.js:140-141 | on matching last characters the distance is that of the shorter prefixes, the shortcut the source takes |
| EditDistance.DistZero | cloudflare-worker/index.js:132-146 | the distance is zero exactly for equal prefixes |
| EditDistance.DistanceProperties | cloudflare-worker/index.js:132-146 | `d(a, a) = 0`, `d(a, "")` equal to the length of `a`, `d(a, b) = 0` only for `a = b`, the length bounds, and symmetry |
| EditDistance.CellValue | cloudflare-worker/index.js:139-142 | the source's cell formula gives the recursive distance from the three neighbouring cells |
| EditDistance.FillRow | cloudflare-worker/index.js:138-143 | the inner loop fills one row of the table with the distances and leaves the rows below it alone |
| EditDistance.Levenshtein | cloudflare-worker/index.js:132-146 | the table method returns the recursive edit distance |
| Matcher.FirstMinIndex | cloudflare-worker/index.js:121-128 | the index the loop keeps is the first at the least distance |
| Matcher.Closest | cloudflare-worker/index.js:120-130 | `null` for an empty list; non-null exactly when some entry is at most two edits away, and then the first entry at the least distance |
| Matcher.FindClosest | cloudflare-worker/index.js:120-130 | the loop with its `Infinity` start gives that result |
| Matcher.ExactNameIsClosest | cloudflare-worker/index.js:63-64 | a name in the list is its own closest match |
| Matcher.SuggestionIsNear | cloudflare-worker/index.js:63-69 | a name not in the list is offered a different list entry one to two edits away |
| Orders.Parse | cloudflare-worker/index.js:10-64 | the order the handler works out: its client name is trimmed, and a suggestion exists exactly when some listed client is within two edits; the Parse lemmas below state what each part is |
| Orders.ParseOrder | cloudflare-worker/index.js:10-47 | the handler's steps give the order of the pipeline specification |
| Orders.RemainingAreTokens | cloudflare-worker/index.js:21-42 | the words left after the scan are tokens of the message |
| Orders.RemainingCountsItems | cloudflare-worker/index.js:32-42 | two words leave the remainder for each item |
| Orders.DeliveryIsFirstOrNearest | cloudflare-worker/index.js:43 | the delivery is the date of the first valid date token, with none before it; failing one, the nearest Monday, Wednesday or Friday, at most two days away, with no delivery day before it |
| Orders.ClientMatch | cloudflare-worker/index.js:63-69 | a known client is its own closest match; an unknown one is offered a different name one to two edits away, if any |
| Orders.ParseItems | cloudflare-worker/index.js:10-40 | every item of the order is a cheese |
| Orders.ParseDelivery | cloudflare-worker/index.js:10-43 | the order's delivery is the first valid date token left after the scan, with none before it, or else the nearest delivery day within two days, with none before it |
| Orders.ParseClient | cloudflare-worker/index.js:10-64 | the order's client name is the remainder without `DD.MM`-shaped tokens, lower-cased and joined with single spaces, trimmed and empty only when nothing is left; a known client matches itself and an unknown one is offered a name one to two edits away |

## Left out

- HTTP handling: reading the request, the `no_text` answer, building responses and status codes. This is transport.
- The database request for the client list and the mapping of its documents. This is network input, so the list is a parameter.
- `sendMsg` and every reply text. These are network output.
- `env` secrets. This is configuration.
- JavaScript `Date`: the current date and year, and how `new Date(year, month - 1, day)` rolls over or becomes invalid. This is library behaviour.
  - A date is the (day, month) pair read from the token.
  - Its validity is the `representable` parameter.
  - The default date is an offset in days from today's weekday.
- `sheet` (the `formatSheetDate` of the delivery date at line 44) is computed but never used. `formatSheetDate` itself is modelled on a day and a month index.
- Chars.Lower: covers Latin and basic Cyrillic upper case (`А`-`Я` and `Ѐ`-`Џ`). Full Unicode lower-casing, including mappings that change a string's length, is library behaviour left out.
- The exact Unicode extent of `\s` and of the `i` flag's case folding. White space is the JavaScript white-space and line-terminator set.
- Numbers.ParseInt: does not skip leading white space, take a radix, read a `0x` prefix, or produce `-0`. It is only applied to tokens and to their `.`-pieces, which never hold white space. A `0x` prefix cannot survive the tokeniser, which separates the `0` from the `x`.
- `parseInt` values beyond the exactly representable range of JavaScript numbers. Integers are unbounded here.
- `Infinity` as the starting minimum of `findClosest`. It is `None`.
- EditDistance.Levenshtein: strings are sequences of Unicode code points. JavaScript's `length` and indexing count UTF-16 code units, so a character outside the Basic Multilingual Plane (an emoji, say) is one edit here and two in the source. For names made of BMP characters, which covers Latin and Cyrillic, the two agree.
- Matcher.Closest: inherits the code-point distance above. A name with a non-BMP character can get a suggestion here that the source, counting two code units, would not make.
- The triangle inequality of the edit distance. It is not needed by anything the source relies on.
