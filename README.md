# Appointment planner — a verified Dafny model

This project models the core of a small command-line appointment planner
written in C:

- **planner.c** holds the appointment list engine and the CSV codec.
  - The list is singly linked, with `head` and `tail` pointers.
  - `newList` creates a list and `addAppointment` appends to it.
  - `insertAppointment` inserts in start order: it scans with a strict `<`, so a new entry goes before existing entries with the same start.
  - `clearList` empties the list, and `displayList` filters its entries by local calendar date.
  - `saveList` writes one `"%ld,%s\n"` line per appointment.
  - `readList` reads the file back with `fgets` into a 256-byte buffer, then parses each piece with `sscanf("%ld,%[^\n]")`. It appends the entries that start after the current time, counts the expired ones, and flags the file as damaged when a piece does not yield two fields.
- **timehelper.c** holds the date-text parser and validator.
  - `isNumber` checks that a string is all digits.
  - `containsNegative` is a variadic negativity check.
  - `compareTm` compares two `struct tm` values field by field.
  - `convertStrWithCheck` converts a token of 2 to 4 digits, and gives -1 for anything else.
  - `parse_time` uses `strtok` on the delimiters `-`, `:`, space and newline. It converts six tokens and maps each one into its `tm` field, with -1 as the out-of-range sentinel.
  - `isValidDate` checks that no field is negative, then normalises the tm with `mktime` and compares the result against a copy.

Files:

- `wrappers.dfy`: the `Option` type. `None` plays the role of C's NULL token and of a failed `sscanf`.
- `numerals.dfy`: what the C library does with digits, in these terms:
  - `isdigit` and `isspace`;
  - the `long` range;
  - the decimal value that `atoi` and `strtol` compute;
  - the saturation `strtol` applies at the `long` bounds;
  - the text `printf("%ld")` writes.
- `timehelper.dfy`: timehelper.c.
  - `isNumber`, `containsNegative`, `convertStrWithCheck` and `isValidDate` are methods, each proved against a specification.
  - `strtok` is a method that advances a cursor over the input text, proved against `Tokens`, the maximal runs of non-delimiter characters.
  - `parse_time` is a method that fills a six-element `components` array in a loop, proved equal to `ParsedTime`.
- `planner.dfy`: the list engine.
  - `List` and `Element` are classes with real `head`, `tail` and `next` pointers.
  - Ghost fields `Nodes` and `Contents` name the chain from head to tail and the appointments it holds. `Valid()` ties them to the pointers, including: `head` is null exactly when the list is empty, and `tail` is the last element, with `tail.next == null`.
  - The pure functions `InsertPos` and `InsertSorted` state where `insertAppointment` places an entry. Lemmas prove that this keeps the list sorted, adds exactly one entry and keeps the old entries' order.
- `codec.dfy`: `saveList` and `readList`.
  - `Serialize` is the text `saveList` writes.
  - `FgetsLines` gives the pieces successive `fgets(line, 256, file)` calls deliver.
  - `ParseLine` is what `sscanf("%ld,%[^\n]")` accepts and stores.
  - `Load` is `readList`'s loop.
  - Lemmas prove that `Load` keeps exactly the parsed entries after `now`, in file order. They also prove the save-then-read round trip.

Two comments in timehelper.c describe something other than what the code does. The model follows the code:

- The comment at timehelper.c:79 says tokens of length 1 to 5 are accepted. The exclusive bounds at timehelper.c:83 accept lengths 2 to 4.
- The comment at timehelper.c:29 says `containsNegative` returns true when all arguments are positive. The code at timehelper.c:43-44 returns true when one of them is negative.

`readList` appends the entries it reads in file order, with `addAppointment` (planner.c:188). It does not insert them in start order, so a file whose lines are out of order gives an unsorted list.

## Model

| member | source | states |
|---|---|---|
| Numerals.DecimalValue | timehelper.c:84 | the value `atoi` reads from a digit string is below 10 to the power of its length |
| Numerals.ClampLong | planner.c:174 | a value in the `long` range is kept |
| Numerals.ClampLongNearest | planner.c:174 | every value becomes the `long` nearest to it, so one outside the range saturates at the bound on its side, as `strtol` does for `%ld` |
| Numerals.NatDigits | planner.c:138 | the digits `%ld` prints for a non-negative value are non-empty, all digits, and read back as that value |
| Numerals.LongToText | planner.c:138 | the text `%ld` prints starts with a minus sign or a digit, and holds only those characters |
| Numerals.Padded | timehelper.c:79 | a zero-padded digit group has exactly the requested width and reads back as its number |
| TimeHelper.IsNumber | timehelper.c:15-27 | true iff every character is a decimal digit, so true for the empty string |
| TimeHelper.ContainsNegative | timehelper.c:30-52 | true iff one of the first n arguments is negative |
| TimeHelper.CompareTm | timehelper.c:56-64 | true iff the year, month, day, hour, minute and second fields are equal, in that order |
| TimeHelper.CompareTmIsEquivalence | timehelper.c:56-64 | compareTm is reflexive, symmetric and transitive |
| TimeHelper.CompareTmIgnoresOnlyDst | timehelper.c:56-64 | compareTm holds iff the two tm values differ at most in tm_isdst |
| TimeHelper.IsValidDate | timehelper.c:66-76 | the result is true iff no field is negative, mktime returns more than -1, and mktime leaves year, month, day, hour, minute and second unchanged; the normalised tm is returned as well |
| TimeHelper.Converted | timehelper.c:80-88 | not -1 iff the token exists, has 2 to 4 characters and all are digits; then it is the token's decimal value, in 0..9999 |
| TimeHelper.FourDigitsBound | timehelper.c:83-84 | a string of at most four digits converts to at most 9999 |
| TimeHelper.ConvertStrWithCheck | timehelper.c:80-88 | the method's result equals Converted, with -1 for a NULL token |
| TimeHelper.Tokens | timehelper.c:102-106 | every token strtok yields is non-empty and free of the delimiters "-: \n" |
| TimeHelper.TokensOfTokenThenDelimiter | timehelper.c:102-106 | a token followed by a delimiter is the first token, whatever follows it |
| TimeHelper.TokensSplitAtDelimiter | timehelper.c:102-106 | the tokens of a + d + b are the tokens of a followed by the tokens of b, for any delimiter d, so delimiters are interchangeable and a run of them counts as one |
| TimeHelper.Strtok | timehelper.c:103-106 | one strtok call returns the first token of the text after the cursor; the remaining tokens are those after the new cursor; NULL comes back only when no token is left |
| TimeHelper.TokensSkipDelimiter | timehelper.c:103-106 | skipping a leading delimiter does not change the tokens |
| TimeHelper.TokensFromRun | timehelper.c:103-106 | a maximal run of non-delimiters is the first token, and scanning goes on after the delimiter that ends it |
| TimeHelper.StrtokAdvances | timehelper.c:103-106 | each call hands out the next token in order, and NULL once the tokens are used up |
| TimeHelper.Components | timehelper.c:101-108 | the components array has exactly six entries |
| TimeHelper.Conversions | timehelper.c:101-108 | the conversions of the first n tokens are n values |
| TimeHelper.ConversionsSnoc | timehelper.c:105-108 | each loop iteration appends the conversion of the next token |
| TimeHelper.MissingTokenIsSentinel | timehelper.c:103-106 | a component with no token left for it is -1 |
| TimeHelper.LaterTokensIgnored | timehelper.c:101-108 | texts that agree on their first six tokens parse to the same tm: later tokens are ignored |
| TimeHelper.FieldsOf | timehelper.c:117-123 | each field is -1 or within its range (year 121..8099, month 0..11, day 1..31, hour 0..23, minute and second 0..59); a field is not -1 iff its component is in range (year 2021..9999, month 1..12, day 1..31, hour 0..23, minute and second 0..59); tm_isdst is -1 |
| TimeHelper.ParseTime | timehelper.c:95-126 | the method that runs six strtok calls, converts into an array and maps the fields produces ParsedTime of the input |
| TimeHelper.NextToken | timehelper.c:103-106 | the i-th strtok call returns the i-th token, or NULL when there is none, and leaves the tokens after it |
| TimeHelper.ParsedTimeNonNegative | timehelper.c:117-122 | a parsed tm has no negative field iff all six components were within range, so isValidDate's first check passes exactly then |
| TimeHelper.DigitsAreToken | timehelper.c:102 | a non-empty run of digits contains no delimiter |
| TimeHelper.LayoutTokens | timehelper.c:102-106 | tokens separated by delimiters are read back as exactly those tokens |
| TimeHelper.ComponentsOfSixTokens | timehelper.c:101-108 | a text with six tokens has their six conversions as components |
| TimeHelper.ConvertedPadded | timehelper.c:80-88 | a zero-padded group of 2 to 4 digits converts to its number |
| TimeHelper.IsoTextTokens | timehelper.c:90-93 | "yyyy-mm-dd hh:mm:ss\n" tokenises into its six digit groups |
| TimeHelper.IsoTextComponents | timehelper.c:90-108 | "yyyy-mm-dd hh:mm:ss\n" gives the six numbers as components |
| TimeHelper.ParseValidIsoText | timehelper.c:90-123 | an in-range date in the recommended format parses to year-1900, month-1, day, hour, minute, second, with tm_isdst -1 |
| TimeHelper.Year2020Rejected | timehelper.c:117 | the year 2020 itself gets the year sentinel -1 |
| TimeHelper.SingleDigitNeedsPadding | timehelper.c:78-84 | "5" converts to -1 while "05" converts to 5 |
| Planner.InsertPos | planner.c:94-102 | the scan passes exactly the leading entries whose start is below the key, and stops at the first one that is not, or at the end |
| Planner.InsertSorted | planner.c:94-116 | the sequence insertAppointment leaves is one longer and contains the new appointment; where it goes is stated by the lemmas below |
| Planner.InsertPosUnique | planner.c:98-102 | the stopping point is determined by those two properties |
| Planner.InsertPreservesSorted | planner.c:94-116 | inserting into a list sorted non-decreasing by start leaves it sorted |
| Planner.InsertIsOneMore | planner.c:104-116 | the contents after insertion are the old multiset plus the new appointment, one longer |
| Planner.InsertKeepsOrder | planner.c:104-116 | the new appointment sits at one position, and removing it from there gives back the old sequence, so old entries keep their relative order |
| Planner.InsertBeforeEqualStarts | planner.c:98-116 | on a sorted list the new entry lands after exactly the entries with a smaller start, so it precedes the entries with an equal start |
| Planner.AppendSortedIff | planner.c:55-74 | appending keeps a sorted list sorted iff the list is empty or its last start is not above the new one |
| Planner.Displayed | planner.c:235-266 | displayList shows no more entries than the list holds, and each one it shows passes its test: all three arguments are 0, or the entry's local date is that day, month and year |
| Planner.DisplayAll | planner.c:242-246 | with day, month and year all 0 every entry is displayed, in list order |
| Planner.DisplayedMembers | planner.c:247-257 | an entry is displayed iff it is in the list and its local date is the given day, month and year |
| Planner.DisplayedConcat | planner.c:235-266 | displaying two stretches of a list displays each in turn, so list order is preserved |
| Planner.Element.constructor | planner.c:57-63 | a new element holds the appointment and has no successor |
| Planner.LinkedInsert | planner.c:104-116 | an element spliced in at position k, with the link into k redirected to it and it linking to the old k-th element, leaves a linked chain |
| Planner.DistinctInsert | planner.c:104-116 | splicing in an element not already in the chain keeps the elements distinct |
| Planner.HoldsInsert | planner.c:104-116 | after the splice the elements hold the old appointments with the new one at position k |
| Planner.ChainInsert | planner.c:104-122 | splicing a new element in at position k, with the link into k redirected to it, its next set to the old k-th element, and head or tail moved to it when it lands at an end, keeps the chain linked, distinct and holding the appointments in order, with tail ending the chain |
| Planner.List.constructor | planner.c:42-52 | a new list is valid and empty, with head and tail null |
| Planner.List.AddAppointment | planner.c:55-74 | the contents become the old contents followed by a; the list stays valid, so head and tail are set and tail is the new last element, with no successor |
| Planner.List.InsertAppointment | planner.c:77-124 | the contents become InsertSorted of the old contents; the list stays valid, with tail the last element |
| Planner.List.Scan | planner.c:94-102 | the walk stops at InsertPos; current is the element there (null at the end) and previous the one before (null when nothing was passed) |
| Planner.List.LinkOnly | planner.c:87-91 | on an empty list the new element becomes both head and tail, and the list holds just its appointment |
| Planner.List.LinkFirst | planner.c:105-110 | the new element becomes the head, before all old entries, and the list stays valid |
| Planner.List.LinkAfter | planner.c:111-122 | the new element goes between previous and current, and becomes the tail when current is null; the list stays valid |
| Planner.List.ClearList | planner.c:211-229 | the list becomes empty, with head and tail null |
| Planner.List.DisplayList | planner.c:233-268 | the appointments printed are Displayed of the contents, walking from head to tail |
| Codec.ConcatSnoc | planner.c:133-141 | writing one more piece appends it to the file |
| Codec.FormatLine | planner.c:138 | the line written for an appointment has at least three characters and ends in a newline |
| Codec.Lines | planner.c:138 | one line per appointment |
| Codec.SerializePrefix | planner.c:133-141 | each loop iteration appends the line of the next appointment |
| Codec.Serialize | planner.c:133-141 | the file saveList writes is empty iff the list is |
| Codec.SaveList | planner.c:127-145 | the file written is Serialize of the contents, in list order |
| Codec.ChunkLength | planner.c:166-167 | one fgets call takes at least one character and at most 255 |
| Codec.FgetsLines | planner.c:166-167 | every piece fgets delivers is non-empty and fits the 256-byte buffer |
| Codec.FgetsLinesCoverFile | planner.c:167 | the pieces fgets delivers, joined, are the whole file |
| Codec.FgetsOneLine | planner.c:166-167 | a newline-terminated line that fits the buffer comes back whole, and reading goes on after it |
| Codec.FgetsWholeLines | planner.c:166-167 | a file of such lines is read back line by line |
| Codec.ParseLine | planner.c:174 | when sscanf yields two fields, the description is non-empty and free of newlines |
| Codec.ParseNumber | planner.c:174 | past the sign, a match stores a description that is non-empty and free of newlines |
| Codec.ParseDescription | planner.c:174 | `%[^\n]` succeeds with the given start and a non-empty description free of newlines |
| Codec.ParseDescriptionUpTo | planner.c:174 | `%[^\n]` takes everything up to the newline, and fails when nothing is before it |
| Codec.ParseLineFromNumber | planner.c:174 | a line with no leading white space has its number read from the sign or first digit |
| Codec.ParseNumberUpTo | planner.c:174 | `%ld,` reads the digits up to the comma as the start |
| Codec.ParseLaidOutLine | planner.c:174 | a line with an optional minus sign, digits, a comma, a description and a newline parses to the signed value and the description, or fails when the description is empty |
| Codec.ParseSignedLine | planner.c:174 | the same, for a line built from its sign, digits and description |
| Codec.ParseFormattedLine | planner.c:174 | a line saveList wrote for a description without newlines parses back to the same start and description; an empty description is read as damaged |
| Codec.ParseNegativeLine | planner.c:174 | the same for a negative start |
| Codec.ParseNonNegativeLine | planner.c:174 | the same for a non-negative start |
| Codec.ParseSaturates | planner.c:174 | a line whose number lies beyond the `long` range stores `LONG_MAX`, or `LONG_MIN` when a minus sign precedes it, as glibc's `%ld` saturates |
| Codec.LoadStepEffect | planner.c:174-194 | one iteration of readList's loop (`LoadStep`) keeps the entries appended so far; it adds one to the kept entries plus the skipped count exactly when the line parses; the damaged flag is set iff it was set or the line does not parse |
| Codec.LoadBounds | planner.c:167-196 | after readList's loop (`Load`) over some lines, the kept entries plus the skipped count are at most the number of lines, and damage needs at least one line |
| Codec.LoadSnoc | planner.c:167-196 | reading one more line is one more loop step |
| Codec.LoadPrefix | planner.c:167-196 | the loop over the first i+1 lines is one step after the loop over the first i |
| Codec.ReadList | planner.c:148-208 | readList returns a fresh, valid list whose contents, skipped count and damaged flag are what Load gives for the pieces fgets delivers |
| Codec.LoadLine | planner.c:174-194 | an unparsable line sets the damaged flag; a parsed line with start after now is appended; any other parsed line increments the skipped count |
| Codec.Upcoming | planner.c:176 | an entry is kept iff it is in the input and starts after now |
| Codec.SomeLineSnoc | planner.c:192-194 | some line of a file is unparsable iff one was before the last line or the last line is |
| Codec.LoadIsUpcomingParsed | planner.c:167-196 | the kept entries are exactly the parsed entries that start after now, in file order; the skipped count is the number of the other parsed entries; damaged holds iff some line does not parse |
| Codec.LoadStepCombine | planner.c:167-196 | one loop step commutes with joining an earlier result in front |
| Codec.LoadConcat | planner.c:167-196 | loading two stretches of a file in turn is loading each and joining the results |
| Codec.DamagedLineIsTolerated | planner.c:192-194 | an unparsable line among others only sets the damaged flag: kept entries and skipped count are as without it |
| Codec.FormatLineTerminated | planner.c:138 | a written line that fits the buffer ends in its only newline |
| Codec.LoadFormattedLine | planner.c:174-188 | the line written for an entry after now, with a non-empty description free of newlines, is parsed and appended |
| Codec.LoadFormattedLines | planner.c:174-188 | loading the lines written for storable future entries keeps them all, in order, with no skips and no damage |
| Codec.SaveThenReadRoundTrip | planner.c:127-196 | for entries after now, with non-empty ASCII descriptions free of newlines and lines that fit the 256-byte buffer, reading back what saveList wrote gives the same entries in the same order, nothing skipped and no damage |

## Left out

- `menu` and `main`: command dispatch and argument handling, not part of the core.
- `inputTime`: an interactive retry loop over standard input.
- `newAppointment`: an appointment is a value (`Appointment(start, description)`), so there is nothing to allocate.
- Files: a file is modelled as its content, a string.
  - `fopen`'s result is never checked in the source, so a missing file has no modelled behaviour.
  - `fprintf` and `fclose` are the string being built.
- `mktime`, `localtime` and `time(NULL)` are parameters: `mktime` is a function returning the normalised tm and the timestamp, `localtime` is a function from a start to a tm, and `now` is a value.
- `ctime` and every `printf` diagnostic, including `readList`'s summary messages: output only.
- malloc failure branches, `free` and the memory they release.
  - `ClearList`: the source's loop only releases memory, so the model keeps only its effect on the list: `head` and `tail` become null.
  - `readList`'s early return when malloc fails is not modelled.
- `strtok` writes terminators into the caller's buffer and keeps its position in hidden static state; the model keeps the text unchanged and passes the position explicitly.
- `parse_time` never sets `tm_wday`, `tm_yday` and the other fields it does not mention; `Tm` has only the seven fields the planner reads or writes.
- `isValidDate` writes the normalised tm back through its pointer; the model returns it as a second result.
- `readList`'s counter `appointments_skipped` is an `int`; the model counts with an unbounded natural and does not model overflow past 2^31-1 lines.
- FgetsLines, ChunkLength: one character stands for one byte, so the 255-byte limit of `fgets` is counted in characters. Files are not modelled as UTF-8 bytes. The round trip (`Storable`, `SaveThenReadRoundTrip`) is therefore stated only for descriptions made of ASCII characters, where one character is one byte. For a description with multi-byte characters the real `fgets` splits the line sooner than the model does.
- Selected: `localtime` is a total function here. The source uses `localtime`'s result without checking it for NULL (planner.c:250-253), which it is for a start whose year does not fit an `int`. The model does not capture that crash.
- NUL characters inside a line, which end the C strings early, are not modelled.
- ParseLine: `%ld` is modelled as white space, an optional sign and at least one digit, saturating at the `long` bounds as glibc's `strtol` does; locale-specific number formats are not modelled.
- `readList` reads a description into a 256-byte buffer and copies 256 bytes of it; since a line never exceeds 255 characters, the description always fits and no truncation is modelled.
