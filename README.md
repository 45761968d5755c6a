# TextTranslator, modelled in Dafny

This project models the text-translation core of BepisPlugins' DynamicTranslationLoader: the static class
`TextTranslator` in `DynamicTranslationLoader/Text/TextTranslator.cs`. The class holds the following state:

- the compiled translation archives;
- two lookup tables for the current scene: an exact table keyed by original text, and a regular-expression table;
- two such tables for the most recently requested folder;
- a registry of the first text seen for each widget;
- the set of texts nothing could translate.

The model has one Dafny module per concern:

- `Strings` gives the .NET string primitives the translator relies on:
  - `Char.IsWhiteSpace`, and `String.Trim` with the fixed list of characters it removes on .NET Framework 3.5, which differs from `Char.IsWhiteSpace` (it removes U+200B and U+FEFF, and keeps U+180E, U+202F and U+205F);
  - `OrdinalIgnoreCase` equality, for ASCII letters only;
  - ordinal `Contains`;
  - the `[\d-]` removal used by the dump filter.
- `Csv` models the quoted-field splitter `SplitAndEscape`.
  - It is a method with the source's loop and its `\r`, comma, newline and quote branches.
  - It is proved equal to a specification function `Rows`, which scans the remaining input one loop iteration at a time.
  - Lemmas about `Rows` give the splitter's promised behaviour on concrete inputs.
  - A lemma also shows that a quoting encoder written for this model is inverted by the splitter.
- `Tables` models the compiled archives and the two table fills.
  - An archive has sections, each tagged with an executable name. A section holds lines, each with levels.
  - A fill inserts lines in order. A plain line overwrites its key in the exact table, and a pattern line is appended to the pattern table.
  - An invalid pattern makes `new Regex` throw, which ends the fill.
  - The scene load and the folder load each select which lines a fill receives. Lemmas say what the tables then hold.
- `Registry` models the original-text registry and the revert pass over it.
- `Resolution` gives, as functions:
  - the resolution order of a translation request;
  - the first-match pattern lookup;
  - the untranslated set, as a duplicate-free sequence in insertion order;
  - the dump filter and its output string.
- `Translator` holds the class `TextTranslator`.
  - Its fields are the static state.
  - Its methods are the source's operations, each proved against the functions above. For example, `TryGetRegex` is proved to answer as `Resolution.PatternLookup`, and `Resolution.PatternLookupFirstMatch` states what that answer is.
  - `RepeatedFolderRequests` is a client of the class: any run of requests for one folder loads that folder at most once.

The regular-expression engine, the markup compiler, the two unable-to-translate events, widget liveness and the
text setter are parameters:

- `RegexEngine` gives whether a pattern compiles, whether it matches, and `Regex.Replace`, which substitutes every match.
- `Option<Archive>` is the compiler's result.
- `Hooks` holds the two events.
- `alive` and `fails` describe the widgets during a revert.

Behaviours of the code that may be unexpected, which the model keeps:

- A lone `,` yields the row `[""]`, not two empty fields. The pending empty field is dropped at end of input.
- An unquoted newline always yields a row, even an empty one, so blank lines give empty rows (lines 326-336).
- `\r` is dropped everywhere, even between quoted pieces. So `"a"\r"b"` reads as the field `ab`, while `"a""b"` reads as `a"b`.
- A folder request's pattern fallback reads the scene pattern table (line 146). The folder pattern table is filled but never read.
- Exact keys are stored as written (lines 229 and 256) but looked up trimmed (lines 83, 117 and 143). An untrimmed key is therefore unreachable.
- A widget's first text is registered before any lookup. An empty input is not registered.

## Model

| member | source | states |
|---|---|---|
| Csv.SplitAndEscape | DynamicTranslationLoader/Text/TextTranslator.cs:305-370 | the rows the loop yields are exactly `Rows(source)`, the scan that treats `\r`, unquoted `,`, unquoted `\n`, `"` and `""` as the branches do |
| Csv.ScanAt | DynamicTranslationLoader/Text/TextTranslator.cs:315-363 | one loop iteration at position i reads the characters at i and i+1, consumes one or two of them, and leaves the rest of the scan unchanged |
| Csv.Advance | DynamicTranslationLoader/Text/TextTranslator.cs:315-363 | one iteration: when the iteration at position i consumes the characters up to j and leaves state st', the scan from i in state st equals the scan from j in state st' |
| Csv.RoundTrip | DynamicTranslationLoader/Text/TextTranslator.cs:321-369 | for rows in which no field holds a carriage return and no row is a single empty field, writing every field quoted with inner quotes doubled, fields separated by commas and every row ended by a newline, is undone by the splitter |
| Csv.ScanEncoded | DynamicTranslationLoader/Text/TextTranslator.cs:321-369 | scanning encoded rows from a fresh row appends exactly those rows to the rows already yielded |
| Csv.ScanQuote | DynamicTranslationLoader/Text/TextTranslator.cs:337-356 | an opening quote, a field with doubled inner quotes and a closing quote add exactly that field's text to the pending field |
| Csv.ScanEscaped | DynamicTranslationLoader/Text/TextTranslator.cs:337-360 | inside quotes, for text with no `\r`, each doubled quote gives one literal quote and every other character (commas and newlines included) is field text, up to the closing quote; `\r` is covered by Csv.CarriageReturnStep |
| Csv.EscapedStep | DynamicTranslationLoader/Text/TextTranslator.cs:345-360 | inside quotes, one character of an escaped field adds one character to the pending field |
| Csv.ClosingQuoteStep | DynamicTranslationLoader/Text/TextTranslator.cs:351-354 | a lone quote inside quotes closes the quoted region and adds nothing |
| Csv.SeparatorStep | DynamicTranslationLoader/Text/TextTranslator.cs:321-336 | outside quotes, a comma moves the pending field into the row, and a newline ends the row |
| Csv.TextStep | DynamicTranslationLoader/Text/TextTranslator.cs:357-360 | any character with no role in the current state is appended to the pending field |
| Csv.FieldThenComma | DynamicTranslationLoader/Text/TextTranslator.cs:321-356 | a quoted field followed by a comma joins the row and leaves an empty pending field |
| Csv.ScanFields | DynamicTranslationLoader/Text/TextTranslator.cs:321-356 | a comma-separated run of quoted fields becomes the pending row's fields, in order |
| Csv.ScanRow | DynamicTranslationLoader/Text/TextTranslator.cs:321-336 | a written row other than a single empty field, followed by its newline, is yielded as exactly that row |
| Csv.EndRowOfLastField | DynamicTranslationLoader/Text/TextTranslator.cs:326-335 | a newline after the last field yields the row with that field appended |
| Csv.PlainFieldThenComma | DynamicTranslationLoader/Text/TextTranslator.cs:321-325 | a one-character plain field and a comma open a row holding that field |
| Csv.QuotedThenPlainField | DynamicTranslationLoader/Text/TextTranslator.cs:321-369 | a quoted field, a comma and a plain one-character field at the end of input yield the row closed with both fields |
| Csv.QuotedMiddleField | DynamicTranslationLoader/Text/TextTranslator.cs:321-369 | `x,"f",z`, with f written with its quotes doubled, is one row of three fields, whatever commas, newlines and quotes f holds, provided it has no carriage return |
| Csv.QuotedCommaExample | DynamicTranslationLoader/Text/TextTranslator.cs:321-356 | `a,"b,c",d` yields the single row `["a","b,c","d"]` |
| Csv.DoubledQuoteExample | DynamicTranslationLoader/Text/TextTranslator.cs:337-356 | `"x""y"` yields the single row containing the one field `x"y` |
| Csv.QuotedNewlineExample | DynamicTranslationLoader/Text/TextTranslator.cs:326-356 | a newline inside quotes is field text: `"a` newline `b"` yields one row with one field |
| Csv.EmptyAndTrailingExamples | DynamicTranslationLoader/Text/TextTranslator.cs:365-369 | empty input yields no rows; `a,` yields `["a"]`, with no empty last field |
| Csv.LoneSeparatorExamples | DynamicTranslationLoader/Text/TextTranslator.cs:321-336 | `,` yields `[""]`, and `,` then newline yields `["",""]` |
| Csv.EmptyLinesExample | DynamicTranslationLoader/Text/TextTranslator.cs:326-336 | two newlines yield two empty rows: an unquoted newline always yields a row |
| Csv.CrLfExample | DynamicTranslationLoader/Text/TextTranslator.cs:317-336 | `a\r\nb` yields the two rows `a` and `b`: the `\r` before the newline is dropped (in general, Csv.CarriageReturnStep) |
| Csv.CarriageReturnBetweenQuotes | DynamicTranslationLoader/Text/TextTranslator.cs:317-320 | `\r` between two quoted pieces is dropped, yet it keeps the two quotes from reading as a doubled quote, so `"a"\r"b"` reads as the single field `ab` |
| Csv.CarriageReturnStep | DynamicTranslationLoader/Text/TextTranslator.cs:317-320 | in every state, inside quotes or not, a `\r` is dropped and the scan goes on from the same state |
| Csv.QuotedCarriageReturnExample | DynamicTranslationLoader/Text/TextTranslator.cs:317-320 | a `\r` strictly inside a quoted field is dropped: `"a\rb"` yields the single field `ab` |
| Csv.DoubledQuoteBetweenPieces | DynamicTranslationLoader/Text/TextTranslator.cs:345-350 | `"a""b"` reads as the single field `a"b` |
| Tables.ValidPrefix | DynamicTranslationLoader/Text/TextTranslator.cs:226-227 | the number of lines before the first pattern whose Regex constructor throws: no earlier line is rejected, and the line at that count is |
| Tables.FillIsBuildOfValidPrefix | DynamicTranslationLoader/Text/TextTranslator.cs:222-231 | a fill inserts exactly the lines before the first rejected pattern, and completes exactly when none is rejected |
| Tables.FillCompleteIff | DynamicTranslationLoader/Text/TextTranslator.cs:226-227 | a fill completes if and only if no line is a pattern that fails to compile |
| Tables.BuildPatterns | DynamicTranslationLoader/Text/TextTranslator.cs:226-227 | the pattern table gains every pattern line in insertion order, repeated patterns included, since each key is a fresh Regex |
| Tables.BuildLastWins | DynamicTranslationLoader/Text/TextTranslator.cs:228-229 | among plain lines with the same original text, the last one inserted is the entry |
| Tables.BuildKeepsOtherKeys | DynamicTranslationLoader/Text/TextTranslator.cs:228-229 | a key with no plain line among the inserted lines keeps its previous presence and entry |
| Tables.BuildExact | DynamicTranslationLoader/Text/TextTranslator.cs:215-229 | from cleared tables, a key is present if and only if some plain line has it, and its entry is the last such line |
| Tables.LastPlainIndex | DynamicTranslationLoader/Text/TextTranslator.cs:228-229 | when some plain line has a key, there is a last one |
| Tables.LevelLinesMembership | DynamicTranslationLoader/Text/TextTranslator.cs:222-224 | a line of a section is selected if and only if one of its levels is `(byte)sceneIndex` or 255 |
| Tables.SectionLinesMembership | DynamicTranslationLoader/Text/TextTranslator.cs:218-224 | a line is selected from a run of sections if and only if its section's exe is "all" or the running executable's name, ignoring case, and its levels fit the scene |
| Tables.SceneLinesMembership | DynamicTranslationLoader/Text/TextTranslator.cs:217-224 | a scene load selects exactly the lines of applicable sections, in any archive, whose levels fit the scene |
| Tables.SceneLoadExactKeys | DynamicTranslationLoader/Text/TextTranslator.cs:215-229 | after a complete scene load, a key is in the exact table if and only if a selected plain line has that original text |
| Tables.PatternLinesMembership | DynamicTranslationLoader/Text/TextTranslator.cs:226-227 | a line is among the pattern lines if and only if it is one of the lines and a pattern |
| Tables.SceneLoadPatterns | DynamicTranslationLoader/Text/TextTranslator.cs:215-227 | after a complete scene load, a line is in the pattern table if and only if it is a pattern line in a section that applies to the executable and one of its levels is `(byte)sceneIndex` or 255 |
| Tables.AllLinesMembership | DynamicTranslationLoader/Text/TextTranslator.cs:249-258 | a folder load takes every line of every section, whatever its exe and levels |
| Tables.SceneByteExamples | DynamicTranslationLoader/Text/TextTranslator.cs:224 | `(byte)` keeps the low eight bits: -1 is 255, 256 is 0 |
| Registry.OriginalOfIff | DynamicTranslationLoader/Text/TextTranslator.cs:80-81 | a widget has a stored text if and only if some entry targets it |
| Registry.OriginalOfAppend | DynamicTranslationLoader/Text/TextTranslator.cs:80-81 | appending an entry leaves every earlier lookup unchanged |
| Registry.RegisterFirstWins | DynamicTranslationLoader/Text/TextTranslator.cs:80-81 | the first text registered for a widget is never overwritten, and an unregistered widget gets the given text |
| Registry.RegisterKeepsOthers | DynamicTranslationLoader/Text/TextTranslator.cs:80-81 | registering one widget changes no other widget's stored text |
| Registry.RegisterKeepsUnique | DynamicTranslationLoader/Text/TextTranslator.cs:80-81 | registration keeps at most one entry per widget |
| Registry.RestoreAllEffect | DynamicTranslationLoader/Text/TextTranslator.cs:172-196 | a revert gives every live, registered uGUI or TextMeshPro widget whose setter does not throw its stored text, and changes no other widget |
| Registry.LiveTargetsCons | DynamicTranslationLoader/Text/TextTranslator.cs:172-177 | the live widgets of a registry are those of its first entry, if alive, and those of the rest |
| Registry.LiveCountIsLiveWidgets | DynamicTranslationLoader/Text/TextTranslator.cs:170-177 | with one entry per widget, the live count is the number of distinct live registered widgets |
| Resolution.PatternLookupFirstMatch | DynamicTranslationLoader/Text/TextTranslator.cs:56-69 | the pattern lookup fails if and only if no pattern matches, and otherwise answers with the first matching pattern's replacement of every match |
| Resolution.ResolveCases | DynamicTranslationLoader/Text/TextTranslator.cs:76-105 | the outcome is EmptyInput if and only if the input is empty, and the input is then returned as it is; otherwise the exact hit on the trimmed input wins over the first pattern match, which wins over a hook answer, each case holding exactly under its condition; there is no translation if and only if none of them answers |
| Resolution.ExactHitIgnoresPadding | DynamicTranslationLoader/Text/TextTranslator.cs:83-84 | characters Trim removes, added around an input, never change an exact hit |
| Resolution.UntrimmedKeyUnreachable | DynamicTranslationLoader/Text/TextTranslator.cs:83 | a stored key that is not trimmed is never found, so removing it changes no exact lookup |
| Resolution.AlternateCases | DynamicTranslationLoader/Text/TextTranslator.cs:113-122 | without the key held, the simpler lookup answers from the exact table or returns the input; with it, its answer is the full lookup's answer for a widget with no hook |
| Resolution.AddOnceKeepsNoDuplicates | DynamicTranslationLoader/Text/TextTranslator.cs:102-103 | adding to the untranslated set never creates a duplicate |
| Resolution.AddOnceIsSetInsert | DynamicTranslationLoader/Text/TextTranslator.cs:102-103 | adding behaves as set insertion: the set gains exactly the text, earlier texts keep their order, and adding twice is adding once |
| Resolution.DumpedIff | DynamicTranslationLoader/Text/TextTranslator.cs:288-289 | a text is dumped if and only if some character is neither a digit, a hyphen nor white space, and "Reset" occurs nowhere in it |
| Resolution.DumpOutputStep | DynamicTranslationLoader/Text/TextTranslator.cs:287-290 | each text appends its own dump line to the output so far |
| Resolution.DumpOutputAppend | DynamicTranslationLoader/Text/TextTranslator.cs:287-290 | the dump of two runs of texts is the dump of the first followed by the dump of the second |
| Resolution.DumpOutputEmptyIff | DynamicTranslationLoader/Text/TextTranslator.cs:287-290 | the output is empty if and only if no text passes the filter |
| Resolution.DumpOne | DynamicTranslationLoader/Text/TextTranslator.cs:288-290 | a single text contributes its trimmed form followed by `=\r\n`, or nothing |
| Resolution.SignificantStartDumped | DynamicTranslationLoader/Text/TextTranslator.cs:288-289 | a text that starts with a character other than a digit, a hyphen or white space, and has no `R`, is dumped |
| Resolution.DumpSkipsNumbers | DynamicTranslationLoader/Text/TextTranslator.cs:288 | `42-7` is not dumped |
| Resolution.DumpKeepsWords | DynamicTranslationLoader/Text/TextTranslator.cs:288-289 | `Level 42` is dumped |
| Resolution.DumpSkipsReset | DynamicTranslationLoader/Text/TextTranslator.cs:289 | `Reset all` is not dumped |
| Strings.TrimIdempotent | DynamicTranslationLoader/Text/TextTranslator.cs:83 | trimming twice is trimming once |
| Strings.TrimIgnoresPadding | DynamicTranslationLoader/Text/TextTranslator.cs:83 | characters Trim removes, added on either side, do not change the trimmed string |
| Strings.ContainsIff | DynamicTranslationLoader/Text/TextTranslator.cs:289 | ordinal `Contains` holds if and only if the substring occurs at some position |
| Strings.MissingFirstChar | DynamicTranslationLoader/Text/TextTranslator.cs:289 | a string in which the substring's first character never appears does not contain it |
| Strings.StripBlankIff | DynamicTranslationLoader/Text/TextTranslator.cs:288 | after removing digits and hyphens, something non-blank is left if and only if the string has a character that is neither a digit, a hyphen nor white space |
| Strings.StripDigitsAndDashes | DynamicTranslationLoader/Text/TextTranslator.cs:288 | the result is no longer than the input and contains no digit or hyphen; that it keeps every other character in order is Strings.StripOne and Strings.StripAppend |
| Strings.StripOne | DynamicTranslationLoader/Text/TextTranslator.cs:288 | on one character, the removal drops it exactly when it is a digit or a hyphen, and keeps it otherwise |
| Strings.StripAppend | DynamicTranslationLoader/Text/TextTranslator.cs:288 | the removal of a concatenation is the concatenation of the removals, so every other character is kept, in order |
| Csv.Consumed | DynamicTranslationLoader/Text/TextTranslator.cs:345-349 | (definition) one loop iteration consumes two characters for a doubled quote inside quotes, and one otherwise |
| Csv.Next | DynamicTranslationLoader/Text/TextTranslator.cs:317-360 | (definition) the state after one loop iteration, branch by branch: `\r` changes nothing, an unquoted comma or newline ends the field or the row, a quote opens, escapes or closes, and any other character is appended; characterised by Csv.CarriageReturnStep, Csv.SeparatorStep, Csv.TextStep, Csv.EscapedStep and Csv.ClosingQuoteStep |
| Csv.EndRow | DynamicTranslationLoader/Text/TextTranslator.cs:326-335 | (definition) an unquoted newline appends the pending field when it or the row is non-empty, and yields the row even when it is empty |
| Csv.Finish | DynamicTranslationLoader/Text/TextTranslator.cs:365-369 | (definition) at end of input the pending field is appended only if non-empty, and the row is yielded only if non-empty |
| Csv.Scan | DynamicTranslationLoader/Text/TextTranslator.cs:315-369 | (definition) the rows yielded from a state over the remaining input, one loop iteration at a time; characterised by Csv.ScanAt and Csv.ScanEncoded |
| Csv.Rows | DynamicTranslationLoader/Text/TextTranslator.cs:305-370 | (definition) the rows of a whole input, scanned from the initial state; characterised by Csv.RoundTrip and the example lemmas |
| Tables.Insert | DynamicTranslationLoader/Text/TextTranslator.cs:226-229 | (definition) a pattern line is appended to the pattern table, and a plain line overwrites its untrimmed key; characterised by Tables.BuildPatterns and Tables.BuildLastWins |
| Tables.Rejected | DynamicTranslationLoader/Text/TextTranslator.cs:227 | (definition) a pattern line whose Regex constructor throws |
| Tables.Fill | DynamicTranslationLoader/Text/TextTranslator.cs:217-231 | (definition) inserting lines in order until the first rejected pattern, whose exception ends the load; characterised by Tables.FillIsBuildOfValidPrefix |
| Tables.SectionApplies | DynamicTranslationLoader/Text/TextTranslator.cs:220 | (definition) the section's exe is "all" or the running executable's name, ignoring case |
| Tables.SceneByte | DynamicTranslationLoader/Text/TextTranslator.cs:224 | (definition) `(byte)sceneIndex` as the low eight bits; characterised by Tables.SceneByteExamples |
| Tables.InScene | DynamicTranslationLoader/Text/TextTranslator.cs:224 | (definition) some level of the line is `(byte)sceneIndex` or 255 |
| Tables.LevelLines | DynamicTranslationLoader/Text/TextTranslator.cs:222-224 | (definition) the lines of one section meant for the scene, in order; characterised by Tables.LevelLinesMembership |
| Tables.SectionLines | DynamicTranslationLoader/Text/TextTranslator.cs:218-224 | (definition) the lines a scene load takes from a run of sections, in order; characterised by Tables.SectionLinesMembership |
| Tables.SceneLines | DynamicTranslationLoader/Text/TextTranslator.cs:217-224 | (definition) the lines a scene load takes from every archive, in order; characterised by Tables.SceneLinesMembership |
| Tables.AllLines | DynamicTranslationLoader/Text/TextTranslator.cs:249-257 | (definition) every line of every section, in order; characterised by Tables.AllLinesMembership |
| Tables.FolderLines | DynamicTranslationLoader/Text/TextTranslator.cs:243-266 | (definition) every line of the compiled folder, or none when the folder is missing or compilation throws |
| Tables.FolderTables | DynamicTranslationLoader/Text/TextTranslator.cs:240-266 | (definition) the tables a folder load leaves: the fill of FolderLines from empty tables; characterised by Tables.FillIsBuildOfValidPrefix and Tables.AllLinesMembership |
| Tables.PatternLines | DynamicTranslationLoader/Text/TextTranslator.cs:226-227 | (definition) the pattern lines among the inserted lines, in order; characterised by Tables.PatternLinesMembership |
| Registry.Registered | DynamicTranslationLoader/Text/TextTranslator.cs:80 | (definition) some entry targets the widget |
| Registry.Register | DynamicTranslationLoader/Text/TextTranslator.cs:80-81 | (definition) an entry is added only when no entry targets the widget; characterised by Registry.RegisterFirstWins, Registry.RegisterKeepsOthers and Registry.RegisterKeepsUnique |
| Registry.OriginalOf | DynamicTranslationLoader/Text/TextTranslator.cs:29 | (definition) the text of the first entry targeting the widget; characterised by Registry.OriginalOfIff |
| Registry.Restorable | DynamicTranslationLoader/Text/TextTranslator.cs:176-190 | (definition) the target is alive, is a uGUI or TextMeshPro text, and setting its text does not throw |
| Registry.Restore | DynamicTranslationLoader/Text/TextTranslator.cs:179-195 | (definition) one entry's stored text written back when its target is restorable |
| Registry.RestoreAll | DynamicTranslationLoader/Text/TextTranslator.cs:172-196 | (definition) the widget texts after visiting every entry in order; characterised by Registry.RestoreAllEffect |
| Registry.LiveCount | DynamicTranslationLoader/Text/TextTranslator.cs:170-177 | (definition) the number of entries whose target is alive; characterised by Registry.LiveCountIsLiveWidgets |
| Resolution.ExactLookup | DynamicTranslationLoader/Text/TextTranslator.cs:83 | (definition) the exact table's entry for the trimmed input |
| Resolution.PatternLookup | DynamicTranslationLoader/Text/TextTranslator.cs:56-69 | (definition) the first matching pattern's rewrite of the untrimmed input; characterised by Resolution.PatternLookupFirstMatch |
| Resolution.HookAnswer | DynamicTranslationLoader/Text/TextTranslator.cs:89-100 | (definition) the uGUI event for a uGUI Text, the TextMeshPro event for a TextMeshPro text, and no answer for any other object |
| Resolution.Resolve | DynamicTranslationLoader/Text/TextTranslator.cs:76-105 | (definition) the resolution order of a translation request; characterised by Resolution.ResolveCases |
| Resolution.Output | DynamicTranslationLoader/Text/TextTranslator.cs:76-105 | (definition) the translation, or the input itself when there is none |
| Resolution.Alternate | DynamicTranslationLoader/Text/TextTranslator.cs:113-122 | (definition) the simpler lookup; characterised by Resolution.AlternateCases |
| Resolution.AddOnce | DynamicTranslationLoader/Text/TextTranslator.cs:102-103 | (definition) `HashSet.Add` after a `Contains` check; characterised by Resolution.AddOnceIsSetInsert |
| Resolution.Dumped | DynamicTranslationLoader/Text/TextTranslator.cs:288-289 | (definition) the dump filter; characterised by Resolution.DumpedIff |
| Resolution.Entry | DynamicTranslationLoader/Text/TextTranslator.cs:290 | (definition) the line written for a dumped text: the trimmed text, `=` and CR LF |
| Resolution.DumpLine | DynamicTranslationLoader/Text/TextTranslator.cs:288-290 | (definition) what one text contributes to the dump; characterised by Resolution.DumpOne |
| Resolution.DumpOutput | DynamicTranslationLoader/Text/TextTranslator.cs:285-290 | (definition) the dump output accumulated over the texts in order; characterised by Resolution.DumpOutputStep, Resolution.DumpOutputAppend and Resolution.DumpOutputEmptyIff |
| Strings.Trim | DynamicTranslationLoader/Text/TextTranslator.cs:83 | the result has no removable character at either end and is no longer than the input; its value is Strings.TrimOfPadded |
| Strings.TrimOfPadded | DynamicTranslationLoader/Text/TextTranslator.cs:83 | for text with no removable character at either end, surrounded by removable characters, Trim returns exactly that text; with Strings.TrimSplit, which splits any string this way, it fixes Trim's result |
| Strings.TrimSplit | DynamicTranslationLoader/Text/TextTranslator.cs:83 | every string is Trim's result with characters Trim removes on either side |
| Strings.TrimStart | DynamicTranslationLoader/Text/TextTranslator.cs:83 | the result is a suffix of the input that starts with a character Trim keeps |
| Strings.TrimStartDropsTrimChars | DynamicTranslationLoader/Text/TextTranslator.cs:83 | the prefix TrimStart drops consists only of characters Trim removes |
| Strings.TrimEnd | DynamicTranslationLoader/Text/TextTranslator.cs:83 | the result is a prefix of the input that ends with a character Trim keeps |
| Strings.TrimEndDropsTrimChars | DynamicTranslationLoader/Text/TextTranslator.cs:83 | the suffix TrimEnd drops consists only of characters Trim removes |
| Strings.TrimListExamples | DynamicTranslationLoader/Text/TextTranslator.cs:83 | before any kept character, Trim removes a byte-order mark, which is not `Char.IsWhiteSpace`, and keeps a narrow no-break space, which is |
| Strings.TrimPair | DynamicTranslationLoader/Text/TextTranslator.cs:83 | on two characters whose second is kept, Trim drops the first exactly when it is on Trim's list |
| Strings.EqualsIgnoreCase | DynamicTranslationLoader/Text/TextTranslator.cs:220 | (definition) `OrdinalIgnoreCase` equality, folding ASCII letters |
| Strings.Contains | DynamicTranslationLoader/Text/TextTranslator.cs:289 | (definition) ordinal `String.Contains`; characterised by Strings.ContainsIff |
| Strings.IsTrimChar | DynamicTranslationLoader/Text/TextTranslator.cs:83 | (definition) the fixed list of characters `String.Trim` removes on .NET Framework 3.5, used by the trims at lines 83, 117, 143 and 290; characterised by Strings.TrimListExamples |
| Strings.IsWhiteSpace | DynamicTranslationLoader/Text/TextTranslator.cs:288 | (definition) `Char.IsWhiteSpace` on .NET Framework 3.5 |
| Strings.AllWhite | DynamicTranslationLoader/Text/TextTranslator.cs:288 | (definition) `IsNullOrWhiteSpace` on a non-null string: every character is white space; characterised by Strings.StripBlankIff |
| Strings.IsDigitOrDash | DynamicTranslationLoader/Text/TextTranslator.cs:288 | (definition) the character class `[\d-]`, for ASCII and full-width digits; characterised by Strings.StripOne |
| Translator.TextTranslator.constructor | DynamicTranslationLoader/Text/TextTranslator.cs:21-32 | every table, the registry and the untranslated set start empty, no folder is current, and the executable name is fixed |
| Translator.TextTranslator.LoadTextTranslations | DynamicTranslationLoader/Text/TextTranslator.cs:34-54 | the archives are cleared, then hold the compiled text folder, or nothing if compilation throws |
| Translator.TextTranslator.TryGetRegex | DynamicTranslationLoader/Text/TextTranslator.cs:56-69 | the early-return loop answers as `PatternLookup` over the scene or the folder pattern table, that is, with the first matching pattern's rewrite, or fails when none matches (by `Resolution.PatternLookupFirstMatch`) |
| Translator.TextTranslator.RegisterOriginal | DynamicTranslationLoader/Text/TextTranslator.cs:80-81 | the registry gains an entry for the widget exactly when none targets it, and keeps one entry per widget |
| Translator.TextTranslator.RecordUntranslated | DynamicTranslationLoader/Text/TextTranslator.cs:102-103 | the untranslated set gains the text unless it holds it, and stays duplicate-free |
| Translator.TextTranslator.TranslateText | DynamicTranslationLoader/Text/TextTranslator.cs:71-106 | the answer follows the resolution order with the widget's hook; a non-empty input registers the widget first; the text is recorded as untranslated exactly when nothing answers |
| Translator.TextTranslator.TranslateTextAlternate | DynamicTranslationLoader/Text/TextTranslator.cs:113-122 | the answer is the simpler lookup's, and neither the registry nor the untranslated set changes |
| Translator.TextTranslator.LoadTranslationsFromFolder | DynamicTranslationLoader/Text/TextTranslator.cs:237-268 | both folder tables are cleared, then hold the fill of every line of the compiled folder; a missing folder or a failed compilation leaves them empty, and a rejected pattern ends the fill but keeps what was inserted |
| Translator.TextTranslator.SwitchFolder | DynamicTranslationLoader/Text/TextTranslator.cs:131-135 | the requested folder becomes current; its tables are loaded only when it differs from the current folder, and otherwise nothing changes |
| Translator.TextTranslator.TranslateFromFolderTables | DynamicTranslationLoader/Text/TextTranslator.cs:140-152 | the answer is the folder exact table's, then the scene pattern table's; the text is recorded as untranslated exactly when neither answers |
| Translator.TextTranslator.TranslateTextFromFolder | DynamicTranslationLoader/Text/TextTranslator.cs:129-153 | the folder load is memoised on the current folder and happens even for an empty input; the answer comes from the folder exact table and then the scene pattern table; untranslated texts are recorded |
| Translator.TextTranslator.LoadLevelLines | DynamicTranslationLoader/Text/TextTranslator.cs:222-231 | the innermost scene loop inserts the section's lines meant for the scene, and stops at the first pattern that fails to compile |
| Translator.TextTranslator.LoadSceneTranslations | DynamicTranslationLoader/Text/TextTranslator.cs:212-235 | both scene tables are cleared, then hold the fill of the selected lines in order; the load stops at the first pattern that fails to compile |
| Translator.TextTranslator.UntranslateTextAll | DynamicTranslationLoader/Text/TextTranslator.cs:166-201 | the widget texts are the revert of the registry (`RestoreAll`), the count is the number of live entries (`LiveCount`), and hooks are on at the end |
| Translator.TextTranslator.DumpText | DynamicTranslationLoader/Text/TextTranslator.cs:283-293 | the output is the trimmed text followed by `=\r\n` for each untranslated text that passes the filter, in order |
| Translator.RepeatedFolderRequests | DynamicTranslationLoader/Text/TextTranslator.cs:131-135 | any run of requests for one folder loads it at most once, and not at all if it is already current |

## Left out

- `TranslateTextAll`, `TranslateScene` and `RetranslateText` (lines 156-164, 203-210 and 270-281) only enumerate Unity objects and chain the modelled operations. Unity enumeration is not modelled.
- The clipboard copy (lines 73-74 and 137-138) is a host side effect.
- The .NET regular-expression engine is abstract (`RegexEngine`). So are the markup compiler's parsing, whose result is an `Option<Archive>` input, and the unable-to-translate events (`Hooks`).
- Directory and file I/O are left out: creating the text directory (lines 42-43), `Directory.Exists` (line 243, folded into the `None` content), and writing `dumped-tl.txt` (line 292). `DumpText` returns the text that would be written.
- `ManualLoadAsset`, `RedirectHook` and `TranslateListText` (lines 295-303 and 372-486) are left out because they depend on asset bundles, the file system and number parsing.
- Logging is left out, including the reloaded-count message of `UntranslateTextAll`.
- Enumeration order is fixed to insertion order for the dump (`Resolution.DumpOutput`), the pattern probing (`TryGetRegex`) and the revert pass (`Registry.RestoreAll`). .NET's `Dictionary` and `HashSet` enumerate in that order when nothing is removed, as here, but .NET does not document it.
- `Paths.ProcessName` is a constructor parameter.
- Widget liveness (`WeakReference.IsAlive`) and a throwing text setter are parameters of the revert.
- `Input.GetKey` is a boolean parameter.
- The hooks flag is a field of the class. In the source it belongs to `TextHooks`.
- `null` strings and a `null` widget are not modelled. A null input takes the same path as an empty one.
- The `IsNullOrWhiteSpace` extension method called at line 288 is not part of this model. It is taken to test `Char.IsWhiteSpace` on every character (`Strings.AllWhite`).
- Strings.EqualsIgnoreCase: folds only ASCII letters, while `OrdinalIgnoreCase` also folds other letters.
- Strings.IsDigitOrDash: covers ASCII and full-width digits only, while `\d` matches every Unicode decimal digit.
- Csv.SplitAndEscape: returns all rows at once instead of yielding them lazily. Each row is a value, while the source reuses one list, which every caller copies before resuming.
- Translator.TextTranslator.TranslateText: `hooks` gives the events' answers, and any side effects of the events are not modelled.
