# Verification of the helper programs

Dafny models of the algorithms inside the helper programs of the base image, with proofs
of what these programs promise. Each module follows one component:

| Module | Component |
|---|---|
| `HelpWrapping`, `HelpPrinting`, `OptionParser`, `OptionParserProperties`, `OptionParserWords`, `IntegerParser` | the option parser and help formatter of the audio recorder |
| `CsvMessage` | the CSV log formatter of the audio recorder |
| `UploadServer`, `UploadHistory`, `UploadHandlers`, `PathPolicy` | the file manager server: pending uploads and the path policy |
| `UploadClient`, `UploadSender`, `ProgressBar`, `HtmlEscape` | the file manager in the browser |
| `UploadProtocol`, `UploadRun` | file manager server and browser together |
| `PcmPlayer`, `KeyInput` | audio player and on-screen keyboard in the browser |
| `TokenStore` | the tokens of the web authentication service |
| `DependencyWalk` | the `ldd` for a foreign root |
| `Wrappers`, `Sets`, `Arithmetic`, `Iteration` | what several of them share |

Code that works step by step is modelled by methods and classes that update their state
in place, each proved against a function; the properties are lemmas about that function.
`dafny verify dfyconfig.toml` checks everything.

## What turned out to be false

The code is modelled as it is. Where it does not do what it, or its documentation, says,
each item names the theorem that tells for all inputs when that happens, and the one with
an input or a run that shows it:

- The setting `ALL` of the allowed paths promises access without restrictions (README.md, the table of environment variables), and reaches the server as an empty allow list (rootfs/etc/services.d/webservices/params:24-28). Paths may then be listed, and the filter removes every entry (`PathPolicy.FilterMatchesPolicyExactly`; `PathPolicy.WithoutAllowListNothingIsShown`).
- An allowed path need not be reachable from the root: a symbolic link may lead out of the directories above it, or stand on the way and be dropped from the listing, where its entry counts as no directory (`PathPolicy.ReachableExactly` and `ClickableExactly`; `PathPolicy.LinkCannotBeReached` and `LinkOnTheWayIsDropped`).
- The help formatter drops a last line of one visible character behind a break (`HelpWrapping.ShownExactly`; `HelpWrapping.LastLetterIsLost`).
- The integer parser accepts some numbers that do not fit the type (`IntegerParser.RefusedExactly` and `SlipsThroughExactly`; `IntegerParser.OverflowSlipsThrough`).
- A positional option that is given only behind `--` has received its default before (`OptionParserProperties.DefaultsAreGivenOnce`; `OptionParserProperties.LateValueFollowsDefault`).
- Unescaping is not the inverse of escaping for names that spell an entity (`HtmlEscape.RoundTripExactly`; `HtmlEscape.SpelledEntityIsLost`).
- An entry of the upload table can outlive its owner, as the clean-up of a connection does not see expired entries, and it bars its place (`UploadHistory.OwnersStayExactly` and `NothingIsLeftExactly`; `UploadHistory.OwnerCanBeGone` and `ExpiredUploadIsInTheWay`).
- The upload progress can go back (`UploadProtocol.BarGoesBackExactly` and `ProgressBar.NeverGoesBackExactly`; `ProgressBar.BarGoesBack`).
- An upload ends if files were selected, and never if none were (`UploadProtocol.UploadEnds`; `UploadProtocol.EmptySelectionNeverEnds`).
- An audio buffer shorter than a sample never plays, buffers overlap after too much lag, and short faded buffers do not end silent (`PcmPlayer.BufferIsEmptyExactly`, `Player.OverlapsInRun` and `Player.PlayedEndsSilentExactly`; `PcmPlayer.PlayAtOnce`, `Player.BurstExists` with `Player.DefaultBurstOverlaps`, and `PlayShortBuffer`).
- Removing a token tells whether it was collected if it has expired, and a token that expires at this very moment is neither valid nor collectable (`TokenStore.RemovalTellsExactly` and `ExpiringExactly`; `TokenStore.RemovalTellsExpiredTokens` and `ExpiringTokenTakesAPlace`).
- The keyboard field and the remembered text can part, after an event with the caret behind an empty text, and a caret beyond the text sends a key without a character (`KeyInput.LeavesTextsEqualExactly`, `ForgetsExactly` and `StrayKeyExactly`; `KeyInput.PartingRun`).

## Model

| member | source | states |
|---|---|---|
| `HelpWrapping.FormatDescription` | src/audiorecorder/cxxopts.hpp:2066-2191 | the description with its default note, tabs expanded if asked for, comes out as the rendering of its greedily broken lines |
| `HelpWrapping.NoteIsAddedExactly` | src/audiorecorder/cxxopts.hpp:2068-2078 | the description is kept, and a note with the default follows it if and only if there is one other than `false` of a switch |
| `HelpWrapping.NoteTellsDefaultExactly` | src/audiorecorder/cxxopts.hpp:2068-2078 | two notes are alike if and only if the defaults are, but for an empty one and one of two quotes |
| `HelpWrapping.ExpandTabs` | src/audiorecorder/cxxopts.hpp:2090-2114 | the loop over the characters computes the tab expansion |
| `HelpWrapping.ExpandChar` | src/audiorecorder/cxxopts.hpp:2094-2112 | one turn of that loop: the character or its blanks, and the column behind it |
| `HelpWrapping.TabStops` | src/audiorecorder/cxxopts.hpp:2101-2106 | no tab is left, and whatever precedes a tab, the text behind it starts at the next multiple of eight columns, one to eight columns further |
| `HelpWrapping.Wrap` | src/audiorecorder/cxxopts.hpp:2118-2190 | the loop that rewinds `current` ends (text behind the line start, then text behind the cursor) and prints exactly the lines that a breaker which only looks ahead would cut, for every text, indent and width |
| `HelpWrapping.LookAt` | src/audiorecorder/cxxopts.hpp:2130-2155 | where the loop body ends a line is where looking ahead from the line start ends it; otherwise the scan state moves on by one |
| `HelpWrapping.AppendLine` | src/audiorecorder/cxxopts.hpp:2157-2173 | a line is printed once, with one line feed unless it brings its own, and the indent of the next one |
| `HelpWrapping.LineEndIsFound` | src/audiorecorder/cxxopts.hpp:2140-2155 | stopping at a newline or at the full width, with the last blank seen so far, gives the same line end as looking ahead |
| `HelpWrapping.RestIsPrinted` | src/audiorecorder/cxxopts.hpp:2184-2188 | what is printed behind the loop is the last line without the added blank, or nothing if the line counts as blank |
| `HelpWrapping.RemainingRendersLines` | src/audiorecorder/cxxopts.hpp:2116-2190 | what the loop has still to print, from any line start, is the rendering of the remaining lines |
| `HelpWrapping.LinesJoinToText` | src/audiorecorder/cxxopts.hpp:2159-2160 | for every text and width the lines put together are the text: nothing lost, doubled or moved |
| `HelpWrapping.LinesFit` | src/audiorecorder/cxxopts.hpp:2147-2160 | no line holds more than `allowed` description characters |
| `HelpWrapping.CutIsGreedy` | src/audiorecorder/cxxopts.hpp:2131-2155 | a line is cut inside a word only if no blank precedes within the width |
| `HelpWrapping.ShownExactly` | src/audiorecorder/cxxopts.hpp:2184-2188 | the whole description is printed if and only if its last line is just the blank that was added or does not count as blank; otherwise that last line is all that is lost |
| `HelpWrapping.LastLetterIsLost` | src/audiorecorder/cxxopts.hpp:2175-2188 | a concrete description whose one-letter last word is lost because the blank test skips the first character behind a break |
| `HelpWrapping.ColumnWithin` | src/audiorecorder/cxxopts.hpp:2147-2173 | printed with `start` characters already in the line, no output line has more than `start + allowed` characters |
| `HelpPrinting.ExpandedKeepsText` | src/audiorecorder/cxxopts.hpp:2090-2114 | expanding tabs changes no visible character, and no text without tabs |
| `HelpPrinting.LinesAreGreedy` | src/audiorecorder/cxxopts.hpp:2130-2160 | every line but the last ends in a newline of the text, or more text than the width is left and it is cut behind the last blank within the width, or at the width without one |
| `HelpPrinting.PrintedKeepsInk` | src/audiorecorder/cxxopts.hpp:2157-2188 | breaks and indentation add no visible character and remove none |
| `HelpPrinting.NewlinesAreCounted` | src/audiorecorder/cxxopts.hpp:2162-2173 | one newline is printed for each newline of the text and for each line that was cut |
| `HelpPrinting.PrintedIsIndented` | src/audiorecorder/cxxopts.hpp:2167 | whatever is printed behind a newline starts with the indentation |
| `OptionParser.WithNamesWellFormed` | src/audiorecorder/cxxopts.hpp:2600-2619 | adding an option under all its new names keeps the table such that every name of an option leads to that option, and hashes identify options |
| `OptionParser.Options.AddOneOption` | src/audiorecorder/cxxopts.hpp:2631-2643 | a name is entered exactly if it is new; otherwise nothing changes |
| `OptionParser.Options.AddNames` | src/audiorecorder/cxxopts.hpp:2616-2618 | all long names are entered, up to the first that exists; the names in front of that one stay entered |
| `OptionParser.Options.AddOption` | src/audiorecorder/cxxopts.hpp:2598-2619 | an option is added if and only if all its names are new, under each of them, and a well-formed table stays so; after a failure exactly the names in front of the first one that is taken are entered |
| `OptionParser.ParseArgumentSplitsWords` | src/audiorecorder/cxxopts.hpp:838-858 | whatever word the tokeniser matches has a non-empty name or a non-empty group of letters |
| `OptionParser.CountsAreEntries` | src/audiorecorder/cxxopts.hpp:2277-2291 | in every log the count of an option record equals the number of its entries in the recorded key/value list |
| `OptionParser.Parser.ParseOption` | src/audiorecorder/cxxopts.hpp:2277-2291 | one more entry in the record of the option and in the key/value list, exactly if the value accepts the text |
| `OptionParser.Parser.ParseDefault` | src/audiorecorder/cxxopts.hpp:2259-2267 | the default is recorded once, as a default, and not in the list of given values |
| `OptionParser.Parser.CheckedParseArg` | src/audiorecorder/cxxopts.hpp:2293-2326 | the option takes its implicit value, the next word, or fails, and the cursor never steps over the last word |
| `OptionParser.Parser.ConsumePositional` | src/audiorecorder/cxxopts.hpp:2336-2375 | the word goes to the first positional option from the cursor on that is a container or has no value yet; the cursor stops there |
| `OptionParser.Parser.ParseGroup` | src/audiorecorder/cxxopts.hpp:2442-2490 | the loop over a group of short options reads the letters up to the one that takes the rest or the next word |
| `OptionParser.Parser.ParseLong` | src/audiorecorder/cxxopts.hpp:2492-2521 | a long option takes the value behind its equals sign, its implicit value or the next word |
| `OptionParser.Parser.ParseFree` | src/audiorecorder/cxxopts.hpp:2419-2439 | a word that is no flag goes to a positional option or is unmatched; one that looks like an option is an error unless unrecognised options are allowed |
| `OptionParser.Parser.ParseWord` | src/audiorecorder/cxxopts.hpp:2415-2525 | one turn of the parse loop uses one word or two as the specification reads them |
| `OptionParser.Parser.ParseFront` | src/audiorecorder/cxxopts.hpp:2402-2526 | the loop in front of the marker reads the words as specified, with the cursor within argc |
| `OptionParser.Parser.ApplyDefaults` | src/audiorecorder/cxxopts.hpp:2528-2544 | the walk over the option map gives defaults as specified |
| `OptionParser.Parser.ParseRest` | src/audiorecorder/cxxopts.hpp:2546-2560 | behind the marker, words go to positional options until one is refused, and all that follow are unmatched |
| `OptionParser.Parser.AliasOption` | src/audiorecorder/cxxopts.hpp:2572-2582 | every non-empty name of an option leads to its record |
| `OptionParser.Parser.FinaliseAliases` | src/audiorecorder/cxxopts.hpp:2570-2583 | all names of an option resolve to one record, which exists |
| `OptionParser.Parser.Parse` | src/audiorecorder/cxxopts.hpp:2399-2566 | the whole parse is the specified reading of the words, on success and on every error, and afterwards all names resolve |
| `OptionParser.RestUnmatched` | src/audiorecorder/cxxopts.hpp:2546-2560 | once the positional options are used up every further word is unmatched |
| `OptionParser.WalkIsClosed` | src/audiorecorder/cxxopts.hpp:2570-2583 | a walk over the whole map visits every name of every option it visits |
| `OptionParserProperties.EveryWordIsUsedOnce` | src/audiorecorder/cxxopts.hpp:2399-2566 | for every command line that parses, the uses list every word once and in order; with unrecognised options disallowed each word is an option, the value of one, a positional, the marker or unmatched; counts equal the entries in the key/value list |
| `OptionParserProperties.WalkGivesDefault` | src/audiorecorder/cxxopts.hpp:2528-2544 | a walk changes the record of an option exactly by its default if it lacks a value, once however often it is listed |
| `OptionParserProperties.WalkSucceeds` | src/audiorecorder/cxxopts.hpp:2528-2544 | a walk fails exactly if some option that lacks a value cannot parse its default |
| `OptionParserProperties.WalksAgree` | src/audiorecorder/cxxopts.hpp:2528-2544 | two orders of the option map agree on success and on every record |
| `OptionParserProperties.WalkOrderIsIrrelevant` | src/audiorecorder/cxxopts.hpp:2528-2566 | the order of the option map changes neither success nor the use of any word nor any record of the whole parse |
| `OptionParserProperties.DefaultsAreGivenOnce` | src/audiorecorder/cxxopts.hpp:2528-2544 | an option receives its default exactly if it has one and was not given before the marker, and then once |
| `OptionParserProperties.LateValueFollowsDefault` | src/audiorecorder/cxxopts.hpp:2528-2560 | a positional container given only behind the marker holds its default and then the value, as defaults are applied first |
| `OptionParserProperties.EqualsSign` | src/audiorecorder/cxxopts.hpp:2511-2520 | `--name=value` and `--name value` mean the same in every context for an option without implicit value |
| `OptionParserProperties.AttachedValue` | src/audiorecorder/cxxopts.hpp:2478-2484 | `-cvalue` and `-c value` mean the same in every context for an option without implicit value |
| `OptionParserProperties.SplitGroup` | src/audiorecorder/cxxopts.hpp:2446-2490 | a group `-cletters` means the same as `-c -letters` in every context for a letter with implicit value |
| `OptionParserWords.LongExactly` | src/audiorecorder/cxxopts.hpp:838-858 | a word is a long option if and only if it is a name of at least two characters behind two dashes, alone or with an equals sign and one line of text |
| `OptionParserWords.GroupExactly` | src/audiorecorder/cxxopts.hpp:838-858 | a word is a group of short options if and only if it is one dash and one line that begins with a letter or digit |
| `OptionParserWords.LongWithText` | src/audiorecorder/cxxopts.hpp:2511-2515 | in every context `--name=text` gives that text to the option, or is an error if the option refuses it |
| `OptionParserWords.LongAlone` | src/audiorecorder/cxxopts.hpp:2293-2326 | in every context `--name` gives the option its implicit value if it has one, and else the next word, which must be there |
| `OptionParserWords.ShortAlone` | src/audiorecorder/cxxopts.hpp:2293-2326 | so does `-c` |
| `OptionParserWords.ShortAndLong` | src/audiorecorder/cxxopts.hpp:2442-2521 | the short and the long name of an option mean the same in every context |
| `OptionParserWords.UnknownLong` | src/audiorecorder/cxxopts.hpp:2497-2508 | a long option that does not exist is an error, or unmatched as it stands if that is allowed |
| `OptionParserWords.UnknownLetterIsAnError` | src/audiorecorder/cxxopts.hpp:2450-2463 | so is an unknown letter |
| `OptionParserWords.UnknownLetterAlone` | src/audiorecorder/cxxopts.hpp:2450-2463 | if allowed it is unmatched, with a dash of its own |
| `OptionParserWords.UnknownLetterInFront` | src/audiorecorder/cxxopts.hpp:2450-2463 | the letters behind it mean what they mean alone |
| `OptionParserWords.FreeWordIsTaken` | src/audiorecorder/cxxopts.hpp:2336-2375 | any other word is the value of the first positional option from the current one on that is a container or was not given, and an error if that refuses it |
| `OptionParserWords.FreeWordIsLeftOver` | src/audiorecorder/cxxopts.hpp:2419-2439 | with none due it is unmatched, or an error if it looks like an option and that is not allowed |
| `OptionParserWords.RestWordIsTaken` | src/audiorecorder/cxxopts.hpp:2546-2560 | behind the marker every word goes to the positional option that is due, whatever it looks like |
| `OptionParserWords.KeyValuesAreEntries` | src/audiorecorder/cxxopts.hpp:2277-2291 | the key/value list holds name and text of every given entry, in order |
| `OptionParserWords.RecordHoldsTexts` | src/audiorecorder/cxxopts.hpp:2277-2291 | the record of an option holds all texts that it was given or received as default, in order |
| `IntegerParser.Parse` | src/audiorecorder/cxxopts.hpp:928-981 | the parser stores what the specification says or refuses, for every width and signedness |
| `IntegerParser.ScanDigits` | src/audiorecorder/cxxopts.hpp:939-969 | the digit loop with its wrap test computes the specified scan |
| `IntegerParser.StoredExactly` | src/audiorecorder/cxxopts.hpp:926-981 | a decimal or 0x text is stored with exactly the number it denotes if and only if that number is one of the type, the most negative one included, and a minus sign only comes with a signed type |
| `IntegerParser.StoredFits` | src/audiorecorder/cxxopts.hpp:971-980 | any accepted text is stored within the type and congruent to its value modulo two to the width |
| `IntegerParser.ScanIsCongruent` | src/audiorecorder/cxxopts.hpp:962-968 | whatever the digit loop accepts is congruent to the digit value |
| `IntegerParser.ScanIsExact` | src/audiorecorder/cxxopts.hpp:962-968 | a digit value that fits the unsigned type is scanned exactly |
| `IntegerParser.NegationIsExact` | src/audiorecorder/cxxopts.hpp:909-917 | negation through one less is exact for every magnitude up to the most negative value |
| `IntegerParser.OverflowSlipsThrough` | src/audiorecorder/cxxopts.hpp:963-966 | the wrap test misses some overflows: `300` is accepted as 44 in eight bits |
| `IntegerParser.ScanExactly` | src/audiorecorder/cxxopts.hpp:939-969 | the digit loop accepts a numeral if and only if its residues modulo two to the width never drop from one digit to the next, and then yields the last of them |
| `IntegerParser.RefusedExactly` | src/audiorecorder/cxxopts.hpp:926-981 | a text that denotes a number is refused if and only if a residue drops, the last one is outside the signed range, or a minus sign comes with an unsigned type |
| `IntegerParser.SlipsThroughExactly` | src/audiorecorder/cxxopts.hpp:926-981 | a number is stored as another one if and only if it does not fit the type and passes those tests all the same |
| `IntegerParser.PrintedIsParsed` | src/audiorecorder/cxxopts.hpp:926-981 | printing any value of the type in decimal and parsing it gives the value back |
| `IntegerParser.HexIsParsed` | src/audiorecorder/cxxopts.hpp:926-981 | so does printing it in hexadecimal, in small or capital letters, with the sign in front of the prefix |
| `IntegerParser.DigitExactly` | src/audiorecorder/cxxopts.hpp:941-960 | the digits are those of `0123456789abcdef` and `0123456789ABCDEF`, up to the base |
| `IntegerParser.SplitExactly` | src/audiorecorder/cxxopts.hpp:928-937 | a text is split if and only if it is an optional minus sign, an optional `0x` and letters or digits |
| `HtmlEscape.EscapeIsOnePass` | rootfs/opt/noVNC/app/fileManager.js:3-11 | the five replacements one after the other equal a single pass over the characters |
| `HtmlEscape.EscapedIsInert` | rootfs/opt/noVNC/app/fileManager.js:3-11 | no escaped text holds a markup character |
| `HtmlEscape.CharactersAreEscaped` | rootfs/opt/noVNC/app/fileManager.js:3-11 | each of the five characters becomes its own entity, and any other character stays |
| `HtmlEscape.EscapesInParts` | rootfs/opt/noVNC/app/fileManager.js:3-11 | texts are escaped part by part |
| `HtmlEscape.EntitiesAreUnescaped` | rootfs/opt/noVNC/app/fileManager.js:13-21 | each of the five entities is unescaped to its own character |
| `HtmlEscape.RoundTripDecodes` | rootfs/opt/noVNC/app/fileManager.js:3-21 | unescaping an escaped text gives the text with the spelled entities decoded |
| `HtmlEscape.RoundTripExactly` | rootfs/opt/noVNC/app/fileManager.js:3-21 | the round trip gives the text back if and only if it spells none of `&lt;`, `&gt;`, `&quot;`, `&#39;` |
| `HtmlEscape.UnescapeIsIdentityExactly` | rootfs/opt/noVNC/app/fileManager.js:13-21 | unescaping changes nothing if and only if no entity occurs |
| `HtmlEscape.SpelledEntityIsLost` | rootfs/opt/noVNC/app/fileManager.js:13-21 | a concrete name that spells an entity comes back changed, as `&amp;` is decoded first |
| `CsvMessage.GetLine` | src/audiorecorder/plog/Formatters/CsvFormatter.h:40-44 | reading a token from the stream stops at the next quote or the end |
| `CsvMessage.QuoteTokens` | src/audiorecorder/plog/Formatters/CsvFormatter.h:38-45 | the token loop prints the field with every quote doubled and quotes around it |
| `CsvMessage.FormatMessage` | src/audiorecorder/plog/Formatters/CsvFormatter.h:30-49 | the message is cut at 32000 characters with three dots behind it, then quoted |
| `CsvMessage.FieldIsRead` | src/audiorecorder/plog/Formatters/CsvFormatter.h:42-45 | a reader by section 2 of RFC 4180 undoes the quoting, whatever follows the field |
| `CsvMessage.MessageIsRead` | src/audiorecorder/plog/Formatters/CsvFormatter.h:30-49 | such a reader gets the message if it has at most 32000 characters, and else the first 32000 and three dots |
| `CsvMessage.MessageSurvivesExactly` | src/audiorecorder/plog/Formatters/CsvFormatter.h:32-36 | the message comes back unchanged if and only if it has at most 32000 characters or ends, at 32003, in three dots |
| `CsvMessage.PrintingIsInjective` | src/audiorecorder/plog/Formatters/CsvFormatter.h:30-49 | two messages print alike only if they are cut to the same text |
| `KeyInput.Keyboard.Compare` | rootfs/opt/noVNC/app/ui.js:1679-1691 | the loop finds the keys to send: those behind the first difference, or the change of length |
| `KeyInput.Keyboard.SendScript` | rootfs/opt/noVNC/app/ui.js:1693-1699 | one event sends the specified script: as many backspaces as are behind the first difference, then the rest of the new text |
| `KeyInput.Keyboard.SendBackspaces` | rootfs/opt/noVNC/app/ui.js:1694-1696 | as many backspaces as counted are sent |
| `KeyInput.Keyboard.SendTyping` | rootfs/opt/noVNC/app/ui.js:1697-1699 | the last characters of the new text are sent in order |
| `KeyInput.Keyboard.Input` | rootfs/opt/noVNC/app/ui.js:1657-1716 | one event sends the script from the remembered text to the new one, and leaves field and remembered text as specified, whatever they were |
| `KeyInput.Keyboard.Edit` | rootfs/opt/noVNC/app/ui.js:1657-1716 | from a valid state every edit with the caret in the text sends the script and leaves the field equal to the remembered, non-empty text |
| `KeyInput.Keyboard.Edits` | rootfs/opt/noVNC/app/ui.js:1657-1716 | a run of edits sends the scripts of the run, one after the other with resets in between |
| `KeyInput.ScriptOnAnyText` | rootfs/opt/noVNC/app/ui.js:1679-1699 | on any remote text the script deletes as much as the old value has behind the first difference and types the rest of the new value |
| `KeyInput.ScriptEdits` | rootfs/opt/noVNC/app/ui.js:1679-1699 | whatever first part of the old value the remote side has never seen, as long as the new value keeps it, the script turns the rest of the old value into that of the new one |
| `KeyInput.FewestBackspaces` | rootfs/opt/noVNC/app/ui.js:1679-1691 | no other delete-then-type edit from the old to the new value deletes less |
| `KeyInput.StrayKeyExactly` | rootfs/opt/noVNC/app/ui.js:1667-1676 | a key without a character is sent if and only if the caret is taken to be beyond the text |
| `KeyInput.RunMirrors` | rootfs/opt/noVNC/app/ui.js:1657-1716 | over every run of edits that leaves the underscores alone, resets included, the remote text is exactly what was typed behind them; the runs that do not are those of `RunReaches` |
| `KeyInput.RunReaches` | rootfs/opt/noVNC/app/ui.js:1657-1716 | over every run of edits up to and with the next one that resets the field, whatever is deleted: the text that was there loses one character for each of the first k that some value gave up, and the rest of the last value follows |
| `KeyInput.LongestKeptIs` | rootfs/opt/noVNC/app/ui.js:1679-1691 | what counts as given up: the kept part is the longest one, of the first k characters, that every value of the run has |
| `KeyInput.TypingRun` | rootfs/opt/noVNC/app/ui.js:1641-1716 | both for the keys that the handler sends from the start of the page on: what is typed appears behind what was there, and each underscore that is deleted takes one character of that |
| `KeyInput.LeavesTextsEqualExactly` | rootfs/opt/noVNC/app/ui.js:1701-1715 | after an event field and remembered text are equal if and only if something was remembered, the length was out of bounds, or the new value is the reset text |
| `KeyInput.FieldIsResetExactly` | rootfs/opt/noVNC/app/ui.js:1701-1715 | once something is remembered, the field keeps its text if and only if text and caret are within 1 to 200 characters; otherwise it holds 99 underscores |
| `KeyInput.ForgetsExactly` | rootfs/opt/noVNC/app/ui.js:1701-1715 | after an event nothing is remembered if and only if the text is empty and the caret is taken to be behind it |
| `KeyInput.PartingRun` | rootfs/opt/noVNC/app/ui.js:1657-1716 | two events that part field and remembered text, from the start of the page |
| `TokenStore.Store.CleanupTokens` | src/webauth/webauth.go:581-594 | a clean-up removes exactly tokens that have expired, whatever the clock reads between two tokens |
| `TokenStore.Store.SaveToken` | src/webauth/webauth.go:533-549 | the token is stored until its validity is over; saving fails only if the maximum of unexpired tokens exists |
| `TokenStore.Store.ValidateToken` | src/webauth/webauth.go:551-564 | true exactly for a token of the ledger that has not expired |
| `TokenStore.Store.RemoveToken` | src/webauth/webauth.go:566-579 | the token leaves store and ledger; the answer is right unless the token had expired |
| `TokenStore.StepsAgree` | src/webauth/webauth.go:533-594 | one operation on a collected map and on a ledger that is never collected answers alike and keeps the bound |
| `TokenStore.CleanupIsInvisible` | src/webauth/webauth.go:533-594 | over every run with clean-ups anywhere the store never exceeds its maximum and answers as the ledger does |
| `TokenStore.LedgerIgnoresCleanups` | src/webauth/webauth.go:581-594 | the ledger of a run is the ledger of the run without its clean-ups |
| `TokenStore.AnswersWithoutCleanups` | src/webauth/webauth.go:533-594 | a run with clean-ups gives, operation by operation, the answers of the run without them, wherever no expired token is removed |
| `TokenStore.RemovalTellsExactly` | src/webauth/webauth.go:566-579 | a removal answers alike whatever was collected before, if and only if its token has not expired |
| `TokenStore.ExpiringExactly` | src/webauth/webauth.go:556-592 | a token is neither valid nor collectable exactly at the moment it expires |
| `TokenStore.LedgerMeaning` | src/webauth/webauth.go:533-579 | a token is in the ledger exactly if some save of it was accepted and it was neither saved again nor removed since, and it then expires its validity after that save |
| `TokenStore.ValidatesExactly` | src/webauth/webauth.go:551-564 | in every run, clean-ups included, a token is valid if and only if it is not empty, was saved, was not removed since, and its validity is not over |
| `TokenStore.SavesExactly` | src/webauth/webauth.go:533-549 | in every run a save succeeds if and only if fewer than the maximum of tokens are there that have not expired |
| `TokenStore.RemovesExactly` | src/webauth/webauth.go:566-579 | in every run removing a token that has not expired succeeds, and removing one that was never saved, or was removed, fails |
| `TokenStore.RemovalTellsExpiredTokens` | src/webauth/webauth.go:566-579 | two runs from the empty store, in which removing an expired token answers differently with and without a clean-up |
| `TokenStore.ExpiringTokenTakesAPlace` | src/webauth/webauth.go:556-592 | a run from the empty store in which a token that expires right now is not valid, cannot be collected and keeps the store full |
| `UploadServer.StepKeeps` | src/webservices/filemanager.go:368-575 | every message, expiry or disconnect keeps: at most five entries, each under its own path with less received than announced, an owner that runs or an expiry that has passed, a file with exactly the bytes received, separate files, and every handle either open in one entry or closed once |
| `UploadServer.RunKeeps` | src/webservices/filemanager.go:368-575 | the same over every run of any number of connections |
| `UploadServer.DecisionIsSound` | src/webservices/filemanager.go:368-512 | what the handlers check is enough for what they then do |
| `UploadServer.DropCloses` | src/webservices/filemanager.go:75-97 | what a removal closes is exactly what it takes from the table |
| `UploadServer.BlockKeepsOthers` | src/webservices/filemanager.go:492-503 | a block changes the entry and file of its own upload only |
| `UploadServer.CreateKeeps` | src/webservices/filemanager.go:368-425 | an admitted upload adds an entry over a new file without touching another |
| `UploadServer.FinishKeeps` | src/webservices/filemanager.go:505-511 | completing keeps the file and closes its handle once |
| `UploadHistory.EndsCompleteOrClean` | src/webservices/filemanager.go:75-97 | a transfer leaves the table either complete, with exactly the announced number of bytes kept, or with its file removed; its handle is closed by that step and was not before |
| `UploadHistory.AllClosedOnce` | src/webservices/filemanager.go:75-85 | when nothing is pending, every handle ever opened was closed exactly once |
| `UploadHistory.RunFromEmpty` | src/webservices/filemanager.go:368-575 | after every run of a server that starts empty everything is in order, the entries are the transfers that their clients know, and with nothing pending every file opened was closed once |
| `UploadHistory.OnlyOwnerTouches` | src/webservices/filemanager.go:436-470 | as long as a transfer has not expired no step of anybody else touches its entry or file |
| `UploadHistory.SettledFileStays` | src/webservices/filemanager.go:393-403 | a file that no pending upload writes to, such as a completed one, is never changed or removed by any later run of uploads |
| `UploadHistory.PendingFileHoldsBlocks` | src/webservices/filemanager.go:368-575 | in every run the table is what the clients know from messages and replies alone: a pending file holds exactly the blocks acknowledged since its announcement, in order, it expires the validity time after the last acknowledged request, and until then it is there unless it was completed, cancelled, failed or disconnected |
| `UploadHistory.BlockIsAcceptedExactly` | src/webservices/filemanager.go:447-512 | after every run a block is accepted if and only if it has 1 to 5242880 bytes, belongs to a transfer of its connection that is not over and whose last acknowledged request is at most the validity time ago, fits the announced size and can be written; so a transfer in use is never refused as not found |
| `UploadHistory.CancelIsAcceptedExactly` | src/webservices/filemanager.go:427-445 | after every run a cancellation is accepted if and only if it comes from the connection of such a transfer |
| `UploadHistory.CancelEnds` | src/webservices/filemanager.go:427-445 | an accepted cancellation takes away entry and file, any other changes nothing |
| `UploadHistory.BlockRenews` | src/webservices/filemanager.go:466-473 | after an accepted block a transfer that is still pending has the whole validity time again |
| `UploadHistory.StrangersLearnNothing` | src/webservices/filemanager.go:434-464 | a block or cancellation from another connection is answered as if there were no transfer, and changes nothing |
| `UploadHistory.FinishedFileHoldsBlocks` | src/webservices/filemanager.go:492-512 | the completing block leaves a file of the announced size that is all acknowledged blocks in order |
| `UploadHistory.UploadIsAdmittedExactly` | src/webservices/filemanager.go:368-410 | an upload is admitted if and only if it is well formed and allowed, there is room, nothing is in its place and the file can be created; looking up a pending upload of the path adds nothing |
| `UploadHistory.ExpiredUploadIsInTheWay` | src/webservices/filemanager.go:384-397 | an expired upload that the table still holds bars new uploads to its place until it is discarded |
| `UploadHistory.OwnerCanBeGone` | src/webservices/filemanager.go:564-574 | a run in which an upload expires just before its connection ends, and its entry is left without an owner |
| `UploadHistory.NothingIsLeftExactly` | src/webservices/filemanager.go:564-574 | the end of a connection leaves none of its entries if and only if none of them had expired |
| `UploadHistory.OwnersStayExactly` | src/webservices/filemanager.go:368-575 | a step keeps the owners of all entries running if and only if it is not the end of a connection with an expired entry |
| `UploadHandlers.UploadFileContext.Cleanup` | src/webservices/filemanager.go:75-85 | the file is closed, and removed if asked, the first time only |
| `UploadHandlers.FileManager.Remove` | src/webservices/filemanager.go:95-97 | removing an entry closes and removes its file through the callback, unless it was closed before |
| `UploadHandlers.FileManager.Upload` | src/webservices/filemanager.go:368-425 | the handler takes the specified step and gives the specified answer, every error included |
| `UploadHandlers.FileManager.UploadBlock` | src/webservices/filemanager.go:447-513 | the handler takes the specified step: renewal, too much data, a failed write, a stored block, a completed file |
| `UploadHandlers.FileManager.CancelUpload` | src/webservices/filemanager.go:427-445 | the handler takes the specified step; a stranger gets the same answer as for a missing transfer |
| `UploadHandlers.FileManager.DeleteExpired` | src/webservices/filemanager.go:95-97 | discarding an expired entry takes the specified step |
| `UploadHandlers.FileManager.Disconnect` | src/webservices/filemanager.go:564-574 | the loop over the keys, in any order, removes exactly the unexpired transfers of the connection |
| `UploadHandlers.FileManager.RemoveOwnAmong` | src/webservices/filemanager.go:566-573 | the loop itself, whatever order the keys come in |
| `UploadHandlers.FileManager.Serve` | src/webservices/filemanager.go:368-575 | every upload, uploadBlock and cancelUpload message, disconnect or expiry takes the specified step and keeps the invariant of the server |
| `UploadClient.JoinPathIsInside` | rootfs/opt/noVNC/app/fileManager.js:23-29 | a file goes into the directory that is open, whatever its depth and however many separators are behind it: one more component behind those of the directory |
| `UploadClient.FullExactlyAtTheEnd` | rootfs/opt/noVNC/app/fileManager.js:780-809 | the progress is 100 if and only if the last file is acknowledged as a whole, empty files included, and that ends the upload |
| `ProgressBar.RunGoesFromSpotToSpot` | rootfs/opt/noVNC/app/fileManager.js:725-868 | the client of an upload in which all is acknowledged is, after any number of turns, where the sizes of the files alone say |
| `ProgressBar.GoesBackExactly` | rootfs/opt/noVNC/app/fileManager.js:780-809 | the bar goes back in a turn if and only if it is the one that acknowledges the first block of a file that does not keep up; never within a file |
| `ProgressBar.NeverGoesBackExactly` | rootfs/opt/noVNC/app/fileManager.js:780-809 | the bar never goes back in a whole upload if and only if for every file but the first the share of its first block times the files so far is not less than the share of the files before it |
| `ProgressBar.PausedRunGoesBackExactly` | rootfs/opt/noVNC/app/fileManager.js:780-809 | the same for a run in which the client pauses between its turns |
| `ProgressBar.BarGoesBack` | rootfs/opt/noVNC/app/fileManager.js:783-789 | with a file of 1000 bytes and one of ten megabytes the bar shows 50 after the first and 5 after one block of the second |
| `UploadSender.FileReaderModule.RequestNextBlock` | rootfs/opt/noVNC/app/fileManager.js:84-94 | a read starts exactly if the end is not reached |
| `UploadSender.FileReaderModule.OnLoadEnd` | rootfs/opt/noVNC/app/fileManager.js:53-63 | the block is the next part of the file and the position moves behind it |
| `UploadSender.ActiveUpload.Prepare` | rootfs/opt/noVNC/app/fileManager.js:728-736 | the current file is announced with its path and size |
| `UploadSender.ActiveUpload.Start` | rootfs/opt/noVNC/app/fileManager.js:741-774 | an empty file is done at once, any other one gets a reader and a first read |
| `UploadSender.ActiveUpload.OnBlock` | rootfs/opt/noVNC/app/fileManager.js:760-770 | a loaded block is counted and sent |
| `UploadSender.ActiveUpload.Advance` | rootfs/opt/noVNC/app/fileManager.js:780-809 | the next block or the next file is started, and the progress computed from where the last one stood |
| `UploadSender.ActiveUpload.AdvanceUpload` | rootfs/opt/noVNC/app/fileManager.js:854-868 | the bar is set and the upload ends when it is full |
| `UploadSender.ActiveUpload.OnMessage` | rootfs/opt/noVNC/app/fileManager.js:382-412 | an answer starts, continues or fails the upload as specified |
| `UploadProtocol.EventKeeps` | rootfs/opt/noVNC/app/fileManager.js:725-868 | every event of client, server, file reader or anybody else keeps both parties in order: the files done are stored byte for byte, and the current file is at exactly one of its stages |
| `UploadProtocol.RunKeepsOrder` | src/webservices/filemanager.go:368-512 | the same over every run in which the client neither cancels nor disconnects, and, while the server holds a part of a file, takes no longer than the validity time from one request to the next |
| `UploadProtocol.EventKeepsTime` | src/webservices/filemanager.go:466-473 | every event keeps the deadline of the current file at the validity time after the last request that the server took |
| `UploadProtocol.OneRequestAtATime` | rootfs/opt/noVNC/app/fileManager.js:725-826 | at most one request is unanswered, and in between the server has received what the client has read |
| `UploadProtocol.FullMeansStored` | rootfs/opt/noVNC/app/fileManager.js:725-868 | 100 is shown if and only if all files are acknowledged, and then every selected file is stored byte for byte, empty ones included, under its name in the directory that was open |
| `UploadProtocol.BlockTaken` | src/webservices/filemanager.go:447-512 | the server accepts a block of such a client if and only if writing does not fail, and both stay in order |
| `UploadProtocol.BarNeverGoesBack` | rootfs/opt/noVNC/app/fileManager.js:780-809 | if the first block of every file keeps up, the bar goes back in no event of any run |
| `UploadProtocol.BarGoesBackExactly` | rootfs/opt/noVNC/app/fileManager.js:780-809 | in an upload that finishes, among whatever else happens, the bar goes back if and only if the first block of some file does not keep up |
| `UploadProtocol.AnnounceIsAnswered` | src/webservices/filemanager.go:368-425 | an accepted announcement leaves an empty file that is done or a transfer with nothing received |
| `UploadProtocol.BlockIsAnswered` | src/webservices/filemanager.go:447-512 | an accepted block leaves the longer file pending or, at the announced size, done |
| `UploadProtocol.DueEventIsProgress` | rootfs/opt/noVNC/app/fileManager.js:725-826 | every event of the transfer reduces the bound on the events left |
| `UploadProtocol.SomethingIsDue` | rootfs/opt/noVNC/app/fileManager.js:725-826 | no deadlock: as long as the upload runs a request, an answer or a read is outstanding |
| `UploadProtocol.UploadEnds` | rootfs/opt/noVNC/app/fileManager.js:725-826 | every upload ends: the events of the transfer in any such run are bounded by the sizes of the files, whatever happens elsewhere |
| `UploadProtocol.EmptySelectionNeverEnds` | rootfs/opt/noVNC/app/fileManager.js:708-736 | a selection without files sends nothing and stays active in every run |
| `UploadRun.UploadFiles` | rootfs/opt/noVNC/app/fileManager.js:708-868 | a whole upload, with the objects of both sides and a disk that may fail at any time: it comes to an end, and if the bar is full then, every file is stored byte for byte under its name in the directory that was open |
| `UploadRun.OrderlyTurn` | src/webservices/filemanager.go:368-512 | one turn of whichever side is due, by the methods of both, keeps the protocol in order and leaves less to do |
| `PathPolicy.SubpathIsPrefix` | src/webservices/filemanager.go:699-715 | on clean absolute paths the string test holds if and only if the components of the base are a prefix of those of the path |
| `PathPolicy.SubpathIsPartialOrder` | src/webservices/filemanager.go:688-717 | being a subpath is reflexive, antisymmetric and transitive |
| `PathPolicy.ComponentsOfRender` | src/webservices/filemanager.go:688-717 | clean paths and lists of components correspond one to one |
| `PathPolicy.ResolvePath` | src/webservices/filemanager.go:656-686 | resolution gives the evaluated longest existing prefix with the missing components behind it, and fails exactly if nothing exists |
| `PathPolicy.WalkUp` | src/webservices/filemanager.go:667-685 | the walk up ends at the root, noting the missing components |
| `PathPolicy.RejoinMissing` | src/webservices/filemanager.go:678-682 | the missing components are put back in their original order |
| `PathPolicy.ResolvedIsClean` | src/webservices/filemanager.go:656-686 | a resolved path consists of the components of the evaluated prefix and then the missing ones |
| `PathPolicy.FilterMatchesPolicyExactly` | src/webservices/filemanager.go:216-249 | the filter keeps a directory exactly if it may be listed and a file exactly if it is allowed, if and only if there is an allow list or the entry is denied |
| `PathPolicy.WithoutAllowListNothingIsShown` | src/webservices/filemanager.go:216-258 | without an allow list everything not denied may be listed, and every listing is filtered empty |
| `PathPolicy.PathIsAllowedExactly` | src/webservices/filemanager.go:603-623 | a path is allowed if and only if the components of no denied path are a prefix of its own, once resolved, and those of some allowed path are, or there is no allow list |
| `PathPolicy.PathIsListableExactly` | src/webservices/filemanager.go:625-650 | it may be listed if and only if it is allowed, or it is not denied and its components are a prefix of those of an allowed path |
| `PathPolicy.EntryIsKeptExactly` | src/webservices/filemanager.go:216-249 | the filter keeps an entry if and only if it lies in an allowed path or is a directory that an allowed path lies in, and lies in no denied one |
| `PathPolicy.PolicyIsInherited` | src/webservices/filemanager.go:600-650 | what lies in an allowed directory is allowed unless denied, and what lies in a denied one is not even listable |
| `PathPolicy.AncestorIsListable` | src/webservices/filemanager.go:629-650 | with an allow list, a directory above an allowed path may be listed and survives the filter |
| `PathPolicy.AllowedPathIsReachable` | src/webservices/filemanager.go:216-258 | an allowed path can be reached along an open way: each directory from the root down may be listed, and the listing has the next entry, as the directory or link that it is, and keeps it |
| `PathPolicy.WayIsBarred` | src/webservices/filemanager.go:603-650 | where a link leads out of a directory above a path, an allow list that holds the path alone and denies that directory bars the way |
| `PathPolicy.EntryIsDropped` | src/webservices/filemanager.go:228-249 | where a part of the way is missing, or a link stands on it that does not lead to its end, the listing in front of it does not show it under the allow list that holds the path alone |
| `PathPolicy.ReachableExactly` | src/webservices/filemanager.go:603-754 | a path can be reached under every policy that allows it by a list if and only if nothing leads out of the directories above it, and every step exists and is a directory or a link to the end of the way |
| `PathPolicy.ClickableExactly` | rootfs/opt/noVNC/app/fileManager.js:636-652 | as the browser opens directories only: the way can be clicked under every such policy if and only if nothing leads out of the directories above the path, all of them are directories themselves, and the path is listed in the last |
| `PathPolicy.StepDown` | src/webservices/filemanager.go:740-751 | the path of a listed entry is the path of the directory with one more component |
| `PathPolicy.PlainPathStaysBelow` | src/webservices/filemanager.go:656-686 | nothing leads out of a path without links or missing parts |
| `PathPolicy.PlainPathIsOpen` | src/webservices/filemanager.go:656-754 | such a path through directories is an open way |
| `PathPolicy.LinkCannotBeReached` | src/webservices/filemanager.go:629-650 | disks of two directories and a link, under any names, on which a link into an allowed directory is allowed and its own directory is not listable |
| `PathPolicy.LinkOnTheWayIsDropped` | src/webservices/filemanager.go:228-249 | disks on which no link leads out of the way, and a link on it is still dropped from the listing, as its entry is no directory |
| `PcmPlayer.Player.constructor` | rootfs/opt/noVNC/app/pcm-player.js:53-79 | the buffer holds whole frames for the audio time, and the greatest lag is at least twice that time |
| `PcmPlayer.BufferIsEmptyExactly` | rootfs/opt/noVNC/app/pcm-player.js:73-74 | the buffer has no place if and only if the audio time is less than one sample |
| `PcmPlayer.SampleIsScaled` | rootfs/opt/noVNC/app/pcm-player.js:166-171 | a sample is the share of the largest value of its encoding, within -1 and 1 for values within the range |
| `PcmPlayer.Player.Feed` | rootfs/opt/noVNC/app/pcm-player.js:147-180 | flushed buffers and pending samples together grow by exactly the decoded samples, in order; the pending count stays below the buffer length; new buffers follow each other; unaligned, stopped or empty feeds add nothing; an empty buffer never plays |
| `PcmPlayer.Player.Take` | rootfs/opt/noVNC/app/pcm-player.js:170-179 | one sample enters the stream, and a full buffer is flushed |
| `PcmPlayer.Player.SkipAll` | rootfs/opt/noVNC/app/pcm-player.js:170-179 | with an empty buffer the samples are counted and lost |
| `PcmPlayer.Player.Flush` | rootfs/opt/noVNC/app/pcm-player.js:182-243 | the buffer is played once, as the mix of its samples, within the bounds of the schedule, and the next start is where it ends |
| `PcmPlayer.Player.CopyChannel` | rootfs/opt/noVNC/app/pcm-player.js:209-230 | the loop over the frames of a channel, with its running offset and countdown, writes each weighted sample to its frame |
| `PcmPlayer.Player.FadeFrame` | rootfs/opt/noVNC/app/pcm-player.js:219-228 | both fades together multiply the frame with its weight |
| `PcmPlayer.Player.OnStateChange` | rootfs/opt/noVNC/app/pcm-player.js:96-106 | what is pending is dropped unless the context runs |
| `PcmPlayer.FeedsDoNotMatter` | rootfs/opt/noVNC/app/pcm-player.js:147-180 | the same data in one feed or in two makes the same buffers and leaves the same rest |
| `PcmPlayer.BuffersAreUnique` | rootfs/opt/noVNC/app/pcm-player.js:170-179 | a stream is cut into full buffers and a shorter rest in one way only |
| `PcmPlayer.EverySampleIsPlayed` | rootfs/opt/noVNC/app/pcm-player.js:209-215 | every sample is played at exactly one place, in channel k mod channels and frame k div channels, times the weight of the frame |
| `PcmPlayer.WeightIsAShare` | rootfs/opt/noVNC/app/pcm-player.js:212-228 | every weight is within [0, 1] and the fade-out counter within [0, 50], for every buffer length |
| `PcmPlayer.FadeIsEven` | rootfs/opt/noVNC/app/pcm-player.js:217-228 | a fade of at least 101 frames is symmetric, at full level in between, and changes by at most a fiftieth from frame to frame |
| `PcmPlayer.FadeEndsSilentExactly` | rootfs/opt/noVNC/app/pcm-player.js:217-228 | a faded buffer begins silent, and ends silent if and only if it has one frame or at least 51 |
| `PcmPlayer.StartIsNear` | rootfs/opt/noVNC/app/pcm-player.js:189-206 | a buffer starts no earlier than now and no later than the larger of 5 ms and the greatest lag plus 1 ms |
| `PcmPlayer.IsOffExactly` | rootfs/opt/noVNC/app/pcm-player.js:189-206 | the player resynchronises if and only if the start time is over or more than the greatest lag ahead, in whole milliseconds |
| `PcmPlayer.Player.PlayedEndsSilentExactly` | rootfs/opt/noVNC/app/pcm-player.js:208-230 | for any buffer that was played: faded, a channel ends silent if and only if the buffer has one frame or at least 51, or its last sample was silent before |
| `PcmPlayer.OverlapsExactly` | rootfs/opt/noVNC/app/pcm-player.js:201-206 | given where the one before it ends, a buffer starts earlier if and only if that is further ahead than 5 ms and than the greatest lag |
| `PcmPlayer.Player.OverlapsInRun` | rootfs/opt/noVNC/app/pcm-player.js:182-243 | among the buffers of any feed, one overlaps the one before it if and only if that one was still to play for longer than 5 ms and than the greatest lag |
| `PcmPlayer.Player.BurstOverlapsExactly` | rootfs/opt/noVNC/app/pcm-player.js:182-243 | buffers scheduled at one reading of the clock, from a restart on, overlap if and only if all but the last reach further ahead than the greatest lag |
| `PcmPlayer.Player.BurstExists` | rootfs/opt/noVNC/app/pcm-player.js:182-243 | such buffers can follow each other in any number |
| `PcmPlayer.Player.DefaultBurstOverlaps` | rootfs/opt/noVNC/app/pcm-player.js:54-62 | with the default settings they overlap if and only if they are fourteen or more |
| `PcmPlayer.PlayAtOnce` | rootfs/opt/noVNC/app/pcm-player.js:53-180 | a player that is made, started and fed once: with room for less than a sample it plays nothing; otherwise it plays as many buffers as the data fills, one after the other, and if the clock stood still some overlap exactly if they reach too far ahead |
| `PcmPlayer.PlayShortBuffer` | rootfs/opt/noVNC/app/pcm-player.js:53-243 | a player made with a buffer of 44 frames plays it faded and does not end silent |
| `DependencyWalk.Ldd.Search` | src/tigervnc/cross-compile-ldd:218-252 | the loops over origins and directories find the first directory that holds the library, RPATH first |
| `DependencyWalk.FirstDirIsFirst` | src/tigervnc/cross-compile-ldd:244-251 | the directory found is the first that holds the library, and none is found if none does |
| `DependencyWalk.RpathComesFirst` | src/tigervnc/cross-compile-ldd:229-257 | the first RPATH directory that holds the library within the root decides, and that file is walked |
| `DependencyWalk.RootComesNext` | src/tigervnc/cross-compile-ldd:229-257 | if none does, the first directory of the search path that holds it within the root decides |
| `DependencyWalk.SysrootComesLast` | src/tigervnc/cross-compile-ldd:229-257 | if the root has it in none, the first of the search path that holds it within the sysroot decides |
| `DependencyWalk.MissingExactly` | src/tigervnc/cross-compile-ldd:255-260 | a library is reported as not found if and only if none of these holds it |
| `DependencyWalk.Ldd.FindNeeded` | src/tigervnc/cross-compile-ldd:218-262 | a name is reported and its file walked |
| `DependencyWalk.Ldd.ProcessFile` | src/tigervnc/cross-compile-ldd:265-315 | the recursion ends for names from a finite set, takes the specified walk and restores the search path |
| `DependencyWalk.HandleIsTidy` | src/tigervnc/cross-compile-ldd:294-310 | no name is handled twice and the report has one line for each name, in order |
| `DependencyWalk.NothingIsLeftOut` | src/tigervnc/cross-compile-ldd:265-315 | on exit all names of the file are handled, and all that the files of the new names need |
| `DependencyWalk.NothingIsAdded` | src/tigervnc/cross-compile-ldd:218-315 | every new name is needed along a chain of files from the given ones, and its line is what looking along the RPATHs of that chain gives |
| `DependencyWalk.ListIsLeastClosedSet` | src/tigervnc/cross-compile-ldd:369-372 | the names listed for a program are the least set that is closed under need |

## Left out

- Sockets, HTTP, message encoding, audio output and user interface: the models begin with the message, callback or event that reaches the state. Error texts of the operating system are parameters.
- Download, rename, delete and create-folder requests of the file manager: each is a check and one library call. Renaming or deleting a file while its upload is pending is not modelled.
- The expiring table of the file manager is modelled by its contract: looking up hides expired entries, adding under an existing key renews it, removal and expiry call the callback, and expired entries leave at any later time. Eviction for want of room cannot happen, as the table is never over its size.
- Interleaving inside one message handler of the file manager: a handler is one step. Its test for a context that was cleaned up meanwhile is therefore an assertion that it cannot be.
- Writing to a file that fails half way: the file is removed by the same step, so its contents do not matter.
- Cancelling an upload in the browser, or losing the connection, is not part of the joint protocol: acknowledgements carry no identity that would tell a cancelled upload from its successor. The server alone is modelled with both.
- Changes of a file on the client's disk while it is read, and read errors.
- Symbolic links, existence of paths and the entries of directories are functions of the disk; absolute paths and evaluated paths are taken to be clean, as the library documents.
- EndsCompleteOrClean: the file that is created and the name that is removed are one place of the disk, which they are not if the last component of a path is a link to nothing: the file is then created behind the link, and removal takes the link away.
- Different options are taken to have different hashes. The regular expressions of the tokeniser and of the integer parser are written out by hand; the variants without a regex library, the Unicode variant and the grouping of help texts are not modelled. The parser is proved for every tokeniser that gives a matched word a name or letters.
- The empty short name of options that have none is entered as a key by the option parser for each of them in turn; which one it leads to depends on the order of the map, so only non-empty names are said to resolve.
- Integer types are given by width and signedness; promotion of narrow types during the arithmetic is modelled by reduction modulo two to the width after each digit.
- Rounding: JavaScript numbers are exact rationals or reals; the two floating-point encodings of samples enter as functions from bytes to values.
- The clock of the audio context is read once for each buffer, as it does not advance within one.
- Messages with embedded NUL characters, the other columns of a CSV line, and logging.
- `cross-compile-ldd` processes the first file argument only, although its usage names several; reading the search path of the loader configuration is not modelled, nor is the load address printed.
- Password checking, cookies, rate limiting and redirects of the web authentication service.
- Trailing characters that some browsers do not count in the length of the keyboard field enter as the caret position only.
