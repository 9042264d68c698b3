# Verified models of the text handling in the server's libraries

This project models four components that the server and its libraries build on, and proves what they promise:

* **UTF conversion** (`Unicode`, `Decoding`, `Conversion`, `ConversionTheorems`, `SourceText`, `FromUTF32`, `StopReasons`,
  `ConvertUTF`). The six converters of `ConvertUTF.c` are methods over arrays and cursors. Each is proved to do what a pure run
  over units does, and the theorems are about those runs: the header's contract and that it admits one outcome only, the exact
  reason for every result, resumption for every cut of the buffers, round trips, exact acceptance, size bounds. The encodings
  follow section 3.9 of the Unicode Standard.
* **mINI** (`Ini*.dfy`). `INIMap` is a class with its vector and index. The reader, the generator and the lazy writer
  are methods proved against functions on lines. What lines mean is a map of maps (`IniMeaning`), and against that
  meaning writing and reading are shown to be inverse, under conditions that are exact for every file. `IniGrammar` says what
  a line is, and `IniPrinted` what is printed, without the searches that the code makes. What the lazy writer
  prints is first given section by section (`IniLayout`); then it is read (`IniReadBack`); accounts of the lines that are
  added (`IniLedger`) and sums over them (`IniExact`) show that no line makes up for another.
* **SimpleIni text kernel** (`SimpleOrder`, `SimpleMultiLine`, `SimpleText`, `SimpleComments`). The in-place compaction
  of multi-line text is modelled on one character array that holds the tag, the text and what follows it.
* **Bracket matching in cpplint** (`Brackets`, `CppLint`). Counting scans over many lines in both directions, and a stack
  machine, against one grammar of balanced words.

`Lines.dfy` holds the joining of lines that both INI libraries share, `Counting.dfy` lists without repetitions and sums over
lists, `Letters.dfy` the case of letters, `Wrappers.dfy` the type of a value that may be missing.
`dafny verify dfyconfig.toml` checks everything.

## Where the code is not what it says

The model follows the code. For each point there is a theorem that says exactly when it happens and an input where it does:

* `ConvertUTF.h` says that every malformed UTF-8 sequence causes an error. Sequences led by ED or F4 whose second byte is
  below 0x80 are converted (`MalformedConvertedIff`; ED 41 80 in `MalformedButConverted`).
* `ConvertUTF.h` says that with sourceIllegal the source points to the illegal value. Values above 0x10FFFF are passed
  over instead (`StrictFrom32`, `StrictFrom32to16`; 0x110000 in `TooLargeIsPassedOver`).
* `ConvertUTF.h` says that values above 0x10FFFF are an error under either flag, and then that lenient conversion replaces
  them. Lenient conversion to UTF-16 replaces them and reports no error (`LenientFrom32to16`); lenient conversion to UTF-8
  replaces them and reports one (`LenientFrom32`; 0x110000 for both in `TooLargeIsPassedOver`).
* A lazy write keeps an escaped delimiter at the front of the old value (`RewrittenReads`, `LazyWriteReadsIff`;
  `EscapedOldValueStays`, and a whole file in `EscapedValueIsNotReplaced`).
* A generated key that ends in a backslash is not read back in plain mode (`GeneratedLinesRead`; `BackslashKeyIsLost`).
* `LoadMultiLineText` with the tag in the first line yields everything from the tag on (`LoadedIffTextFirst`;
  `TagInFirstLine`) and zeroes the character in front of it, or fails if the tag and the line are empty (`EmptyTagFails`).

## Model

| member | source | states |
|---|---|---|
| Unicode.EncodedIsWellFormed | Source/Libs/socket-cpp/SocketTest/simpleini/ConvertUTF.c:263-275 | Table 3-7 lists what Table 3-6 writes for a code point exactly when that is a scalar value |
| Unicode.Table34 | Source/Libs/socket-cpp/SocketTest/simpleini/ConvertUTF.c:98-100 | the bytes and pairs of Table 3-4, and of the ends of the planes |
| Decoding.AcceptedDecodes | Source/Libs/socket-cpp/SocketTest/simpleini/ConvertUTF.c:349-392 | every accepted byte sequence, the loose ones included, decodes without wrap-around to a scalar value, so that the surrogate and out-of-range branches of both UTF-8 decoders are never taken |
| Decoding.EncodedDecodes | Source/Libs/socket-cpp/SocketTest/simpleini/ConvertUTF.c:190-191 | the bytes of a code point, accumulated and reduced by the magic offset, are the code point |
| Decoding.WellFormedDecodes | Source/Libs/socket-cpp/SocketTest/simpleini/ConvertUTF.c:356-364 | a sequence of Table 3-7 decodes to the one scalar value whose encoding it is |
| Decoding.LooseDecodes | Source/Libs/socket-cpp/SocketTest/simpleini/ConvertUTF.c:295-318 | a sequence led by ED or F4 that escapes the lower bound is not of Table 3-7 and decodes to a scalar value that encodes otherwise |
| Decoding.LeadTellsLength | Source/Libs/socket-cpp/SocketTest/simpleini/ConvertUTF.c:174-183 | the trailing-byte table gives the length of every well-formed sequence from its first byte |
| Decoding.PairInverse | Source/Libs/socket-cpp/SocketTest/simpleini/ConvertUTF.c:120-129 | joining a surrogate pair and splitting the code point give the pair back |
| Decoding.SupplementaryInverse | Source/Libs/socket-cpp/SocketTest/simpleini/ConvertUTF.c:98-100 | splitting a supplementary code point and joining the halves give it back |
| Conversion.Lawful8 | Source/Libs/socket-cpp/SocketTest/simpleini/ConvertUTF.c:336-405 | what a UTF-8 loop makes of a complete unit does not depend on the bytes behind it |
| Conversion.Lawful16 | Source/Libs/socket-cpp/SocketTest/simpleini/ConvertUTF.c:110-162 | the same for the UTF-16 loops; only a truncated pair may change |
| Conversion.Lawful32 | Source/Libs/socket-cpp/SocketTest/simpleini/ConvertUTF.c:61-106 | the same for the UTF-32 loops |
| Conversion.RunStopsRight | Source/Libs/socket-cpp/SocketTest/simpleini/ConvertUTF.h:43-74 | every run has converted the source up to its cursor, unit by unit, within the room, and stops for a reason that the rest of the source and of the room bear out |
| Conversion.StopsRightDetermines | Source/Libs/socket-cpp/SocketTest/simpleini/ConvertUTF.h:43-74 | that contract admits no other outcome, for each of the six loops |
| Conversion.Resumes | Source/Libs/socket-cpp/SocketTest/simpleini/ConvertUTF.c:214-280 | stopping for want of room or source and going on from the cursors is the same as one run, for every cut of source and target |
| Conversion.ResumesWithResult | Source/Libs/socket-cpp/SocketTest/simpleini/ConvertUTF.c:214-280 | the second call returns what one call over everything would, except exactly when a value was passed over in the first and nothing stops the second; never for sources in UTF-8 or UTF-16 |
| Conversion.MarksNothing | Source/Libs/socket-cpp/SocketTest/simpleini/ConvertUTF.c:110-162 | no loop that reads UTF-8 or UTF-16 passes over an illegal value |
| Conversion.MarkIsForgotten | Source/Libs/socket-cpp/SocketTest/simpleini/ConvertUTF.c:409-458 | a source for which it does not: 0x110000 and a letter, with no room for the letter in the first call |
| Conversion.RunFits | Source/Libs/socket-cpp/SocketTest/simpleini/ConvertUTF.c:214-280 | a run never writes more than its room |
| ConversionTheorems.ScalarsConvert | Source/Libs/socket-cpp/SocketTest/simpleini/ConvertUTF.c:409-520 | any scalar values in any of the three forms are read by every converter from that form: conversionOK, everything consumed, the same values |
| ConversionTheorems.TextSpells | Source/Libs/socket-cpp/SocketTest/simpleini/ConvertUTF.c:295-318 | a byte string is well formed under Table 3-7 only if it is the encoding of scalar values |
| ConversionTheorems.WellFormedTextSurvives | Source/Libs/socket-cpp/SocketTest/simpleini/ConvertUTF.c:336-520 | well-formed UTF-8 comes back unchanged through UTF-16 and through UTF-32 |
| ConversionTheorems.SizeFromStoreSuffices | Source/Libs/socket-cpp/SocketTest/simpleini/SimpleIni.h:2881-2892 | one wide character for every byte is never too little, for either width and any bytes |
| ConversionTheorems.SizeToStoreSuffices16 | Source/Libs/socket-cpp/SocketTest/simpleini/SimpleIni.h:2965-2975 | 6n+1 bytes are never too little for n UTF-16 wide characters and their NUL, well formed or not |
| ConversionTheorems.SizeToStoreSuffices32 | Source/Libs/socket-cpp/SocketTest/simpleini/SimpleIni.h:2965-2975 | 6n+1 bytes are never too little for n UTF-32 wide characters and their NUL |
| ConversionTheorems.GrowScratch | Source/Libs/socket-cpp/SocketTest/simpleini/SimpleIni.h:427-439 | the scratch buffer is doubled until it suffices and stays below twice the size asked for |
| ConversionTheorems.StrictOutputIsWellFormed | Source/Libs/socket-cpp/SocketTest/simpleini/ConvertUTF.h:43-74 | strict conversion to UTF-8 writes well-formed text whatever the source and however it ends |
| ConversionTheorems.BytesYieldScalars | Source/Libs/socket-cpp/SocketTest/simpleini/ConvertUTF.c:475-515 | whatever the bytes, the UTF-8 decoders deliver scalar values only |
| ConversionTheorems.Triangle | Source/Libs/socket-cpp/SocketTest/simpleini/ConvertUTF.c:110-162 | for every byte string the two UTF-8 decoders agree on bytes and result, and going on from UTF-16 to UTF-32 is the direct way to UTF-32 |
| SourceText.MalformedButConverted | Source/Libs/socket-cpp/SocketTest/simpleini/ConvertUTF.c:295-318 | a malformed sequence that the header says causes an error is converted instead |
| SourceText.ConversionSucceedsIff | Source/Libs/socket-cpp/SocketTest/simpleini/ConvertUTF.c:336-520 | with room enough the UTF-8 decoders succeed exactly on concatenations of accepted sequences |
| SourceText.ConvertedIsWellFormedIff | Source/Libs/socket-cpp/SocketTest/simpleini/ConvertUTF.c:295-318 | such a text is well formed exactly if no unit has the loose second byte |
| SourceText.MalformedConvertedIff | Source/Libs/socket-cpp/SocketTest/simpleini/ConvertUTF.h:56-66 | so malformed text is converted without an error exactly if it is accepted and has a loose unit, by both decoders |
| SourceText.ConsumesAccepted | Source/Libs/socket-cpp/SocketTest/simpleini/ConvertUTF.c:336-520 | however a UTF-8 decoder ends it has consumed an accepted text, which is the encoding of what it converted exactly if it has no loose unit |
| SourceText.Consumes16 | Source/Libs/socket-cpp/SocketTest/simpleini/ConvertUTF.c:214-280 | however it ends and under either flag, conversion from UTF-16, to either target, has consumed exactly the encoding of what it converted; under the strict flag that is scalar values only |
| FromUTF32.StrictFrom32 | Source/Libs/socket-cpp/SocketTest/simpleini/ConvertUTF.c:409-458 | strict UTF-32 to UTF-8 succeeds exactly on scalar values; on the first other value the cursor stops exactly if it is a surrogate, and the result is sourceIllegal either way |
| FromUTF32.StrictFrom32to16 | Source/Libs/socket-cpp/SocketTest/simpleini/ConvertUTF.c:61-106 | the same for UTF-16, where a value above 0x10FFFF is dropped |
| FromUTF32.LenientFrom32 | Source/Libs/socket-cpp/SocketTest/simpleini/ConvertUTF.c:409-458 | lenient UTF-32 to UTF-8 converts every value, those above 0x10FFFF to the replacement character, and still reports sourceIllegal exactly if there is such a value |
| FromUTF32.LenientFrom32to16 | Source/Libs/socket-cpp/SocketTest/simpleini/ConvertUTF.c:61-106 | lenient UTF-32 to UTF-16 converts every value, surrogates and values above 0x10FFFF to what the code puts for them, and reports conversionOK |
| FromUTF32.From32Consumes | Source/Libs/socket-cpp/SocketTest/simpleini/ConvertUTF.c:409-458 | for any room and either flag: all that was consumed has been converted, too large values to the replacement character, and is marked exactly if there was one |
| FromUTF32.From32to16Consumes | Source/Libs/socket-cpp/SocketTest/simpleini/ConvertUTF.c:61-106 | the same to UTF-16, where strict conversion drops too large values and marks them, and lenient conversion replaces them and marks nothing |
| FromUTF32.LenientOutputIsWellFormedIff | Source/Libs/socket-cpp/SocketTest/simpleini/ConvertUTF.c:409-458 | what lenient conversion writes as UTF-8 is well formed exactly if no source value is a surrogate |
| FromUTF32.TooLargeIsPassedOver | Source/Libs/socket-cpp/SocketTest/simpleini/ConvertUTF.h:43-66 | 0x110000 in each of the four: the source is consumed, and only lenient UTF-16 does not call it illegal |
| StopReasons.Utf8Stops | Source/Libs/socket-cpp/SocketTest/simpleini/ConvertUTF.c:336-405 | both conversions from UTF-8, for any room: sourceExhausted exactly if fewer bytes are left than the next one calls for, sourceIllegal exactly if they are there and no accepted sequence begins, targetExhausted exactly if one does and takes more than the room left, conversionOK exactly at the end |
| StopReasons.Utf16Stops | Source/Libs/socket-cpp/SocketTest/simpleini/ConvertUTF.c:110-162 | both conversions from UTF-16, for any room and flag: sourceExhausted exactly at a lone high surrogate at the end, sourceIllegal exactly at another unpaired surrogate under the strict flag, targetExhausted exactly if the next code point takes more than the room left |
| StopReasons.LenientFrom16 | Source/Libs/socket-cpp/SocketTest/simpleini/ConvertUTF.c:237-254 | with room enough lenient conversion from UTF-16 converts everything exactly if no high surrogate ends the source; otherwise it stops in front of that one with sourceExhausted |
| StopReasons.StrictFrom16 | Source/Libs/socket-cpp/SocketTest/simpleini/ConvertUTF.c:130-147 | with room enough strict conversion stops in front of the first unpaired surrogate, with sourceIllegal unless that is a high surrogate at the end |
| StopReasons.Utf32StopsFor8 | Source/Libs/socket-cpp/SocketTest/simpleini/ConvertUTF.c:409-458 | the result and the cursor for any room and flag: sourceIllegal at a surrogate under the strict flag, or at the end after too large a value; targetExhausted only if the next value takes more bytes than are left |
| StopReasons.Utf32StopsFor16 | Source/Libs/socket-cpp/SocketTest/simpleini/ConvertUTF.c:61-106 | the same to UTF-16, where a full target is seen before the source is looked at |
| ConvertUTF.IsLegalUTF8 | Source/Libs/socket-cpp/SocketTest/simpleini/ConvertUTF.c:295-318 | the backward fall-through test accepts exactly Table 3-7 and the two loose families |
| ConvertUTF.IsLegalUTF8Sequence | Source/Libs/socket-cpp/SocketTest/simpleini/ConvertUTF.c:326-332 | the same with the length taken from the table and bounded by the source |
| ConvertUTF.ReadUTF8 | Source/Libs/socket-cpp/SocketTest/simpleini/ConvertUTF.c:356-364 | the fall-through reads compute the code point of the sequence, modulo 2^32, and move over it |
| ConvertUTF.WriteUTF8 | Source/Libs/socket-cpp/SocketTest/simpleini/ConvertUTF.c:263-276 | the fall-through writes put the encoding in place and nothing elsewhere |
| ConvertUTF.ConvertUTF8toUTF32 | Source/Libs/socket-cpp/SocketTest/simpleini/ConvertUTF.c:462-520 | cursors, result and target are those of the run; the target outside the written part is untouched |
| ConvertUTF.ConvertUTF8toUTF16 | Source/Libs/socket-cpp/SocketTest/simpleini/ConvertUTF.c:336-405 | the same |
| ConvertUTF.ConvertUTF16toUTF32 | Source/Libs/socket-cpp/SocketTest/simpleini/ConvertUTF.c:110-162 | the same |
| ConvertUTF.ConvertUTF16toUTF8 | Source/Libs/socket-cpp/SocketTest/simpleini/ConvertUTF.c:214-280 | the same |
| ConvertUTF.ConvertUTF32toUTF8 | Source/Libs/socket-cpp/SocketTest/simpleini/ConvertUTF.c:409-458 | the same |
| ConvertUTF.ConvertUTF32toUTF16 | Source/Libs/socket-cpp/SocketTest/simpleini/ConvertUTF.c:61-106 | the same |
| IniText.Trim | Source/Libs/mINI/src/mini/ini.h:102-106 | the result has no blank at either end |
| IniText.TrimParts | Source/Libs/mINI/src/mini/ini.h:102-106 | trimming takes blanks off both ends and nothing else |
| IniText.TrimBetween | Source/Libs/mINI/src/mini/ini.h:102-106 | a trimmed text between blanks is what trimming finds |
| IniText.TrimIs | Source/Libs/mINI/src/mini/ini.h:101-106 | for every text the result is the one part that has only the six white-space characters around it and none at its ends |
| IniText.NormIs | Source/Libs/mINI/src/mini/ini.h:107-114 | a name is stored trimmed and without capitals, and otherwise as it is |
| IniText.NormSameIff | Source/Libs/mINI/src/mini/ini.h:107-113 | two names are stored as one exactly if, blanks around them aside, they differ at most in the case of ASCII letters |
| IniText.NormIsNormal | Source/Libs/mINI/src/mini/ini.h:171-176 | a name that has been trimmed and lower-cased once stays as it is |
| IniText.Replace | Source/Libs/mINI/src/mini/ini.h:115-126 | the search-and-replace loop ends, also when the replacement contains the pattern, with every match from the left replaced |
| IniText.ReplacedFromTheLeft | Source/Libs/mINI/src/mini/ini.h:115-126 | the first match is replaced, then those in the text behind it; without a match nothing is |
| IniParser.NormAligned | Source/Libs/mINI/src/mini/ini.h:311-313 | blanking out escaped delimiters keeps every index of the line in place |
| IniParser.DelimiterIsFirstBare | Source/Libs/mINI/src/mini/ini.h:311-323 | the delimiter found is the first one without a backslash in front |
| IniParser.EscapedKey | Source/Libs/mINI/src/mini/ini.h:482-489 | an escaped key has no bare delimiter |
| IniParser.UnescapeEscape | Source/Libs/mINI/src/mini/ini.h:316-318 | unescaping an escaped key gives the key |
| IniGrammar.EscapeIs | Source/Libs/mINI/src/mini/ini.h:482-483 | escaping puts a backslash in front of every delimiter, character by character |
| IniGrammar.UnescapeIs | Source/Libs/mINI/src/mini/ini.h:316-318 | unescaping takes away the backslashes in front of delimiters |
| IniGrammar.ParseLineIff | Source/Libs/mINI/src/mini/ini.h:281-326 | every line is exactly what a grammar without searches says it is: blank, comment, section, entry or nothing |
| IniLines.EntryDelimiter | Source/Libs/mINI/src/mini/ini.h:311-323 | every entry is what stands before and behind its first bare delimiter |
| IniLines.SectionLineReads | Source/Libs/mINI/src/mini/ini.h:295-310 | a printed section line is read as its section exactly if the name has no semicolon |
| IniLines.SectionLineFails | Source/Libs/mINI/src/mini/ini.h:295-310 | otherwise it is read as no section or as one with another stored name |
| IniLines.KeyLineReads | Source/Libs/mINI/src/mini/ini.h:281-326 | a printed key line is read as its key and trimmed value exactly under the conditions of `Readable` |
| IniLines.KeyLineFails | Source/Libs/mINI/src/mini/ini.h:281-326 | otherwise its value is not read under any key |
| IniRewrite.RewrittenReads | Source/Libs/mINI/src/mini/ini.h:577-594 | the line printed for a changed entry is read as its key and the new value exactly if the old value does not begin with an escaped delimiter and no section mark follows a bracket |
| IniRewrite.RewriteIs | Source/Libs/mINI/src/mini/ini.h:583-593 | the text of the rewritten line in plain and in pretty mode: up to the first character that is neither blank nor part of an escape all stays, then comes the new value; only pretty mode adds a blank, and only if nothing stands between |
| IniRewrite.ChangedEntry | Source/Libs/mINI/src/mini/ini.h:583-593 | so an old value that no escape leads is replaced behind the blanks in front of it, and one blank is added exactly in pretty mode if there is none |
| IniRewrite.EscapedOldValueStays | Source/Libs/mINI/src/mini/ini.h:583-587 | a line for which this fails: what is read is the escaped delimiter of the old value with the new value behind it |
| IniMap.INIMap.constructor | Source/Libs/mINI/src/mini/ini.h:157 | an empty map with its index |
| IniMap.INIMap.Copy | Source/Libs/mINI/src/mini/ini.h:159-169 | a copy with the same entries in the same order |
| IniMap.INIMap.SetEmpty | Source/Libs/mINI/src/mini/ini.h:146-152 | a new key goes to the end, in the vector and in the index |
| IniMap.INIMap.At | Source/Libs/mINI/src/mini/ini.h:171-181 | `operator[]`: the position of the key, which is added if it is new |
| IniMap.INIMap.Get | Source/Libs/mINI/src/mini/ini.h:182-194 | the value stored under any spelling of the name, or an empty one if there is none |
| IniMap.INIMap.Contains | Source/Libs/mINI/src/mini/ini.h:195-202 | is the name stored, in any spelling? |
| IniMap.INIMap.Set | Source/Libs/mINI/src/mini/ini.h:203-219 | the key has the value, in its old place or at the end |
| IniMap.INIMap.Remove | Source/Libs/mINI/src/mini/ini.h:229-252 | the key is gone and the index is in step again after the decrement loop |
| IniMap.INIMap.Clear | Source/Libs/mINI/src/mini/ini.h:253-257 | nothing is left |
| IniMap.INIMap.Size | Source/Libs/mINI/src/mini/ini.h:258-261 | the number of entries |
| IniMap.SetThenGet | Source/Libs/mINI/src/mini/ini.h:182-219 | what is set under one spelling of a name is found under every spelling, and no other name is touched |
| IniMap.RemoveThenGet | Source/Libs/mINI/src/mini/ini.h:229-252 | what is removed under one spelling is gone under every spelling, and nothing else is |
| IniMap.PutMeans | Source/Libs/mINI/src/mini/ini.h:203-219 | setting a key is the update of the map that the entries mean |
| IniMap.PutIndex | Source/Libs/mINI/src/mini/ini.h:203-219 | no key moves when another one is set |
| IniMap.DropMeans | Source/Libs/mINI/src/mini/ini.h:229-252 | removing a key takes it out of the map that the entries mean |
| IniMap.DropIndex | Source/Libs/mINI/src/mini/ini.h:229-252 | the keys behind a removed one move up by one, the others stay |
| IniMap.Perform | Source/Libs/mINI/src/mini/ini.h:134-264 | any sequence of operations keeps index and vector in step |
| IniMap.RunRefines | Source/Libs/mINI/src/mini/ini.h:134-264 | after any sequence of operations the entries mean what the same operations make of a map, and keys that are not removed keep their order |
| IniMap.SizeIs | Source/Libs/mINI/src/mini/ini.h:258-261 | the size is the number of keys of that map |
| IniReader.ReadFile | Source/Libs/mINI/src/mini/ini.h:341-389 | the lines of the contents, without byte order mark, carriage returns and zeroes |
| IniFile.FileLinesAre | Source/Libs/mINI/src/mini/ini.h:341-389 | for any contents: the lines are those between the newlines, byte order mark, carriage returns and zeroes left out; only an empty file has none |
| IniReader.Read | Source/Libs/mINI/src/mini/ini.h:402-436 | the structure and the kept lines are those of the lines read one by one |
| IniReader.LineKept | Source/Libs/mINI/src/mini/ini.h:426-433 | a line is kept unless it is neither blank, comment, section nor entry, or is an entry in front of the first section |
| IniMeaning.ReadMeans | Source/Libs/mINI/src/mini/ini.h:402-436 | the ordered structure that reading builds means the maps that the lines mean |
| IniMeaning.KeptMeans | Source/Libs/mINI/src/mini/ini.h:426-433 | the kept lines mean what all lines mean |
| IniWriter.CollectNewKeys | Source/Libs/mINI/src/mini/ini.h:618-631 | the lines for the keys that the original lacks |
| IniWriter.WriteNewKeys | Source/Libs/mINI/src/mini/ini.h:611-646 | new keys go behind the last key of the section |
| IniWriter.WriteEntry | Source/Libs/mINI/src/mini/ini.h:565-597 | an entry is kept, rewritten or left out |
| IniWriter.AppendNewSections | Source/Libs/mINI/src/mini/ini.h:648-673 | sections that the original lacks go to the end |
| IniPrinted.AppendedSection | Source/Libs/mINI/src/mini/ini.h:655-671 | the lines of a new section as text, in both modes; pretty mode sets it off with an empty line unless there is one already or nothing at all |
| IniPrinted.KeyLineIs | Source/Libs/mINI/src/mini/ini.h:628-632 | the line of a new key as text, in both modes |
| IniWriter.GetLazyOutput | Source/Libs/mINI/src/mini/ini.h:519-673 | the loop with its rewinding iterator ends, prints what a single walk over the lines prints, and changes neither structure |
| IniLayout.LazyLayout | Source/Libs/mINI/src/mini/ini.h:519-673 | whatever the file, the output is what stands in front of the first section, then section by section the lines that stay, in order and brought up to date, with the new keys behind the last key that stays, then the new sections |
| IniLayout.LastKey | Source/Libs/mINI/src/mini/ini.h:595-646 | the place of the new keys: the lines in front of it come from the lines up to the last entry that stays, and no entry stays behind it |
| IniLayout.RemainsAre | Source/Libs/mINI/src/mini/ini.h:552-609 | of a section that goes, its comments and blank lines are left, except for its first empty line |
| IniReadBack.WriteReads | Source/Libs/mINI/src/mini/ini.h:519-673 | whatever the file, with readable additions the output reads back as the data exactly if every entry to be changed can be, unless its key is given again later |
| IniLedger.LedgerFacts | Source/Libs/mINI/src/mini/ini.h:611-673 | every line that is added is meant to be one section or entry that is wanted and was not there, and no two are meant to be the same |
| IniLedger.OutputAccountable | Source/Libs/mINI/src/mini/ini.h:519-673 | whatever the file, all that the output is read as was there, or is what an added line is read as in its own section |
| IniLedger.BooksBalance | Source/Libs/mINI/src/mini/ini.h:402-436 | if lines that are no more than what was meant are read as all of it, then in sum their contents are what was meant |
| IniExact.NewLineRead | Source/Libs/mINI/src/mini/ini.h:281-326 | a line printed for a new key is never read with more semicolons in its value; with as many it is read with a shorter value unless it was readable |
| IniExact.LazyWriteReadsIff | Source/Libs/mINI/src/mini/ini.h:519-673 | for every file and every structure: what is printed reads back as exactly the data, values trimmed, if and only if the additions are readable and every entry to be changed can be, unless its key is given again later |
| IniExact.EscapedValueIsNotReplaced | Source/Libs/mINI/src/mini/ini.h:577-594 | a file and a change for which this fails |
| IniLazy.LazyUpdates | Source/Libs/mINI/src/mini/ini.h:519-673 | if the data has nothing that the file lacks, the lines come out one for one, every entry with its value brought up to date |
| IniLazy.LazyCopies | Source/Libs/mINI/src/mini/ini.h:519-673 | lines that already say what the data says come out as they are |
| IniStable.LazyWriteIsStable | Source/Libs/mINI/src/mini/ini.h:519-673 | a second lazy write of the same trimmed data changes nothing |
| IniComments.CommentsSurvive | Source/Libs/mINI/src/mini/ini.h:599-609 | for every structure all comment lines come out unchanged and in order |
| IniComments.WriteBackUpdates | Source/Libs/mINI/src/mini/ini.h:559-597 | writing back what was read from any file prints the kept lines one for one, each entry with the last value of its key |
| IniComments.WriteBackIsIdentityIff | Source/Libs/mINI/src/mini/ini.h:559-597 | so the kept lines come out as they are exactly if every entry has that value or is rewritten to itself |
| IniComments.RepeatedKeyShows | Source/Libs/mINI/src/mini/ini.h:559-597 | if no value begins with an escaped delimiter, exactly if no key of a section is repeated with another value |
| IniComments.EscapeHidesRepeat | Source/Libs/mINI/src/mini/ini.h:577-594 | a line that is rewritten to itself though its value is another |
| IniGenerator.GenerateKeys | Source/Libs/mINI/src/mini/ini.h:474-499 | the lines of a collection with line ends between them |
| IniGenerator.Generate | Source/Libs/mINI/src/mini/ini.h:457-508 | the generated lines with line ends between them, and an empty line between sections in pretty mode |
| IniPrinted.GeneratedText | Source/Libs/mINI/src/mini/ini.h:457-508 | the text of a generated file, character by character |
| IniGenerated.LineAddsOne | Source/Libs/mINI/src/mini/ini.h:412-434 | no line adds more than one section or key to what is read |
| IniGenerated.TightExtends | Source/Libs/mINI/src/mini/ini.h:412-434 | if every line adds one, each adds it at the end |
| IniGenerated.GeneratedLinesRead | Source/Libs/mINI/src/mini/ini.h:457-508 | the generated lines are read as the same structure in the same order exactly if it is printable |
| IniGenerated.BackslashKeyIsLost | Source/Libs/mINI/src/mini/ini.h:482-489 | a structure for which this fails: a key that ends in a backslash, in plain mode |
| IniFile.JoinedFile | Source/Libs/mINI/src/mini/ini.h:366-388 | clean lines joined by either line end are the lines of the file again, with or without byte order mark |
| IniFile.ReadIsClean | Source/Libs/mINI/src/mini/ini.h:371-386 | no name, key or value that is read holds a line end, a carriage return or a zero |
| IniFile.GenerateThenRead | Source/Libs/mINI/src/mini/ini.h:457-508 | the generated file is read as the same structure in the same order, values trimmed, exactly if the structure is clean and printable |
| IniFile.Save | Source/Libs/mINI/src/mini/ini.h:684-735 | reading, merging and writing give the byte order mark, if there was one, and the lines of the lazy write; without a file the generated text; the data is left alone |
| IniSave.GeneratedIsWritten | Source/Libs/mINI/src/mini/ini.h:457-508 | generating prints the lines of a lazy write into an empty file |
| IniSave.MarkStays | Source/Libs/mINI/src/mini/ini.h:713-722 | a file has its byte order mark after a write exactly if it had it before |
| IniSave.SaveReadsIff | Source/Libs/mINI/src/mini/ini.h:684-735 | whatever the file holds, or if there is none, what is written reads back as exactly the data if and only if names, keys and values are clean and the conditions are met |
| SimpleOrder.IsLess | Source/Libs/socket-cpp/SocketTest/simpleini/SimpleIni.h:2685-2719 | the comparison loop computes the order on the strings at the two pointers |
| SimpleOrder.LessIsDictionaryOrder | Source/Libs/socket-cpp/SocketTest/simpleini/SimpleIni.h:2678-2719 | the order is the dictionary order of the strings, folded if case is ignored, with characters signed or not |
| SimpleOrder.LessAt | Source/Libs/socket-cpp/SocketTest/simpleini/SimpleIni.h:2685-2719 | the first place where two strings differ, case aside if it is ignored, decides by the numbers of the characters, or by which one ends there |
| SimpleOrder.SameIff | Source/Libs/socket-cpp/SocketTest/simpleini/SimpleIni.h:2693-2719 | two keys are the same exactly if they are equal, or equal up to the case of ASCII letters |
| SimpleOrder.StrictWeakOrder | Source/Libs/socket-cpp/SocketTest/simpleini/SimpleIni.h:2685-2719 | both orders are strict weak orders whose equivalence is equality after folding |
| SimpleOrder.GetSectionSize | Source/Libs/socket-cpp/SocketTest/simpleini/SimpleIni.h:2247-2278 | over sorted keys the count is the number of distinct keys; -1 exactly if there is no such section |
| SimpleOrder.GetAllKeys | Source/Libs/socket-cpp/SocketTest/simpleini/SimpleIni.h:2310-2337 | over sorted keys the list has each distinct key once, in increasing order, as many as are counted; false exactly if there is no such section |
| SimpleMultiLine.SkipNewLine | Source/Libs/socket-cpp/SocketTest/simpleini/SimpleIni.h:1198-1201 | one line end is passed, of one or two characters |
| SimpleMultiLine.ReadAhead | Source/Libs/socket-cpp/SocketTest/simpleini/SimpleIni.h:1759-1772 | the look-ahead over blank lines and how many of them there are |
| SimpleMultiLine.MoveDown | Source/Libs/socket-cpp/SocketTest/simpleini/SimpleIni.h:1790-1795 | the move to a place in front takes the line over and leaves the unread rest alone |
| SimpleMultiLine.Load | Source/Libs/socket-cpp/SocketTest/simpleini/SimpleIni.h:1750-1822 | what is written never gets longer than what has been read |
| SimpleMultiLine.LoadMultiLineText | Source/Libs/socket-cpp/SocketTest/simpleini/SimpleIni.h:1725-1845 | the value left in the buffer, the pointers and the result are those of the pure scan of the text; what is still to be parsed is untouched; if nothing is found the buffer is as it was, but for the zero in place of the line end where a tag was looked for |
| SimpleText.JoinSplit | Source/Libs/socket-cpp/SocketTest/simpleini/SimpleIni.h:1816-1821 | the lines of a text joined by newlines are the text with every line end made one newline |
| SimpleText.SplitHasNoEnds | Source/Libs/socket-cpp/SocketTest/simpleini/SimpleIni.h:1198-1201 | none of these lines holds a line end |
| SimpleText.LoadLines | Source/Libs/socket-cpp/SocketTest/simpleini/SimpleIni.h:1750-1822 | with a tag the scan keeps the lines in front of the first line that is the tag, and goes on with the lines behind it |
| SimpleText.LoadedIffTextFirst | Source/Libs/socket-cpp/SocketTest/simpleini/SimpleIni.h:1824-1844 | the value is the lines in front of the tag exactly if the first line is not the tag; if it is, and there is a value at all, everything from the tag on |
| SimpleComments.BlockIs | Source/Libs/socket-cpp/SocketTest/simpleini/SimpleIni.h:1752-1782 | the block of a comment ends behind the last comment line that only comment lines and, where they are allowed, blank lines stand in front of |
| SimpleComments.LoadComments | Source/Libs/socket-cpp/SocketTest/simpleini/SimpleIni.h:1750-1822 | without a tag that block is loaded, each line without the blanks it begins with, and the scan stops at the line behind it |
| SimpleComments.CommentsLoaded | Source/Libs/socket-cpp/SocketTest/simpleini/SimpleIni.h:1824-1844 | nothing is found exactly if there is no such block; otherwise the value is its lines, and the data goes on with the lines behind it |
| SimpleText.TagInFirstLine | Source/Libs/socket-cpp/SocketTest/simpleini/SimpleIni.h:1830-1834 | a text for which this fails: the value is the tag and all that follows |
| SimpleText.EmptyTagFails | Source/Libs/socket-cpp/SocketTest/simpleini/SimpleIni.h:1824-1834 | loading fails exactly if the tag and the first line are empty |
| SimpleText.OutputMultiLineText | Source/Libs/socket-cpp/SocketTest/simpleini/SimpleIni.h:2525-2550 | every line is converted and printed with the newline of the system behind it; nothing is printed of an empty text; the text is as it was, unless a conversion fails: then its line end stays zeroed |
| SimpleText.PrintIs | Source/Libs/socket-cpp/SocketTest/simpleini/SimpleIni.h:2525-2550 | lines with newlines between them come out one by one, converted, up to the first that cannot be; printing stops where that one ends |
| SimpleText.PrintsAsItIs | Source/Libs/socket-cpp/SocketTest/simpleini/SimpleIni.h:2525-2550 | with a store of the same characters nothing fails and every line is printed as it is |
| SimpleText.MultiLineRoundTrip | Source/Libs/socket-cpp/SocketTest/simpleini/SimpleIni.h:2502-2509 | a printed value is restored when it is loaded exactly if it is not empty, has no carriage return and no line that is the tag |
| SimpleText.RoundTripGoesOn | Source/Libs/socket-cpp/SocketTest/simpleini/SimpleIni.h:1836-1842 | and the data pointer is behind the tag line |
| Brackets.ScansInvert | Source/Libs/SQLiteCpp/cpplint.py:1234-1373 | scanning forward and scanning backward pair the same brackets |
| Brackets.FirstCloseIsBalanced | Source/Libs/SQLiteCpp/cpplint.py:1234-1254 | the closing bracket found by counting is the one behind a balanced word |
| Brackets.ScanBalanced | Source/Libs/SQLiteCpp/cpplint.py:3719-3729 | a balanced word leaves the stack as it was |
| Brackets.ScanUnwinds | Source/Libs/SQLiteCpp/cpplint.py:3719-3729 | what empties the stack is a balanced word for every bracket on it |
| Brackets.ScanFindsInside | Source/Libs/SQLiteCpp/cpplint.py:3719-3734 | the stack machine stops behind exactly the balanced words that their closing bracket follows |
| CppLint.FindEndOfExpressionInLine | Source/Libs/SQLiteCpp/cpplint.py:1234-1254 | the first place in the line where the depth comes to zero, or the depth at its end |
| CppLint.FindStartOfExpressionInLine | Source/Libs/SQLiteCpp/cpplint.py:1304-1328 | the last such place when scanning backward |
| CppLint.CloseExpression | Source/Libs/SQLiteCpp/cpplint.py:1257-1301 | the line and place just behind the bracket that closes this one, for four kinds of brackets, or the fallback if there is none |
| CppLint.ReverseCloseExpression | Source/Libs/SQLiteCpp/cpplint.py:1331-1373 | the line and place of the bracket that opens this one, for four kinds of brackets, or the fallback if there is none |
| CppLint.BracketsInvert | Source/Libs/SQLiteCpp/cpplint.py:1257-1373 | across any lines each of the two undoes the other, and neither has a choice |
| CppLint.ClosesIsBalanced | Source/Libs/SQLiteCpp/cpplint.py:1257-1301 | they are brackets of one of four kinds, and a balanced word of that kind stands between them |
| CppLint.GetTextInside | Source/Libs/SQLiteCpp/cpplint.py:3681-3734 | the balanced word over three kinds of brackets in front of the matching closing one; none exactly if there is no such word |
| CppLint.InsideIsUnique | Source/Libs/SQLiteCpp/cpplint.py:3681-3734 | there is at most one such word |

## Left out

- Files, streams, `stat` and the opening of files: the models begin with the contents of a file and end with them.
- IniStable.LazyWriteIsStable: for data all of whose changes can be made, whether or not a later line gives the key again.
- IniMap.INIMap.At: `operator[]` returns a reference in the code and a position here; writing through the reference is `Store`. The sections inside an `INIStructure` are values, so that aliases of a section are not modelled.
- `INIMap::set` with several pairs: the loop is a sequence of single calls, as in `Perform`.
- `tolower` is taken to be the ASCII one.
- SimpleText.OutputMultiLineText: the conversion of a line to the store is a parameter that may fail; `ConvertUTF` models the conversions themselves.
- SimpleIni parsing of sections and keys, its tables, memory ownership, numeric getters and the other converters are not modelled.
- CppLint.GetTextInside: the regular expression search is a parameter, the end of its match.
- CppLint.CloseExpression: positions are not negative.
- CppLint.ReverseCloseExpression: the same.
- The rest of cpplint, the SQLite wrappers, the sockets and the unfinished server classes.
