# RetroArch Chinese ROM renamer, modelled in Dafny

The repository renames ROM files whose names are in Chinese to the English
names RetroArch expects, and converts playlists the other way. Its name
tables come from the rom-name-cn project: one CSV file per platform, with
the English title in the first column and the Chinese title in the second.
Four programs share one engine:

- `core.py` holds the engine:
  - a table loader with a cache (`CSVMapper`);
  - a file-name cleaner (`FileNameCleaner`);
  - a fuzzy matcher (`SmartMatcher`) that shortlists candidates and re-scores them with a weighted composite;
  - the allocator of non-colliding names (`generate_unique_filename`);
  - the CJK test (`is_chinese_filename`).
- `config.py` holds the constants:
  - the platform table (name, CSV file, extensions);
  - the matcher's weights and damping factors.
- `gui.py` is the main front end:
  - it validates the threshold and starts a job;
  - it previews or performs the renaming of one folder for a chosen platform;
  - it converts a RetroArch `.lpl` playlist, or a gamelist `.xml`, from English labels to Chinese ones.
- `rom_rename_tool.py` is an older front end with its own copy of the engine. It picks the table from each file's extension through a small extension map.
- `rom_renamer_auto.py` is a third front end with its own cleaner and matcher. It detects the table from the most common extension in the folder, or from the folder's name.

The model is split into modules:

- Libraries:
  - `Wrappers`: `Option` and `Result`.
  - `Seqs`: filter, first index, count, distinct, and a running best.
  - `Text`: lower-casing, strip, decimal printing and replace.
  - `Paths`: `os.path.splitext`, `Path.name` and `Path.suffix`.
  - `PyDict`: Python dicts with insertion order.
- `Config`: the constants.
- One module per part of the engine: `Cleaner`, `Matcher`, `Mapper`, `UniqueName`, and `Relabel` (the playlist relabelling loop).
- `Batch`: the per-file outcomes and counters shared by the renaming loops.
- One module per front end: `Gui`, `RomRenameTool`, `RomRenamerAuto`.

State the source updates in place becomes classes:

- the mapper's cache: `Mapper.CsvMapper`, and `RomRenameTool.ToolMapper` with its extension map;
- each application's `running` flag: `Gui.RenamerApp`, `RomRenameTool.ToolApp`, `RomRenamerAuto.AutoRenamerApp`.

Loops become methods, each proved equal to a function. The properties are
proved about those functions.

The outside world and the libraries are modelled as values:

- The file system:
  - a folder is the `set` of names in it;
  - a listing is a sequence of `(name, isFile)` entries;
  - the tables on disk are a `CsvStore` mapping a table's file name to what reading it gives;
  - the files whose `os.rename` raises are a given set.
- rapidfuzz is a `Metrics` value. It carries the four scorers, the shortlist function `process.extract` and the power `x ** 0.5`. `ValidMetrics` states what the model relies on:
  - every scorer lies in 0..100;
  - the shortlist has `min(limit, len(choices))` entries, drawn from the choices (as a sub-multiset);
  - the power maps 0..1 into 0..1 and fixes 1.
- Scores are `real`.

Behaviour worth noting:

- In `gui.py` and `rom_rename_tool.py`, a table that fails to load during a playlist conversion raises out of the item loop. The outer `try` (`gui.py:319`, `gui.py:394`) catches it, so the whole conversion is abandoned and nothing is saved. The failure is not counted against that one item: `Relabel.RelabelAll` returns `aborted`.
- In the renaming loops, a load failure is caught per file and counted as an error.
- The threshold accepted by `_validate_and_start` is an integer in 0..100. The matcher compares it against a real-valued score.

## Model

| member | source | states |
|---|---|---|
| Config.PlatformConfigWellFormed | Source/config.py:12-69 | every platform entry has a name, a table and a non-empty list of lower-case extensions, each a dot and at least one more character; no two entries share a name |
| Config.Lookup | Source/core.py:21-23 | finds the entry with the given name exactly when one exists, and returns that entry |
| Config.FirstPlatformWith | Source/gui.py:337-341 | returns the first platform whose extensions contain the extension; none when no platform lists it |
| Config.ZipResolvesToGameBoyAdvance | Source/config.py:13-20 | `.zip` is listed by several platforms, and the first-match scan resolves it to Game Boy Advance |
| Config.IsoResolvesToWii | Source/config.py:49-56 | `.iso` is listed by Wii and PlayStation Portable, and resolves to Wii |
| Config.BinResolvesToPlayStation | Source/config.py:57-68 | `.bin` is listed by PlayStation and Mega Drive, and resolves to PlayStation |
| Config.WeightsAndDamping | Source/config.py:9-83 | the four match weights sum to 1; the length power is in (0, 1]; the substring penalty is in (0, 1); the default threshold is in 0..100 |
| Seqs.Best | Source/core.py:90-119 | a running best with a strict `>` from 0: the score bounds every element's score; the winner is the first element reaching it; there is no winner when no score is positive |
| Seqs.FirstIndex | Source/gui.py:338-341 | a `for ... break` scan: the index found satisfies the test and none before it does; none exactly when no element does |
| Seqs.Count | Source/rom_renamer_auto.py:116 | the number of occurrences is positive exactly when the element occurs |
| Text.Lower | Source/gui.py:334 | `str.lower()` keeps the length and folds each character |
| Text.LowerIdempotent | Source/rom_rename_tool.py:48-54 | lower-casing an already lower-cased key changes nothing, so the second `.lower()` in `get_csv_path` is harmless |
| Text.RStrip | Source/core.py:61 | the result is a prefix of the input that does not end in whitespace, and everything dropped is whitespace |
| Text.Strip | Source/core.py:77 | the result is a contiguous piece of the input with no whitespace at either end, and everything dropped around it is whitespace |
| Text.StripOfTrimmed | Source/core.py:77 | a string with no whitespace at either end is its own strip |
| Text.StripDropsTrailingSpace | Source/rom_renamer_auto.py:179 | stripping such a string with one space appended gives the string back |
| Text.Decimal | Source/core.py:129 | `str(i)` is a non-empty string of digits, one digit long exactly for numbers below 10 |
| Text.DecimalInjective | Source/core.py:129 | two numbers that print alike are equal |
| Text.ReplaceAllRemoves | Source/gui.py:377 | after replacing every `_` by a space, no `_` is left |
| Text.ReplaceAllWithoutPattern | Source/gui.py:377 | replacing a one-character pattern that does not occur changes nothing |
| Text.ReplaceAllTail | Source/gui.py:466 | in a name whose only `.` is that of its `.xml` suffix, the replacement rewrites just the suffix |
| Paths.SplitExt | Source/core.py:126 | `os.path.splitext`: the root and the extension concatenate back to the path; a non-empty extension starts at the last dot of the last component, and some character other than a dot comes before it in that component; otherwise the path has no such dot |
| Paths.NameIsLastComponent | Source/gui.py:377 | `Path(p).name` is the tail of the path after its last `/`, and it contains no `/` |
| Paths.Suffix | Source/gui.py:334 | `Path(p).suffix` is empty, or a dot followed by at least one character with no further dot or `/` |
| Paths.SuffixIsTailOfName | Source/gui.py:334 | the suffix is a proper tail of the name: a name that is all suffix, such as `.bashrc`, has none |
| PyDict.Put | Source/rom_renamer_auto.py:116 | `d[k] = v` updates one key; a new key goes to the end of the key order and an old key keeps its place |
| PyDict.Get | Source/gui.py:223 | `d.get(k)` is present exactly when the key is, and then gives its value |
| PyDict.Items | Source/gui.py:361 | `d.items()` lists every key once, in insertion order, with its value |
| PyDict.CollectLastWins | Source/core.py:43-44 | in a dict comprehension over rows, each key holds the value of the last kept row with that key |
| PyDict.CollectKeyOrder | Source/core.py:43-44 | the comprehension's keys are the kept rows' keys in order of first occurrence |
| Cleaner.IsChineseFilename | Source/core.py:134-136 | holds exactly when some character of the name is in the CJK Unified Ideographs block |
| Cleaner.CleanPrefix | Source/core.py:55-68 | the result is a suffix of the name; a name with no CJK character is returned unchanged; when anything is cut, the result starts at the first CJK character; whether the name holds CJK is unchanged |
| Cleaner.CleanPrefixCases | Source/core.py:57-68 | with `pos` the first CJK index, the result is `name[pos:]` exactly when the stripped prefix ends in a letter that is alone, or the prefix has no letter at all; otherwise it is the whole name |
| Cleaner.CleanPrefixKeepsWordPrefix | Source/core.py:63-68 | a prefix like `GBA-` is a word, so `GBA-冒险岛` is kept whole |
| Cleaner.CleanPrefixDropsLoneLetter | Source/core.py:63-64 | a lone letter like `A ` before the title is dropped |
| Cleaner.CloserOffset | Source/core.py:74 | the lazy `.*?` stops, before any newline, at the first closing bracket; such a closer exists exactly when a one-line remainder contains one |
| Cleaner.RemoveSpans | Source/core.py:74 | deleting bracketed spans only removes characters: the result is no longer than the input and draws from its characters |
| Cleaner.CloserOffsetAfterPlain | Source/core.py:74 | the lazy `.*?` runs over a stretch without closer or line break and stops at the closer after it |
| Cleaner.RemoveSpansDropsSpan | Source/core.py:74 | an opener, a middle with no closer and no line break, and a closer at the front are deleted together, and the scan goes on after them |
| Cleaner.RemoveSpansCopiesPlainPrefix | Source/core.py:74 | text before the first opener survives unchanged, ahead of the rest |
| Cleaner.RemoveSpansWithoutOpener | Source/core.py:74 | a name without an opener is left as it is |
| Cleaner.RemoveSpansLeavesNoPair | Source/core.py:74 | on a one-line name, no opening bracket is left with a closing bracket after it |
| Cleaner.Squeeze | Source/core.py:75-76 | after the two deletions, no separator (`_`, `-`, `+`) and no whitespace remains; every other character occurs as often as before; a name with neither is left as it is |
| Cleaner.SqueezeConcat | Source/core.py:75-76 | the deletions keep the order of what remains: squeezing a concatenation squeezes each part |
| Cleaner.Abbreviate | Source/core.py:78 | replacing `Advance` in any letter case by `A` makes the name no longer and adds no character other than `A` |
| Cleaner.AbbreviateCopiesPlainPrefix | Source/core.py:78 | characters at which no occurrence of the word starts are copied unchanged ahead of the rest |
| Cleaner.AbbreviateWithoutAdvanceIsIdentity | Source/core.py:78 | a name in which `Advance` occurs in no letter case is left as it is |
| Cleaner.AbbreviateReplacesAdvance | Source/core.py:78 | an occurrence of `Advance`, in any letter case, becomes `A` and the scan resumes after it |
| Cleaner.AbbreviateAdvanceWars | Source/core.py:78 | `AdvanceWars` becomes `AWars` |
| Cleaner.Clean | Source/core.py:71-78 | the cleaned name holds no whitespace and no separator; `rom_rename_tool.py:96-104` is the same cleaner |
| Cleaner.CleanPrefixOfCjkStart | Source/core.py:55-68 | a name that starts with a CJK ideograph keeps its whole prefix |
| Cleaner.CleanKeepsPlainTitle | Source/core.py:71-78 | a title with no whitespace, separator, opener or `Advance`, beginning with a CJK ideograph or holding none, is cleaned to itself |
| Cleaner.CleanDropsTrailingTag | Source/core.py:71-78 | such a title beginning with a CJK ideograph and followed by a one-line bracketed tag, as in `超级马里奥(中文版)`, is cleaned to the title |
| Cleaner.CleanLeavesNoBracketPair | Source/core.py:71-78 | the cleaned form of a one-line name holds no bracketed span |
| Cleaner.CollapseRuns | Source/rom_renamer_auto.py:177-178 | replacing each run of matching characters by one space leaves only spaces and the other characters, and keeps a first character that does not match |
| Cleaner.CollapseRunsKeepsSingleSpaces | Source/rom_renamer_auto.py:177-178 | a string whose matching characters are single spaces, never two adjacent, is left as it is |
| Cleaner.CollapseRunsWithoutRun | Source/rom_renamer_auto.py:177 | a string without a matching character is left as it is |
| Cleaner.CollapseRunsLeavesNoAdjacent | Source/rom_renamer_auto.py:177-178 | after collapsing, no two matching characters are adjacent |
| Cleaner.CollapseBothLeavesSingleSpaces | Source/rom_renamer_auto.py:177-178 | after both substitutions no separator remains and no two whitespace characters are adjacent |
| Cleaner.CleanFilename | Source/rom_renamer_auto.py:173-180 | the cleaned name has no separator, no whitespace at either end and never two whitespace characters in a row |
| Cleaner.CleanFilenameKeepsCleanName | Source/rom_renamer_auto.py:173-180 | a name with no `[` or `(`, no separator, and whitespace only as single inner spaces is left as it is |
| Cleaner.CleanFilenameDropsRegionTag | Source/rom_renamer_auto.py:173-180 | such a name followed by a space and a one-line `(...)` tag, as in `Super Mario (USA)`, is cleaned to the name |
| Matcher.LenRatio | Source/core.py:111 | the length ratio lies in 0..1 and is 1 for equal lengths |
| Matcher.WeightedSumBounds | Source/core.py:94-108 | with every scorer in 0..100 the weighted sum lies in 0..100, because the weights sum to 1 |
| Matcher.CompositeBounds | Source/core.py:108-116 | length damping and the substring penalty only lower the score, so the composite lies between 0 and the weighted sum |
| Matcher.MatchSpec | Source/core.py:84-121 | an empty query or pool gives no match and score 0; a match is returned only with a positive score of at least the threshold; a rejection carries a score below the threshold, or 0 |
| Matcher.Match | Source/core.py:89-121 | the loop over the shortlist computes exactly `MatchSpec`; `rom_rename_tool.py:108-137` is the same matcher with the weights written inline |
| Matcher.MatchIsBestChoice | Source/core.py:89-121 | the score lies in 0..100; a match is a pool member whose composite is the score; no shortlisted candidate has a higher composite |
| Matcher.NoPositiveCompositeNoMatch | Source/core.py:118-121 | when no shortlisted candidate scores above 0 there is no match and the score is 0 |
| Matcher.ThresholdMonotone | Source/core.py:121 | the score does not depend on the threshold, and a match at a higher threshold is the same match at any lower one |
| Matcher.IdenticalChoiceScoresHundred | Source/core.py:84-121 | a query matched against a pool holding just itself is found with score 100 at any threshold up to 100 |
| Mapper.BuildMapping | Source/core.py:40-46 | both dicts are well formed and the Chinese list has no empty entry |
| Mapper.CnListKeepsDuplicates | Source/core.py:45 | the Chinese list keeps every non-empty Chinese cell as often as it occurs in the column |
| Mapper.CnToEngLastRowWins | Source/core.py:43 | a Chinese title is a key exactly when some row has it non-empty, and it maps to the English title of the last such row |
| Mapper.EngToCnLastRowWins | Source/core.py:44 | an English title is a key exactly when some row with a non-empty Chinese cell has it, and it maps to the Chinese title of the last such row, never to an empty one |
| Mapper.CnListIsCnToEngDomain | Source/core.py:43-45 | every matched candidate has an entry in `cn_to_eng` (possibly an empty English name): the Chinese list and the Chinese-to-English keys hold the same titles |
| Mapper.LoadStep | Source/core.py:33-49 | a cached path returns the cached table and leaves the cache alone; a failing read leaves the cache alone; a success is cached under its path |
| Mapper.CacheIsTransparent | Source/core.py:33-49 | while the cache agrees with the tables on disk, loading through it gives what reading the table gives, and the cache keeps agreeing |
| Mapper.GetCsvPath | Source/core.py:19-25 | a path is returned exactly when the platform is known and its table exists, and it is that table |
| Mapper.GetPlatformExtensions | Source/core.py:27-31 | an unknown platform has no extensions; a known one has its entry's non-empty list |
| Mapper.CsvMapper.constructor | Source/core.py:15-17 | the cache starts empty |
| Mapper.CsvMapper.LoadMapping | Source/core.py:33-49 | the result and the new cache are those of `LoadStep` on the old cache; `rom_rename_tool.py:60-76` is the same loader |
| Mapper.CsvMapper.ClearCache | Source/gui.py:130 | the cache becomes empty |
| UniqueName.NumberedInjective | Source/core.py:129 | `base (i)ext` names differ for different `i` |
| UniqueName.TakenBound | Source/core.py:128-130 | when the names numbered 1..n are all taken, the folder holds at least n names, so the loop ends |
| UniqueName.FirstFreeIsFirst | Source/core.py:127-131 | the numbered search returns `base (k)ext` for the first free `k` |
| UniqueName.Allocation | Source/core.py:124-131 | the name returned is not taken, and a free name is returned unchanged |
| UniqueName.AllocationIsSmallestFree | Source/core.py:124-131 | for a taken name the result is `base (i)ext` with the smallest free `i` |
| UniqueName.Allocate | Source/core.py:124-131 | the `while` loop computes exactly `Allocation`; `_unique_path` (`rom_rename_tool.py:456-463`) and `ensure_unique_path` (`rom_renamer_auto.py:164-171`) are the same loop |
| UniqueName.SecondCopyGetsTwo | Source/core.py:124-131 | with `Mario.gba` and `Mario (1).gba` taken, `Mario.gba` becomes `Mario (2).gba` |
| Relabel.LabelIsFirstBest | Source/gui.py:359-367 | an accepted label is non-empty and reaches the threshold; it comes from the first non-empty entry, in dict order, whose cleaned English title reaches the best score |
| Relabel.LabelScoreIsMaximal | Source/gui.py:359-365 | no entry with a non-empty Chinese title scores above the best score |
| Relabel.ScanEntries | Source/gui.py:361-365 | the loop over `eng_to_cn.items()` keeps the running best of the scores |
| Relabel.FindBestLabel | Source/gui.py:357-367 | the cleaned title is scanned against the table, and the result is the specified label and score |
| Relabel.RelabelWith | Source/gui.py:348-373 | an item with no table is a no-match and leaves the cache alone; a relabelled item has a non-empty label; a load failure aborts with the cache unchanged |
| Relabel.RelabelStep | Source/gui.py:332-373 | an item is ignored exactly when it has no query; an item whose path resolves to no table is a no-match |
| Relabel.RelabelAll | Source/gui.py:332-373 | the loop keeps the cache well formed and, unless it aborts, yields one outcome per item |
| Relabel.RelabelAllShape | Source/gui.py:332-373 | unless aborted, exactly the items without a query are ignored, and every relabelled item gets a non-empty label |
| Relabel.RelabelAllNoTable | Source/gui.py:343-351 | unless aborted, every item whose path resolves to no table counts as a no-match |
| Relabel.RelabelProgress | Source/gui.py:332-373 | the loop's state after `i` items extends by one item, or stops for good when that item aborts |
| Relabel.AbortSticks | Source/gui.py:319-394 | once a load failure has abandoned the conversion, the later items change nothing |
| Relabel.CountsOf | Source/gui.py:328-373 | the total is the sum of converted, kept and no-match items, and equals the number of items when none is ignored |
| Batch.TallyOf | Source/gui.py:198-233 | the total counts every regular file, and it is the sum of the buckets |
| Batch.TallyCountsOutcomes | Source/gui.py:225-232 | the renamed, skipped and error counters count exactly the files with those outcomes |
| Batch.UnusedBuckets | Source/gui.py:198-233 | a bucket no file lands in stays at 0 |
| Batch.Commit | Source/gui.py:291-293 | the target is the allocated free name; `os.rename` fails exactly for a failing source when committing; a successful rename swaps the source for the target and otherwise the folder is unchanged |
| Batch.CommitKeepsOtherFiles | Source/gui.py:291-292 | a rename keeps the number of files and every other file |
| Gui.MatchedEnglish | Source/gui.py:286-290 | a found English name is never empty, per the truthiness test |
| Gui.MatchedEnglishFromTable | Source/gui.py:286-290 | a found English name comes from a match of the cleaned name against the Chinese list that reaches the threshold, and is that title's English name in the table |
| Gui.MatchStep | Source/gui.py:286-297 | a matched file is renamed to a free name and anything else keeps the folder; no extension or table outcome arises here |
| Gui.RomStepChecksExtensionFirst | Source/gui.py:205-216 | a wrong extension is detected first, compared lower-cased; then a name without CJK counts as English; neither touches the folder or the cache |
| Gui.RomStepFolder | Source/gui.py:200-301 | only a committed rename changes the folder, and a target is never an existing name |
| Gui.RomStepRenamesOnlyMatches | Source/gui.py:205-297 | a file is renamed exactly when its extension is accepted, its name holds CJK, the table loads, a match with an English name is found and the rename does not fail; the target is the allocated `eng + ext` |
| Gui.RomStepLoadFailureIsAnError | Source/gui.py:286-301 | a table that fails to load makes that one file an error and changes nothing else |
| Gui.SweepRoms | Source/gui.py:200-233 | one outcome per regular file; a preview never changes the folder; no file is counted as lacking a table |
| Gui.RunRomsAccounts | Source/gui.py:177-310 | an unknown platform or a missing table stops before the loop; otherwise the total is the number of regular files and the sum of the other counters; a preview leaves the folder as it was |
| Gui.FindPlatform | Source/gui.py:337-341 | the scan over the platform table returns `FirstPlatformWith` |
| Gui.ItemTableIsGetCsvPath | Source/gui.py:334-351 | the table of a playlist item is `get_csv_path` of the first platform listing its lower-cased suffix |
| Gui.LplQueries | Source/gui.py:333-334 | each item is queried with its label and path, both defaulting to the empty string |
| Gui.RelabelItem | Source/gui.py:368 | a relabelled item gets the new label and keeps its path; any other item is left as it was |
| Gui.RelabelItems | Source/gui.py:332-373 | each item is rewritten by its own outcome |
| Gui.LplSaveName | Source/gui.py:376-379 | the saved name has no `_`, no whitespace at either end and, for a one-line path, no bracketed span |
| Gui.LplSaveNameOfPlainName | Source/gui.py:376-379 | a file name with no directory, `_` or `[` and no whitespace at either end is saved under itself |
| Gui.ConvertLplAccounts | Source/gui.py:328-373 | a finished conversion keeps every item and its path; the total is the number of items and the sum of the three counters; a changed item has a non-empty label |
| Gui.XmlQueries | Source/gui.py:414-419 | a game is passed over exactly when it lacks a `name` or a `path` element; otherwise its query is the text of those two elements |
| Gui.RelabelGame | Source/gui.py:457 | a relabelled game gets the new name and keeps its path; any other game is left as it was |
| Gui.RelabelGames | Source/gui.py:414-462 | each game is rewritten by its own outcome |
| Gui.XmlSaveNameOfPlainStem | Source/gui.py:466 | `stem.xml` is saved as `stem_CN.xml` |
| Gui.ConvertXmlAccounts | Source/gui.py:411-462 | a finished conversion keeps every game and its path; the total counts exactly the games with both elements and is the sum of the counters; games lacking one are unchanged |
| Gui.CountsOfCountsComplete | Source/gui.py:418-421 | the total counts exactly the games that were not passed over |
| Gui.MatchAndCommit | Source/gui.py:286-297 | the match, the rename and the old mapper cache give what `MatchStep` specifies |
| Gui.RelabelOnTable | Source/gui.py:348-373 | loading the table and finding the label give what `RelabelWith` specifies, and the cache stays well formed |
| Gui.ConvertItemAt | Source/gui.py:333-373 | one item's pass either aborts the conversion as specified or extends the relabelled prefix by one |
| Gui.ConvertGameAt | Source/gui.py:415-462 | one game's pass either aborts the conversion as specified or extends the relabelled prefix by one |
| Gui.RenamerApp.constructor | Source/gui.py:32-33 | the application starts idle with an empty cache |
| Gui.RenamerApp.ValidateAndStart | Source/gui.py:115-131 | a running job ignores the call; a threshold that is not an integer in 0..100 is refused and nothing changes; an accepted one starts the job and clears the cache |
| Gui.RenamerApp.HandleRom | Source/gui.py:204-233 | one file's pass, with the mapper's cache, gives what `RomStep` specifies |
| Gui.RenamerApp.SweepFolder | Source/gui.py:198-233 | the listing loop gives what `SweepRoms` specifies, and its counters are the tally of the outcomes |
| Gui.RenamerApp.RunRoms | Source/gui.py:177-310 | a preview or rename run gives what `RunRomsSpec` specifies, and leaves the application idle |
| Gui.RenamerApp.TableOf | Source/gui.py:334-351 | the suffix and platform scan of one item give its table |
| Gui.RenamerApp.GameTable | Source/gui.py:423-440 | a game with both elements gets the table of its path |
| Gui.RenamerApp.ConvertItems | Source/gui.py:332-373 | unless a load aborts, the items are rewritten by the outcomes and the counts are those of the outcomes, with the total set to the number of items |
| Gui.RenamerApp.ConvertLpl | Source/gui.py:312-397 | the conversion gives what `ConvertLplSpec` specifies and leaves the application idle |
| Gui.RenamerApp.ConvertGames | Source/gui.py:414-462 | unless a load aborts, the games are rewritten by the outcomes and the counts are those of the outcomes |
| Gui.RenamerApp.ConvertXml | Source/gui.py:399-484 | the conversion gives what `ConvertXmlSpec` specifies and leaves the application idle |
| RomRenameTool.KeyExtensions | Source/rom_rename_tool.py:46-50 | a tuple key stands for its extensions in order; a plain key stands for itself |
| RomRenameTool.KeyAssignments | Source/rom_rename_tool.py:46-50 | one key makes one assignment per extension, lower-cased, to its table |
| RomRenameTool.AssignKeys | Source/rom_rename_tool.py:44-50 | the map holds exactly the assigned extensions |
| RomRenameTool.AssignLastWins | Source/rom_rename_tool.py:44-50 | each extension holds the table of its last assignment |
| RomRenameTool.EveryExtensionIsAssigned | Source/rom_rename_tool.py:42-50 | every extension of every key is in the map, and it maps to the key's table when all its assignments agree |
| RomRenameTool.WiiExtensionsShareTable | Source/rom_rename_tool.py:30 | `.wbfs` and `.iso` both map to the Wii table; `.iso` is not overridden by a later key |
| RomRenameTool.ExtCsvPathIgnoresCase | Source/rom_rename_tool.py:52-58 | the lookup ignores the extension's case; a path is returned exactly when the lower-cased extension maps to a non-empty table name that exists |
| RomRenameTool.ToolRomStepChecksCjkFirst | Source/rom_rename_tool.py:270-281 | a name without CJK is English; one with CJK but no table is reported as lacking a table; neither touches the folder or the cache; no extension check is made |
| RomRenameTool.ToolRomStepFolder | Source/rom_rename_tool.py:263-366 | only a committed rename changes the folder, and a target is never an existing name |
| RomRenameTool.ToolRomStepRenamesOnlyMatches | Source/rom_rename_tool.py:334-362 | a file is renamed exactly when its name holds CJK, its extension has a table, a match with an English name is found and the rename does not fail; the target is the allocated `eng + ext` |
| RomRenameTool.ToolSweep | Source/rom_rename_tool.py:327-366 | one outcome per regular file; a preview never changes the folder; no file has a wrong extension |
| RomRenameTool.ToolSweepAccounts | Source/rom_rename_tool.py:324-366 | the total is the number of regular files and the sum of renamed, skipped, English, no-table and error counts |
| RomRenameTool.ToolLplAccounts | Source/rom_rename_tool.py:397-430 | a finished conversion keeps every item; the total is the number of items and the sum of the counters; an item whose suffix has no table is left as it was |
| RomRenameTool.ToolMapper.constructor | Source/rom_rename_tool.py:37-40 | the mapper starts with an empty cache and the extension map built from the key table |
| RomRenameTool.ToolMapper.BuildExtMap | Source/rom_rename_tool.py:42-50 | the map is the result of all the key table's assignments in order |
| RomRenameTool.AssignAll | Source/rom_rename_tool.py:45-50 | the loop over the key table makes exactly the listed assignments |
| RomRenameTool.AssignKey | Source/rom_rename_tool.py:46-50 | one key adds its assignments to those made so far |
| RomRenameTool.AssignTuple | Source/rom_rename_tool.py:47-48 | the loop over a tuple key adds its assignments to those made so far |
| RomRenameTool.ToolApp.constructor | Source/rom_rename_tool.py:148-149 | the application starts idle, with a fresh mapper |
| RomRenameTool.ToolApp.ValidateAndStart | Source/rom_rename_tool.py:210-227 | a running job ignores the call; a threshold that is not an integer in 0..100 is refused; an accepted one starts the job and clears the cache |
| RomRenameTool.ToolApp.HandleRom | Source/rom_rename_tool.py:270-366 | one file's pass gives what `ToolRomStep` specifies over the `EXT_TO_CSV` extension map, and keeps the cache valid |
| RomRenameTool.ToolApp.RunRoms | Source/rom_rename_tool.py:253-379 | the run gives what `ToolSweep` specifies over the `EXT_TO_CSV` extension map, its counters are the tally and the application ends idle |
| RomRenameTool.ToolApp.ConvertItems | Source/rom_rename_tool.py:400-430 | unless a load aborts, the items are rewritten by the outcomes and the counts are those of the outcomes |
| RomRenameTool.ToolApp.ConvertLpl | Source/rom_rename_tool.py:381-454 | the conversion gives what `ConvertLplSpec` specifies with the tables of the `EXT_TO_CSV` extension map, and the application ends idle |
| RomRenamerAuto.FileExts | Source/rom_renamer_auto.py:110-115 | the lower-cased extensions of the regular files, leaving out empty ones |
| RomRenamerAuto.ExtTallyCount | Source/rom_renamer_auto.py:112-116 | every extension is counted exactly as often as it occurs |
| RomRenamerAuto.ExtTallyKeys | Source/rom_renamer_auto.py:112-116 | the counts' keys are the extensions in order of first occurrence |
| RomRenamerAuto.MaxIndex | Source/rom_renamer_auto.py:129 | `max` returns the first key with the largest count |
| RomRenamerAuto.MostCommonIsMostFrequent | Source/rom_renamer_auto.py:109-129 | the chosen extension occurs in the folder; no extension occurs more often; every extension seen before it occurs less often |
| RomRenamerAuto.CountExtensions | Source/rom_renamer_auto.py:109-116 | the counting loop builds exactly the tally of the extensions |
| RomRenamerAuto.FolderMatch | Source/rom_renamer_auto.py:121-125 | a table is found only if it exists; none is found exactly when no keyword occurs in the folder name with an existing table |
| RomRenamerAuto.ScanFolderName | Source/rom_renamer_auto.py:143-147 | the keyword loop returns `FolderMatch` |
| RomRenamerAuto.DetectSpec | Source/rom_renamer_auto.py:94-149 | a missing table directory is the one failure found before scanning; a detected table exists |
| RomRenamerAuto.NoCountsWithoutExtensions | Source/rom_renamer_auto.py:118 | the counts are empty exactly when no regular file has an extension |
| RomRenamerAuto.DetectPrefersExtension | Source/rom_renamer_auto.py:129-139 | a most common extension with a rule decides: its table if it exists, otherwise detection fails, naming the missing file |
| RomRenamerAuto.DetectFallsBackOnFolderName | Source/rom_renamer_auto.py:118-149 | without extensions the folder name decides or detection fails for lack of ROMs; a folder-name fallback after counting happens only for an extension without a rule |
| RomRenamerAuto.DetectCsvFile | Source/rom_renamer_auto.py:94-149 | the two loops compute exactly `DetectSpec` |
| RomRenamerAuto.SnesFolderGetsNesTable | Source/rom_renamer_auto.py:81-82 | a folder named `snes` is given the NES table, because the `nes` keyword is tried before `snes` and occurs in it |
| RomRenamerAuto.ReadMapping | Source/rom_renamer_auto.py:151-162 | an unreadable table and one with fewer than two columns fail; otherwise the Chinese list is the whole second column, empty cells included, and the English list the whole first column |
| RomRenamerAuto.ReadMappingLastRowWins | Source/rom_renamer_auto.py:161 | a Chinese title is a key exactly when it is in the column, and it maps to the English title of its last row |
| RomRenamerAuto.PartialWeightOf | Source/rom_renamer_auto.py:205-208 | the partial weight is 0.2 exactly when the candidate is shorter than half the query, and 0.35 otherwise |
| RomRenamerAuto.AutoCompositeBounds | Source/rom_renamer_auto.py:202-218 | the composite lies between 0 and the weighted sum, which is at most 110 because the weights can sum to 1.1 |
| RomRenamerAuto.AutoMatchSpec | Source/rom_renamer_auto.py:182-226 | an empty query or pool gives no match and 0; a match has a positive score of at least the threshold; a rejection carries a lower score or 0 |
| RomRenamerAuto.AutoMatch | Source/rom_renamer_auto.py:187-226 | the loop computes exactly `AutoMatchSpec` |
| RomRenamerAuto.AutoMatchIsBestChoice | Source/rom_renamer_auto.py:187-226 | the score lies in 0..110; a match is a pool member whose composite is the score; no shortlisted candidate scores higher |
| RomRenamerAuto.AutoIdenticalChoiceScores110 | Source/rom_renamer_auto.py:182-226 | a query against a pool holding just itself scores 110, not 100, because the weights sum to 1.1 |
| RomRenamerAuto.AutoEnglish | Source/rom_renamer_auto.py:383-391 | a found English name is never empty |
| RomRenamerAuto.AutoEnglishFromTable | Source/rom_renamer_auto.py:383-391 | a found English name comes from a match of the cleaned name against the Chinese column that reaches the threshold, and is the English title of that title's last row |
| RomRenamerAuto.AutoStep | Source/rom_renamer_auto.py:382-405 | each file is skipped, renamed or an error; it is never filtered out by extension or script |
| RomRenamerAuto.AutoStepRenamesOnlyMatches | Source/rom_renamer_auto.py:382-405 | no English name means skipped; a failing rename is an error; otherwise the file is renamed to the allocated `eng + ext` in place of the old name |
| RomRenamerAuto.AutoSweep | Source/rom_renamer_auto.py:376-405 | one outcome per regular file |
| RomRenamerAuto.AutoSweepOutcomes | Source/rom_renamer_auto.py:376-405 | every outcome is skipped, renamed or an error |
| RomRenamerAuto.RunRenamerAccounts | Source/rom_renamer_auto.py:358-411 | an unreadable table stops the run and leaves the folder alone; otherwise the total is the number of regular files and the sum of renamed, skipped and errors, which count their outcomes |
| RomRenamerAuto.HandleFile | Source/rom_renamer_auto.py:382-405 | one file's `try` gives what `AutoStep` specifies |
| RomRenamerAuto.RenameFiles | Source/rom_renamer_auto.py:376-405 | the loop gives what `AutoSweep` specifies, and its counters are the tally |
| RomRenamerAuto.AutoRenamerApp.constructor | Source/rom_renamer_auto.py:272 | the application starts idle |
| RomRenamerAuto.AutoRenamerApp.RunRenamer | Source/rom_renamer_auto.py:358-411 | the run gives what `RunRenamerSpec` specifies and leaves the application idle whether or not the table could be read |

## Left out

- The Tk user interface, the log window and its messages, timing, the worker threads, the browse and `_start_*` handlers and `_finish`. Only the `running` flag they share is modelled.
- `RomRenamerAuto`'s `start` and `try_auto_detect`. These are UI handlers that call `detect_csv_file` and parse the threshold: detection is modelled, the handlers are not. In `start` the threshold range is checked only after detection and the path checks.
- `int()` parsing of the threshold field. The model takes its result as an `Option<int>`.
- `parse_xml_playlist` and `save_xml_playlist` (`core.py:139-157`), JSON reading and writing, and the Desktop save path. A playlist enters as its decoded items (`LplRead`, `XmlRead`); only the file name it is saved under is modelled.
- The `platform_stats` dicts, which only feed log lines.
- rapidfuzz itself, floating point and `x ** 0.5`. These are abstract functions over reals with the bounds listed above; rounding is not modelled. `RomRenamerAuto.AutoComposite` rescores each shortlisted name with `token_set_ratio(q, c)`, where the program reads the score that `process.extract` returned; the two agree because rapidfuzz 3's `extract` applies no default processor, and the model assumes that version.
- `Text.LowerChar`: folds only ASCII capitals. Python's `str.lower()` also folds other scripts.
- `Text.IsAlpha` approximates `str.isalpha()` by the Latin, Greek, Cyrillic, kana, CJK and Hangul letters, not the whole Unicode letter class.
- `RomRenamerAuto.ReadMapping`: folds the retry with the `utf-8-sig` encoding into a single unreadable case, since either both attempts fail or one gives the table.
- `Cleaner.RemoveSpansLeavesNoPair`: proved for one-line names only, as `.` in the pattern does not match a newline.
- `Cleaner.Clean`: idempotence is not claimed, because it does not hold: `x-中` cleans to `x中`, which cleans to `中`.
- `RomRenameTool.WiiExtensionsShareTable`: the extension map's sharing of a table is proved for the Wii key, the one the program comments on. The other keys are covered only by `EveryExtensionIsAssigned`.
- Concurrency between a running job and the UI thread.
- `UniqueName.Allocation`, `Paths.Name`, `Paths.Suffix`: the model's file system is case-sensitive and its paths are POSIX paths. A name is taken only by an exactly equal name, whereas `os.path.exists` on Windows ignores case (with `mario.gba` present, the program turns `Mario.gba` into `Mario (1).gba`; the model keeps `Mario.gba`). Paths are split on `/` only, whereas Windows `pathlib` also splits on `\` (the program gives `D:\v1.0\Mario` no suffix; the model gives it `.0\Mario`). A trailing `/` is not dropped either: pathlib names `a/b.lpl/` `b.lpl`, the model names it `""`.
