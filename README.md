# Asset catalog pipeline: extraction, comparison and reporting

This project models, in Dafny, the data-handling core of the asset catalog suite. It has three parts, and proves properties of each.

- **Path extraction** (`PathExtractor.extract_from_binary`). This finds every leftmost, greedy, non-overlapping match of the byte pattern `Assets/[-_a-zA-Z0-9./]+` in a decrypted catalog buffer. It decodes each match and collects the distinct paths. The compiled regular expression is modelled as an index walk over the buffer (`Extraction.FindAll`). The walk is proved equal to a recursive scan (`Extraction.Scan`), and that scan is proved to be the only span list satisfying the leftmost-greedy contract (`Extraction.LeftmostGreedy`).
- **Character directory** (`CharacterManager`). Rows `(code, name, squad)` of the reference table are folded into two tables:
  - `charData`, an insertion-ordered dictionary from code to name and squad, modelled as a sequence of entries with unique codes;
  - `squadData`, the list of names per squad, in row order.

  The class also answers two queries: the sorted squad list, and the sorted names of some or all squads.
- **Comparison and report** (`AssetComparer`):
  - reading a path file into a set of stripped, non-blank lines;
  - the set difference of two versions;
  - the keyword filter, which ignores case;
  - filing each path, in ascending order, under the first directory entry whose code occurs in it as `_code_` or `/code/` and whose character passes the squad and character filters;
  - the Markdown rendering of the resulting tree, with the total inserted as the second line.

Module layout:
- `wrappers.dfy`: `Option`.
- `ordering.dfy`: Python's `str` order and `sorted`.
- `tally.dfy`: sums over maps.
- `text.dfy`: `lower`, `strip`, substring, `str(int)`, `join`.
- `extraction.dfy`: the scanner and `extract_from_binary`.
- `data_models.dfy`: `CharacterManager`.
- `path_sets.dfy`: `read_path_file` and `compare_versions`.
- `structure.dfy`: the keyword filter and the filing step.
- `report.dfy`: the rendering as a function.
- `analysis.dfy`: the `AssetComparer` class, whose methods carry out the loops.

Inputs that the source reads from disk are parameters here:
- a path file is `Option<seq<string>>` (its lines, or `None` when the file does not exist);
- a decrypted catalog is `Option<seq<byte>>`;
- the character table is `Option<CsvTable>` (its column names and the three cells of each row that the loader reads, or `None` when the file is missing or unreadable).

## Model

| member | source | states |
|---|---|---|
| Extraction.RunEnd | backend/extraction.py:12 | The greedy `[...]+` run from `j` ends at the first byte outside the class or at the end of the buffer, and every byte before that is in the class |
| Extraction.SkipRun | backend/extraction.py:12 | The loop that extends the match returns exactly the end of the greedy run |
| Extraction.Scan | backend/extraction.py:28 | Every span the scan reports lies inside the buffer, at or after the starting position |
| Extraction.ScanIsLeftmostGreedy | backend/extraction.py:12 | The scan's spans are complete matches (prefix, at least one class byte, no class byte right after). They are in increasing, non-overlapping order, and no match could start before, between or after them |
| Extraction.RunEndUnique | backend/extraction.py:12 | A maximal run of class bytes from a position can end in only one place |
| Extraction.LeftmostGreedyUnique | backend/extraction.py:12 | The leftmost-greedy contract admits exactly one span list, so `Scan` is what `findall` returns |
| Extraction.FindAll | backend/extraction.py:28 | The index walk over the buffer returns exactly the slices of the leftmost-greedy scan |
| Extraction.SlicesOfScan | backend/extraction.py:28 | Each element of the match list is the slice of one scanned span and has the pattern's shape |
| Extraction.FoundMatchesAreSlices | backend/extraction.py:28 | Every match is a contiguous, non-empty slice of the buffer: `Assets/` followed by one or more class bytes |
| Extraction.ExtractFromBinary | backend/extraction.py:14-47 | A missing file yields the empty set. Otherwise the result is the set of decoded matches, built by the loop over the matches |
| Extraction.MatchDecodes | backend/extraction.py:30-36 | Every byte of a match is ASCII, so UTF-8 decoding succeeds and gives `Assets/` plus class characters |
| Extraction.NoMatchDropped | backend/extraction.py:30-36 | The `UnicodeDecodeError` branch is never taken: every match's decoded text is in the result |
| Extraction.ExtractedPathShape | backend/extraction.py:12 | Every extracted path is `Assets/` followed by one or more characters of `[-_a-zA-Z0-9./]`, decoded from a match in the buffer |
| Extraction.DecodedSetSize | backend/extraction.py:30-34 | Adding decoded matches to a set yields no more paths than there are matches |
| Extraction.ExtractedAtMostMatches | backend/extraction.py:17-34 | Duplicate matches collapse: the result has at most as many paths as `findall` has matches |
| Extraction.ExtractedEmptyIffNoMatch | backend/extraction.py:38-43 | The result is empty exactly when the pattern matches nowhere in the buffer. Empty is an ordinary result, not an error |
| Extraction.WholeBufferIsOnePath | backend/extraction.py:12 | A buffer that is exactly `Assets/` plus one or more class bytes gives one match, the whole buffer, and the singleton set of its text |
| DataModels.Lookup | backend/data_models.py:12 | A code is absent from the dictionary exactly when no entry carries it |
| DataModels.Upsert | backend/data_models.py:34 | `char_data[code] = info` on an insertion-ordered dict. An existing key keeps its position and takes the new value; a new key is appended at the end; nothing else changes |
| DataModels.UpsertLookup | backend/data_models.py:34 | After the assignment, the keys are still unique, `code` maps to the new info, and every other code maps as before |
| DataModels.CharacterManager.constructor | backend/data_models.py:10-14 | A new manager holds exactly the tables its table source loads; a missing file or missing column leaves both empty |
| DataModels.CharacterManager.LoadData | backend/data_models.py:16-41 | A missing file or a missing required column leaves both tables unchanged. Otherwise every row is folded in, in table order, and the codes stay unique |
| DataModels.CharacterManager.AddToSquad | backend/data_models.py:35-37 | Appends the name to the squad's list, creating an empty list first if needed; `char_data` is untouched |
| DataModels.LoadedCodes | backend/data_models.py:29-34 | A code is in the loaded dictionary exactly when some row carries it |
| DataModels.LastRowWins | backend/data_models.py:29-34 | `char_data[code]` holds the name and squad of the last row with that code |
| DataModels.LoadOrderIsFirstAppearance | backend/data_models.py:29-34 | The dictionary lists codes in order of first appearance; a repeated code keeps the position of its first row |
| DataModels.LoadedSquadLists | backend/data_models.py:35-37 | `squad_data` has a list for a squad exactly when some row names it. That list holds the names of that squad's rows, once each, in row order |
| DataModels.LoadedSquadSizes | backend/data_models.py:35-37 | The lists of `squad_data` hold as many names as there are rows, and there are no more squads than rows |
| DataModels.LoadedCharCount | backend/data_models.py:29-34 | `char_data` has no more entries than rows, and strictly fewer when a code repeats |
| DataModels.SquadNamesOutnumberCharacters | backend/data_models.py:29-37 | `squad_data` holds at least as many names as `char_data` has entries, and strictly more once a code repeats |
| DataModels.CharacterManager.SquadList | backend/data_models.py:43-44 | `get_squad_list` returns every squad of `squad_data` exactly once, in strictly ascending order |
| DataModels.CharacterManager.CharactersBySquad | backend/data_models.py:46-53 | Always returns an ascending list. With `None` or `[]`, it holds the names of all entries of `char_data` with multiplicity. Otherwise it holds the concatenation of `squad_data.get(s, [])` over the requested squads, so a squad listed twice counts twice |
| DataModels.NamesOfSquadsMembers | backend/data_models.py:50-53 | A name is in the concatenation exactly when some requested squad exists and lists it; unknown squads add nothing |
| Ordering.LessEqIsTotalOrder | backend/analysis.py:53 | Python's order on `str` is antisymmetric, transitive and total, which `sorted` relies on |
| Ordering.Min | backend/analysis.py:53 | The least element of a non-empty set of strings |
| Ordering.SortSet | backend/analysis.py:53 | `sorted(list(s))` for a set: each element exactly once, in strictly ascending order |
| Ordering.StrictlyAscendingUnique | backend/analysis.py:82 | Two strictly ascending lists with the same elements are equal, so a sorted key list is determined by its keys |
| Ordering.Insert | backend/data_models.py:48 | Inserting into an ascending list keeps it ascending and adds exactly the one element |
| Ordering.SortSeq | backend/data_models.py:48 | `sorted(xs)`: an ascending permutation of `xs` |
| Text.Strip | backend/analysis.py:20 | `str.strip()` returns a contiguous piece of the line with no whitespace at either end. The result is empty exactly when the whole line is whitespace |
| Text.StripRemovesOnlyEdgeSpace | backend/analysis.py:20 | `s.strip()` is `s[i..j]`, where everything before `i` and from `j` on is whitespace: only leading and trailing whitespace is removed, and all of it |
| Text.StripIdempotent | backend/analysis.py:20 | Stripping a stripped line changes nothing |
| Text.LowerContains | backend/analysis.py:40 | Lowercasing preserves containment |
| Text.ContainsTransitive | backend/analysis.py:40 | Substring containment is transitive |
| Text.DecimalRoundTrip | backend/analysis.py:96 | The decimal text written for a count reads back as that count |
| Text.Repeat | backend/analysis.py:79 | `c * n` is `n` copies of `c` |
| Text.JoinSplit | backend/analysis.py:97 | Joining a list equals joining its two halves with the separator between them |
| PathSets.ReadPathFile | backend/analysis.py:14-20 | A missing file reads as the empty set |
| PathSets.ReadPathShape | backend/analysis.py:20 | Every path read is non-empty, unchanged by stripping again, has no whitespace at either end, and is a piece of one of the lines |
| PathSets.ReadPathIsStrippedLine | backend/analysis.py:20 | Every path read is one of the lines with only its leading and trailing whitespace removed |
| PathSets.ReadPathCovers | backend/analysis.py:20 | A line contributes its stripped text exactly when it has a non-whitespace character; whitespace-only lines contribute nothing |
| PathSets.ReadPathSize | backend/analysis.py:20 | A file of `n` lines yields at most `n` paths |
| PathSets.CompareVersions | backend/analysis.py:22-30 | The added paths are contained in the new set and disjoint from the old one. Together with the old set they cover the new one, so the result is exactly `new - old` |
| PathSets.CompareVersionsEdges | backend/analysis.py:25-28 | Two files with the same path set, and so a file compared with itself, add nothing. An old file with no paths (missing, empty or all blank) gives the whole new set, and a missing new file gives nothing |
| PathSets.CompareVersionsAntitone | backend/analysis.py:28 | Adding lines to the old file can only shrink the set of added paths |
| Structure.KeywordFilter | backend/analysis.py:37-40 | The filter keeps a subset of the paths. With `None` or `""`, every path survives |
| Structure.KeywordFilterIgnoresCase | backend/analysis.py:38-40 | The keyword's case does not matter, and any path containing the keyword verbatim survives |
| Structure.KeywordFilterNarrows | backend/analysis.py:39-40 | A longer keyword containing a shorter one keeps no path the shorter one drops |
| Structure.TargetSet | backend/analysis.py:46-47 | `set(xs) if xs else set()`: the requested names, or no filter when `None` or empty |
| Structure.FirstHit | backend/analysis.py:55-65 | The scan over the directory stops at the first entry whose code occurs in the path and whose character passes both filters. An entry whose code matches but whose character is filtered out does not stop the search |
| Structure.PlacementSpec | backend/analysis.py:53-70 | A path is dropped exactly when a filter is set and no entry claims it. It goes under the first claiming entry's squad and name, or under `기타` / `공용/미분류 에셋` when no entry claims it and no filter is set |
| Structure.FiledPassesFilters | backend/analysis.py:56-65 | With a filter set, every filed path sits under a character that passes both filters and whose code occurs in the path |
| Structure.FiledUnder | backend/analysis.py:53-70 | The paths filed under one slot are exactly those of the input that the placement sends there |
| Structure.StructureBuckets | backend/analysis.py:53-70 | Each bucket of the tree holds exactly the paths filed under it, in visiting order. A bucket exists exactly when something is filed there, so no character list is empty |
| Structure.StructureSquadsNonEmpty | backend/analysis.py:63-70 | Every squad in the tree has a character with at least one path |
| Structure.FiledUnderAscending | backend/analysis.py:53-63 | Filing paths visited in ascending order leaves every bucket strictly ascending |
| Structure.FilteredTreeBuckets | backend/analysis.py:37-70 | In the tree built from the filtered, sorted paths, each bucket is non-empty if it exists and strictly ascending. It holds only keyword-filtered paths filed under that slot |
| Structure.StructurePlacesOnce | backend/analysis.py:62-65 | One append and then `break`: a path sits in at most one bucket |
| Structure.StructureCount | backend/analysis.py:53-70 | The tree holds one path per filed path. With no filter set it holds every input path |
| Structure.StructureEmpty | backend/analysis.py:53-70 | The tree is empty exactly when no path is filed; with no filter set, exactly when there are no paths |
| Structure.TreeCountAdd | backend/analysis.py:63 | Appending one path adds one to the tree's count |
| Structure.SquadCountIsKeySum | backend/analysis.py:87-90 | A squad's running total equals the sum of its characters' list lengths in ascending name order |
| Analysis.AssetComparer.constructor | backend/analysis.py:11-12 | The comparer reads the directory of the character manager it was given |
| Analysis.AssetComparer.FilterAndStructure | backend/analysis.py:32-72 | The nested loops build exactly the tree of the filed, keyword-filtered paths in ascending order |
| Analysis.FindSlot | backend/analysis.py:54-70 | The inner loop with its `found_char` flag and `break`, and the fallback after it, place the path where `Placement` says |
| Report.AppendAssets | backend/analysis.py:92-93 | One line per asset is appended after the existing lines, which are kept |
| Report.AppendCharacters | backend/analysis.py:87-93 | Each character adds at least its header, after the existing lines, which are kept |
| Report.AppendSquads | backend/analysis.py:82-93 | Each squad adds at least its header and underline, after the existing lines, which are kept |
| Report.BodyLines | backend/analysis.py:79-93 | Before the total goes in, the lines open with the title line and the rule of 30 `=` |
| Report.ReportLinesHead | backend/analysis.py:79-96 | For a non-empty tree, line 0 is the title, line 1 is the total line with the tree's count, and line 2 is the rule |
| Report.ReportCountsItsAssets | backend/analysis.py:80-96 | The total printed at the top equals the number of asset lines in the report |
| Report.RenderHead | backend/analysis.py:76-97 | An empty tree renders exactly the "nothing found" sentinel, whatever the title. Any other tree renders text that opens with the title, the total and the rule, and that is never the sentinel |
| Analysis.AddAssetLines | backend/analysis.py:92-93 | The innermost loop appends exactly the asset lines of `AppendAssets` |
| Analysis.AddCharacterLines | backend/analysis.py:87-93 | The middle loop appends exactly the character sections in ascending name order, and its running count is the squad's number of assets |
| Analysis.AddSquadLines | backend/analysis.py:82-93 | The outer loop appends exactly the squad sections in ascending order, and its running total is the sum of the squads' counts |
| Analysis.AssetComparer.FormatReport | backend/analysis.py:74-97 | `format_report_to_markdown` returns exactly `Render(tree, title)`: the sentinel for an empty tree, else the body with the total inserted as line 1, joined by newlines |
| Analysis.AssetComparer.GenerateSingleReport | backend/analysis.py:99-103 | The rendered tree of the file's filtered paths, titled with the file name; a missing file reports that nothing was found |
| Analysis.AssetComparer.GenerateComparisonReport | backend/analysis.py:105-110 | The rendered tree of the paths added by the new file, titled with both names; comparing a file with itself reports that nothing was found |
| Analysis.UnfilteredReportKeepsEveryPath | backend/analysis.py:53-96 | With no keyword and no filter, the report is the sentinel exactly when there are no paths. Otherwise its total, and its number of asset lines, equal the number of paths |

## Left out

- Decryption and decompression (backend/decryption.py: AES-CBC, PKCS#7 unpadding and gzip) are library calls. The model starts from the decrypted buffer.
- The frontend (frontend/app.py), config.py and backend/logger.py are UI, configuration and logging, with no effect on results. Every `logger.*` call is also omitted.
- File reads are outside the model. A path file, a decrypted catalog and the character table are given as `Option` values, where `None` means the file does not exist. `pandas.read_csv` is not modelled; a table is given as its column names and the three cells of each row.
- `except Exception` handlers are modelled only where they leave the result empty before any row is folded (backend/extraction.py:45-47, backend/data_models.py:40-41). An exception raised in the middle of the row loop, which would leave a partly loaded directory, is not modelled. Neither are non-string cells (NaN, numbers) in the table.
- The map `name_to_code_map` and set `target_codes` (backend/analysis.py:50-51) are built but never read, so they are not modelled.
- Text.Lower: `str.lower()` is modelled as ASCII lowercasing only. Extracted paths are ASCII, but codes, keywords and the Korean names may contain other characters whose Unicode case mapping is not captured.
- Extraction.DecodeUtf8: decoding is modelled only for bytes below 0x80, and any other byte counts as a failure. Multi-byte UTF-8 sequences are not decoded. Every match is ASCII, so the extraction result is unaffected.
- Ordering.Less: compares Unicode scalar values. Python strings can also hold lone surrogates, which Dafny `char` cannot represent.
- Ordering.SortSet and Ordering.SortSeq: `sorted` is a builtin, so it is modelled as a function by its result (minimum selection and insertion) rather than as Python's merge sort. For strings the sorted result is unique, so the two agree.
- Structure.KeywordFilter: its `ensures` states only the subset and no-keyword cases. The "contains, ignoring case" condition for a non-empty keyword is its defining comprehension, with consequences proved in `KeywordFilterIgnoresCase` and `KeywordFilterNarrows`.
- The directory is scanned in `char_data` insertion order (backend/analysis.py:55), as the code does. An alternative, a fixed lexicographic scan order, is not modelled.
- The paths in a bucket are rendered in stored order (backend/analysis.py:92). This coincides with ascending order because paths are visited sorted, as `FilteredTreeBuckets` proves.
- The nested loops of `format_report_to_markdown` are split into three methods, one per loop level (`AddSquadLines`, `AddCharacterLines`, `AddAssetLines`). The report lines are a sequence value threaded through them rather than one list mutated in place, and `insert(1, …)` is written as a sequence splice.
