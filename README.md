# Actigraphy day segmentation and metadata cleaning, in Dafny

This project models two parts of the actigraphy viewer's I/O layer.

**Day segmentation and signal assembly** (`src/actigraphy/io/data_import.py`, module `DataImport`):
- Finding the midnight indices in the fine-resolution timestamp series.
- Turning them into the `[start, end)` window of a requested day, with the daylight-saving correction of the window's end.
- Projecting the coarse non-wear score onto the fine sample grid.
- Slicing the acceleration, angle and non-wear signals to the day.
- Padding the first and the last day with zeros up to the subject's samples-per-day count.
- Rescaling the acceleration to plotting units.

**Metadata cleaning** (`src/actigraphy/io/metadata.py`, module `Metadata`):
- Keys become snake case. This is modelled literally: reverse, a regex substitution, lower-case, reverse back. It is proved equal to a forward reading of what it does.
- Dots in keys become underscores.
- A one-element list is unwrapped.
- Nested dictionaries are cleaned recursively.
- pandas data frames become polars frames.

Module `PyRuntime` (`py_runtime.dfy`) holds the pieces of Python semantics the code relies on:
- list indexing with negative indices, and `IndexError` as `None`;
- slice-bound normalisation, including numpy slices with negative stops;
- `[x] * k`, which gives the empty list for `k <= 0`;
- `itertools.pairwise`.

Design choices:
- Timestamps are abstracted to their instant, which list equality compares for aware datetimes, and their day of month.
- Signals are `real`s.
- An error the source raises is a `Result` error value.
- Imperative code stays imperative:
  - the non-wear projection is a method over an `array` with a loop and slice assignments;
  - the daylight-saving correction is a method with its two sequential `if`s;
  - `get_graph_data` and `_recursive_clean_rdata` are methods.
- Each method is proved equal to a specification function, and the properties are proved about those functions.

Behaviour of the code that the model keeps as written:
- The `get_midnights` docstring (data_import.py:73) speaks of the indices of the timestamps just after midnight. The code adds one to the position of that timestamp (`timestamps.index(second) + 1`, data_import.py:85). So a midnight index `b` has its day change between samples `b - 2` and `b - 1` (`MidnightsCharacterised`).
- An interior day whose slice length differs from the samples-per-day count is returned unpadded and without an error. `get_graph_data` passes action `None` to `_extend_data`, which returns the slice unchanged (`PadDay`).
- The non-wear loop (data_import.py:140-141) sets fine samples `[i, i + ratio)` for coarse index `i` itself, not for the fine position of coarse sample `i`. For scores `[0, 2, 0]`, ratio 2 and length 6, the result is `[0, 1, 1, 0, 0, 0]` (`NonwearFlagsExample`).
- Key cleaning recurses only into values that are dictionaries (metadata.py:102-103). A dictionary inside a list of any length other than one keeps its keys as they are, so `CleanEntriesDeep` speaks only of dictionaries reached through dictionary values.

## Model

| member | source | states |
|---|---|---|
| DataImport.Timestamps | src/actigraphy/io/data_import.py:83 | the timestamp column of the fine rows, one per row |
| DataImport.Enmo | src/actigraphy/io/data_import.py:129 | the ENMO column of the fine rows, one per row |
| DataImport.Anglez | src/actigraphy/io/data_import.py:130 | the angle column of the fine rows, one per row |
| DataImport.IndexOf | src/actigraphy/io/data_import.py:85 | `list.index`: the result holds a timestamp equal to the one sought, and no earlier position does |
| DataImport.MidnightsFrom | src/actigraphy/io/data_import.py:84-88 | the comprehension over the pairs from position `i` on; every entry lies in `1 .. len(timestamps)` |
| DataImport.GetMidnights | src/actigraphy/io/data_import.py:84-88 | every midnight index lies in `1 .. len(timestamps)` |
| DataImport.IndexOfDistinct | src/actigraphy/io/data_import.py:85 | with distinct instants, `index(ts[k])` is `k` |
| DataImport.MidnightsFromAreDayChanges | src/actigraphy/io/data_import.py:84-88 | with distinct instants, the comprehension equals the reference list of `j + 2` for each day change between samples `j` and `j + 1` |
| DataImport.DayChangesFromSound | src/actigraphy/io/data_import.py:84-88 | every entry `b` of the reference list is at least 2 and marks a day-of-month change between samples `b - 2` and `b - 1` |
| DataImport.DayChangesFromIncreasing | src/actigraphy/io/data_import.py:84-88 | the reference list is strictly increasing |
| DataImport.DayChangesFromComplete | src/actigraphy/io/data_import.py:84-88 | every day change in the series contributes its entry |
| DataImport.MidnightsCharacterised | src/actigraphy/io/data_import.py:84-88 | the midnights are exactly the day changes, one entry each, strictly increasing, within `2 .. len(timestamps)` |
| DataImport.FirstMidnightAtLeastTwo | src/actigraphy/io/data_import.py:84-88 | with distinct instants, no midnight index is 0 or 1, so no day after the first starts at 0 |
| DataImport.SamplesPerHour | src/actigraphy/io/data_import.py:223-224 | one hour holds a positive number of fine samples |
| DataImport.HoursSpanned | src/actigraphy/io/data_import.py:223 | `(day_length + 1) // samples_per_hour`, the hour count both checks compare; no contract of its own, `DstNormalisesDay` states what the correction does to it |
| DataImport.DstAdjusted | src/actigraphy/io/data_import.py:222-227 | the corrected end is the end itself or one hour of samples before or after it |
| DataImport.AdjustTimepointForDaylightSavings | src/actigraphy/io/data_import.py:207-227 | a 25-hour day loses one hour of samples at its end, a 23-hour day gains one, any other day keeps its end; equals `DstAdjusted` |
| DataImport.DstNormalisesDay | src/actigraphy/io/data_import.py:222-226 | a day spanning 23, 24 or 25 hours spans 24 after the correction |
| DataImport.DstAdjustedIdempotent | src/actigraphy/io/data_import.py:222-227 | correcting an already corrected end changes nothing |
| DataImport.TargetTimepoints | src/actigraphy/io/data_import.py:189 | `[0, *midnights, None]`: its length, first and last elements, and the midnights in between |
| DataImport.TargetPair | src/actigraphy/io/data_import.py:189-191 | the `k`-th pair of `[0, *midnights, None]` is (0 or midnight `k-1`, midnight `k` or `None` for the last day), and there are one more pairs than midnights |
| DataImport.DayStartAndEndTimePoints | src/actigraphy/io/data_import.py:173-204 | a window exists iff `-(n+1) <= day <= n` for `n` midnights; otherwise the error is "day out of range"; for the day's position `k`, start is 0 or midnight `k-1`; end is absent iff `k` is the last day, else the DST-corrected midnight `k` |
| DataImport.DayStartsAtZeroOnlyFirst | src/actigraphy/io/data_import.py:156-161 | a window starts at 0 iff it is the first day, so only the first day is prepended to |
| DataImport.WindowSizeRatio | src/actigraphy/io/data_import.py:137-139 | `windowsizes[1] // windowsizes[0] - 1`, the slice length of the projection; no contract of its own, used by `GetGraphData` |
| DataImport.NonwearFlags | src/actigraphy/io/data_import.py:131-141 | the projected vector has the fine length and holds only 0 and 1 |
| DataImport.NonwearFlagsCharacterised | src/actigraphy/io/data_import.py:135-141 | for a non-negative ratio, fine sample `j` is flagged iff some coarse index `i` with score above 1 has `i <= j < i + ratio` |
| DataImport.NonwearFlagsExample | src/actigraphy/io/data_import.py:140-141 | scores `[0, 2, 0]`, ratio 2, length 6 project to `[0, 1, 1, 0, 0, 0]` |
| DataImport.FlaggedBeforeStep | src/actigraphy/io/data_import.py:140-141 | one more loop iteration flags exactly the samples of its slice in addition to those flagged before |
| DataImport.ProjectNonwear | src/actigraphy/io/data_import.py:131-141 | the array loop produces exactly `NonwearFlags`, including negative-ratio slices |
| DataImport.ExtendData | src/actigraphy/io/data_import.py:230-253 | "prepend" gives extension then data, "append" gives data then extension, no action gives the data, any other action is an `InvalidAction` error |
| DataImport.PadDay | src/actigraphy/io/data_import.py:155-165 | the first day is left-padded and the last day right-padded with zeros to `max(n, len)`; an interior day keeps its slice unchanged |
| DataImport.ExtendDataPadsDay | src/actigraphy/io/data_import.py:155-165 | the action chosen from the window makes `_extend_data` succeed with exactly `PadDay` |
| DataImport.Magnitude | src/actigraphy/io/data_import.py:149 | `abs(x * 1000)` is non-negative and is `±x*1000` |
| DataImport.Magnitudes | src/actigraphy/io/data_import.py:149 | element-wise magnitude, same length |
| DataImport.Rescale | src/actigraphy/io/data_import.py:168 | `value / 14 - 210`; no contract of its own, `DayGraphAcceleration` states the plotted values |
| DataImport.RescaleExample | src/actigraphy/io/data_import.py:168 | an ENMO of 0.21 plots at -195 |
| DataImport.DayGraph | src/actigraphy/io/data_import.py:149-168 | the day's three signals are the window slices padded by `PadDay`, the acceleration as rescaled magnitudes; all three have equal length |
| DataImport.DayGraphLength | src/actigraphy/io/data_import.py:155-165 | a first or last day no longer than the samples-per-day count comes out exactly that long; an interior day keeps its slice length |
| DataImport.DayGraphAcceleration | src/actigraphy/io/data_import.py:149-168 | acceleration sample `k` is -210 on the padding and `abs(enmo * 1000) / 14 - 210` of the matching slice sample elsewhere, with the padding leading on the first day and trailing otherwise |
| DataImport.AssembleDay | src/actigraphy/io/data_import.py:149-168 | slicing, choosing the action string, `_extend_data` on each signal and rescaling never fail, and produce exactly `DayGraph` |
| DataImport.GetGraphData | src/actigraphy/io/data_import.py:109-170 | succeeds iff the day index is in range, otherwise fails with "day out of range"; on success the result is `DayGraph` of the day's window, the fine signals and the projected non-wear flags |
| PyRuntime.ToPosition | src/actigraphy/io/data_import.py:191 | the position a Python index denotes: in range for `-len <= k < len`, unchanged for `k >= 0`, and `len + k` for negative `k` |
| PyRuntime.Index | src/actigraphy/io/data_import.py:191 | Python indexing: defined iff `-len <= k < len`, and picks the element counted from the end for negative `k` |
| PyRuntime.SliceBound | src/actigraphy/io/data_import.py:141 | slice-bound normalisation: negative counts from the end, then clamped to `0 .. len` |
| PyRuntime.Slice | src/actigraphy/io/data_import.py:149-151 | an in-range slice is the plain subsequence, and no slice is longer than its sequence |
| PyRuntime.SliceSameLength | src/actigraphy/io/data_import.py:149-151 | equally long signals give equally long day slices |
| PyRuntime.Repeat | src/actigraphy/io/data_import.py:155 | `[x] * k` has `max(0, k)` copies of `x` |
| PyRuntime.Pairwise | src/actigraphy/io/data_import.py:86 | the neighbour pairs, in order, one fewer than the elements |
| Metadata.Lower | src/actigraphy/io/metadata.py:136 | lower-casing leaves no capital, shifts a capital by 32 and keeps anything else |
| Metadata.LowerString | src/actigraphy/io/metadata.py:136 | `.lower()` on a string: same length, each character lower-cased |
| Metadata.Reverse | src/actigraphy/io/metadata.py:136 | `s[::-1]`: same length, element `k` is element `len-1-k` |
| Metadata.AtDollar | src/actigraphy/io/metadata.py:136 | where `$` holds: at the end of the string and before a final newline; no contract of its own |
| Metadata.MatchesAt | src/actigraphy/io/metadata.py:136 | where the pattern `(?<=[A-Z])(?!$)(?!_)(?![A-Z])` matches; no contract of its own |
| Metadata.SubFrom | src/actigraphy/io/metadata.py:136 | `re.sub(pattern, "_", ...)` from a position on: it only inserts, so the result is at least as long as the rest of the input |
| Metadata.RegexSub | src/actigraphy/io/metadata.py:136 | the whole substitution, at least as long as its input |
| Metadata.Snakecase | src/actigraphy/io/metadata.py:123-136 | `_snakecase` as written; its result has no capitals and is at least as long as its input |
| Metadata.SubFromShift | src/actigraphy/io/metadata.py:136 | from position 1 on, substituting in `c + r` is substituting in `r`: matches depend only on neighbouring characters |
| Metadata.RegexSubCons | src/actigraphy/io/metadata.py:136 | substituting on `c + r` gives `c`, then an `_` if the pattern matches between `c` and `r`, then the substitution on `r` |
| Metadata.SnakecaseSnoc | src/actigraphy/io/metadata.py:136 | appending a character appends its lower case, preceded by `_` exactly where the forward rule says |
| Metadata.SnakecaseIsSnakeSpec | src/actigraphy/io/metadata.py:123-136 | the reversed-regex implementation equals the forward rule: `_` before a capital whose predecessor is neither `_` nor a capital, every character lower-cased |
| Metadata.SnakeSpecNoUpper | src/actigraphy/io/metadata.py:123-136 | the forward rule leaves no capital |
| Metadata.InsertionPointsSnoc | src/actigraphy/io/metadata.py:136 | appending a character adds at most its own position to the insertion points |
| Metadata.SnakeSpecLength | src/actigraphy/io/metadata.py:123-136 | the output is the input plus one `_` per insertion point |
| Metadata.SnakeSpecKeepsLowerCase | src/actigraphy/io/metadata.py:123-136 | a string without capitals is unchanged |
| Metadata.SnakecaseProperties | src/actigraphy/io/metadata.py:123-136 | `_snakecase` output has no capitals, gains exactly one `_` per insertion point, and leaves a capital-free string unchanged |
| Metadata.SnakecaseIdempotent | src/actigraphy/io/metadata.py:123-136 | applying `_snakecase` twice is applying it once |
| Metadata.SnakecaseAllCapitals | src/actigraphy/io/metadata.py:133 | consecutive capitals get no `_` between them: "ENMO" becomes "enmo" |
| Metadata.SnakecaseCamelCase | src/actigraphy/io/metadata.py:136 | "nW" becomes "n_w" |
| Metadata.ReplaceDots | src/actigraphy/io/metadata.py:68 | every `.` becomes `_`, all else kept, same length |
| Metadata.CleanKey | src/actigraphy/io/metadata.py:58-69 | `_clean_key`; its result has no capitals and is at least as long as the key |
| Metadata.SnakeSpecNoDot | src/actigraphy/io/metadata.py:58-69 | snake-casing introduces no `.` |
| Metadata.CleanKeyProperties | src/actigraphy/io/metadata.py:58-69 | a cleaned key has no `.` and no capital, and cleaning it again changes nothing |
| Metadata.CleanKeyExample | src/actigraphy/io/metadata.py:58-69 | "a.B" becomes "a_b" |
| Metadata.CleanValue | src/actigraphy/io/metadata.py:72-76 | a one-element list becomes its element, anything else is returned unchanged |
| Metadata.FromPandas | src/actigraphy/io/metadata.py:104-105 | a pandas frame becomes a polars frame of the same table |
| Metadata.Keys | src/actigraphy/io/metadata.py:99 | the dictionary's keys in insertion order |
| Metadata.KeyIndex | src/actigraphy/io/metadata.py:106 | the first position holding the key |
| Metadata.Lookup | src/actigraphy/io/metadata.py:106 | a lookup fails iff the key is absent, and a found value is stored under that key |
| Metadata.DictSet | src/actigraphy/io/metadata.py:106 | `d[k] = v`: an existing key keeps its place in the key order, a new key is appended; no entry other than `(k, v)` appears |
| Metadata.DictSetLookup | src/actigraphy/io/metadata.py:106 | after `d[k] = v` the keys are still unique, `k` maps to `v`, and every other key keeps its value |
| Metadata.CleanEntryValue | src/actigraphy/io/metadata.py:101-105 | a dictionary value becomes a dictionary with unique keys and no more entries; a pandas frame becomes the polars frame of the same table; anything else is `_clean_value` of it |
| Metadata.CleanEntries | src/actigraphy/io/metadata.py:98-106 | the reference for the loop; the result has unique keys and no more entries than the input |
| Metadata.CleanEntriesKeys | src/actigraphy/io/metadata.py:98-106 | the cleaned dictionary's keys are exactly the cleaned input keys, each once |
| Metadata.CleanEntriesLookupAt | src/actigraphy/io/metadata.py:98-106 | under a cleaned key is the cleaned value of the last input entry whose key cleans to it; earlier entries are overwritten |
| Metadata.CleanEntriesLookup | src/actigraphy/io/metadata.py:98-106 | the same, for every such entry at once |
| Metadata.RecursiveCleanRdata | src/actigraphy/io/metadata.py:79-107 | the loop builds exactly `CleanEntries` of its input, recursing into dictionary values |
| Metadata.WrappedDictNotCleaned | src/actigraphy/io/metadata.py:101-103 | a dictionary inside a one-element list is unwrapped but its keys stay as they were (`{"x": [{"A.b": 1}]}` gives `{"x": {"A.b": 1}}`) |
| Metadata.CleanEntriesDeep | src/actigraphy/io/metadata.py:92-106 | when no dictionary hides in a one-element list, every key of every dictionary reached through dictionary values is clean |
| Metadata.CleanEntryValueDeep | src/actigraphy/io/metadata.py:99-106 | one cleaned value holds only clean keys in every dictionary reached through dictionary values, under the same condition |

## Left out

- File access is left out: finding the `meta/basic` file, parsing the RData, and `get_metadata` with its `functools.cache` (data_import.py:55). The model starts from the parsed `Recording` and from the converted key/value tree.
- The memoisation of `get_time` and `get_midnights` (`functools.lru_cache`, data_import.py:40 and :71) is left out: both are modelled as pure functions of their input, which is what the caches return as long as the recording does not change.
- Timestamp parsing (`get_time`, `strptime`, time zones) and `get_timezone` are left out. A timestamp is its instant plus its day of month, both taken as given.
- The subject lookup in the database (`crud.read_subject`) is left out. `n_points_per_day` is a parameter of `GetGraphData`.
- Logging is left out.
- DataImport.DstAdjusted: `3600 / window_size` is a float division in the source. The model requires the window size to divide 3600, which makes the float and integer results agree. Floating-point rounding for other window sizes is not modelled.
- DataImport.GetGraphData: signals are exact `real`s, not IEEE doubles, so float rounding in `* 1000` and `/ 14 - 210` is not modelled.
- DataImport.GetGraphData: the model requires at least two window sizes with a positive first one dividing 3600. The source would raise on fewer (`IndexError`) or on a zero size (`ZeroDivisionError`); those failures are not modelled.
- DataImport.GetGraphData: pandas index handling (`reset_index`) is modelled as plain positional sequences.
- Metadata.Lower: `str.lower()` is modelled for ASCII letters only. The regex class `[A-Z]` is ASCII as well.
- Metadata.FromPandas: the conversion keeps the table as an opaque identifier. Column types and contents of the frames are not modelled.
- Metadata.CleanEntries: the values of the key/value tree are limited to opaque leaves, lists, dictionaries and frames. Other Python objects count as leaves.
- The pydantic models `MetaDataM` and `MetaData` with `MetaData.from_file` (metadata.py:12-55), which receive the cleaned dictionary, are not part of this model.
