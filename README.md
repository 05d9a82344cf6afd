# SpreadCombine combine engine in Dafny

SpreadCombine is a desktop application that merges several CSV files into one
document. This project models the two pieces of logic in its home screen,
`src/renderer/src/home/home.jsx`:

- `processCsv` (lines 82-135) is the **combine engine**. It takes the texts
  of the selected files and the "delete duplicate" flag and does five things:
  - It normalises each file into its non-blank lines: every `\r` removed,
    split at `\n`, lines whose trim is empty dropped.
  - It takes the first line as the header and the rest as body rows.
  - It groups the rows in an insertion-ordered `Map`. The key is the header
    itself when duplicates are deleted, and `header + "__file" + index`
    otherwise.
  - When duplicates are deleted, it removes repeated rows from each group.
  - It prints each group as `header\nrow\n…` and joins the groups with a
    blank line.
- `getFolderPath` (lines 66-80) returns the directory part of a saved file's
  path, for `/`- and `\`-separated paths.

The project has five files:

- `js_string.dfy` (module `JsString`) models the JavaScript string
  operations the engine uses, on `string` (a sequence of `char`):
  - `trim`;
  - `replace(/\r/g, "")`;
  - `indexOf`, `split` and `join`;
  - `lastIndexOf`;
  - the decimal text of a number.
- `js_collections.dfy` (module `JsCollections`) models
  `[...new Set(xs)]` as `Dedup`. It also has the class `InsertionMap`, whose
  methods update its fields in place. The fields are the map's key order
  (`keys`) and its bindings (`entries`).
- `combine.dfy` (module `CsvCombine`) has two parts:
  - **Specification functions** define the combined text. `FileLines` gives
    each file's non-blank lines, `GroupKeys` and `RowsOf` give the groups,
    `Document` gives the blocks, and `Combine` gives the text.
  - **The imperative engine** mirrors the source. `ProcessCsv` runs the
    `fileContents.forEach` loop (`GroupFile`, `AddToGroup`, `PushRows`),
    then the `headersMap.forEach` loop and the final join (`JoinGroups`). It
    is proved to return exactly `Combine(fileContents, deleteDuplicate)`.
- `combine_properties.dfy` (module `CsvCombineProperties`) proves what the
  engine promises:
  - how lines are normalised;
  - where groups come from;
  - how the two modes group rows;
  - how headers are recovered;
  - how the text reads back line by line.
- `folder_path.dfy` (module `FolderPath`) models `getFolderPath`.

Two behaviours of the code are worth stating explicitly:

- **A header-only file still forms a group.** The test at home.jsx:92 skips
  only files with no non-blank line at all. A file with a header and no body
  rows therefore forms a group that prints its bare header (`HeaderOnlyFile`).
- **A header containing `"__file"` is cut short, in both modes.** The header
  is recovered as `headerKey.split("__file")[0]`. A header such as
  `id__file` therefore prints as `id` (`MarkerInHeaderTruncated`,
  `FirstMarkerEndsHeader`). A header free of `"__file"` prints unchanged
  (`CleanHeaderRecovered`).

  The key encoding itself stays injective when duplicates are kept. The tag
  always ends in `"__file"` followed only by digits, so two files never
  share a group, whatever their headers (`KeyInjective`).

## Model

| member | source | states |
|---|---|---|
| CsvCombine.ProcessCsv | src/renderer/src/home/home.jsx:82-130 | the text handed to `setFinalData` is `Combine(fileContents, deleteDuplicate)`, for every input |
| CsvCombine.Combine | src/renderer/src/home/home.jsx:82-128 | definition with no contract of its own: the combined text; `ProcessCsv` is proved to return it, and the CsvCombineProperties lemmas state its properties |
| CsvCombine.LinePieces | src/renderer/src/home/home.jsx:87-89 | definition with no contract of its own: the file's text with `\r` removed, split at `\n`; `NonBlankLinesHeader` and `NonBlankLinesMember` state how its pieces are kept |
| CsvCombine.NonBlankLines | src/renderer/src/home/home.jsx:87-90 | definition with no contract of its own; `NonBlankLinesMember`, `NonBlankLinesClean`, `NonBlankLinesHeader`, `NonBlankLinesAppend` and `NonBlankLinesOfJoin` state its properties |
| CsvCombine.KeepNonBlank | src/renderer/src/home/home.jsx:90 | definition with no contract of its own; `KeepNonBlankMembers`, `KeepNonBlankAppend`, `KeepNonBlankFirst` and `TrimEmptyIffBlank` state what it keeps |
| CsvCombine.HeaderKey | src/renderer/src/home/home.jsx:99 | definition with no contract of its own; `KeyInjective` and `CleanHeaderRecovered` state what the key determines |
| CsvCombine.HeaderOfKey | src/renderer/src/home/home.jsx:122 | definition with no contract of its own; `CleanHeaderRecovered`, `FirstMarkerEndsHeader` and `MarkerInHeaderTruncated` state what it recovers |
| CsvCombine.FileLines | src/renderer/src/home/home.jsx:86-90 | definition with no contract of its own: each file's non-blank lines, in selection order; `FileLinesStep` and `FileLinesAppend` state how it grows |
| CsvCombine.FileKeys | src/renderer/src/home/home.jsx:92-99 | definition with no contract of its own; `FileKeyOf`, `FileKeySource` and `FileKeysCount` state which keys it holds |
| CsvCombine.GroupKeys | src/renderer/src/home/home.jsx:101-103 | definition with no contract of its own; `GroupKeysShape` and `GroupKeysStep` state the group order |
| CsvCombine.RowsOf | src/renderer/src/home/home.jsx:105-109 | definition with no contract of its own; `RowsOfMembers`, `RowsOfPrefix`, `RowsOfStep` and `NoDedupeOwnRows` state which rows a group holds |
| CsvCombine.EmittedRows | src/renderer/src/home/home.jsx:115-119 | definition with no contract of its own; `DedupeRowsPrinted` and `NoDedupeRowsPrinted` state the printed rows |
| CsvCombine.Document | src/renderer/src/home/home.jsx:112-125 | definition with no contract of its own: one block per group, in group order; `GroupHeader`, `DedupeRowsPrinted`, `NoDedupeRowsPrinted` and `DocumentNoLineBreaks` state its blocks |
| CsvCombine.BlockText | src/renderer/src/home/home.jsx:124 | definition with no contract of its own; `SerialiseAsLines` and `CombineReadsBack` state how a block reads back |
| CsvCombine.Serialise | src/renderer/src/home/home.jsx:127 | definition with no contract of its own; `SerialiseAsLines` and `CombineReadsBack` state how the text reads back |
| CsvCombine.GroupFile | src/renderer/src/home/home.jsx:86-110 | one pass of the file loop: the map held the groups of the first `fileIndex` files and then holds the groups of the first `fileIndex + 1` |
| CsvCombine.AddToGroup | src/renderer/src/home/home.jsx:94-109 | a file with non-blank lines turns the groups of the earlier files into the groups including it |
| CsvCombine.PushRows | src/renderer/src/home/home.jsx:105-109 | the key's list grows by the non-blank body rows in order; the key order and every other key's list stay unchanged |
| CsvCombine.JoinGroups | src/renderer/src/home/home.jsx:112-127 | from a map holding the groups of all files, the loop and join produce `Combine` |
| CsvCombine.SkipFile | src/renderer/src/home/home.jsx:92 | a file without non-blank lines leaves keys and rows as they are |
| CsvCombine.AddFile | src/renderer/src/home/home.jsx:99-109 | a contributing file adds its key at the end if new and appends its body rows to that key alone |
| CsvCombine.GroupKeysStep | src/renderer/src/home/home.jsx:101-103 | one more file adds its key to the group order only if the key is new |
| CsvCombine.RowsOfStep | src/renderer/src/home/home.jsx:105-109 | one more file appends its body rows to its own key's rows and to no other key |
| CsvCombine.RowsOfAbsent | src/renderer/src/home/home.jsx:101-102 | a key no file has produced has no rows, so a new group starts empty |
| CsvCombine.FileLinesStep | src/renderer/src/home/home.jsx:86-90 | one more processed file extends the line lists by that file's non-blank lines |
| CsvCombine.KeepNonBlankMembers | src/renderer/src/home/home.jsx:90 | the filter keeps exactly the lines that are not blank |
| CsvCombine.KeepNonBlankAppend | src/renderer/src/home/home.jsx:90 | filtering a concatenation concatenates the filtered parts, so kept lines stay in order and repeats are kept |
| CsvCombine.KeepNonBlankCons | src/renderer/src/home/home.jsx:90 | a first line is kept exactly when it is not blank, ahead of the kept lines after it |
| CsvCombine.KeepNonBlankFirst | src/renderer/src/home/home.jsx:90-94 | nothing is kept exactly when all lines are blank; otherwise the first kept line is the first non-blank line and the rest are the kept lines after it |
| CsvCombine.KeepNonBlankAt | src/renderer/src/home/home.jsx:90-95 | after only blank lines, the non-blank line at `k` is kept first, followed by the kept lines after it |
| CsvCombine.KeepNonBlankOfBlank | src/renderer/src/home/home.jsx:90-92 | a file of blank lines keeps no line, so the test at line 92 skips it |
| CsvCombine.KeepNonBlankStep | src/renderer/src/home/home.jsx:105-109 | one more body row adds that row to the kept rows exactly when it is not blank |
| CsvCombine.FirstNonBlank | src/renderer/src/home/home.jsx:90-94 | the index of the first non-blank line, with every line before it blank |
| CsvCombine.KeepNonBlankOfNonBlank | src/renderer/src/home/home.jsx:105-109 | filtering body rows that are already non-blank keeps them all, in order |
| CsvCombineProperties.NonBlankLinesMember | src/renderer/src/home/home.jsx:87-90 | a line is kept exactly when it is a piece of the text with `\r` removed and split at `\n`, and its trim is not empty; it is kept untrimmed |
| CsvCombineProperties.NonBlankLinesClean | src/renderer/src/home/home.jsx:87-90 | a kept line is not blank and holds neither `\n` nor `\r` |
| CsvCombineProperties.NonBlankLinesHeader | src/renderer/src/home/home.jsx:87-95 | a file keeps no line exactly when all its pieces are blank; otherwise its header is the first non-blank piece and its body rows are the non-blank pieces after it, in order, repeats included |
| CsvCombineProperties.NonBlankLinesAppend | src/renderer/src/home/home.jsx:87-90 | the lines of `a + "\n" + b` are the lines of `a` followed by the lines of `b` |
| CsvCombineProperties.NonBlankLinesOfJoin | src/renderer/src/home/home.jsx:87-90 | text written as lines ended by `\n` or by `\r\n` gives back exactly its non-blank lines, in order, repeats included |
| CsvCombineProperties.FileKeyOf | src/renderer/src/home/home.jsx:92-103 | every file with a non-blank line contributes its key |
| CsvCombineProperties.FileKeySource | src/renderer/src/home/home.jsx:92-103 | every key comes from some file with a non-blank line |
| CsvCombineProperties.GroupKeysShape | src/renderer/src/home/home.jsx:101-103 | the groups are the keys of the contributing files, each exactly once, in first-encounter order |
| CsvCombineProperties.RowsOfMembers | src/renderer/src/home/home.jsx:105-109 | a row is in a group exactly when it is a body row of some file with that group's key |
| CsvCombineProperties.RowsOfPrefix | src/renderer/src/home/home.jsx:86-110 | rows of earlier files come before rows of later files in every group |
| CsvCombineProperties.DedupeMergesEqualHeaders | src/renderer/src/home/home.jsx:99-103 | deleting duplicates, two files with equal headers feed their body rows into the one group of that header |
| CsvCombineProperties.KeyInjective | src/renderer/src/home/home.jsx:99 | keeping duplicates, keys of different files differ whatever their headers, and equal keys mean equal headers |
| CsvCombineProperties.NoDedupeKeysDistinct | src/renderer/src/home/home.jsx:99-103 | keeping duplicates, no key repeats, so the groups are the files' keys one for one |
| CsvCombineProperties.NoDedupeGroupCount | src/renderer/src/home/home.jsx:92-103 | keeping duplicates, there are as many groups as contributing files |
| CsvCombineProperties.NoDedupeOwnRows | src/renderer/src/home/home.jsx:99-109 | keeping duplicates, a file's group holds exactly its own body rows, even beside files with the same header |
| CsvCombineProperties.NoDedupeRowsPrinted | src/renderer/src/home/home.jsx:115-119 | keeping duplicates, each printed block is one file's body rows, unchanged |
| CsvCombineProperties.DedupeRowsPrinted | src/renderer/src/home/home.jsx:117-119 | deleting duplicates, a block's rows are distinct and are the collected rows with later repeats removed, first occurrences kept in order |
| CsvCombineProperties.CleanHeaderRecovered | src/renderer/src/home/home.jsx:122 | in both modes a header without `"__file"` is printed as it is |
| CsvCombineProperties.FirstMarkerEndsHeader | src/renderer/src/home/home.jsx:122 | everything from the first `"__file"` of a key on is dropped from the printed header |
| CsvCombineProperties.MarkerInHeaderTruncated | src/renderer/src/home/home.jsx:122 | the header `id__file` is printed as `id` in both modes |
| CsvCombineProperties.GroupHeader | src/renderer/src/home/home.jsx:94-122 | each block's header comes from a file of its group, and is that file's first non-blank line when the line has no `"__file"` |
| CsvCombineProperties.BlankFileAddsNothing | src/renderer/src/home/home.jsx:92 | appending a file without non-blank lines at the end leaves the combined text unchanged |
| CsvCombineProperties.DocumentSkipsBlank | src/renderer/src/home/home.jsx:92 | a file without lines leaves every block as it is |
| CsvCombineProperties.CombineOfBlank | src/renderer/src/home/home.jsx:112-127 | no files, or only blank ones, give the empty text |
| CsvCombineProperties.HeaderOnlyFile | src/renderer/src/home/home.jsx:92-103 | a header-only file forms a group, and alone, when its header holds no `"__file"`, it gives exactly its header line |
| CsvCombineProperties.HeaderOnlyDocument | src/renderer/src/home/home.jsx:92-103 | when the header holds no `"__file"`, the document of one header-only file is one block with that header and no rows |
| CsvCombineProperties.PrintedRowClean | src/renderer/src/home/home.jsx:105-109 | every printed row has a non-empty trim and holds neither `\n` nor `\r` |
| CsvCombineProperties.SerialiseAsLines | src/renderer/src/home/home.jsx:124-127 | blocks joined by `"\n\n"` are the blocks' lines joined by `"\n"`, with one empty line between blocks |
| CsvCombineProperties.DocumentNoLineBreaks | src/renderer/src/home/home.jsx:87-90 | no printed header or row holds `\n` |
| CsvCombineProperties.HeaderOfKeyNoLineBreak | src/renderer/src/home/home.jsx:122 | a header without `\n` is printed without `\n` |
| CsvCombineProperties.CombineReadsBack | src/renderer/src/home/home.jsx:124-127 | when there is at least one group, splitting the combined text at `\n` gives each block's header and rows, with an empty line between blocks |
| JsString.TrimStart | src/renderer/src/home/home.jsx:90 | the result is the suffix left after dropping exactly the leading white space |
| JsString.TrimEnd | src/renderer/src/home/home.jsx:90 | the result is the prefix left after dropping exactly the trailing white space |
| JsString.TrimEmptyIffBlank | src/renderer/src/home/home.jsx:90 | `trim()` is empty exactly for strings made only of white space |
| JsString.Trim | src/renderer/src/home/home.jsx:90 | definition with no contract of its own (`TrimEnd` of `TrimStart`); `TrimEmptyIffBlank` states when it is empty |
| JsString.RemoveAll | src/renderer/src/home/home.jsx:88 | no `\r` is left |
| JsString.RemoveAllKeepsOthers | src/renderer/src/home/home.jsx:88 | every other character is kept with its count, so text without `\r` is unchanged |
| JsString.RemoveAllAppend | src/renderer/src/home/home.jsx:88 | removal from a concatenation concatenates the removals, so kept characters stay in order |
| JsString.RemoveAllCrLf | src/renderer/src/home/home.jsx:88 | lines ended by `\r\n` become the same lines ended by `\n` |
| JsString.IndexOfFirst | src/renderer/src/home/home.jsx:89 | `indexOf` is -1 exactly when the separator does not occur, and otherwise is its first occurrence |
| JsString.IndexOfFromFirst | src/renderer/src/home/home.jsx:89 | searching from a position finds an occurrence and skips none before it |
| JsString.SplitPieces | src/renderer/src/home/home.jsx:89 | no piece of `split` contains the separator, and every piece's characters come from the text |
| JsString.Split | src/renderer/src/home/home.jsx:89 | its own contract gives at least one piece; `SplitPieces`, `SplitHead`, `SplitThenJoin`, `SplitAround` and `JoinThenSplit` state what the pieces are |
| JsString.Join | src/renderer/src/home/home.jsx:124-127 | definition with no contract of its own; `SplitThenJoin`, `JoinThenSplit`, `JoinAppend` and `JoinFreeOf` state its properties |
| JsString.IndexOf | src/renderer/src/home/home.jsx:89 | its own contract gives the bounds of the result; `IndexOfFirst` states that it is the first occurrence, or -1 |
| JsString.SplitHead | src/renderer/src/home/home.jsx:122 | `split(sep)[0]` is the prefix before the first occurrence of `sep`, or the whole text |
| JsString.SplitThenJoin | src/renderer/src/home/home.jsx:89 | joining the pieces with the separator gives back the text |
| JsString.SplitAtOccurrence | src/renderer/src/home/home.jsx:89 | at the first occurrence found by `indexOf`, the text is the first piece, the separator and the rest, and the split continues in the rest |
| JsString.SplitAround | src/renderer/src/home/home.jsx:89 | splitting `a + ch + b` at the one-character `ch` gives the pieces of `a` followed by the pieces of `b` |
| JsString.FirstChar | src/renderer/src/home/home.jsx:89 | `indexOf` of a present character is a position holding it with no earlier occurrence |
| JsString.JoinFreeOf | src/renderer/src/home/home.jsx:124-127 | a character in neither the parts nor the separator is not in the join |
| JsString.JoinThenSplit | src/renderer/src/home/home.jsx:124 | joining lines free of a one-character separator and splitting again gives back the lines |
| JsString.Decimal | src/renderer/src/home/home.jsx:99 | `${fileIndex}` is a non-empty string of decimal digits |
| JsString.DecimalInjective | src/renderer/src/home/home.jsx:99 | different indexes have different decimal texts |
| JsString.LastIndexOf | src/renderer/src/home/home.jsx:67-68 | -1 exactly when the character does not occur, and otherwise its last position |
| JsCollections.Dedup | src/renderer/src/home/home.jsx:118 | the result has the same elements and no repeats |
| JsCollections.DedupKeepsFirstOccurrenceOrder | src/renderer/src/home/home.jsx:118 | the Set lists elements in the order of their first occurrences |
| JsCollections.DedupOfDistinct | src/renderer/src/home/home.jsx:118 | a list without repeats passes through the Set unchanged |
| JsCollections.InsertionMap.constructor | src/renderer/src/home/home.jsx:84 | `new Map()` has no keys and no bindings |
| JsCollections.InsertionMap.Has | src/renderer/src/home/home.jsx:101 | `has` answers whether the key is present |
| JsCollections.InsertionMap.Set | src/renderer/src/home/home.jsx:102 | `set` binds the key; a new key goes last and an existing key keeps its place |
| JsCollections.InsertionMap.Push | src/renderer/src/home/home.jsx:107 | `get(k).push(x)` appends `x` to k's list only |
| FolderPath.GetFolderPath | src/renderer/src/home/home.jsx:66-80 | `""` when the path has neither `/` nor `\`; otherwise the proper prefix that ends just before the last separator of either kind |
| FolderPath.Max | src/renderer/src/home/home.jsx:71 | definition with no contract of its own: `Math.max`; `GetFolderPath` states the result it leads to |
| FolderPath.FolderOfJoinedPath | src/renderer/src/home/home.jsx:66-80 | the folder of `dir + sep + name`, for a name without separators, is `dir` |

## Left out

- `exportToXlsx` (home.jsx:163-195) is not modelled. It is a thin wrapper
  over the `xlsx` library, whose code is not part of this model.
- The `try/catch` around `processCsv` (home.jsx:131-134) is not modelled. No
  operation of the model fails, so the error branch is never taken.
- `setFinalData(csvString)` and `handleNext()` (home.jsx:128-130) are not
  modelled as calls. `ProcessCsv` returns the text instead, and the stepper
  change is UI state.
- `fileContents` and `deleteDuplicate` are React state. They are passed in as
  parameters.
- `String(content)` is the identity here, because every file content is
  already a string.
- `exportToCsv`, `openDirectory` and the `window.electron` bridge
  (home.jsx:138-160, 219-221) are left out as I/O and IPC.
- Reading the files with `FileReader` and `Promise.all` (home.jsx:197-217)
  is asynchronous I/O. The model takes the resulting texts in selection
  order.
- The React components, theme, stepper and reset handlers (home.jsx:23-64,
  223-446) are UI.
- `src/main/index.js` (window creation, save dialog, `fs.writeFileSync`,
  `shell.openPath`) and `src/preload/index.js` (context bridge) are platform
  I/O with no logic. They are not part of this model.
- Characters: a JavaScript string is a sequence of UTF-16 code units, while
  a Dafny `char` is a Unicode scalar value. Lone surrogates and
  surrogate-pair splitting are not modelled. The white-space set used by
  `trim` is the ECMAScript WhiteSpace and LineTerminator set.
- JsString.Split: the function's own contract states only that there is at
  least one piece. What the pieces are is stated by `SplitPieces`,
  `SplitHead`, `SplitThenJoin` and `JoinThenSplit`. `split` is modelled only
  for non-empty separators, which are the only ones the code uses (`"\n"`
  and `"__file"`).
- JsString.IndexOf: the function's own contract states only the bounds of
  the result. The first-occurrence property is stated by `IndexOfFirst`.
- CsvCombine.KeepNonBlank: the filter tests "not blank" rather than
  `trim() !== ""`. `TrimEmptyIffBlank` proves the two tests agree, and
  `NonBlankLinesMember` states the kept lines in terms of `Trim`. Order and
  repeats are stated by `KeepNonBlankAppend`, `KeepNonBlankFirst`,
  `NonBlankLinesHeader` and `NonBlankLinesOfJoin`.
