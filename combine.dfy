/** The combine engine behind `processCsv`: the selected files' texts, in
    selection order, and the "delete duplicate" flag go in; the combined
    text that is handed on as the final data comes out.

    The functions below are the specification of that text; `ProcessCsv`
    is the imperative loop of the application, proved to produce it. */
module CsvCombine {
  import opened JsString
  import opened JsCollections

  /** The marker that ties a group key to its file when duplicates are kept. */
  const FileMarker: string := "__file"

  /** `lines.filter((r) => r.trim() !== "")`; a line's trim is empty exactly
      when the line is blank (`TrimEmptyIffBlank`). */
  function KeepNonBlank(lines: seq<string>): seq<string>
  {
    if |lines| == 0 then []
    else
      var n := |lines| - 1;
      KeepNonBlank(lines[..n]) + (if !IsBlank(lines[n]) then [lines[n]] else [])
  }

  /** The filter keeps exactly the non-blank lines. */
  lemma {:induction false} KeepNonBlankMembers(lines: seq<string>)
    ensures forall x :: x in KeepNonBlank(lines) <==> x in lines && !IsBlank(x)
  {
    if |lines| > 0 {
      var n := |lines| - 1;
      KeepNonBlankMembers(lines[..n]);
      assert lines == lines[..n] + [lines[n]];
    }
  }

  /** Filtering lines that are all non-blank keeps every one of them. */
  lemma {:induction false} KeepNonBlankOfNonBlank(lines: seq<string>)
    requires forall k :: 0 <= k < |lines| ==> !IsBlank(lines[k])
    ensures KeepNonBlank(lines) == lines
  {
    if |lines| > 0 {
      var n := |lines| - 1;
      KeepNonBlankOfNonBlank(lines[..n]);
      assert lines == lines[..n] + [lines[n]];
    }
  }

  /** The filter works piecewise, so the kept lines stay in their order and
      repeated lines are all kept. */
  lemma {:induction false} KeepNonBlankAppend(a: seq<string>, b: seq<string>)
    ensures KeepNonBlank(a + b) == KeepNonBlank(a) + KeepNonBlank(b)
    decreases |b|
  {
    if |b| == 0 {
      assert a + b == a;
    } else {
      var n := |b| - 1;
      assert (a + b)[..|a + b| - 1] == a + b[..n];
      KeepNonBlankAppend(a, b[..n]);
    }
  }

  /** Nothing is kept exactly when every line is blank; otherwise the first
      kept line is the first non-blank one, and the rest are kept from the
      lines after it. */
  lemma {:induction false} KeepNonBlankFirst(lines: seq<string>)
    ensures KeepNonBlank(lines) == [] <==> forall j :: 0 <= j < |lines| ==> IsBlank(lines[j])
    ensures KeepNonBlank(lines) != [] ==>
      exists k :: 0 <= k < |lines| && !IsBlank(lines[k])
        && (forall j :: 0 <= j < k ==> IsBlank(lines[j]))
        && KeepNonBlank(lines) == [lines[k]] + KeepNonBlank(lines[k + 1..])
  {
    var k := FirstNonBlank(lines);
    if k == |lines| {
      KeepNonBlankOfBlank(lines);
    } else {
      KeepNonBlankAt(lines, k);
      var kept := KeepNonBlank(lines);
      assert |kept| > 0 && !IsBlank(lines[k]);
    }
  }

  /** The index of the first non-blank line, or the number of lines. */
  function FirstNonBlank(lines: seq<string>): (k: nat)
    ensures k <= |lines| && (k < |lines| ==> !IsBlank(lines[k]))
    ensures forall j :: 0 <= j < k ==> IsBlank(lines[j])
  {
    if |lines| == 0 || !IsBlank(lines[0]) then 0 else 1 + FirstNonBlank(lines[1..])
  }

  /** Blank lines are all dropped. */
  lemma {:induction false} KeepNonBlankOfBlank(lines: seq<string>)
    requires forall j :: 0 <= j < |lines| ==> IsBlank(lines[j])
    ensures KeepNonBlank(lines) == []
  {
    if |lines| > 0 {
      KeepNonBlankOfBlank(lines[..|lines| - 1]);
    }
  }

  /** After blank lines only, the non-blank line `lines[k]` is kept first. */
  lemma {:induction false} KeepNonBlankAt(lines: seq<string>, k: nat)
    requires k < |lines| && !IsBlank(lines[k])
    requires forall j :: 0 <= j < k ==> IsBlank(lines[j])
    ensures KeepNonBlank(lines) == [lines[k]] + KeepNonBlank(lines[k + 1..])
  {
    var rest := lines[1..];
    assert lines == [lines[0]] + rest;
    KeepNonBlankCons(lines[0], rest);
    if k > 0 {
      KeepNonBlankAt(rest, k - 1);
      assert rest[k - 1] == lines[k] && rest[k..] == lines[k + 1..];
    }
  }

  /** The filter over one more line of a prefix. */
  lemma KeepNonBlankStep(lines: seq<string>, j: nat)
    requires j < |lines|
    ensures KeepNonBlank(lines[..j + 1]) ==
      KeepNonBlank(lines[..j]) + (if !IsBlank(lines[j]) then [lines[j]] else [])
  {
    assert lines[..j + 1][..j] == lines[..j];
  }

  /** The filter applied to a first line and the lines after it. */
  lemma KeepNonBlankCons(x: string, rest: seq<string>)
    ensures KeepNonBlank([x] + rest) == (if IsBlank(x) then [] else [x]) + KeepNonBlank(rest)
  {
    KeepNonBlankAppend([x], rest);
    assert [x][..0] == [];
  }

  /** `String(content).replace(/\r/g, "").split("\n")`: the lines of a file,
      blank ones included. */
  function LinePieces(content: string): seq<string>
  {
    Split(RemoveAll(content, '\r'), "\n")
  }

  /** `String(content).replace(/\r/g, "").split("\n").filter((r) => r.trim() !== "")` */
  function NonBlankLines(content: string): seq<string>
  {
    KeepNonBlank(LinePieces(content))
  }

  /** The key a file's rows are grouped under: its header when duplicates are
      deleted, otherwise `${header}__file${fileIndex}`. */
  function HeaderKey(header: string, deleteDuplicate: bool, fileIndex: nat): string
  {
    if deleteDuplicate then header else header + FileMarker + Decimal(fileIndex)
  }

  /** `headerKey.split("__file")[0]`: the header printed for a group. */
  function HeaderOfKey(headerKey: string): string
  {
    Split(headerKey, FileMarker)[0]
  }

  /** The non-blank lines of every file, in selection order. */
  function FileLines(contents: seq<string>): seq<seq<string>>
  {
    seq(|contents|, i requires 0 <= i < |contents| => NonBlankLines(contents[i]))
  }

  /** The group keys of the files that have at least one non-blank line, one
      per such file, in selection order (repeats included); `files` holds the
      non-blank lines of each file. */
  function FileKeys(files: seq<seq<string>>, deleteDuplicate: bool): seq<string>
  {
    if |files| == 0 then []
    else
      var n := |files| - 1;
      FileKeys(files[..n], deleteDuplicate)
        + (if |files[n]| == 0 then [] else [HeaderKey(files[n][0], deleteDuplicate, n)])
  }

  /** The rows collected under `key`: the body rows (all non-blank lines but
      the first) of every file grouped under `key`, in selection order and
      within each file in line order. */
  function RowsOf(files: seq<seq<string>>, deleteDuplicate: bool, key: string): seq<string>
  {
    if |files| == 0 then []
    else
      var n := |files| - 1;
      RowsOf(files[..n], deleteDuplicate, key)
        + (if |files[n]| > 0 && HeaderKey(files[n][0], deleteDuplicate, n) == key then files[n][1..] else [])
  }

  /** The groups, in the order in which the Map first saw their keys. */
  function GroupKeys(files: seq<seq<string>>, deleteDuplicate: bool): seq<string>
  {
    Dedup(FileKeys(files, deleteDuplicate))
  }

  /** One block of the combined document: a header line and its rows. */
  datatype Block = Block(header: string, rows: seq<string>)

  /** A group's rows as printed: `[...new Set(rows)]` when duplicates are deleted. */
  function EmittedRows(rows: seq<string>, deleteDuplicate: bool): seq<string>
  {
    if deleteDuplicate then Dedup(rows) else rows
  }

  /** The combined document: one block per group, in group order. */
  function Document(files: seq<seq<string>>, deleteDuplicate: bool): seq<Block>
  {
    var keys := GroupKeys(files, deleteDuplicate);
    seq(|keys|, g requires 0 <= g < |keys| =>
      Block(HeaderOfKey(keys[g]), EmittedRows(RowsOf(files, deleteDuplicate, keys[g]), deleteDuplicate)))
  }

  /** `[header, ...rows].join("\n")` */
  function BlockText(b: Block): string
  {
    Join([b.header] + b.rows, "\n")
  }

  function BlockTexts(doc: seq<Block>): seq<string>
  {
    seq(|doc|, g requires 0 <= g < |doc| => BlockText(doc[g]))
  }

  /** `finalCsvParts.join("\n\n")` */
  function Serialise(doc: seq<Block>): string
  {
    Join(BlockTexts(doc), "\n\n")
  }

  /** The text `processCsv` hands to `setFinalData`. */
  function Combine(contents: seq<string>, deleteDuplicate: bool): string
  {
    Serialise(Document(FileLines(contents), deleteDuplicate))
  }

  /** One more file extends the line lists by that file's lines. */
  lemma FileLinesStep(contents: seq<string>, i: nat)
    requires i < |contents|
    ensures FileLines(contents[..i + 1]) == FileLines(contents[..i]) + [NonBlankLines(contents[i])]
  {
    assert FileLines(contents[..i + 1])[i] == NonBlankLines(contents[i]);
  }

  /** The group keys after one more file: its key is added if new. */
  lemma {:induction false} GroupKeysStep(files: seq<seq<string>>, lines: seq<string>, deleteDuplicate: bool)
    ensures var before := GroupKeys(files, deleteDuplicate);
      GroupKeys(files + [lines], deleteDuplicate) ==
        if |lines| == 0 then before
        else if HeaderKey(lines[0], deleteDuplicate, |files|) in before then before
        else before + [HeaderKey(lines[0], deleteDuplicate, |files|)]
  {
    assert (files + [lines])[..|files|] == files;
    var fk := FileKeys(files, deleteDuplicate);
    if |lines| > 0 {
      var key := HeaderKey(lines[0], deleteDuplicate, |files|);
      assert FileKeys(files + [lines], deleteDuplicate) == fk + [key];
      assert (fk + [key])[..|fk|] == fk;
    } else {
      assert FileKeys(files + [lines], deleteDuplicate) == fk;
    }
  }

  /** The rows of every key after one more file: its body rows join its key. */
  lemma {:induction false} RowsOfStep(files: seq<seq<string>>, lines: seq<string>, deleteDuplicate: bool, key: string)
    ensures RowsOf(files + [lines], deleteDuplicate, key) ==
        RowsOf(files, deleteDuplicate, key)
        + (if |lines| > 0 && HeaderKey(lines[0], deleteDuplicate, |files|) == key then lines[1..] else [])
  {
    assert (files + [lines])[..|files|] == files;
  }

  /** A key no file has produced has no rows. */
  lemma {:induction false} RowsOfAbsent(files: seq<seq<string>>, deleteDuplicate: bool, key: string)
    requires key !in FileKeys(files, deleteDuplicate)
    ensures RowsOf(files, deleteDuplicate, key) == []
  {
    if |files| > 0 {
      var n := |files| - 1;
      RowsOfAbsent(files[..n], deleteDuplicate, key);
    }
  }

  /** `keys` and `entries` are exactly the groups of `files`: the keys in
      group order, and for each key the rows collected under it. */
  ghost predicate IsGrouping(keys: seq<string>, entries: map<string, seq<string>>,
                             files: seq<seq<string>>, deleteDuplicate: bool)
  {
    keys == GroupKeys(files, deleteDuplicate)
    && (forall k :: k in entries <==> k in keys)
    && forall k :: k in entries ==> entries[k] == RowsOf(files, deleteDuplicate, k)
  }

  /** `headersMap` holds exactly the groups of `files`. */
  ghost predicate HoldsGroups(headersMap: InsertionMap, files: seq<seq<string>>, deleteDuplicate: bool)
    reads headersMap
  {
    headersMap.Valid() && IsGrouping(headersMap.keys, headersMap.entries, files, deleteDuplicate)
  }

  /** A file without non-blank lines leaves the grouping as it is. */
  lemma {:induction false} SkipFile(keys: seq<string>, entries: map<string, seq<string>>,
                                    files: seq<seq<string>>, deleteDuplicate: bool)
    requires IsGrouping(keys, entries, files, deleteDuplicate)
    ensures IsGrouping(keys, entries, files + [[]], deleteDuplicate)
  {
    GroupKeysStep(files, [], deleteDuplicate);
    forall k | k in entries ensures entries[k] == RowsOf(files + [[]], deleteDuplicate, k) {
      RowsOfStep(files, [], deleteDuplicate, k);
    }
  }

  /** A file with non-blank lines adds its key if new and appends its body
      rows to that key's rows. */
  lemma {:induction false} AddFile(keys: seq<string>, entries: map<string, seq<string>>,
                                   files: seq<seq<string>>, lines: seq<string>, deleteDuplicate: bool)
    requires |lines| > 0
    requires IsGrouping(keys, entries, files, deleteDuplicate)
    ensures var key := HeaderKey(lines[0], deleteDuplicate, |files|);
      var collected := if key in entries then entries[key] else [];
      IsGrouping(if key in keys then keys else keys + [key],
                 entries[key := collected + lines[1..]],
                 files + [lines], deleteDuplicate)
  {
    var key := HeaderKey(lines[0], deleteDuplicate, |files|);
    GroupKeysStep(files, lines, deleteDuplicate);
    if key !in entries {
      RowsOfAbsent(files, deleteDuplicate, key);
    }
    var collected := if key in entries then entries[key] else [];
    assert collected == RowsOf(files, deleteDuplicate, key);
    var entries' := entries[key := collected + lines[1..]];
    var keys' := if key in keys then keys else keys + [key];
    assert keys' == GroupKeys(files + [lines], deleteDuplicate);
    assert forall k :: k in entries' <==> k in keys';
    forall k | k in entries' ensures entries'[k] == RowsOf(files + [lines], deleteDuplicate, k) {
      RowsOfStep(files, lines, deleteDuplicate, k);
      if k != key {
        assert entries'[k] == entries[k];
      }
    }
    assert IsGrouping(keys', entries', files + [lines], deleteDuplicate);
  }

  /** The application's `processCsv`, with the `fileContents` and
      `deleteDuplicate` state passed in and the text given to
      `setFinalData` returned. */
  method ProcessCsv(fileContents: seq<string>, deleteDuplicate: bool) returns (finalData: string)
    ensures finalData == Combine(fileContents, deleteDuplicate)
  {
    var headersMap := new InsertionMap();
    var fileIndex := 0;
    while fileIndex < |fileContents|
      invariant 0 <= fileIndex <= |fileContents|
      invariant HoldsGroups(headersMap, FileLines(fileContents[..fileIndex]), deleteDuplicate)
    {
      GroupFile(headersMap, fileContents, fileIndex, deleteDuplicate);
      fileIndex := fileIndex + 1;
    }
    assert fileContents[..fileIndex] == fileContents;
    finalData := JoinGroups(headersMap, fileContents, deleteDuplicate);
  }

  /** The `fileContents.forEach` callback for the file at `fileIndex`: a file
      with no non-blank line is skipped; otherwise its group is created if
      new and its body rows are pushed onto it. */
  method GroupFile(headersMap: InsertionMap, fileContents: seq<string>, fileIndex: nat, deleteDuplicate: bool)
    requires fileIndex < |fileContents|
    requires HoldsGroups(headersMap, FileLines(fileContents[..fileIndex]), deleteDuplicate)
    modifies headersMap
    ensures HoldsGroups(headersMap, FileLines(fileContents[..fileIndex + 1]), deleteDuplicate)
  {
    ghost var keys, entries := headersMap.keys, headersMap.entries;
    ghost var files := FileLines(fileContents[..fileIndex]);
    var rows := NonBlankLines(fileContents[fileIndex]);
    FileLinesStep(fileContents, fileIndex);
    if |rows| == 0 {
      SkipFile(keys, entries, files, deleteDuplicate);
      return;
    }
    KeepNonBlankMembers(Split(RemoveAll(fileContents[fileIndex], '\r'), "\n"));
    assert forall k :: 0 <= k < |rows| ==> rows[k] in rows;
    AddToGroup(headersMap, files, rows, fileIndex, deleteDuplicate);
  }

  /** The callback's work for a file whose non-blank lines `rows` are not
      empty: the group of `rows[0]` is created if new, and the rows after it
      are pushed onto that group. */
  method AddToGroup(headersMap: InsertionMap, ghost files: seq<seq<string>>, rows: seq<string>,
                    fileIndex: nat, deleteDuplicate: bool)
    requires |rows| > 0 && fileIndex == |files|
    requires forall k :: 0 <= k < |rows| ==> !IsBlank(rows[k])
    requires HoldsGroups(headersMap, files, deleteDuplicate)
    modifies headersMap
    ensures HoldsGroups(headersMap, files + [rows], deleteDuplicate)
  {
    ghost var keys, entries := headersMap.keys, headersMap.entries;
    var header := rows[0];
    var bodyRows := rows[1..];
    var headerKey := HeaderKey(header, deleteDuplicate, fileIndex);
    var known := headersMap.Has(headerKey);
    ghost var collected := if headerKey in entries then entries[headerKey] else [];
    if !known {
      headersMap.Set(headerKey, []);
    }
    assert headersMap.entries == entries[headerKey := collected];
    KeepNonBlankOfNonBlank(bodyRows);
    PushRows(headersMap, headerKey, bodyRows);
    assert headersMap.entries == entries[headerKey := collected + bodyRows];
    AddFile(keys, entries, files, rows, deleteDuplicate);
  }

  /** `bodyRows.forEach((row) => { if (row.trim() !== "") headersMap.get(headerKey).push(row); })`:
      the non-blank rows, in order, are appended to the list of `headerKey`. */
  method PushRows(headersMap: InsertionMap, headerKey: string, bodyRows: seq<string>)
    requires headersMap.Valid() && headerKey in headersMap.keys
    modifies headersMap
    ensures headersMap.Valid() && headersMap.keys == old(headersMap.keys)
    ensures headersMap.entries ==
      old(headersMap.entries)[headerKey := old(headersMap.entries[headerKey]) + KeepNonBlank(bodyRows)]
  {
    ghost var collected := headersMap.entries[headerKey];
    var j := 0;
    assert collected + KeepNonBlank(bodyRows[..j]) == collected;
    while j < |bodyRows|
      invariant 0 <= j <= |bodyRows|
      invariant headersMap.Valid() && headersMap.keys == old(headersMap.keys)
      invariant headersMap.entries[headerKey] == collected + KeepNonBlank(bodyRows[..j])
      invariant forall k :: k in headersMap.entries && k != headerKey ==> headersMap.entries[k] == old(headersMap.entries[k])
    {
      var row := bodyRows[j];
      ghost var kept := KeepNonBlank(bodyRows[..j]);
      KeepNonBlankStep(bodyRows, j);
      if !IsBlank(row) {
        headersMap.Push(headerKey, row);
        assert collected + kept + [row] == collected + (kept + [row]);
      }
      j := j + 1;
    }
    assert bodyRows[..j] == bodyRows;
    ghost var expected := old(headersMap.entries)[headerKey := collected + KeepNonBlank(bodyRows)];
    assert forall k :: k in headersMap.entries <==> k in expected;
    assert forall k :: k in headersMap.entries ==> headersMap.entries[k] == expected[k];
    assert headersMap.entries == expected;
  }

  /** The `headersMap.forEach` loop and the final join: one block per group,
      in group order, blocks separated by a blank line. */
  method JoinGroups(headersMap: InsertionMap, fileContents: seq<string>, deleteDuplicate: bool)
    returns (csvString: string)
    requires HoldsGroups(headersMap, FileLines(fileContents), deleteDuplicate)
    ensures csvString == Combine(fileContents, deleteDuplicate)
  {
    ghost var doc := Document(FileLines(fileContents), deleteDuplicate);
    ghost var parts := BlockTexts(doc);
    assert |parts| == |headersMap.keys|;
    var finalCsvParts: seq<string> := [];
    var g := 0;
    while g < |headersMap.keys|
      invariant 0 <= g <= |headersMap.keys|
      invariant finalCsvParts == parts[..g]
    {
      var headerKey := headersMap.keys[g];
      assert headerKey in headersMap.entries;
      var combinedRows := headersMap.entries[headerKey];
      assert combinedRows == RowsOf(FileLines(fileContents), deleteDuplicate, headerKey);
      if deleteDuplicate {
        combinedRows := Dedup(combinedRows);
      }
      assert combinedRows == doc[g].rows;
      var header := Split(headerKey, FileMarker)[0];
      assert header == doc[g].header;
      assert parts[g] == BlockText(doc[g]);
      finalCsvParts := finalCsvParts + [Join([header] + combinedRows, "\n")];
      assert parts[..g + 1] == parts[..g] + [parts[g]];
      g := g + 1;
    }
    assert parts[..g] == parts;
    csvString := Join(finalCsvParts, "\n\n");
  }
}
