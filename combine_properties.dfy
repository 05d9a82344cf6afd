/** What the combined text promises: how files are normalised into lines,
    how their rows are grouped in the two modes, how a group's header is
    recovered from its key, and how the text reads back line by line. */
module CsvCombineProperties {
  import opened JsString
  import opened JsCollections
  import opened CsvCombine

  // ---------------------------------------------------------------------
  // Normalisation of one file's text

  /** A line is kept exactly when it is a piece of the text with '\r'
      removed, split at '\n', whose trim is not empty; it is kept as it is
      (untrimmed). */
  lemma NonBlankLinesMember(content: string, x: string)
    ensures x in NonBlankLines(content) <==>
      x in Split(RemoveAll(content, '\r'), "\n") && Trim(x) != ""
  {
    KeepNonBlankMembers(Split(RemoveAll(content, '\r'), "\n"));
    TrimEmptyIffBlank(x);
  }

  /** Kept lines hold neither '\n' nor '\r' and are not blank. */
  lemma NonBlankLinesClean(content: string, x: string)
    requires x in NonBlankLines(content)
    ensures !IsBlank(x) && '\n' !in x && '\r' !in x
  {
    var text := RemoveAll(content, '\r');
    var pieces := Split(text, "\n");
    KeepNonBlankMembers(pieces);
    SplitPieces(text, "\n");
    var k :| 0 <= k < |pieces| && pieces[k] == x;
    ContainsChar(x, '\n');
    assert !Contains(pieces[k], "\n");
  }

  /** No line is kept exactly when every piece is blank; otherwise the first
      kept line, the header, is the first non-blank piece, and the body rows
      are the non-blank pieces after it, in their order and with repeats. */
  lemma NonBlankLinesHeader(content: string)
    ensures NonBlankLines(content) == [] <==>
      forall j :: 0 <= j < |LinePieces(content)| ==> IsBlank(LinePieces(content)[j])
    ensures NonBlankLines(content) != [] ==>
      exists k :: 0 <= k < |LinePieces(content)| && !IsBlank(LinePieces(content)[k])
        && (forall j :: 0 <= j < k ==> IsBlank(LinePieces(content)[j]))
        && NonBlankLines(content)[0] == LinePieces(content)[k]
        && NonBlankLines(content)[1..] == KeepNonBlank(LinePieces(content)[k + 1..])
  {
    KeepNonBlankFirst(LinePieces(content));
  }

  /** A text cut at a '\n' gives the lines of its first part followed
      by the lines of its second part. */
  lemma NonBlankLinesAppend(a: string, b: string)
    ensures NonBlankLines(a + "\n" + b) == NonBlankLines(a) + NonBlankLines(b)
  {
    RemoveAllAppend(a + "\n", b, '\r');
    RemoveAllAppend(a, "\n", '\r');
    assert RemoveAll("\n", '\r') == "\n" by {
      assert "\n"[1..] == "";
    }
    SplitAround(RemoveAll(a, '\r'), '\n', RemoveAll(b, '\r'));
    KeepNonBlankAppend(Split(RemoveAll(a, '\r'), "\n"), Split(RemoveAll(b, '\r'), "\n"));
  }

  /** A file written as lines ended by "\n" or by "\r\n" reads back as its
      non-blank lines, in their order and with repeats. */
  lemma NonBlankLinesOfJoin(lines: seq<string>, eol: string)
    requires eol == "\n" || eol == "\r\n"
    requires forall k :: 0 <= k < |lines| ==> '\n' !in lines[k] && '\r' !in lines[k]
    ensures NonBlankLines(Join(lines, eol)) == KeepNonBlank(lines)
  {
    if |lines| == 0 {
      assert Split(RemoveAll("", '\r'), "\n") == [""];
      assert KeepNonBlank([""]) == [];
    } else {
      var text := Join(lines, "\n");
      if eol == "\r\n" {
        RemoveAllCrLf(lines);
      } else {
        JoinFreeOf(lines, "\n", '\r');
        RemoveAllKeepsOthers(text, '\r');
      }
      JoinThenSplit(lines, '\n');
    }
  }

  // ---------------------------------------------------------------------
  // Where group keys come from

  /** Every file with a non-blank line contributes its key. */
  lemma {:induction false} FileKeyOf(files: seq<seq<string>>, deleteDuplicate: bool, i: nat)
    requires i < |files| && |files[i]| > 0
    ensures HeaderKey(files[i][0], deleteDuplicate, i) in FileKeys(files, deleteDuplicate)
  {
    var n := |files| - 1;
    if i < n {
      FileKeyOf(files[..n], deleteDuplicate, i);
    }
  }

  /** Every key comes from a file with a non-blank line. */
  lemma {:induction false} FileKeySource(files: seq<seq<string>>, deleteDuplicate: bool, key: string)
    requires key in FileKeys(files, deleteDuplicate)
    ensures exists i :: 0 <= i < |files| && |files[i]| > 0 && HeaderKey(files[i][0], deleteDuplicate, i) == key
  {
    var n := |files| - 1;
    if key in FileKeys(files[..n], deleteDuplicate) {
      FileKeySource(files[..n], deleteDuplicate, key);
      var i :| 0 <= i < n && |files[..n][i]| > 0 && HeaderKey(files[..n][i][0], deleteDuplicate, i) == key;
      assert files[..n][i] == files[i];
    } else {
      assert |files[n]| > 0 && HeaderKey(files[n][0], deleteDuplicate, n) == key;
    }
  }

  /** The groups are exactly the keys of the contributing files, each once,
      in the order in which the files first produced them (selection order). */
  lemma GroupKeysShape(files: seq<seq<string>>, deleteDuplicate: bool)
    ensures Distinct(GroupKeys(files, deleteDuplicate))
    ensures forall key :: key in GroupKeys(files, deleteDuplicate) <==>
      exists i :: 0 <= i < |files| && |files[i]| > 0 && HeaderKey(files[i][0], deleteDuplicate, i) == key
    ensures KeepsFirstOrder(FileKeys(files, deleteDuplicate), GroupKeys(files, deleteDuplicate))
  {
    DedupKeepsFirstOccurrenceOrder(FileKeys(files, deleteDuplicate));
    forall key | key in GroupKeys(files, deleteDuplicate)
      ensures exists i :: 0 <= i < |files| && |files[i]| > 0 && HeaderKey(files[i][0], deleteDuplicate, i) == key
    {
      FileKeySource(files, deleteDuplicate, key);
    }
    forall i | 0 <= i < |files| && |files[i]| > 0
      ensures HeaderKey(files[i][0], deleteDuplicate, i) in GroupKeys(files, deleteDuplicate)
    {
      FileKeyOf(files, deleteDuplicate, i);
    }
  }

  // ---------------------------------------------------------------------
  // Which rows a group collects

  /** The rows of a group are exactly the body rows of the files whose key
      is that group's key. */
  lemma {:induction false} RowsOfMembers(files: seq<seq<string>>, deleteDuplicate: bool, key: string, x: string)
    ensures x in RowsOf(files, deleteDuplicate, key) <==>
      exists i, j :: 0 <= i < |files| && 1 <= j < |files[i]|
        && HeaderKey(files[i][0], deleteDuplicate, i) == key && files[i][j] == x
  {
    if |files| > 0 {
      var n := |files| - 1;
      var before := files[..n];
      RowsOfMembers(before, deleteDuplicate, key, x);
      assert forall i :: 0 <= i < n ==> before[i] == files[i];
      if x in RowsOf(files, deleteDuplicate, key) && x !in RowsOf(before, deleteDuplicate, key) {
        var j :| 0 <= j < |files[n][1..]| && files[n][1..][j] == x;
        assert files[n][j + 1] == x;
      }
    }
  }

  /** Rows of earlier files come first: the rows collected from the first
      `i` files are a prefix of the rows collected from all of them. */
  lemma {:induction false} RowsOfPrefix(files: seq<seq<string>>, deleteDuplicate: bool, key: string, i: nat)
    requires i <= |files|
    ensures var early := RowsOf(files[..i], deleteDuplicate, key);
      |early| <= |RowsOf(files, deleteDuplicate, key)|
      && early == RowsOf(files, deleteDuplicate, key)[..|early|]
    decreases |files|
  {
    if i < |files| {
      var n := |files| - 1;
      RowsOfPrefix(files[..n], deleteDuplicate, key, i);
      assert files[..n][..i] == files[..i];
    } else {
      assert files[..i] == files;
    }
  }

  // ---------------------------------------------------------------------
  // Deleting duplicates: files with equal headers share a group

  /** With duplicates deleted, the groups are the distinct headers, and two
      files with the same header feed their body rows into the same group. */
  lemma DedupeMergesEqualHeaders(files: seq<seq<string>>, i: nat, j: nat)
    requires i < |files| && |files[i]| > 0
    requires j < |files| && |files[j]| > 0
    requires files[i][0] == files[j][0]
    ensures var header := files[i][0];
      header in GroupKeys(files, true)
      && (forall r :: r in files[i][1..] ==> r in RowsOf(files, true, header))
      && (forall r :: r in files[j][1..] ==> r in RowsOf(files, true, header))
  {
    var header := files[i][0];
    FileKeyOf(files, true, i);
    forall r | r in files[i][1..] ensures r in RowsOf(files, true, header) {
      var k :| 0 <= k < |files[i][1..]| && files[i][1..][k] == r;
      assert files[i][k + 1] == r;
      RowsOfMembers(files, true, header, r);
    }
    forall r | r in files[j][1..] ensures r in RowsOf(files, true, header) {
      var k :| 0 <= k < |files[j][1..]| && files[j][1..][k] == r;
      assert files[j][k + 1] == r;
      RowsOfMembers(files, true, header, r);
    }
  }

  // ---------------------------------------------------------------------
  // Keeping duplicates: every file is a group of its own

  /** Keys tagged with different file indexes differ, whatever the headers:
      the tag ends in "__file" followed by digits only. */
  lemma KeyInjective(h1: string, h2: string, i: nat, j: nat)
    requires HeaderKey(h1, false, i) == HeaderKey(h2, false, j)
    ensures i == j && h1 == h2
  {
    var s := HeaderKey(h1, false, i);
    var di, dj := Decimal(i), Decimal(j);
    assert s == (h1 + FileMarker) + di && s == (h2 + FileMarker) + dj;
    DigitRunAppend(h1 + FileMarker, di);
    DigitRunAppend(h2 + FileMarker, dj);
    assert di == s[|s| - |di|..] == dj;
    DecimalInjective(i, j);
    assert h1 == s[..|h1|] == h2;
  }

  /** Without deleting duplicates no key is produced twice, so the groups are
      the files' keys one for one. */
  lemma {:induction false} NoDedupeKeysDistinct(files: seq<seq<string>>)
    ensures Distinct(FileKeys(files, false))
    ensures GroupKeys(files, false) == FileKeys(files, false)
  {
    if |files| > 0 {
      var n := |files| - 1;
      NoDedupeKeysDistinct(files[..n]);
      var fk := FileKeys(files[..n], false);
      if |files[n]| > 0 {
        var key := HeaderKey(files[n][0], false, n);
        if key in fk {
          FileKeySource(files[..n], false, key);
          var i :| 0 <= i < n && |files[..n][i]| > 0 && HeaderKey(files[..n][i][0], false, i) == key;
          KeyInjective(files[..n][i][0], files[n][0], i, n);
        }
        assert FileKeys(files, false) == fk + [key];
      }
    }
    DedupOfDistinct(FileKeys(files, false));
  }

  /** The number of files with at least one non-blank line. */
  function Contributing(files: seq<seq<string>>): nat
  {
    if |files| == 0 then 0
    else Contributing(files[..|files| - 1]) + (if |files[|files| - 1]| > 0 then 1 else 0)
  }

  /** Without deleting duplicates there is one group per contributing file. */
  lemma NoDedupeGroupCount(files: seq<seq<string>>)
    ensures |GroupKeys(files, false)| == Contributing(files)
  {
    NoDedupeKeysDistinct(files);
    FileKeysCount(files, false);
  }

  lemma {:induction false} FileKeysCount(files: seq<seq<string>>, deleteDuplicate: bool)
    ensures |FileKeys(files, deleteDuplicate)| == Contributing(files)
  {
    if |files| > 0 {
      FileKeysCount(files[..|files| - 1], deleteDuplicate);
    }
  }

  /** Without deleting duplicates a file's group holds exactly its own body
      rows, even when another file has the same header. */
  lemma {:induction false} NoDedupeOwnRows(files: seq<seq<string>>, i: nat)
    requires i < |files| && |files[i]| > 0
    ensures RowsOf(files, false, HeaderKey(files[i][0], false, i)) == files[i][1..]
  {
    var key := HeaderKey(files[i][0], false, i);
    var n := |files| - 1;
    RowsOfAbsentBefore(files[..i], key, i);
    if i < n {
      NoDedupeOwnRows(files[..n], i);
      assert files[..n][i] == files[i];
      if |files[n]| > 0 && HeaderKey(files[n][0], false, n) == key {
        KeyInjective(files[n][0], files[i][0], n, i);
      }
    } else {
      assert files[..n] == files[..i];
    }
  }

  /** Files before index `i` never produce a key tagged with `i`. */
  lemma {:induction false} RowsOfAbsentBefore(files: seq<seq<string>>, key: string, i: nat)
    requires |files| <= i
    requires exists h :: key == HeaderKey(h, false, i)
    ensures RowsOf(files, false, key) == []
  {
    if |files| > 0 {
      var n := |files| - 1;
      RowsOfAbsentBefore(files[..n], key, i);
      if |files[n]| > 0 && HeaderKey(files[n][0], false, n) == key {
        var h :| key == HeaderKey(h, false, i);
        KeyInjective(files[n][0], h, n, i);
      }
    }
  }

  // ---------------------------------------------------------------------
  // The printed header of a group

  /** `split("__file")[0]` gives back a header that does not itself contain
      "__file", in both modes. */
  lemma CleanHeaderRecovered(h: string, deleteDuplicate: bool, i: nat)
    requires !Contains(h, FileMarker)
    ensures HeaderOfKey(HeaderKey(h, deleteDuplicate, i)) == h
  {
    if deleteDuplicate {
      IndexOfFirst(h, FileMarker);
    } else {
      FirstMarkerEndsHeader(h, Decimal(i));
    }
  }

  /** Whatever follows the first "__file" of a key is dropped from the
      printed header. */
  lemma FirstMarkerEndsHeader(h: string, tail: string)
    requires !Contains(h, FileMarker)
    ensures HeaderOfKey(h + FileMarker + tail) == h
  {
    var s := h + FileMarker + tail;
    assert s[|h|..|h| + |FileMarker|] == FileMarker;
    assert Occurs(s, FileMarker, |h|);
    forall p | 0 <= p < |h| ensures !Occurs(s, FileMarker, p) {
      NoMarkerBefore(h, tail, p);
    }
    IndexOfFirst(s, FileMarker);
    assert IndexOf(s, FileMarker) == |h|;
    assert s[..|h|] == h;
  }

  /** No occurrence of the marker starts inside a header free of it. */
  lemma NoMarkerBefore(h: string, tail: string, p: nat)
    requires !Contains(h, FileMarker) && p < |h|
    ensures !Occurs(h + FileMarker + tail, FileMarker, p)
  {
    var s := h + FileMarker + tail;
    if p + |FileMarker| <= |h| {
      assert s[p..p + |FileMarker|] == h[p..p + |FileMarker|];
      assert !Occurs(h, FileMarker, p);
    } else {
      assert FileMarker[0] == '_' && FileMarker[1] == '_' && FileMarker[2] == 'f';
      assert FileMarker[3] == 'i' && FileMarker[4] == 'l' && FileMarker[5] == 'e';
      assert s[p + 5] == FileMarker[p + 5 - |h|];
      assert s[p + 5] != 'e';
    }
  }

  /** A header containing "__file" is cut short: in both modes the header
      printed for "id__file" is "id". */
  lemma MarkerInHeaderTruncated(deleteDuplicate: bool)
    ensures HeaderOfKey(HeaderKey("id__file", deleteDuplicate, 0)) == "id"
  {
    var tail := if deleteDuplicate then "" else FileMarker + Decimal(0);
    assert HeaderKey("id__file", deleteDuplicate, 0) == "id" + FileMarker + tail;
    FirstMarkerEndsHeader("id", tail);
  }

  /** Every group's printed header comes from a file of that group; it is
      that file's first non-blank line whenever that line does not contain
      "__file". */
  lemma GroupHeader(files: seq<seq<string>>, deleteDuplicate: bool, g: nat)
    requires g < |Document(files, deleteDuplicate)|
    ensures exists i :: (0 <= i < |files| && |files[i]| > 0
      && GroupKeys(files, deleteDuplicate)[g] == HeaderKey(files[i][0], deleteDuplicate, i)
      && (!Contains(files[i][0], FileMarker) ==> Document(files, deleteDuplicate)[g].header == files[i][0]))
  {
    var key := GroupKeys(files, deleteDuplicate)[g];
    FileKeySource(files, deleteDuplicate, key);
    var i :| 0 <= i < |files| && |files[i]| > 0 && HeaderKey(files[i][0], deleteDuplicate, i) == key;
    if !Contains(files[i][0], FileMarker) {
      CleanHeaderRecovered(files[i][0], deleteDuplicate, i);
    }
  }

  // ---------------------------------------------------------------------
  // The rows a group prints

  /** With duplicates deleted a group prints its rows once each: no two
      printed rows are equal, every collected row is printed, and the
      printed rows keep the order of their first occurrences. */
  lemma DedupeRowsPrinted(files: seq<seq<string>>, g: nat)
    requires g < |Document(files, true)|
    ensures var printed := Document(files, true)[g].rows;
      var collected := RowsOf(files, true, GroupKeys(files, true)[g]);
      Distinct(printed)
      && (forall x :: x in printed <==> x in collected)
      && KeepsFirstOrder(collected, printed)
  {
    DedupKeepsFirstOccurrenceOrder(RowsOf(files, true, GroupKeys(files, true)[g]));
  }

  /** Without deleting duplicates each group is one file: it prints that
      file's body rows exactly as they are. */
  lemma NoDedupeRowsPrinted(files: seq<seq<string>>, g: nat)
    requires g < |Document(files, false)|
    ensures exists i :: (0 <= i < |files| && |files[i]| > 0
      && GroupKeys(files, false)[g] == HeaderKey(files[i][0], false, i)
      && Document(files, false)[g].rows == files[i][1..])
  {
    var key := GroupKeys(files, false)[g];
    FileKeySource(files, false, key);
    var i :| 0 <= i < |files| && |files[i]| > 0 && HeaderKey(files[i][0], false, i) == key;
    NoDedupeOwnRows(files, i);
  }

  // ---------------------------------------------------------------------
  // The combined text

  /** One more file adds its lines at the end of the line lists. */
  lemma FileLinesAppend(contents: seq<string>, t: string)
    ensures FileLines(contents + [t]) == FileLines(contents) + [NonBlankLines(t)]
  {
    assert (contents + [t])[|contents|] == t;
    forall i | 0 <= i < |contents| ensures (contents + [t])[i] == contents[i] {
    }
  }

  /** A file without lines leaves every group as it is. */
  lemma DocumentSkipsBlank(files: seq<seq<string>>, deleteDuplicate: bool)
    ensures Document(files + [[]], deleteDuplicate) == Document(files, deleteDuplicate)
  {
    GroupKeysStep(files, [], deleteDuplicate);
    var keys := GroupKeys(files, deleteDuplicate);
    assert GroupKeys(files + [[]], deleteDuplicate) == keys;
    var after, before := Document(files + [[]], deleteDuplicate), Document(files, deleteDuplicate);
    assert |after| == |keys| == |before|;
    forall g | 0 <= g < |keys| ensures after[g] == before[g] {
      RowsOfStep(files, [], deleteDuplicate, keys[g]);
      assert RowsOf(files + [[]], deleteDuplicate, keys[g]) == RowsOf(files, deleteDuplicate, keys[g]);
    }
  }

  /** A file with no non-blank line changes nothing. */
  lemma BlankFileAddsNothing(contents: seq<string>, t: string, deleteDuplicate: bool)
    requires NonBlankLines(t) == []
    ensures Combine(contents + [t], deleteDuplicate) == Combine(contents, deleteDuplicate)
  {
    FileLinesAppend(contents, t);
    DocumentSkipsBlank(FileLines(contents), deleteDuplicate);
  }

  lemma {:induction false} FileKeysOfBlank(files: seq<seq<string>>, deleteDuplicate: bool)
    requires forall i :: 0 <= i < |files| ==> files[i] == []
    ensures FileKeys(files, deleteDuplicate) == []
  {
    if |files| > 0 {
      FileKeysOfBlank(files[..|files| - 1], deleteDuplicate);
    }
  }

  /** No files, or only blank ones, give the empty text. */
  lemma CombineOfBlank(contents: seq<string>, deleteDuplicate: bool)
    requires forall i :: 0 <= i < |contents| ==> NonBlankLines(contents[i]) == []
    ensures Combine(contents, deleteDuplicate) == ""
  {
    FileKeysOfBlank(FileLines(contents), deleteDuplicate);
    assert Document(FileLines(contents), deleteDuplicate) == [];
  }

  /** A file holding only a header line still forms a group, which prints
      the bare header. */
  lemma HeaderOnlyFile(t: string, deleteDuplicate: bool)
    requires |NonBlankLines(t)| == 1 && !Contains(NonBlankLines(t)[0], FileMarker)
    ensures Combine([t], deleteDuplicate) == NonBlankLines(t)[0]
  {
    var h := NonBlankLines(t)[0];
    assert NonBlankLines(t) == [h];
    assert FileLines([t]) == [[h]];
    HeaderOnlyDocument(h, deleteDuplicate);
    var doc := Document([[h]], deleteDuplicate);
    assert BlockTexts(doc) == [h];
  }

  /** The document of one header-only file is one block with no rows. */
  lemma HeaderOnlyDocument(h: string, deleteDuplicate: bool)
    requires !Contains(h, FileMarker)
    ensures Document([[h]], deleteDuplicate) == [Block(h, [])]
  {
    var files := [[h]];
    var key := HeaderKey(h, deleteDuplicate, 0);
    assert files[..0] == [];
    assert FileKeys(files, deleteDuplicate) == [key];
    assert Dedup([key]) == [key] by {
      assert [key][..0] == [];
    }
    assert RowsOf(files, deleteDuplicate, key) == [];
    assert EmittedRows([], deleteDuplicate) == [];
    CleanHeaderRecovered(h, deleteDuplicate, 0);
  }

  /** A printed row is a kept line: its trim is not empty and it holds
      neither '\n' nor '\r'. */
  lemma PrintedRowClean(contents: seq<string>, deleteDuplicate: bool, g: nat, x: string)
    requires g < |Document(FileLines(contents), deleteDuplicate)|
    requires x in Document(FileLines(contents), deleteDuplicate)[g].rows
    ensures Trim(x) != "" && '\n' !in x && '\r' !in x
  {
    var files := FileLines(contents);
    var key := GroupKeys(files, deleteDuplicate)[g];
    assert x in RowsOf(files, deleteDuplicate, key);
    RowsOfMembers(files, deleteDuplicate, key, x);
    var i, j :| 0 <= i < |files| && 1 <= j < |files[i]|
      && HeaderKey(files[i][0], deleteDuplicate, i) == key && files[i][j] == x;
    assert x in NonBlankLines(contents[i]);
    NonBlankLinesClean(contents[i], x);
    TrimEmptyIffBlank(x);
  }

  // ---------------------------------------------------------------------
  // Reading the combined text back line by line

  /** The lines of a block: its header, then its rows. */
  function BlockLines(b: Block): seq<string>
  {
    [b.header] + b.rows
  }

  /** The lines of a document: the blocks' lines, with one empty line
      between consecutive blocks. */
  function OutputLines(doc: seq<Block>): seq<string>
  {
    if |doc| == 0 then []
    else if |doc| == 1 then BlockLines(doc[0])
    else BlockLines(doc[0]) + [""] + OutputLines(doc[1..])
  }

  /** Joining the blocks with "\n\n" is joining their lines with "\n" and an
      empty line between blocks. */
  lemma {:induction false} SerialiseAsLines(doc: seq<Block>)
    requires |doc| > 0
    ensures |OutputLines(doc)| > 0
    ensures Serialise(doc) == Join(OutputLines(doc), "\n")
  {
    if |doc| > 1 {
      var rest := doc[1..];
      SerialiseAsLines(rest);
      var first, restText := BlockText(doc[0]), Serialise(rest);
      assert BlockTexts(doc) == [first] + BlockTexts(rest);
      JoinCons(first, BlockTexts(rest), "\n\n");
      JoinAroundEmpty(BlockLines(doc[0]), OutputLines(rest), "\n");
      assert first + "\n\n" + restText == first + "\n" + "\n" + restText;
    }
  }

  /** An empty piece between two lists doubles the separator there. */
  lemma JoinAroundEmpty(a: seq<string>, b: seq<string>, sep: string)
    requires |a| > 0 && |b| > 0
    ensures Join(a + [""] + b, sep) == Join(a, sep) + sep + sep + Join(b, sep)
  {
    assert a + [""] + b == a + ([""] + b);
    JoinAppend(a, [""] + b, sep);
    JoinCons("", b, sep);
    var ja, jb := Join(a, sep), Join(b, sep);
    assert ja + sep + ("" + sep + jb) == ja + sep + sep + jb;
  }

  /** No header and no row of the document holds a '\n'. */
  ghost predicate NoLineBreaks(doc: seq<Block>)
  {
    forall g :: 0 <= g < |doc| ==>
      '\n' !in doc[g].header && forall x :: x in doc[g].rows ==> '\n' !in x
  }

  lemma {:induction false} OutputLinesClean(doc: seq<Block>)
    requires NoLineBreaks(doc)
    ensures forall k :: 0 <= k < |OutputLines(doc)| ==> '\n' !in OutputLines(doc)[k]
  {
    if |doc| > 1 {
      OutputLinesClean(doc[1..]);
      var first := BlockLines(doc[0]);
      var lines := OutputLines(doc);
      forall k | 0 <= k < |lines| ensures '\n' !in lines[k] {
        if k < |first| {
          assert lines[k] == first[k];
          if k > 0 {
            assert first[k] in doc[0].rows;
          }
        } else if k > |first| {
          assert lines[k] == OutputLines(doc[1..])[k - |first| - 1];
        }
      }
    } else if |doc| == 1 {
      var first := BlockLines(doc[0]);
      forall k | 0 < k < |first| ensures '\n' !in first[k] {
        assert first[k] in doc[0].rows;
      }
    }
  }

  /** The printed headers and rows of the combined document hold no
      '\n'. */
  lemma DocumentNoLineBreaks(contents: seq<string>, deleteDuplicate: bool)
    ensures NoLineBreaks(Document(FileLines(contents), deleteDuplicate))
  {
    var files := FileLines(contents);
    var doc := Document(files, deleteDuplicate);
    forall g | 0 <= g < |doc|
      ensures '\n' !in doc[g].header && forall x :: x in doc[g].rows ==> '\n' !in x
    {
      forall x | x in doc[g].rows ensures '\n' !in x {
        PrintedRowClean(contents, deleteDuplicate, g, x);
      }
      HeaderNoLineBreak(contents, deleteDuplicate, g);
    }
  }

  lemma HeaderNoLineBreak(contents: seq<string>, deleteDuplicate: bool, g: nat)
    requires g < |Document(FileLines(contents), deleteDuplicate)|
    ensures '\n' !in Document(FileLines(contents), deleteDuplicate)[g].header
  {
    var files := FileLines(contents);
    var key := GroupKeys(files, deleteDuplicate)[g];
    FileKeySource(files, deleteDuplicate, key);
    var i :| 0 <= i < |files| && |files[i]| > 0 && HeaderKey(files[i][0], deleteDuplicate, i) == key;
    var h := files[i][0];
    assert h in NonBlankLines(contents[i]);
    NonBlankLinesClean(contents[i], h);
    HeaderOfKeyNoLineBreak(h, deleteDuplicate, i);
  }

  /** A header without '\n' is printed without '\n'. */
  lemma HeaderOfKeyNoLineBreak(h: string, deleteDuplicate: bool, i: nat)
    requires '\n' !in h
    ensures '\n' !in HeaderOfKey(HeaderKey(h, deleteDuplicate, i))
  {
    var key := HeaderKey(h, deleteDuplicate, i);
    assert '\n' !in key by {
      assert FileMarker[0] == '_' && FileMarker[1] == '_' && FileMarker[2] == 'f';
      assert FileMarker[3] == 'i' && FileMarker[4] == 'l' && FileMarker[5] == 'e';
      assert '\n' !in Decimal(i);
    }
    SplitPieces(key, FileMarker);
  }

  /** Reading the combined text back line by line gives each block's header
      and rows, with an empty line between blocks. */
  lemma CombineReadsBack(contents: seq<string>, deleteDuplicate: bool)
    requires |Document(FileLines(contents), deleteDuplicate)| > 0
    ensures Split(Combine(contents, deleteDuplicate), "\n")
      == OutputLines(Document(FileLines(contents), deleteDuplicate))
  {
    var doc := Document(FileLines(contents), deleteDuplicate);
    SerialiseAsLines(doc);
    DocumentNoLineBreaks(contents, deleteDuplicate);
    OutputLinesClean(doc);
    JoinThenSplit(OutputLines(doc), '\n');
  }
}
