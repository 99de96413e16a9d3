/** The upload step: from the entries of the uploaded ZIP archive, the texts
    of those named `*.log` or `*.txt` are collected in archive order and
    joined with line breaks, and that one text is what `parse_iis_log`
    parses. The archive itself and the decoding of its bytes are outside the
    model: an entry is its name and its already decoded text. */
module Upload {
  import opened Results
  import opened PyStr
  import opened IisLog
  import opened IisLogFacts

  datatype ArchiveEntry = ArchiveEntry(name: string, text: string)

  /** The names whose text is read. */
  predicate IsLogName(name: string) {
    EndsWith(name, ".log") || EndsWith(name, ".txt")
  }

  /** The texts of the log entries, in archive order. */
  function SelectedTexts(entries: seq<ArchiveEntry>): (texts: seq<string>)
    ensures |texts| <= |entries|
    ensures forall t :: t in texts ==> exists e :: e in entries && IsLogName(e.name) && e.text == t
    decreases |entries|
  {
    if entries == [] then []
    else
      var last := entries[|entries| - 1];
      var earlier := SelectedTexts(entries[..|entries| - 1]);
      assert forall e :: e in entries[..|entries| - 1] ==> e in entries;
      earlier + (if IsLogName(last.name) then [last.text] else [])
  }

  /** The text handed to the parser: its lines are the lines of each log
      entry, file after file. */
  function UploadText(entries: seq<ArchiveEntry>): (content: string)
    ensures SelectedTexts(entries) != [] ==> SplitOn(content, '\n') == FileLines(SelectedTexts(entries))
  {
    var texts := SelectedTexts(entries);
    if texts == [] then ""
    else
      SplitJoinedTexts(texts);
      JoinWith(texts, "\n")
  }

  /** The archive loop: the text of each log entry is appended to a list,
      and the list is joined with line breaks. */
  method CollectText(entries: seq<ArchiveEntry>) returns (content: string)
    ensures content == UploadText(entries)
  {
    var allText: seq<string> := [];
    for i := 0 to |entries|
      invariant allText == SelectedTexts(entries[..i])
    {
      assert entries[..i + 1][..i] == entries[..i];
      if IsLogName(entries[i].name) {
        allText := allText + [entries[i].text];
      }
    }
    assert entries[..|entries|] == entries;
    content := JoinWith(allText, "\n");
  }

  /** What the upload is parsed into; an archive without log entries gives
      the empty text, which has no header. */
  function ParseUpload(entries: seq<ArchiveEntry>): (r: Result<seq<Record>, ParseError>)
    ensures SelectedTexts(entries) == [] ==> r == Err(MissingFieldsHeader)
  {
    ParseIisLog(UploadText(entries))
  }

  /** The name test is `endswith`, case and all. */
  lemma LogNameExamples()
    ensures IsLogName("u_ex240101.log") && IsLogName("notes.txt")
    ensures !IsLogName("u_ex240101.LOG") && !IsLogName("u_ex240101.log.gz") && !IsLogName("log")
  {
  }

  // ------------------------------------------------------------ selection

  lemma {:induction false} SelectedTextsConcat(a: seq<ArchiveEntry>, b: seq<ArchiveEntry>)
    ensures SelectedTexts(a + b) == SelectedTexts(a) + SelectedTexts(b)
    decreases |b|
  {
    if b == [] {
      assert a + b == a;
    } else {
      var init := b[..|b| - 1];
      assert (a + b)[..|a + b| - 1] == a + init;
      SelectedTextsConcat(a, init);
    }
  }

  /** An entry adds its text, at its own place, exactly when its name ends
      in `.log` or `.txt`; any other entry is ignored. */
  lemma EntryContribution(before: seq<ArchiveEntry>, e: ArchiveEntry, after: seq<ArchiveEntry>)
    ensures SelectedTexts(before + [e] + after)
         == SelectedTexts(before) + (if IsLogName(e.name) then [e.text] else []) + SelectedTexts(after)
  {
    SelectedTextsConcat(before + [e], after);
    SelectedTextsConcat(before, [e]);
    assert [e][..0] == [];
  }

  // ------------------------------------------------------------ one log

  /** The lines of each text, file after file. */
  function FileLines(texts: seq<string>): seq<string> {
    if texts == [] then [] else SplitOn(texts[0], '\n') + FileLines(texts[1..])
  }

  /** The data rows of each text on its own, file after file. */
  function FileRows(texts: seq<string>): seq<seq<string>> {
    if texts == [] then [] else TableRows(SplitOn(texts[0], '\n')) + FileRows(texts[1..])
  }

  /** The texts with trailing whitespace trimmed from the last one. */
  function TrimLast(texts: seq<string>): (r: seq<string>)
    requires |texts| >= 1
    ensures |r| == |texts| && r[..|r| - 1] == texts[..|texts| - 1]
  {
    texts[..|texts| - 1] + [TrimRight(texts[|texts| - 1])]
  }

  lemma {:induction false} SplitJoinedTexts(texts: seq<string>)
    requires |texts| >= 1
    ensures SplitOn(JoinWith(texts, "\n"), '\n') == FileLines(texts)
    decreases |texts|
  {
    if |texts| == 1 {
      assert FileLines(texts[1..]) == [];
    } else {
      SplitOnConcat(texts[0], JoinWith(texts[1..], "\n"), '\n');
      SplitJoinedTexts(texts[1..]);
    }
  }

  lemma {:induction false} RowsOfFileLines(texts: seq<string>)
    ensures TableRows(FileLines(texts)) == FileRows(texts)
    decreases |texts|
  {
    if texts != [] {
      TableRowsConcat(SplitOn(texts[0], '\n'), FileLines(texts[1..]));
      RowsOfFileLines(texts[1..]);
    }
  }

  /** Trimming the joined text trims the end of the last text only. */
  lemma StripJoinedTexts(texts: seq<string>)
    requires |texts| >= 1 && texts[0] != [] && !IsSpace(texts[0][0])
    requires TrimRight(texts[|texts| - 1]) != []
    ensures Strip(JoinWith(texts, "\n")) == JoinWith(TrimLast(texts), "\n")
  {
    var n := |texts|;
    var init, last := texts[..n - 1], texts[n - 1];
    assert texts == init + [last];
    assert TrimLast(texts) == init + [TrimRight(last)];
    var all := JoinWith(texts, "\n");
    JoinWithFirst(texts, "\n");
    StripIsTrimRight(all);
    if n > 1 {
      JoinWithAppend(init, [last], "\n");
      assert all == (JoinWith(init, "\n") + "\n") + last;
      TrimRightConcat(JoinWith(init, "\n") + "\n", last);
      JoinWithAppend(init, [TrimRight(last)], "\n");
    }
  }

  /** The lines of the trimmed joined text are the lines of each trimmed
      text, file after file. */
  lemma JoinedLines(texts: seq<string>)
    requires |texts| >= 1 && texts[0] != [] && !IsSpace(texts[0][0])
    requires TrimRight(texts[|texts| - 1]) != []
    ensures var t := TrimLast(texts);
            Lines(JoinWith(texts, "\n")) == SplitOn(t[0], '\n') + FileLines(t[1..])
  {
    StripJoinedTexts(texts);
    var t := TrimLast(texts);
    SplitJoinedTexts(t);
  }

  /** Lines appended after a block that holds a header do not move it. */
  lemma {:induction false} FindHeaderPrefix(lines: seq<string>, rest: seq<string>)
    requires FindHeader(lines).Some?
    ensures FindHeader(lines + rest) == FindHeader(lines)
    decreases |lines|
  {
    assert (lines + rest)[0] == lines[0];
    if !StartsWith(lines[0], FieldsDirective) {
      assert (lines + rest)[1..] == lines[1..] + rest;
      FindHeaderPrefix(lines[1..], rest);
    }
  }

  /** Lines appended after a block that holds a header are read under
      that block's first header. */
  lemma HeaderBlockGoverns(lines: seq<string>, rest: seq<string>)
    requires FindHeader(lines).Some?
    ensures ParseLines(lines + rest)
         == ParseTable(HeaderFields(lines[FindHeader(lines).value]), TableRows(lines) + TableRows(rest))
  {
    var i := FindHeader(lines).value;
    FindHeaderPrefix(lines, rest);
    assert (lines + rest)[i] == lines[i];
    TableRowsConcat(lines, rest);
  }

  /** Several texts joined with line breaks parse as one log whose header is
      the first `#Fields:` line of the first text. */
  lemma JoinedTextsParse(texts: seq<string>)
    requires |texts| >= 1 && texts[0] != [] && !IsSpace(texts[0][0])
    requires TrimRight(texts[|texts| - 1]) != []
    requires FindHeader(SplitOn(TrimLast(texts)[0], '\n')).Some?
    ensures var t := TrimLast(texts);
            var first := SplitOn(t[0], '\n');
            ParseIisLog(JoinWith(texts, "\n"))
              == ParseTable(HeaderFields(first[FindHeader(first).value]), FileRows(t))
  {
    var t := TrimLast(texts);
    var first, rest := SplitOn(t[0], '\n'), FileLines(t[1..]);
    JoinedLines(texts);
    assert ParseIisLog(JoinWith(texts, "\n")) == ParseLines(first + rest);
    HeaderBlockGoverns(first, rest);
    RowsOfFileLines(t[1..]);
    assert FileRows(t) == TableRows(first) + FileRows(t[1..]);
  }

  /** The archive is parsed as one log, not file by file: the first
      `#Fields:` line of the first log entry names the columns of the data
      lines of EVERY log entry, and the rows come file after file, in
      archive order. (The last text loses its trailing whitespace, as the
      whole text is trimmed.) */
  lemma UploadParsedAsOneLog(entries: seq<ArchiveEntry>)
    requires var texts := SelectedTexts(entries);
             |texts| >= 1 && texts[0] != [] && !IsSpace(texts[0][0])
             && TrimRight(texts[|texts| - 1]) != []
    requires FindHeader(SplitOn(TrimLast(SelectedTexts(entries))[0], '\n')).Some?
    ensures var texts := TrimLast(SelectedTexts(entries));
            var first := SplitOn(texts[0], '\n');
            ParseUpload(entries)
              == ParseTable(HeaderFields(first[FindHeader(first).value]), FileRows(texts))
  {
    JoinedTextsParse(SelectedTexts(entries));
  }

  lemma SelectedOfTwo(a: ArchiveEntry, b: ArchiveEntry)
    requires IsLogName(a.name) && IsLogName(b.name)
    ensures SelectedTexts([a, b]) == [a.text, b.text]
  {
    assert [a, b][..1] == [a];
    assert [a][..0] == [];
  }

  lemma FileRowsOfTwo(x: string, y: string)
    ensures FileRows([x, y]) == TableRows(SplitOn(x, '\n')) + TableRows(SplitOn(y, '\n'))
  {
    assert [x, y][1..] == [y];
    assert [y][1..] == [];
    assert FileRows([y]) == TableRows(SplitOn(y, '\n')) + FileRows([]);
    assert TableRows(SplitOn(y, '\n')) + [] == TableRows(SplitOn(y, '\n'));
  }

  lemma TwoTextsInOrder(x: string, y: string)
    requires x != [] && !IsSpace(x[0]) && TrimRight(y) != []
    requires FindHeader(SplitOn(x, '\n')).Some?
    ensures var first := SplitOn(x, '\n');
            ParseIisLog(JoinWith([x, y], "\n"))
              == ParseTable(HeaderFields(first[FindHeader(first).value]),
                            TableRows(first) + TableRows(SplitOn(TrimRight(y), '\n')))
  {
    assert TrimLast([x, y]) == [x, TrimRight(y)];
    JoinedTextsParse([x, y]);
    FileRowsOfTwo(x, TrimRight(y));
  }

  /** Two log files: the records of the first file come first, then those
      of the second, which are bound to the FIRST file's column names. */
  lemma TwoFilesInOrder(a: ArchiveEntry, b: ArchiveEntry)
    requires IsLogName(a.name) && IsLogName(b.name)
    requires a.text != [] && !IsSpace(a.text[0]) && TrimRight(b.text) != []
    requires FindHeader(SplitOn(a.text, '\n')).Some?
    requires ParseUpload([a, b]).Ok?
    ensures var first := SplitOn(a.text, '\n');
            var fields := HeaderFields(first[FindHeader(first).value]);
            var rowsA, rowsB := TableRows(first), TableRows(SplitOn(TrimRight(b.text), '\n'));
            && ParseTable(fields, rowsA).Ok? && ParseTable(fields, rowsB).Ok?
            && ParseUpload([a, b]).value == ParseTable(fields, rowsA).value + ParseTable(fields, rowsB).value
  {
    var first := SplitOn(a.text, '\n');
    var fields := HeaderFields(first[FindHeader(first).value]);
    SelectedOfTwo(a, b);
    TwoTextsInOrder(a.text, b.text);
    ParseTableConcat(fields, TableRows(first), TableRows(SplitOn(TrimRight(b.text), '\n')));
  }
}
