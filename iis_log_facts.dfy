/** Properties of `parse_iis_log`: which header governs, which lines become
    records, how a record's columns relate to its tokens, what the account
    is, and that binding by name makes the order of the columns irrelevant. */
module IisLogFacts {
  import opened Results
  import opened PyStr
  import opened IisLog

  // ------------------------------------------------------------ Account

  lemma {:induction false} SearchSkipsNonAt(s: string, from: nat, e: nat)
    requires from <= e <= |s|
    requires forall j :: from <= j < e ==> s[j] != '@'
    ensures AccountSearch(s, from) == AccountSearch(s, e)
    decreases e - from
  {
    if from < e {
      SearchSkipsNonAt(s, from + 1, e);
    }
  }

  /** The account is what follows the FIRST `@` of the request id, provided
      at least one character follows it; otherwise there is none. It is
      never empty and is always a suffix of the request id. */
  lemma AccountAfterFirstAt(s: string)
    requires '\n' !in s
    ensures Account(s).Some? <==> '@' in s && IndexOf(s, '@') < |s| - 1
    ensures '@' in s && IndexOf(s, '@') < |s| - 1 ==> Account(s) == Some(s[IndexOf(s, '@') + 1..])
    ensures Account(s).Some? ==> Account(s).value != [] && EndsWith(s, Account(s).value)
  {
    var e := if '@' in s then IndexOf(s, '@') else |s|;
    forall j | 0 <= j < e ensures s[j] != '@' {
      assert s[..e][j] == s[j];
    }
    SearchSkipsNonAt(s, 0, e);
    if e < |s| {
      forall j | e < j < |s| ensures s[j] != '\n' {
        assert s[j] in s;
      }
      if e + 1 == |s| {
        assert AccountSearch(s, e + 1) == None;
      }
    }
  }

  /** A request id of the shape `<prefix>@<account>`, with no `@` in the
      prefix, yields `<account>`, whatever `@` it contains. */
  lemma AccountOfComposite(prefix: string, account: string)
    requires '@' !in prefix && account != []
    requires '\n' !in prefix && '\n' !in account
    ensures Account(prefix + "@" + account) == Some(account)
  {
    var s := prefix + "@" + account;
    assert s[|prefix|] == '@';
    assert IndexOf(s, '@') == |prefix|;
    AccountAfterFirstAt(s);
    assert s[|prefix| + 1..] == account;
  }

  /** A later `@` stays in the account: `x@a@b` gives `a@b`. */
  lemma AccountKeepsLaterAt()
    ensures Account("x@a@b") == Some("a@b")
  {
    AccountOfComposite("x", "a@b");
    assert "x" + "@" + "a@b" == "x@a@b";
  }

  /** A request id without `@` has no account. */
  lemma AccountWithoutAt(s: string)
    requires '@' !in s
    ensures Account(s) == None
  {
    forall j | 0 <= j < |s| ensures s[j] != '@' {
      assert s[j] in s;
    }
    SearchSkipsNonAt(s, 0, |s|);
  }

  /** A request id whose only `@` is its last character has no account. */
  lemma AccountOfTrailingAt(prefix: string)
    requires '@' !in prefix
    ensures Account(prefix + "@") == None
  {
    var s := prefix + "@";
    forall j | 0 <= j < |prefix| ensures s[j] != '@' {
      assert s[j] == prefix[j];
    }
    SearchSkipsNonAt(s, 0, |prefix|);
    assert !AccountMatchAt(s, |prefix|);
  }

  lemma AccountExamples()
    ensures Account("token-only") == None
    ensures Account("abc@") == None
  {
    AccountWithoutAt("token-only");
    AccountOfTrailingAt("abc");
    assert "abc" + "@" == "abc@";
  }

  /** No token of a log contains a line break, so the account lemmas above
      apply to every `_RequestID` token. */
  lemma TokensHaveNoLineBreak(text: string)
    ensures var rows := TableRows(Lines(text));
            forall k, j :: 0 <= k < |rows| && 0 <= j < |rows[k]| ==> '\n' !in rows[k][j]
  {
    TableRowsAvoid(Lines(text), '\n');
  }

  // ------------------------------------------------------------ header

  lemma FindHeaderAfter(before: seq<string>, header: string, after: seq<string>)
    requires forall j :: 0 <= j < |before| ==> !StartsWith(before[j], FieldsDirective)
    requires StartsWith(header, FieldsDirective)
    ensures FindHeader(before + [header] + after) == Some(|before|)
  {
    var lines := before + [header] + after;
    assert lines[|before|] == header;
    assert forall j :: 0 <= j < |before| ==> lines[j] == before[j];
  }

  lemma DirectiveRowsSkipped(before: seq<string>, header: string, after: seq<string>)
    requires StartsWith(header, FieldsDirective)
    ensures TableRows(before + [header] + after) == TableRows(before) + TableRows(after)
  {
    assert header[..1] == header[..|FieldsDirective|][..1] == "#";
    assert !IsDataLine(header);
    OneRowPerDataLine(before, header, after);
    assert TableRows(before) + [] + TableRows(after) == TableRows(before) + TableRows(after);
  }

  /** The first `#Fields:` line decides the columns: the lines after it,
      later `#Fields:` lines included, only contribute data rows. */
  lemma FirstHeaderGoverns(before: seq<string>, header: string, after: seq<string>)
    requires forall j :: 0 <= j < |before| ==> !StartsWith(before[j], FieldsDirective)
    requires StartsWith(header, FieldsDirective)
    ensures ParseLines(before + [header] + after)
         == ParseTable(HeaderFields(header), TableRows(before) + TableRows(after))
  {
    var lines := before + [header] + after;
    FindHeaderAfter(before, header, after);
    DirectiveRowsSkipped(before, header, after);
    assert ParseLines(lines) == ParseTable(HeaderFields(header), TableRows(lines));
  }

  lemma HeaderFirstGoverns(header: string, after: seq<string>)
    requires StartsWith(header, FieldsDirective)
    ensures ParseLines([header] + after) == ParseTable(HeaderFields(header), TableRows(after))
  {
    var none: seq<string> := [];
    assert none + [header] + after == [header] + after;
    FirstHeaderGoverns(none, header, after);
    assert TableRows(none) + TableRows(after) == TableRows(after);
  }

  /** A `#Fields:` directive written from a list of names reads back as that
      list. */
  lemma HeaderFieldsOfDirective(names: seq<string>)
    requires forall k :: 0 <= k < |names| ==> names[k] != [] && NoSpace(names[k])
    requires !Occurs(JoinWith(names, " "), FieldsPrefix)
    ensures HeaderFields(FieldsPrefix + JoinWith(names, " ")) == names
  {
    RemoveAllLeading(FieldsPrefix, JoinWith(names, " "));
    RemoveAllAbsent(JoinWith(names, " "), FieldsPrefix);
    WordsOfJoin(names);
  }

  /** A visible ASCII character is not whitespace. */
  lemma GraphicNotSpace(c: char)
    requires '!' <= c <= '~'
    ensures !IsSpace(c)
  {
  }

  /** A bare `#Fields:` line, without the space, is not cut: its one name
      is the line itself. */
  lemma HeaderFieldsOfBareDirective()
    ensures HeaderFields(FieldsDirective) == [FieldsDirective]
  {
    var line := FieldsDirective;
    assert !Occurs(line, FieldsPrefix) by {
      assert |line| < |FieldsPrefix|;
    }
    RemoveAllAbsent(line, FieldsPrefix);
    assert RemoveAll(line, FieldsPrefix) == line;
    forall i | 0 <= i < |line| ensures !IsSpace(line[i]) {
      GraphicNotSpace(line[i]);
    }
    WordsOfWord(line);
  }

  /** A `#Fields: ` line followed by whitespace only has no names. */
  lemma HeaderFieldsOfEmptyDirective(w: string)
    requires forall i :: 0 <= i < |w| ==> IsSpace(w[i])
    ensures HeaderFields(FieldsPrefix + w) == []
  {
    RemoveAllLeading(FieldsPrefix, w);
    assert !Occurs(w, FieldsPrefix) by {
      forall i: nat | i <= |w| ensures !OccursAt(w, FieldsPrefix, i) {
        if i + |FieldsPrefix| <= |w| {
          assert IsSpace(w[i]) && !IsSpace(FieldsPrefix[0]);
          assert w[i..i + |FieldsPrefix|][0] != FieldsPrefix[0];
        }
      }
    }
    RemoveAllAbsent(w, FieldsPrefix);
    WordsOfSpaces(w);
  }

  // ------------------------------------------------------------ records

  /** Each record is read from the tokens of its own row through the names
      of the header: `datetime` is the `date` token, a space and the `time`
      token; the next ten columns are the tokens under their own names,
      verbatim; `Account` comes from the `_RequestID` token. */
  lemma RecordColumns(fields: seq<string>, rows: seq<seq<string>>, k: nat)
    requires ParseTable(fields, rows).Ok? && k < |rows|
    ensures var rec := ParseTable(fields, rows).value[k];
            && (forall p, q ::
                  (0 <= p < |fields| && 0 <= q < |fields| && fields[p] == "date" && fields[q] == "time") ==>
                  Cells(rec)[0] == Some(rows[k][p] + " " + rows[k][q]))
            && (forall j, p ::
                  (1 <= j < |OutputColumns| - 1 && 0 <= p < |fields| && fields[p] == OutputColumns[j]) ==>
                  Cells(rec)[j] == Some(rows[k][p]))
            && (forall p :: 0 <= p < |fields| && fields[p] == "_RequestID" ==>
                  Cells(rec)[|OutputColumns| - 1] == Account(rows[k][p]))
  {
    var row := Bind(fields, rows[k]);
    assert ParseTable(fields, rows).value[k] == Project(row);
  }

  /** The records of consecutive groups of rows are the records of each
      group, in the same order; if the whole table parses, so does each
      group. */
  lemma ParseTableConcat(fields: seq<string>, a: seq<seq<string>>, b: seq<seq<string>>)
    requires ParseTable(fields, a + b).Ok?
    ensures ParseTable(fields, a).Ok? && ParseTable(fields, b).Ok?
    ensures ParseTable(fields, a + b).value == ParseTable(fields, a).value + ParseTable(fields, b).value
  {
    assert forall k :: 0 <= k < |a| ==> (a + b)[k] == a[k];
    assert forall k :: 0 <= k < |b| ==> (a + b)[|a| + k] == b[k];
    ParseTableValue(fields, a + b);
    ParseTableValue(fields, a);
    ParseTableValue(fields, b);
    ProjectRowsConcat(fields, a, b);
  }

  lemma ParseTableValue(fields: seq<string>, rows: seq<seq<string>>)
    requires Distinct(fields) && WellShaped(fields, rows) && HasRequired(fields)
    ensures ParseTable(fields, rows) == Ok(ProjectRows(fields, rows))
  {
  }

  lemma ProjectRowsConcat(fields: seq<string>, a: seq<seq<string>>, b: seq<seq<string>>)
    requires Distinct(fields) && WellShaped(fields, a + b) && HasRequired(fields)
    requires WellShaped(fields, a) && WellShaped(fields, b)
    ensures ProjectRows(fields, a + b) == ProjectRows(fields, a) + ProjectRows(fields, b)
  {
    var all, ra, rb := ProjectRows(fields, a + b), ProjectRows(fields, a), ProjectRows(fields, b);
    forall k | 0 <= k < |all| ensures all[k] == (ra + rb)[k] {
      if k < |a| {
        assert (a + b)[k] == a[k];
      } else {
        assert (a + b)[k] == b[k - |a|];
      }
    }
  }

  // ------------------------------------------------------------ column order

  /** `p` lists every position below `n` exactly once. */
  predicate IsPermutation(p: seq<nat>, n: nat) {
    && |p| == n
    && (forall k :: 0 <= k < n ==> p[k] < n)
    && (forall i, j :: 0 <= i < j < n ==> p[i] != p[j])
    && (forall i: nat :: i < n ==> i in p)
  }

  function Permute<T>(s: seq<T>, p: seq<nat>): (r: seq<T>)
    requires forall k :: 0 <= k < |p| ==> p[k] < |s|
    ensures |r| == |p|
    ensures forall k :: 0 <= k < |p| ==> r[k] == s[p[k]]
  {
    seq(|p|, k requires 0 <= k < |p| => s[p[k]])
  }

  function PermuteRows(rows: seq<seq<string>>, p: seq<nat>): (r: seq<seq<string>>)
    requires forall k, j :: 0 <= k < |rows| && 0 <= j < |p| ==> p[j] < |rows[k]|
    ensures |r| == |rows|
    ensures forall k :: 0 <= k < |rows| ==> r[k] == Permute(rows[k], p)
  {
    seq(|rows|, k requires 0 <= k < |rows| => Permute(rows[k], p))
  }

  lemma PermuteSameMembers<T>(s: seq<T>, p: seq<nat>)
    requires IsPermutation(p, |s|)
    ensures forall x :: x in Permute(s, p) <==> x in s
  {
    var r := Permute(s, p);
    forall x | x in s ensures x in r {
      var i :| 0 <= i < |s| && s[i] == x;
      assert i in p;
      var k :| 0 <= k < |p| && p[k] == i;
      assert r[k] == x;
    }
  }

  lemma PermuteDistinct(fields: seq<string>, p: seq<nat>)
    requires IsPermutation(p, |fields|)
    ensures Distinct(Permute(fields, p)) <==> Distinct(fields)
  {
    var r := Permute(fields, p);
    if Distinct(fields) {
      forall i, j | 0 <= i < j < |r| ensures r[i] != r[j] {
        assert p[i] != p[j];
      }
    }
    if Distinct(r) {
      forall i, j | 0 <= i < j < |fields| ensures fields[i] != fields[j] {
        assert i in p && j in p;
        var a :| 0 <= a < |p| && p[a] == i;
        var b :| 0 <= b < |p| && p[b] == j;
        assert r[a] == fields[i] && r[b] == fields[j];
      }
    }
  }

  lemma {:induction false} FirstMissingSameMembers(names: seq<string>, f: seq<string>, g: seq<string>)
    requires forall x :: x in f <==> x in g
    ensures FirstMissing(names, f) == FirstMissing(names, g)
    decreases |names|
  {
    if names != [] {
      FirstMissingSameMembers(names[1..], f, g);
    }
  }

  lemma BindPermuted(fields: seq<string>, tokens: seq<string>, p: seq<nat>)
    requires IsPermutation(p, |fields|) && Distinct(fields) && |tokens| == |fields|
    ensures Distinct(Permute(fields, p))
    ensures Bind(Permute(fields, p), Permute(tokens, p)) == Bind(fields, tokens)
  {
    var f', t' := Permute(fields, p), Permute(tokens, p);
    PermuteDistinct(fields, p);
    PermuteSameMembers(fields, p);
    var m', m := Bind(f', t'), Bind(fields, tokens);
    assert m'.Keys == m.Keys;
    forall x | x in m ensures m'[x] == m[x] {
      var k :| 0 <= k < |f'| && f'[k] == x;
      var i := p[k];
      assert m'[f'[k]] == t'[k] == tokens[i];
      assert fields[i] == x;
      assert m[fields[i]] == tokens[i];
    }
    MapsEqual(m', m);
  }

  lemma MapsEqual<K, V>(m1: map<K, V>, m2: map<K, V>)
    requires m1.Keys == m2.Keys
    requires forall x :: x in m2 ==> m1[x] == m2[x]
    ensures m1 == m2
  {
  }

  /** Columns are looked up by name: reordering the `#Fields:` names, and
      the tokens of every data line with them, gives the same outcome,
      records and errors alike. */
  lemma ColumnOrderIrrelevant(fields: seq<string>, rows: seq<seq<string>>, p: seq<nat>)
    requires IsPermutation(p, |fields|) && WellShaped(fields, rows)
    ensures ParseTable(Permute(fields, p), PermuteRows(rows, p)) == ParseTable(fields, rows)
  {
    var f', rows' := Permute(fields, p), PermuteRows(rows, p);
    PermuteDistinct(fields, p);
    PermuteSameMembers(fields, p);
    FirstMissingSameMembers(RequiredColumns, f', fields);
    assert WellShaped(f', rows');
    if Distinct(fields) && HasRequired(fields) {
      var a, b := ParseTable(f', rows').value, ParseTable(fields, rows).value;
      forall k | 0 <= k < |rows| ensures a[k] == b[k] {
        BindPermuted(fields, rows[k], p);
      }
      assert a == b;
    }
  }

  // ------------------------------------------------------------ round trip

  /** A token as IIS writes it: non-empty, without whitespace (an absent
      value is written `-`). */
  predicate IsToken(t: string) {
    t != [] && NoSpace(t)
  }

  /** Each row written as a line of space-separated tokens. */
  function RowLines(rows: seq<seq<string>>): (lines: seq<string>)
    ensures |lines| == |rows|
    ensures forall k :: 0 <= k < |rows| ==> lines[k] == JoinWith(rows[k], " ")
  {
    if rows == [] then [] else [JoinWith(rows[0], " ")] + RowLines(rows[1..])
  }

  /** The data lines of a log, each preceded by a line break. */
  function RenderRows(rows: seq<seq<string>>): string {
    if rows == [] then "" else "\n" + JoinWith(rows[0], " ") + RenderRows(rows[1..])
  }

  /** The text of a log written from a list of column names and token rows:
      the `#Fields:` directive, then one line per row. */
  function RenderLog(fields: seq<string>, rows: seq<seq<string>>): string {
    FieldsPrefix + JoinWith(fields, " ") + RenderRows(rows)
  }

  predicate TokenRow(row: seq<string>) {
    |row| >= 1 && !StartsWith(row[0], "#") && forall j :: 0 <= j < |row| ==> IsToken(row[j])
  }

  lemma NoSpaceAvoids(t: string, c: char)
    requires NoSpace(t) && IsSpace(c)
    ensures c !in t
  {
  }

  lemma TokensAvoid(ts: seq<string>, c: char)
    requires forall j :: 0 <= j < |ts| ==> IsToken(ts[j])
    requires IsSpace(c)
    ensures forall j :: 0 <= j < |ts| ==> c !in ts[j]
    ensures c !in JoinWith(ts, " ") || c == ' '
  {
    forall j | 0 <= j < |ts| ensures c !in ts[j] {
      NoSpaceAvoids(ts[j], c);
    }
    if c != ' ' {
      JoinWithAvoids(ts, " ", c);
    }
  }

  /** The written data lines end in the last token of the last row. */
  lemma {:induction false} RenderRowsLast(rows: seq<seq<string>>)
    requires |rows| >= 1
    requires forall k :: 0 <= k < |rows| ==> TokenRow(rows[k])
    ensures var t := RenderRows(rows); t != [] && !IsSpace(t[|t| - 1])
    decreases |rows|
  {
    var head := "\n" + JoinWith(rows[0], " ");
    var row := rows[0];
    assert IsToken(row[|row| - 1]);
    JoinWithLast(row, " ");
    if |rows| > 1 {
      RenderRowsLast(rows[1..]);
    } else {
      assert RenderRows(rows) == head + "";
    }
  }

  /** The written data lines split back, at line breaks, into one line per row. */
  lemma {:induction false} SplitRendered(first: string, rows: seq<seq<string>>)
    requires '\n' !in first
    requires forall k :: 0 <= k < |rows| ==> TokenRow(rows[k])
    ensures SplitOn(first + RenderRows(rows), '\n') == [first] + RowLines(rows)
    decreases |rows|
  {
    if rows == [] {
      assert first + "" == first;
    } else {
      var line := JoinWith(rows[0], " ");
      TokensAvoid(rows[0], '\n');
      RenderRowsCons(first, rows);
      SplitOnConcat(first, line + RenderRows(rows[1..]), '\n');
      assert forall k :: 0 <= k < |rows[1..]| ==> rows[1..][k] == rows[k + 1];
      SplitRendered(line, rows[1..]);
      assert SplitOn(first, '\n') == [first];
      assert RowLines(rows) == [line] + RowLines(rows[1..]);
    }
  }

  lemma RenderRowsCons(first: string, rows: seq<seq<string>>)
    requires rows != []
    ensures first + RenderRows(rows) == first + ['\n'] + (JoinWith(rows[0], " ") + RenderRows(rows[1..]))
  {
    ConcatRegroup(first, ['\n'], JoinWith(rows[0], " "), RenderRows(rows[1..]));
  }

  lemma ConcatRegroup<T>(a: seq<T>, b: seq<T>, c: seq<T>, d: seq<T>)
    ensures a + (b + c + d) == a + b + (c + d)
  {
  }

  /** The written data lines read back as the rows they were written from. */
  lemma {:induction false} RowLinesRead(rows: seq<seq<string>>)
    requires forall k :: 0 <= k < |rows| ==> TokenRow(rows[k])
    ensures TableRows(RowLines(rows)) == rows
    decreases |rows|
  {
    if rows != [] {
      var row := rows[0];
      var line := JoinWith(row, " ");
      JoinWithFirst(row, " ");
      assert line[..1] == [row[0][0]] == row[0][..1];
      assert IsDataLine(line) && line != "";
      TokensAvoid(row, ' ');
      SplitOnJoin(row, ' ');
      OneRowPerDataLine([], line, RowLines(rows[1..]));
      assert [] + [line] + RowLines(rows[1..]) == RowLines(rows);
      RowLinesRead(rows[1..]);
      assert TableRows([]) == [];
    }
  }

  lemma DirectiveLine(names: string)
    ensures StartsWith(FieldsPrefix + names, FieldsDirective)
  {
    assert (FieldsPrefix + names)[..|FieldsDirective|] == FieldsPrefix[..|FieldsDirective|];
  }

  /** The written log has no surrounding whitespace, so its lines are the
      header line and one line per row. */
  lemma RenderLogLines(fields: seq<string>, rows: seq<seq<string>>)
    requires |fields| >= 1 && forall k :: 0 <= k < |fields| ==> IsToken(fields[k])
    requires forall k :: 0 <= k < |rows| ==> TokenRow(rows[k])
    ensures Lines(RenderLog(fields, rows)) == [FieldsPrefix + JoinWith(fields, " ")] + RowLines(rows)
  {
    var header := FieldsPrefix + JoinWith(fields, " ");
    var text := header + RenderRows(rows);
    assert text == RenderLog(fields, rows);
    JoinWithLast(fields, " ");
    assert IsToken(fields[|fields| - 1]);
    if rows == [] {
      assert text == header;
    } else {
      RenderRowsLast(rows);
      assert text[|text| - 1] == RenderRows(rows)[|RenderRows(rows)| - 1];
    }
    assert text[0] == '#';
    StripUnchanged(text);
    TokensAvoid(fields, '\n');
    assert '\n' !in FieldsPrefix;
    assert '\n' !in header;
    SplitRendered(header, rows);
  }

  lemma RenderedLinesParse(fields: seq<string>, rows: seq<seq<string>>)
    requires forall k :: 0 <= k < |fields| ==> IsToken(fields[k])
    requires !Occurs(JoinWith(fields, " "), FieldsPrefix)
    requires forall k :: 0 <= k < |rows| ==> TokenRow(rows[k])
    ensures ParseLines([FieldsPrefix + JoinWith(fields, " ")] + RowLines(rows)) == ParseTable(fields, rows)
  {
    DirectiveLine(JoinWith(fields, " "));
    HeaderFirstGoverns(FieldsPrefix + JoinWith(fields, " "), RowLines(rows));
    HeaderFieldsOfDirective(fields);
    RowLinesRead(rows);
  }

  /** A log written from a header of names and rows of tokens, no row
      beginning with `#`, parses exactly as its table of tokens: to the
      records, or the error, of `ParseTable`. */
  lemma ParseRenderedLog(fields: seq<string>, rows: seq<seq<string>>)
    requires |fields| >= 1 && forall k :: 0 <= k < |fields| ==> IsToken(fields[k])
    requires !Occurs(JoinWith(fields, " "), FieldsPrefix)
    requires forall k :: 0 <= k < |rows| ==> TokenRow(rows[k])
    ensures ParseIisLog(RenderLog(fields, rows)) == ParseTable(fields, rows)
  {
    var lines := [FieldsPrefix + JoinWith(fields, " ")] + RowLines(rows);
    RenderLogLines(fields, rows);
    assert ParseIisLog(RenderLog(fields, rows)) == ParseLines(lines);
    RenderedLinesParse(fields, rows);
  }
}
