# IIS log analyzer — a Dafny model of the log parser

The analyzer is a small web tool. A user uploads a ZIP archive of IIS log
files; the tool joins the text of every `*.log` and `*.txt` entry, parses
the result as a W3C extended log, and shows twelve columns per request
(and offers them as an Excel sheet). This project models the part of the
tool that computes: the `parse_iis_log` function and the archive loop that
builds its input.

- `results.dfy` — module `Results`: `Option` and `Result`.
- `pystr.dfy` — module `PyStr`: the Python `str` operations the parser
  relies on, on `seq<char>`: `strip()`, with Python's full `isspace` set;
  `split('\n')`; argument-less `split()`; `replace("#Fields: ", "")`;
  `startswith` and `endswith`; `"\n".join`.
- `iis_log.dfy` — module `IisLog`: the parser itself.
  - `Lines` trims the text and cuts it into lines.
  - `FindHeader` finds the first `#Fields:` line, and `HeaderFields` takes
    the column names from it.
  - `DataLines` keeps the lines that do not begin with `#`.
  - `ReadRows` plays the part of `read_csv(sep=' ', header=None,
    names=fields)`: it skips blank lines and cuts each of the others at
    every single space.
  - `Bind` binds tokens to names.
  - `Project` builds a `Record`, and `Account` is `str.extract(r"@(.+)$")`.
  - `ParseTable`, `ParseLines` and `ParseIisLog` put these together and
    return a `Result` whose error names the failure.
- `iis_log_facts.dfy` — module `IisLogFacts`: properties of the parser.
  - which header governs;
  - what each record holds;
  - how the account is found;
  - that column order does not matter;
  - that a log written from a table parses back to it.
- `upload.dfy` — module `Upload`:
  - the archive loop, `CollectText`, as a method proved against
    `UploadText`;
  - which entries contribute text;
  - that the whole archive is parsed as ONE log.

The source promises some things that pandas or Python decides rather than
the code itself. These are modelled as follows:

- **Parse errors.** The model returns `Err` in these cases:
  - no `#Fields:` line (`IndexError`) gives `MissingFieldsHeader`;
  - a repeated column name (refused by `read_csv`) gives `DuplicateFieldNames`;
  - a data line whose token count differs from the number of names gives
    `RowShapeMismatch`, where pandas instead pads or shifts many such
    lines (see "Left out");
  - a required column missing from the header (`KeyError`) gives
    `MissingColumn`, naming the first such column in the order the
    `DataFrame` literal reads them.
- **Values.** Every value stays a string, and an account that
  `str.extract` finds no match for is `None`.

Notes on what the code does:

- The account is the text after the FIRST `@` of `_RequestID`.
  `re.search` takes the leftmost match, so `x@a@b` gives `a@b`, not `b`.
- `cs-uri-stem` is never read, so it is not a required column.
- The texts of all log entries are joined and parsed once, not file by
  file. The first `#Fields:` line of the joined text names the columns of
  every entry's data lines; that is `FirstHeaderGoverns` applied to the
  joined lines. When the first log entry has a header and begins with a
  non-whitespace character, this is its first header
  (`UploadParsedAsOneLog`, `TwoFilesInOrder`). An entry that begins with
  whitespace can differ: for `"  #Fields: x\n#Fields: y"` the entry's own
  first header line is its second line, but after `strip()` of the joined
  text `#Fields: x` comes first and governs.
- Only the name test filters entries. An entry whose name does not end in
  `.log` or `.txt` is skipped without a message, and no entry fails on its
  own.

## Model

| member | source | states |
|---|---|---|
| PyStr.Strip | app.py:13 | `strip()` result: the middle of the text, with only whitespace removed at both ends; what is left neither begins nor ends with whitespace |
| PyStr.StripUnchanged | app.py:13 | a text that neither begins nor ends with whitespace is unchanged by `strip()` |
| PyStr.SplitOn | app.py:13 | `split('\n')` yields at least one piece and no piece contains the separator |
| PyStr.JoinSplitOn | app.py:13 | joining the pieces of `split(c)` with `c` gives back the text |
| PyStr.SplitOnJoin | app.py:18 | splitting the `"\n".join` of pieces without a line break gives back those pieces |
| PyStr.SplitOnConcat | app.py:13 | splitting at one occurrence of the separator splits the pieces there |
| PyStr.Words | app.py:15 | argument-less `split()` yields only non-empty words without whitespace |
| PyStr.WordsOfNothing | app.py:15 | the empty text has no words |
| PyStr.WordsOfSpaces | app.py:15 | a text of whitespace only, of any length, has no words |
| PyStr.WordsOfWord | app.py:15 | a non-empty text without whitespace is one word |
| PyStr.WordsSplitAtSpace | app.py:15 | `split()` cuts at every whitespace character: the words of `a + [c] + b`, for any whitespace `c`, are the words of `a` then those of `b`; with the two rows above this fixes the words of every text, tabs, runs of spaces and a trailing `\r` included |
| PyStr.WordsOfJoin | app.py:15 | words joined by single spaces split back into the same words |
| PyStr.RemoveAllLeading | app.py:15 | `replace(pat, "")` on a text beginning with `pat` removes that occurrence first |
| PyStr.RemoveAllAbsent | app.py:15 | `replace(pat, "")` changes nothing when `pat` does not occur |
| PyStr.RemoveAll | app.py:15 | `replace(pat, "")` never lengthens the text and introduces no character the text lacks |
| PyStr.RemoveAllAt | app.py:15 | `replace(pat, "")` deletes the leftmost occurrence wherever it stands, keeps the text before it and goes on after it; with `RemoveAllAbsent` this fixes the result on every text |
| PyStr.RemoveAllExample | app.py:15 | `"a#Fields: b"` becomes `"ab"` |
| PyStr.StartsWithPointwise | app.py:14 | `startswith(p)` holds exactly when `p` is no longer than the text and matches its first characters one by one |
| PyStr.EndsWithPointwise | app.py:51 | `endswith(p)` holds exactly when `p` is no longer than the text and matches its last characters one by one |
| PyStr.JoinWithAppend | app.py:55 | `sep.join` of two non-empty lists is the join of the first, the separator, and the join of the second |
| PyStr.SplitOnAvoids | app.py:13 | a character the text lacks is in none of the pieces of `split(c)` |
| IisLog.Lines | app.py:13 | the lines of a text: at least one, none holding a line break, and joined with line breaks they give back the trimmed text |
| IisLog.FindHeader | app.py:14 | the header's index is that of the FIRST line beginning with `#Fields:`; none exists exactly when no line begins with it |
| IisLog.HeaderFields | app.py:15 | the column names of a header line are non-empty and free of whitespace |
| IisLog.DataLines | app.py:16 | every kept line does not begin with `#`, and every line that does not begin with `#` is kept |
| IisLog.OneRowPerDataLine | app.py:16-18 | a line adds exactly one row, its tokens split at single spaces, when it is not blank and does not begin with `#`, and no row otherwise; the rows around it keep their order |
| IisLog.TableRowsConcat | app.py:16-18 | the rows of concatenated lines are the rows of each part, in order |
| IisLog.ReadRows | app.py:18 | `read_csv` makes no more rows than there are data lines |
| IisLog.ReadRowsNoSeparator | app.py:18 | no token holds the space it was cut at |
| IisLog.ReadRowsConcat | app.py:18 | the rows of concatenated data lines are the rows of each part, in order |
| IisLog.TableRows | app.py:16-18 | a log has no more rows than lines, and no token holds a space |
| IisLog.TableRowsAvoid | app.py:16-18 | a character no line holds is in no token |
| IisLog.Bind | app.py:18 | a data line bound to the names: the keys are the names, and each name maps to the token at its own position |
| IisLog.AccountSearchLeftmost | app.py:34 | the search from a position yields the group of the leftmost match from there on, and nothing exactly when no position from there matches |
| IisLog.Account | app.py:34 | `str.extract(r"@(.+)$")`: the account is the rest of the id after the leftmost position that matches (an `@`, then at least one character, none a line break); `None` exactly when no position matches |
| IisLog.Project | app.py:21-33 | the record built from a bound data line: `datetime` is the date, a space and the time; each of the next ten cells is the value under that output column's own name; the last cell is the account of `_RequestID` |
| IisLog.FirstMissing | app.py:21-33 | the first required column, in reading order, that the header lacks; none exactly when all are present |
| IisLog.ParseTable | app.py:18-33 | success exactly when the names are distinct, every row has one token per name and the names include all twelve read columns, with one record per row; otherwise the error names the first failing check: duplicate names, then the first misshapen row with its token count, then the first missing column |
| IisLog.ParseLines | app.py:14-18 | `MissingFieldsHeader` exactly when no line begins with `#Fields:`; on success one record per data row |
| IisLog.ParseIisLog | app.py:12-35 | the same, over the lines of the trimmed text |
| IisLogFacts.AccountAfterFirstAt | app.py:34 | an account exists exactly when the request id has an `@` with at least one character after its first `@`; it is the whole text after that first `@`, non-empty and a suffix of the id |
| IisLogFacts.AccountOfComposite | app.py:34 | `<prefix>@<account>` with no `@` in the prefix gives `<account>`, later `@`s included |
| IisLogFacts.AccountKeepsLaterAt | app.py:34 | `x@a@b` gives `a@b` |
| IisLogFacts.AccountWithoutAt | app.py:34 | a request id without `@` has no account |
| IisLogFacts.AccountOfTrailingAt | app.py:34 | a request id whose only `@` is its last character has no account |
| IisLogFacts.AccountExamples | app.py:34 | `token-only` and `abc@` have no account |
| IisLogFacts.TokensHaveNoLineBreak | app.py:13-18 | no token of a parsed log holds a line break, so the account lemmas, which ask for that, apply to every `_RequestID` token |
| IisLogFacts.DirectiveRowsSkipped | app.py:16 | a `#Fields:` line contributes no data row |
| IisLogFacts.FirstHeaderGoverns | app.py:14-16 | the first `#Fields:` line decides the column names; the lines before and after it, later `#Fields:` lines included, only contribute data rows |
| IisLogFacts.HeaderFirstGoverns | app.py:14-16 | a log that begins with its header parses as the table of the lines after it |
| IisLogFacts.HeaderFieldsOfDirective | app.py:15 | a `#Fields: ` line written from a list of non-empty names without whitespace, whose space-separated join does not contain `#Fields: `, reads back as that list |
| IisLogFacts.HeaderFieldsOfBareDirective | app.py:15 | a bare `#Fields:` line, without the space, is left whole by `replace` and gives the one name `#Fields:` |
| IisLogFacts.HeaderFieldsOfEmptyDirective | app.py:15 | a `#Fields: ` line followed by any run of whitespace only, the empty run included, gives no names |
| IisLogFacts.RecordColumns | app.py:18-34 | record `k` is read from row `k` of the tokens, through the positions of the names in the header |
| IisLogFacts.ParseTableConcat | app.py:18-33 | when a table parses, each group of its rows parses, and the records are those of each group, in order |
| IisLogFacts.PermuteDistinct | app.py:18 | reordering the names keeps them distinct exactly when they were |
| IisLogFacts.BindPermuted | app.py:18 | reordering the names and every row's tokens together binds the same map |
| IisLogFacts.ColumnOrderIrrelevant | app.py:18-33 | columns are found by name: reordering the header and every row together gives the same result, records and errors alike |
| IisLogFacts.ParseRenderedLog | app.py:12-35 | a log written as a `#Fields: ` header followed by one line of single-space-separated tokens per row parses exactly as that table of tokens |
| Upload.SelectedTexts | app.py:50-54 | the collected texts are no more than the entries, and each of them is the text of an entry named `*.log` or `*.txt` |
| Upload.LogNameExamples | app.py:51 | the name test is a case-sensitive `endswith`: `u_ex240101.log` and `notes.txt` are read; `u_ex240101.LOG`, `u_ex240101.log.gz` and `log` are not |
| Upload.UploadText | app.py:55 | when there is a log entry, the lines of the uploaded text are the lines of each log entry, file after file |
| Upload.ParseUpload | app.py:55-58 | an archive without log entries gives the empty text, which fails with `MissingFieldsHeader` |
| Upload.CollectText | app.py:49-55 | the archive loop returns the `"\n"`-join of the texts of the log entries in archive order |
| Upload.SelectedTextsConcat | app.py:50-54 | the texts of consecutive groups of entries are those of each group, in order |
| Upload.EntryContribution | app.py:50-54 | an entry adds its text, at its own place, exactly when its name ends in `.log` or `.txt` |
| Upload.SplitJoinedTexts | app.py:55 | the lines of the joined text are the lines of each text, file after file |
| Upload.StripJoinedTexts | app.py:13 | when the first text begins with a non-whitespace character and the last is not whitespace only, trimming the joined text only trims the end of the last text |
| Upload.HeaderBlockGoverns | app.py:14-16 | a header in a block of lines governs every line appended after it |
| Upload.JoinedTextsParse | app.py:12-18 | joined texts parse as one log, under the first header of the first text, with the rows of each text in order, when the first text begins with a non-whitespace character, the last is not whitespace only and the first has a header |
| Upload.UploadParsedAsOneLog | app.py:55-58 | the archive is parsed as one log: when the first log entry has a header, begins with a non-whitespace character, and the last is not whitespace only, the first entry's first `#Fields:` line names the columns of every entry's data lines, and the rows come file after file |
| Upload.TwoFilesInOrder | app.py:49-58 | with two log files, the first with a header and beginning with a non-whitespace character, the second not whitespace only: the first file's records come first, then the second file's, which are bound to the first file's column names |

## Left out

- The Streamlit interface is not modelled: the page, the upload widget,
  the session state and the messages. These are I/O.
- The Excel export (openpyxl writer, auto-filter) is not modelled. It is
  output only.
- Opening the ZIP archive and reading its entries is not modelled. An
  archive is given as the list of its entries, each with its name and its
  text.
- UTF-8 decoding with `errors="ignore"` is not modelled. An entry's text
  arrives already decoded.
- pandas type inference is not modelled: numeric columns such as
  `sc-status` and `time-taken` become numbers in pandas. Every value stays
  the text of its token here. This also hides an error: when every
  `_RequestID` token is all digits, pandas makes that column integer and
  `.str.extract` raises `AttributeError`, where the model gives each
  record the account `None`.
- pandas NA handling is not modelled: tokens such as `-`, `NA` and `null`
  stay text, although pandas turns some of these into `NaN`.
- CSV quoting in `read_csv` is not modelled. A token with a `"` is cut at
  spaces like any other.
- `\r` line endings are not modelled in data lines. `read_csv` treats a
  carriage return as a line break; here it stays part of the last token of
  its line. In the header line, `split()` drops it as whitespace
  (`WordsSplitAtSpace`).
- A line of only whitespace is not blank here. It is cut at its spaces like
  any other line; pandas's handling of such a line is not modelled.
- IisLog.ParseTable: reports `RowShapeMismatch` for every data line with
  too few or too many tokens. pandas (python engine) pads a short line with
  `NaN`. It takes the extra leading tokens as the index only when the FIRST
  data line is longer than the names. A later line with more tokens than
  both the names and the first data line raises `ParserError` ("Expected N
  fields in line M, saw K"). This is read from the pandas python engine,
  whose row limit is the larger of the name count and the first line's
  token count.
- IisLog.ParseTable: a header with no names and no data lines gives
  `MissingColumn("date")`, where `read_csv(names=[])` raises
  `EmptyDataError` ("No columns to parse from file"). A header has no
  names only when deleting every `#Fields: ` leaves whitespace only, as for
  `#Fields: ` followed by whitespace only (`HeaderFieldsOfEmptyDirective`).
  That needs the line not to be the last of the trimmed text, since
  `strip()` would drop the space of a final `#Fields: `.
  A bare `#Fields:` line has the one name `#Fields:`
  (`HeaderFieldsOfBareDirective`), and there both the code (`KeyError`)
  and the model (`MissingColumn("date")`) fail on the missing `date`.
- IisLog.Account: the group may hold no line break, and `$` matches at the
  very end only. So `$` matching before a final line break is not modelled.
  That case never arises in the parser, because a token never contains a
  line break.
- Upload.UploadParsedAsOneLog: holds only when the first text begins with
  a non-whitespace character and the last text is not whitespace only;
  there the `strip()` of the joined text cuts into the last file only.
  Other archives are covered only by `ParseUpload`, which is `ParseIisLog`
  of the joined text, and by `FirstHeaderGoverns` on its lines.
- Upload.JoinedTextsParse: holds only under the same two conditions, with
  a header in the first text.
- Upload.TwoFilesInOrder: holds only under the same two conditions, with a
  header in the first file.
- Upload.TwoTextsInOrder: holds only under the same two conditions, with a
  header in the first text.
- Upload.JoinedLines: holds only under the same two conditions.
- Upload.StripJoinedTexts: holds only under the same two conditions.
