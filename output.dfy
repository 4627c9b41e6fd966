/**
 * The text that `saveResultsToCsv` appends and `saveRemainingCompanies`
 * writes. Whether the results file already exists is a parameter; "nothing
 * is written" is `None`.
 */
module Output {
  import opened Wrappers
  import opened Types
  import opened JsString

  /** The column names, in the order the rows give them. */
  const Headers: seq<string> := ["search_date", "company_name", "company_uid", "company_cantonal_exerpt_link"]

  /** The header line, `headers.join(',')`. */
  const CsvHeader: string := Join(Headers, ",")

  /** The header is one line and holds no double quote. */
  lemma HeaderIsPlain()
    ensures '\n' !in CsvHeader && '"' !in CsvHeader && CsvHeader != []
  {
    assert CsvHeader == Headers[0] + "," + Join(Headers[1..], ",");
    JoinAvoids(Headers, ",", '\n');
    JoinAvoids(Headers, ",", '"');
  }

  /** `s.replace(/"/g, '""')`: every double quote doubled, nothing else touched. */
  function DoubleQuotes(s: string): (r: string)
    ensures |r| >= |s|
    ensures forall c :: c != '"' ==> (c in r <==> c in s)
    decreases |s|
  {
    if s == [] then []
    else (if s[0] == '"' then "\"\"" else [s[0]]) + DoubleQuotes(s[1..])
  }

  /** The company-name column: always quoted, inner quotes doubled. */
  function QuoteName(name: string): (field: string)
    ensures |field| >= 2 && field[0] == '"' && field[|field| - 1] == '"'
    ensures '\n' in field <==> '\n' in name
  {
    "\"" + DoubleQuotes(name) + "\""
  }

  /** The date column: `join` renders a missing date as the empty string. */
  function DateField(date: Option<string>): (field: string)
    ensures field == [] <==> date.None? || date.value == []
    ensures forall c :: c in field ==> date.Some? && c in date.value
  {
    if date.Some? then date.value else ""
  }

  /** One data row: the four columns of `[...].join(',')`. */
  function CsvRow(r: CompanyInfo): (row: string)
    ensures '"' in row
    ensures OneLine(r) ==> '\n' !in row
  {
    var name := QuoteName(r.company_name);
    assert name[0] in name;
    DateField(r.search_date) + "," + name + "," + r.company_uid + "," + r.company_cantonal_exerpt_link
  }

  function CsvRows(results: seq<CompanyInfo>): (rows: seq<string>)
    ensures |rows| == |results|
    ensures forall i :: 0 <= i < |results| ==> rows[i] == CsvRow(results[i])
  {
    seq(|results|, i requires 0 <= i < |results| => CsvRow(results[i]))
  }

  /**
   * What `saveResultsToCsv` appends: nothing for no results; otherwise the
   * rows, preceded by the header when the file is new. A new file ends with a
   * newline; an append to an existing file starts with one.
   */
  function ResultsFileContent(results: seq<CompanyInfo>, fileExists: bool): (content: Option<string>)
    ensures content.None? <==> |results| == 0
  {
    if |results| == 0 then None
    else
      var rows := CsvRows(results);
      var lines := if fileExists then rows else [CsvHeader] + rows;
      Some((if fileExists then "\n" else "") + Join(lines, "\n") + (if fileExists then "" else "\n"))
  }

  /** What `saveRemainingCompanies` writes over the not-found file. */
  function RemainingFileContent(companiesNotFound: seq<string>): (content: string)
    ensures |content| >= 1 && content[|content| - 1] == '\n'
  {
    Join(companiesNotFound, "\n") + "\n"
  }

  /** A record whose four columns contain no newline. */
  predicate OneLine(r: CompanyInfo)
  {
    && '\n' !in DateField(r.search_date)
    && '\n' !in r.company_name
    && '\n' !in r.company_uid
    && '\n' !in r.company_cantonal_exerpt_link
  }

  lemma RowsAreLines(results: seq<CompanyInfo>)
    requires forall i :: 0 <= i < |results| ==> OneLine(results[i])
    ensures forall i :: 0 <= i < |results| ==> '\n' !in CsvRows(results)[i]
  {
  }

  /** A new file holds the header line, one line per result and a final empty line. */
  lemma NewFileLines(results: seq<CompanyInfo>)
    requires |results| > 0
    requires forall i :: 0 <= i < |results| ==> OneLine(results[i])
    ensures Split(ResultsFileContent(results, false).value, '\n') == [CsvHeader] + CsvRows(results) + [""]
  {
    var lines := [CsvHeader] + CsvRows(results);
    RowsAreLines(results);
    HeaderIsPlain();
    assert forall i :: 0 < i < |lines| ==> lines[i] == CsvRows(results)[i - 1];
    JoinSplit(lines, '\n');
    SplitAppend(Join(lines, "\n"), '\n', "");
    assert ResultsFileContent(results, false).value == Join(lines, "\n") + "\n" + "";
  }

  /** An append holds an empty first line and then one line per result, with no header. */
  lemma AppendLines(results: seq<CompanyInfo>)
    requires |results| > 0
    requires forall i :: 0 <= i < |results| ==> OneLine(results[i])
    ensures Split(ResultsFileContent(results, true).value, '\n') == [""] + CsvRows(results)
  {
    var rows := CsvRows(results);
    RowsAreLines(results);
    JoinSplit(rows, '\n');
    SplitAppend("", '\n', Join(rows, "\n"));
    assert ResultsFileContent(results, true).value == "" + "\n" + Join(rows, "\n");
  }

  /** The header and the rows, joined by newlines, split back into themselves. */
  lemma HeaderAndRowsSplit(results: seq<CompanyInfo>)
    requires forall i :: 0 <= i < |results| ==> OneLine(results[i])
    ensures Split(Join([CsvHeader] + CsvRows(results), "\n"), '\n') == [CsvHeader] + CsvRows(results)
  {
    var lines := [CsvHeader] + CsvRows(results);
    HeaderIsPlain();
    RowsAreLines(results);
    assert forall i :: 0 < i < |lines| ==> lines[i] == CsvRows(results)[i - 1];
    JoinSplit(lines, '\n');
  }

  /**
   * Creating the file and appending to it later gives the first run's rows
   * under the header, an empty line, then the second run's rows.
   */
  lemma CreateThenAppendLines(first: seq<CompanyInfo>, second: seq<CompanyInfo>)
    requires |first| > 0 && |second| > 0
    requires forall i :: 0 <= i < |first| ==> OneLine(first[i])
    requires forall i :: 0 <= i < |second| ==> OneLine(second[i])
    ensures Split(ResultsFileContent(first, false).value + ResultsFileContent(second, true).value, '\n')
         == [CsvHeader] + CsvRows(first) + [""] + CsvRows(second)
  {
    var lines1 := [CsvHeader] + CsvRows(first);
    var j1 := Join(lines1, "\n");
    HeaderAndRowsSplit(first);
    var c2 := ResultsFileContent(second, true).value;
    assert Split(c2, '\n') == [""] + CsvRows(second) by {
      AppendLines(second);
    }
    assert ResultsFileContent(first, false).value + c2 == j1 + "\n" + c2;
    SplitAppend(j1, '\n', c2);
  }

  /** Creating the file and appending to it later leaves exactly one header line. */
  lemma HeaderOnce(first: seq<CompanyInfo>, second: seq<CompanyInfo>)
    requires |first| > 0 && |second| > 0
    requires forall i :: 0 <= i < |first| ==> OneLine(first[i])
    requires forall i :: 0 <= i < |second| ==> OneLine(second[i])
    ensures multiset(Split(ResultsFileContent(first, false).value + ResultsFileContent(second, true).value, '\n'))[CsvHeader] == 1
  {
    CreateThenAppendLines(first, second);
    HeaderIsPlain();
    var rows1, rows2 := CsvRows(first), CsvRows(second);
    var lines := [CsvHeader] + rows1 + [""] + rows2;
    assert multiset(lines) == multiset([CsvHeader]) + multiset(rows1) + multiset([""]) + multiset(rows2);
    assert CsvHeader !in rows1 && CsvHeader !in rows2;
  }

  /**
   * The not-found file lists exactly the names of this run, one per line and
   * newline-terminated; a name of an earlier run that is not in the list does
   * not appear.
   */
  lemma RemainingLines(companiesNotFound: seq<string>)
    requires forall i :: 0 <= i < |companiesNotFound| ==> '\n' !in companiesNotFound[i]
    ensures |companiesNotFound| > 0 ==> Split(RemainingFileContent(companiesNotFound), '\n') == companiesNotFound + [""]
    ensures |companiesNotFound| == 0 ==> RemainingFileContent(companiesNotFound) == "\n"
    ensures forall x :: x != [] ==> (x in Split(RemainingFileContent(companiesNotFound), '\n') <==> x in companiesNotFound)
  {
    var content := RemainingFileContent(companiesNotFound);
    assert content == Join(companiesNotFound, "\n") + "\n" + "";
    SplitAppend(Join(companiesNotFound, "\n"), '\n', "");
    if |companiesNotFound| > 0 {
      JoinSplit(companiesNotFound, '\n');
    }
  }
}
