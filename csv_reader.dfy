/**
 * A reader for one CSV record (quoted fields with doubled inner quotes, as in
 * RFC 4180), used to state what the rows written by `saveResultsToCsv` mean.
 */
module CsvReader {
  import opened Wrappers
  import opened Types
  import opened JsString
  import opened Output

  /**
   * Reads the rest of a quoted field, `s` starting just after the opening
   * quote: the unescaped text and what follows the closing quote.
   */
  function ReadQuoted(s: string): (r: Option<(string, string)>)
    ensures r.Some? ==> |r.value.1| < |s|
    decreases |s|
  {
    if |s| == 0 then None
    else if s[0] == '"' then
      if |s| > 1 && s[1] == '"' then
        match ReadQuoted(s[2..])
        case None => None
        case Some((text, rest)) => Some((['"'] + text, rest))
      else Some(([], s[1..]))
    else
      match ReadQuoted(s[1..])
      case None => None
      case Some((text, rest)) => Some(([s[0]] + text, rest))
  }

  /** Reads an unquoted field: everything up to the next comma. */
  function ReadPlain(s: string): (r: (string, string))
    ensures r.0 + r.1 == s && ',' !in r.0 && (r.1 == [] || r.1[0] == ',')
    decreases |s|
  {
    if |s| == 0 || s[0] == ',' then ([], s)
    else
      var (text, rest) := ReadPlain(s[1..]);
      ([s[0]] + text, rest)
  }

  function Cons(field: string, fields: Option<seq<string>>): Option<seq<string>>
  {
    if fields.Some? then Some([field] + fields.value) else None
  }

  /** The fields of one record, or `None` when it is not well formed. */
  function ReadRecord(s: string): Option<seq<string>>
    decreases |s|
  {
    var field := if |s| > 0 && s[0] == '"' then ReadQuoted(s[1..]) else Some(ReadPlain(s));
    match field
    case None => None
    case Some((text, rest)) =>
      if rest == [] then Some([text])
      else if rest[0] == ',' then Cons(text, ReadRecord(rest[1..]))
      else None
  }

  /** A field written unescaped reads back unchanged when it holds no comma and no quote. */
  predicate NeedsNoQuoting(s: string)
  {
    ',' !in s && '"' !in s
  }

  /** Reading the escaped text of a name up to its closing quote gives the name back. */
  lemma {:induction false} ReadQuotedEscaped(name: string, rest: string)
    requires rest == [] || rest[0] != '"'
    ensures ReadQuoted(DoubleQuotes(name) + "\"" + rest) == Some((name, rest))
    decreases |name|
  {
    var s := DoubleQuotes(name) + "\"" + rest;
    if name == [] {
      assert s == "\"" + rest;
      assert s[1..] == rest;
    } else {
      var tail := DoubleQuotes(name[1..]) + "\"" + rest;
      ReadQuotedEscaped(name[1..], rest);
      if name[0] == '"' {
        assert s == "\"\"" + tail;
        assert s[2..] == tail;
      } else {
        assert s == [name[0]] + tail;
        assert s[1..] == tail;
      }
      assert name == [name[0]] + name[1..];
    }
  }

  lemma {:induction false} ReadPlainField(p: string, rest: string)
    requires ',' !in p
    requires rest == [] || rest[0] == ','
    ensures ReadPlain(p + rest) == (p, rest)
    decreases |p|
  {
    if p == [] {
      assert p + rest == rest;
    } else {
      assert (p + rest)[0] == p[0];
      ReadPlainField(p[1..], rest);
      assert (p + rest)[1..] == p[1..] + rest;
      assert p == [p[0]] + p[1..];
    }
  }

  /** An unquoted field followed by a comma. */
  lemma ReadPlainThenMore(p: string, tail: string)
    requires NeedsNoQuoting(p)
    ensures ReadRecord(p + "," + tail) == Cons(p, ReadRecord(tail))
  {
    var s := p + "," + tail;
    assert s == p + ("," + tail);
    ReadPlainField(p, "," + tail);
    assert ("," + tail)[1..] == tail;
  }

  /** An unquoted field that ends the record. */
  lemma ReadPlainLast(p: string)
    requires NeedsNoQuoting(p)
    ensures ReadRecord(p) == Some([p])
  {
    ReadPlainField(p, []);
    assert p + [] == p;
  }

  /** A quoted name followed by a comma. */
  lemma ReadQuotedThenMore(name: string, tail: string)
    ensures ReadRecord(QuoteName(name) + "," + tail) == Cons(name, ReadRecord(tail))
  {
    var s := QuoteName(name) + "," + tail;
    assert s[1..] == DoubleQuotes(name) + "\"" + ("," + tail);
    ReadQuotedEscaped(name, "," + tail);
    assert ("," + tail)[1..] == tail;
  }

  /** The values a row stands for, in column order. */
  function Fields(r: CompanyInfo): seq<string>
  {
    [DateField(r.search_date), r.company_name, r.company_uid, r.company_cantonal_exerpt_link]
  }

  /** A record whose unescaped columns need no quoting. */
  predicate Plain(r: CompanyInfo)
  {
    NeedsNoQuoting(DateField(r.search_date)) && NeedsNoQuoting(r.company_uid) && NeedsNoQuoting(r.company_cantonal_exerpt_link)
  }

  /**
   * A row reads back as its date, name, uid and link, whatever commas or
   * quotes the name holds, when the three unescaped columns need no quoting.
   */
  lemma RowRoundTrip(r: CompanyInfo)
    requires Plain(r)
    ensures ReadRecord(CsvRow(r)) == Some(Fields(r))
  {
    ColumnsRoundTrip(DateField(r.search_date), r.company_name, r.company_uid, r.company_cantonal_exerpt_link);
  }

  lemma ColumnsRoundTrip(d: string, n: string, u: string, l: string)
    requires NeedsNoQuoting(d) && NeedsNoQuoting(u) && NeedsNoQuoting(l)
    ensures ReadRecord(d + "," + QuoteName(n) + "," + u + "," + l) == Some([d, n, u, l])
  {
    var t3 := u + "," + l;
    var t2 := QuoteName(n) + "," + t3;
    assert ReadRecord(t3) == Some([u, l]) by {
      ReadPlainLast(l);
      ReadPlainThenMore(u, l);
      assert [u] + [l] == [u, l];
    }
    assert ReadRecord(t2) == Some([n, u, l]) by {
      ReadQuotedThenMore(n, t3);
      assert [n] + [u, l] == [n, u, l];
    }
    assert ReadRecord(d + "," + t2) == Some([d, n, u, l]) by {
      ReadPlainThenMore(d, t2);
      assert [d] + [n, u, l] == [d, n, u, l];
    }
    assert d + "," + QuoteName(n) + "," + u + "," + l == d + "," + t2;
  }

  /** Fields that need no quoting, joined by commas, read back as themselves. */
  lemma {:induction false} PlainJoinRoundTrip(fields: seq<string>)
    requires |fields| >= 1
    requires forall i :: 0 <= i < |fields| ==> NeedsNoQuoting(fields[i])
    ensures ReadRecord(Join(fields, ",")) == Some(fields)
    decreases |fields|
  {
    if |fields| == 1 {
      ReadPlainLast(fields[0]);
      assert fields == [fields[0]];
    } else {
      PlainJoinRoundTrip(fields[1..]);
      ReadPlainThenMore(fields[0], Join(fields[1..], ","));
      assert [fields[0]] + fields[1..] == fields;
    }
  }

  /** The header reads back as the column names. */
  lemma HeaderRoundTrip()
    ensures ReadRecord(CsvHeader) == Some(Headers)
  {
    assert forall i :: 0 <= i < |Headers| ==> NeedsNoQuoting(Headers[i]);
    PlainJoinRoundTrip(Headers);
  }

  /**
   * A newly created results file reads back as the header followed by one
   * record per result, in order, with the values of each result.
   */
  lemma NewFileRoundTrip(results: seq<CompanyInfo>)
    requires |results| > 0
    requires forall i :: 0 <= i < |results| ==> OneLine(results[i]) && Plain(results[i])
    ensures |Split(ResultsFileContent(results, false).value, '\n')| == |results| + 2
    ensures ReadRecord(Split(ResultsFileContent(results, false).value, '\n')[0]) == Some(Headers)
    ensures forall i :: 0 <= i < |results| ==>
      ReadRecord(Split(ResultsFileContent(results, false).value, '\n')[i + 1]) == Some(Fields(results[i]))
  {
    NewFileLines(results);
    HeaderRoundTrip();
    forall i | 0 <= i < |results| ensures ReadRecord(CsvRows(results)[i]) == Some(Fields(results[i])) {
      RowRoundTrip(results[i]);
    }
  }
}
