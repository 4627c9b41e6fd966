/** The parsing expression of `loadCompaniesToCheck`: split on newlines, trim, drop empty lines. */
module Input {
  import opened JsString

  /** The `map` that trims every line. */
  function TrimAll(lines: seq<string>): (r: seq<string>)
    ensures |r| == |lines|
    ensures forall i :: 0 <= i < |lines| ==> r[i] == Trim(lines[i])
  {
    seq(|lines|, i requires 0 <= i < |lines| => Trim(lines[i]))
  }

  /** The `filter` that keeps the non-empty lines. */
  function DropEmpty(lines: seq<string>): (r: seq<string>)
    ensures |r| <= |lines|
    ensures forall i :: 0 <= i < |r| ==> r[i] != []
    decreases |lines|
  {
    if |lines| == 0 then []
    else (if lines[0] == [] then [] else [lines[0]]) + DropEmpty(lines[1..])
  }

  /** The company names read from the content of the input file. */
  function ParseCompanies(fileContent: string): (names: seq<string>)
    ensures forall i :: 0 <= i < |names| ==> names[i] != []
  {
    DropEmpty(TrimAll(Split(fileContent, '\n')))
  }

  /** The filter keeps exactly the non-empty lines of its input. */
  lemma {:induction false} DropEmptyKeeps(lines: seq<string>, x: string)
    ensures x in DropEmpty(lines) <==> x in lines && x != []
    decreases |lines|
  {
    if |lines| > 0 && x != lines[0] {
      DropEmptyKeeps(lines[1..], x);
    }
  }

  /** Every parsed name is non-empty, already trimmed and free of newlines. */
  lemma ParsedNamesAreTrimmed(fileContent: string)
    ensures forall x :: x in ParseCompanies(fileContent) ==> x != [] && '\n' !in x && Trim(x) == x
  {
    var lines := Split(fileContent, '\n');
    forall x | x in ParseCompanies(fileContent) ensures '\n' !in x && Trim(x) == x {
      DropEmptyKeeps(TrimAll(lines), x);
      var k :| 0 <= k < |lines| && x == Trim(lines[k]);
      TrimIdempotent(lines[k]);
      if '\n' in x { TrimChars(lines[k], '\n'); }
    }
  }

  lemma TrimAllAppend(a: seq<string>, b: seq<string>)
    ensures TrimAll(a + b) == TrimAll(a) + TrimAll(b)
  {
    var whole, parts := TrimAll(a + b), TrimAll(a) + TrimAll(b);
    forall i | 0 <= i < |a| + |b| ensures whole[i] == parts[i] {
      if i < |a| {
        assert (a + b)[i] == a[i];
      } else {
        assert (a + b)[i] == b[i - |a|];
      }
    }
  }

  lemma {:induction false} DropEmptyAppend(a: seq<string>, b: seq<string>)
    ensures DropEmpty(a + b) == DropEmpty(a) + DropEmpty(b)
    decreases |a|
  {
    if |a| == 0 {
      assert a + b == b;
    } else {
      assert (a + b)[1..] == a[1..] + b;
      DropEmptyAppend(a[1..], b);
    }
  }

  /** One line without a newline gives its trimmed text, or nothing when that is empty. */
  lemma ParseOneLine(line: string)
    requires '\n' !in line
    ensures ParseCompanies(line) == if Trim(line) == [] then [] else [Trim(line)]
  {
    SplitWithoutSeparator(line, '\n');
    var t := Trim(line);
    assert TrimAll([line]) == [t];
    assert [t][1..] == [];
    assert DropEmpty([t]) == (if t == [] then [] else [t]) + DropEmpty([]);
  }

  /**
   * The names of two blocks of lines joined by a newline are the names of the
   * first block followed by the names of the second: lines are read in order
   * and independently of each other.
   */
  lemma ParseConcatenation(a: string, b: string)
    ensures ParseCompanies(a + "\n" + b) == ParseCompanies(a) + ParseCompanies(b)
  {
    SplitAppend(a, '\n', b);
    var la, lb := Split(a, '\n'), Split(b, '\n');
    TrimAllAppend(la, lb);
    DropEmptyAppend(TrimAll(la), TrimAll(lb));
  }

  /** The names of the lines `lines` joined by newlines: each line trimmed, blank ones dropped, in order. */
  lemma {:induction false} ParseLines(lines: seq<string>)
    requires |lines| >= 1
    requires forall i :: 0 <= i < |lines| ==> '\n' !in lines[i]
    ensures ParseCompanies(Join(lines, "\n")) == DropEmpty(TrimAll(lines))
    decreases |lines|
  {
    JoinSplit(lines, '\n');
  }

  /** Windows line endings are harmless: the carriage return is trimmed away. */
  lemma TrimDropsCarriageReturn(name: string)
    requires name != [] && Trim(name) == name
    ensures Trim(name + "\r") == name
  {
    var line := name + "\r";
    assert !IsWhiteSpace(name[0]) && !IsWhiteSpace(name[|name| - 1]);
    assert line[0] == name[0];
    assert TrimStart(line) == line;
    assert line[..|line| - 1] == name;
    assert TrimEnd(name) == name;
  }

  lemma CarriageReturnTrimmed(name: string)
    requires name != [] && '\n' !in name && Trim(name) == name
    ensures ParseCompanies(name + "\r\n") == [name]
  {
    var line := name + "\r";
    assert ParseCompanies(line) == [name] by {
      assert '\n' !in line;
      ParseOneLine(line);
      TrimDropsCarriageReturn(name);
    }
    assert ParseCompanies("") == [] by {
      ParseOneLine("");
    }
    assert name + "\r\n" == line + "\n" + "";
    ParseConcatenation(line, "");
  }
}
