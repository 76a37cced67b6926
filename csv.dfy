/** The news-export endpoint: fetch a CSV document, split it into non-blank
    lines, read the first line as headers and turn every later line into a
    header -> value record. */
module FinvizCsv {
  import opened Common

  // ---------------------------------------------------------------------
  // One CSV line

  /** The quote-aware scanner as a function of what is left of the line, the
      inside-quotes flag, the field being built and the fields finished so
      far. A doubled quote inside quotes is one literal quote; any other quote
      toggles the flag; a comma outside quotes ends a field; every field is
      trimmed. */
  function Scan(rest: string, inside: bool, cur: string, acc: seq<string>): seq<string>
    decreases |rest|
  {
    if rest == [] then acc + [Trim(cur)]
    else if rest[0] == '"' then
      if inside && |rest| > 1 && rest[1] == '"' then Scan(rest[2..], inside, cur + "\"", acc)
      else Scan(rest[1..], !inside, cur, acc)
    else if rest[0] == ',' && !inside then Scan(rest[1..], inside, "", acc + [Trim(cur)])
    else Scan(rest[1..], inside, cur + [rest[0]], acc)
  }

  /** The scanner only ever appends trimmed fields, and always appends the
      last one. */
  lemma {:induction false} ScanAppendsTrimmed(rest: string, inside: bool, cur: string, acc: seq<string>)
    requires forall i :: 0 <= i < |acc| ==> Trimmed(acc[i])
    ensures |Scan(rest, inside, cur, acc)| > |acc|
    ensures forall i :: 0 <= i < |Scan(rest, inside, cur, acc)| ==> Trimmed(Scan(rest, inside, cur, acc)[i])
    decreases |rest|
  {
    if rest == [] {
    } else if rest[0] == '"' {
      if inside && |rest| > 1 && rest[1] == '"' {
        ScanAppendsTrimmed(rest[2..], inside, cur + "\"", acc);
      } else {
        ScanAppendsTrimmed(rest[1..], !inside, cur, acc);
      }
    } else if rest[0] == ',' && !inside {
      ScanAppendsTrimmed(rest[1..], inside, "", acc + [Trim(cur)]);
    } else {
      ScanAppendsTrimmed(rest[1..], inside, cur + [rest[0]], acc);
    }
  }

  /** The fields of one line: at least one, each trimmed. */
  function ParseLine(line: string): (fields: seq<string>)
    ensures |fields| >= 1
    ensures forall i :: 0 <= i < |fields| ==> Trimmed(fields[i])
  {
    ScanAppendsTrimmed(line, false, "", []);
    Scan(line, false, "", [])
  }

  /** The character loop of the line parser. */
  method ParseCsvLine(line: string) returns (values: seq<string>)
    ensures values == ParseLine(line)
  {
    values := [];
    var current := "";
    var insideQuotes := false;
    var i := 0;
    while i < |line|
      invariant 0 <= i <= |line|
      invariant Scan(line[i..], insideQuotes, current, values) == ParseLine(line)
    {
      var ch := line[i];
      if ch == '"' {
        if insideQuotes && i + 1 < |line| && line[i + 1] == '"' {
          current := current + "\"";
          assert line[i..][2..] == line[i + 2..];
          i := i + 1;
        } else {
          insideQuotes := !insideQuotes;
        }
      } else if ch == ',' && !insideQuotes {
        values := values + [Trim(current)];
        current := "";
      } else {
        current := current + [ch];
      }
      assert i + 1 <= |line| ==> line[i..][1..] == line[i + 1..];
      i := i + 1;
    }
    values := values + [Trim(current)];
  }

  /** Every field trimmed. */
  function TrimAll(fields: seq<string>): (r: seq<string>)
    ensures |r| == |fields|
  {
    seq(|fields|, i requires 0 <= i < |fields| => Trim(fields[i]))
  }

  lemma {:induction false} ScanPlain(rest: string, cur: string, acc: seq<string>)
    requires '"' !in rest && ',' !in cur
    ensures Scan(rest, false, cur, acc) == acc + TrimAll(Split(cur + rest, ','))
    decreases |rest|, 1
  {
    if rest == [] {
      assert cur + rest == cur;
      SplitNoSeparator(cur, ',');
    } else if rest[0] == ',' {
      ScanPlainComma(rest, cur, acc);
    } else {
      calc {
        Scan(rest, false, cur, acc);
        Scan(rest[1..], false, cur + [rest[0]], acc);
        { ScanPlain(rest[1..], cur + [rest[0]], acc); }
        acc + TrimAll(Split(cur + [rest[0]] + rest[1..], ','));
        { assert cur + [rest[0]] + rest[1..] == cur + rest; }
        acc + TrimAll(Split(cur + rest, ','));
      }
    }
  }

  lemma {:induction false} ScanPlainComma(rest: string, cur: string, acc: seq<string>)
    requires '"' !in rest && ',' !in cur && rest != [] && rest[0] == ','
    ensures Scan(rest, false, cur, acc) == acc + TrimAll(Split(cur + rest, ','))
    decreases |rest|, 0
  {
    var tail := rest[1..];
    var parts := Split(tail, ',');
    var first := Trim(cur);
    assert '"' !in tail by {
      assert forall c :: c in tail ==> c in rest;
    }
    assert Scan(rest, false, cur, acc) == Scan(tail, false, "", acc + [first]) by {
      assert rest == [','] + tail;
      ScanComma(tail, cur, acc);
    }
    assert Scan(tail, false, "", acc + [first]) == acc + [first] + TrimAll(parts) by {
      ScanPlain(tail, "", acc + [first]);
      assert "" + tail == tail;
    }
    assert [first] + TrimAll(parts) == TrimAll([cur] + parts) by {
      TrimAllCons(cur, parts);
    }
    assert Split(cur + rest, ',') == [cur] + parts by {
      SplitAfterPart(cur, tail, ',');
      assert cur + [','] + tail == cur + rest;
    }
    assert acc + [first] + TrimAll(parts) == acc + ([first] + TrimAll(parts));
  }

  lemma TrimAllCons(f: string, fs: seq<string>)
    ensures [Trim(f)] + TrimAll(fs) == TrimAll([f] + fs)
  {
    var a := [Trim(f)] + TrimAll(fs);
    var b := TrimAll([f] + fs);
    assert |a| == |b|;
    forall i | 0 <= i < |a| ensures a[i] == b[i] {
      if i > 0 { assert ([f] + fs)[i] == fs[i - 1]; }
    }
  }

  /** A line without quotes is split at every comma: n commas give n + 1
      trimmed fields. */
  lemma ParseLineWithoutQuotes(line: string)
    requires '"' !in line
    ensures ParseLine(line) == TrimAll(Split(line, ','))
    ensures |ParseLine(line)| == CountChar(line, ',') + 1
  {
    ScanPlain(line, "", []);
    assert "" + line == line;
  }

  // ---------------------------------------------------------------------
  // Quoting, as a CSV writer does it

  /** Every quote doubled. */
  function Escape(x: string): string {
    if x == [] then [] else (if x[0] == '"' then "\"\"" else [x[0]]) + Escape(x[1..])
  }

  /** A field between quotes, with its own quotes doubled. */
  function Quote(x: string): string {
    "\"" + Escape(x) + "\""
  }

  function QuoteAll(fields: seq<string>): (r: seq<string>)
    ensures |r| == |fields|
  {
    seq(|fields|, i requires 0 <= i < |fields| => Quote(fields[i]))
  }

  lemma {:induction false} ScanEscaped(x: string, rest: string, cur: string, acc: seq<string>)
    requires rest == [] || rest[0] != '"'
    ensures Scan(Escape(x) + "\"" + rest, true, cur, acc) == Scan(rest, false, cur + x, acc)
    decreases |x|
  {
    var line := Escape(x) + "\"" + rest;
    if x == [] {
      assert line == "\"" + rest;
      calc {
        Scan(line, true, cur, acc);
        { assert line[1..] == rest; }
        Scan(rest, false, cur, acc);
        { assert cur + x == cur; }
        Scan(rest, false, cur + x, acc);
      }
    } else {
      var more := Escape(x[1..]) + "\"" + rest;
      if x[0] == '"' {
        assert line == "\"\"" + more;
        calc {
          Scan(line, true, cur, acc);
          { assert line[2..] == more; }
          Scan(more, true, cur + "\"", acc);
          { ScanEscaped(x[1..], rest, cur + "\"", acc); }
          Scan(rest, false, cur + "\"" + x[1..], acc);
          { assert cur + "\"" + x[1..] == cur + x; }
          Scan(rest, false, cur + x, acc);
        }
      } else {
        assert line == [x[0]] + more;
        calc {
          Scan(line, true, cur, acc);
          { assert line[1..] == more; }
          Scan(more, true, cur + [x[0]], acc);
          { ScanEscaped(x[1..], rest, cur + [x[0]], acc); }
          Scan(rest, false, cur + [x[0]] + x[1..], acc);
          { assert cur + [x[0]] + x[1..] == cur + x; }
          Scan(rest, false, cur + x, acc);
        }
      }
    }
  }

  /** What follows the first quoted field of a joined line. */
  function AfterFirst(fields: seq<string>): string
    requires |fields| >= 1
  {
    if |fields| == 1 then "" else [','] + Join(QuoteAll(fields[1..]), ',')
  }

  lemma JoinQuotedShape(fields: seq<string>)
    requires |fields| >= 1
    ensures Join(QuoteAll(fields), ',') == "\"" + (Escape(fields[0]) + "\"" + AfterFirst(fields))
  {
    var q := QuoteAll(fields);
    if |fields| > 1 {
      assert q[1..] == QuoteAll(fields[1..]);
    }
  }

  lemma ScanFirstQuoted(fields: seq<string>, acc: seq<string>)
    requires |fields| >= 1
    ensures Scan(Join(QuoteAll(fields), ','), false, "", acc) == Scan(AfterFirst(fields), false, fields[0], acc)
  {
    var f := fields[0];
    var line := Join(QuoteAll(fields), ',');
    var inner := Escape(f) + "\"" + AfterFirst(fields);
    JoinQuotedShape(fields);
    calc {
      Scan(line, false, "", acc);
      { assert line == "\"" + inner; assert line[1..] == inner; }
      Scan(inner, true, "", acc);
      { ScanEscaped(f, AfterFirst(fields), "", acc); assert "" + f == f; }
      Scan(AfterFirst(fields), false, f, acc);
    }
  }

  /** A comma outside quotes closes the field being built. */
  lemma ScanComma(rest: string, cur: string, acc: seq<string>)
    ensures Scan([','] + rest, false, cur, acc) == Scan(rest, false, "", acc + [Trim(cur)])
  {
    assert ([','] + rest)[1..] == rest;
  }

  lemma TrimAllTail(fields: seq<string>)
    requires |fields| >= 1
    ensures TrimAll(fields) == [Trim(fields[0])] + TrimAll(fields[1..])
  {
    TrimAllCons(fields[0], fields[1..]);
    assert [fields[0]] + fields[1..] == fields;
  }

  lemma {:induction false} ScanQuotedFields(fields: seq<string>, acc: seq<string>)
    requires |fields| >= 1
    ensures Scan(Join(QuoteAll(fields), ','), false, "", acc) == acc + TrimAll(fields)
    decreases |fields|
  {
    var f := fields[0];
    var line := Join(QuoteAll(fields), ',');
    assert Scan(line, false, "", acc) == Scan(AfterFirst(fields), false, f, acc) by {
      ScanFirstQuoted(fields, acc);
    }
    if |fields| == 1 {
      assert TrimAll(fields) == [Trim(f)];
    } else {
      var more := fields[1..];
      var tail := Join(QuoteAll(more), ',');
      var acc' := acc + [Trim(f)];
      assert Scan(AfterFirst(fields), false, f, acc) == Scan(tail, false, "", acc') by {
        assert AfterFirst(fields) == [','] + tail;
        ScanComma(tail, f, acc);
      }
      assert Scan(tail, false, "", acc') == acc' + TrimAll(more) by {
        ScanQuotedFields(more, acc');
      }
      assert acc' + TrimAll(more) == acc + TrimAll(fields) by {
        TrimAllTail(fields);
        assert acc' + TrimAll(more) == acc + ([Trim(f)] + TrimAll(more));
      }
    }
  }

  /** Reading back a line written with every field quoted gives the fields,
      trimmed: commas inside quotes stay in the field, a doubled quote reads
      as one quote and the delimiting quotes never appear. */
  lemma ParseQuotedLine(fields: seq<string>)
    requires |fields| >= 1
    ensures ParseLine(Join(QuoteAll(fields), ',')) == TrimAll(fields)
  {
    ScanQuotedFields(fields, []);
  }

  /** For fields without surrounding white space the round trip is exact. */
  lemma ParseQuotedLineExact(fields: seq<string>)
    requires |fields| >= 1
    requires forall i :: 0 <= i < |fields| ==> Trimmed(fields[i])
    ensures ParseLine(Join(QuoteAll(fields), ',')) == fields
  {
    ParseQuotedLine(fields);
    forall i | 0 <= i < |fields| ensures TrimAll(fields)[i] == fields[i] {
      TrimOfTrimmed(fields[i]);
    }
  }

  // ---------------------------------------------------------------------
  // Records

  /** `values[index] ?? ''`. */
  function ValueAt(values: seq<string>, index: int): string {
    if 0 <= index < |values| then values[index] else ""
  }

  /** The record after the forEach has visited the first n headers; an empty
      header is skipped and a repeated header is overwritten. */
  function RecordUpTo(headers: seq<string>, values: seq<string>, n: nat): map<string, string>
    requires n <= |headers|
  {
    if n == 0 then map[]
    else
      var m := RecordUpTo(headers, values, n - 1);
      if headers[n - 1] != "" then m[headers[n - 1] := ValueAt(values, n - 1)] else m
  }

  function Record(headers: seq<string>, values: seq<string>): map<string, string> {
    RecordUpTo(headers, values, |headers|)
  }

  /** The forEach over the headers. */
  method BuildRecord(headers: seq<string>, values: seq<string>) returns (obj: map<string, string>)
    ensures obj == Record(headers, values)
  {
    obj := map[];
    var index := 0;
    while index < |headers|
      invariant 0 <= index <= |headers|
      invariant obj == RecordUpTo(headers, values, index)
    {
      var header := headers[index];
      if header != "" {
        obj := obj[header := ValueAt(values, index)];
      }
      index := index + 1;
    }
  }

  lemma {:induction false} RecordUpToKeys(headers: seq<string>, values: seq<string>, n: nat)
    requires n <= |headers|
    ensures RecordUpTo(headers, values, n).Keys == set j | 0 <= j < n && headers[j] != "" :: headers[j]
  {
    if n > 0 {
      RecordUpToKeys(headers, values, n - 1);
      var before := set j | 0 <= j < n - 1 && headers[j] != "" :: headers[j];
      var after := set j | 0 <= j < n && headers[j] != "" :: headers[j];
      if headers[n - 1] != "" {
        assert after == before + {headers[n - 1]};
      } else {
        assert after == before;
      }
    }
  }

  lemma {:induction false} RecordUpToValues(headers: seq<string>, values: seq<string>, n: nat)
    requires n <= |headers|
    ensures forall j :: 0 <= j < n && headers[j] != ""
              && (forall k :: j < k < n ==> headers[k] != headers[j])
              ==> headers[j] in RecordUpTo(headers, values, n) && RecordUpTo(headers, values, n)[headers[j]] == ValueAt(values, j)
  {
    if n > 0 {
      RecordUpToValues(headers, values, n - 1);
    }
  }

  /** A record has exactly the non-empty headers as keys, and each header
      holds the value in its column (the last such column when a header
      repeats), or '' when the line is shorter than the header line. */
  lemma RecordShape(headers: seq<string>, values: seq<string>, j: int)
    requires 0 <= j < |headers| && headers[j] != ""
    requires forall k :: j < k < |headers| ==> headers[k] != headers[j]
    ensures Record(headers, values).Keys == set i | 0 <= i < |headers| && headers[i] != "" :: headers[i]
    ensures Record(headers, values)[headers[j]] == ValueAt(values, j)
  {
    RecordUpToKeys(headers, values, |headers|);
    RecordUpToValues(headers, values, |headers|);
  }

  // ---------------------------------------------------------------------
  // The endpoint

  datatype Upstream = NetworkError | Reply(ok: bool, text: string)

  /** `{ data }` with status 200, or `{ error }` with status 500. */
  datatype Response = Ok(data: seq<map<string, string>>) | Failed(error: string)

  const FailureMessage := "Failed to fetch data"

  predicate NotBlank(row: string) { Trim(row) != "" }

  /** Lines of the body that are not blank. */
  function Rows(text: string): seq<string> {
    Filter(Split(text, '\n'), NotBlank)
  }

  function Export(up: Upstream): Response {
    match up
    case NetworkError => Failed(FailureMessage)
    case Reply(ok, text) =>
      if !ok then Failed(FailureMessage)
      else
        var rows := Rows(text);
        if rows == [] then Failed(FailureMessage)
        else
          Ok(Records(ParseLine(rows[0]), rows[1..]))
  }

  /** One record per line, in order. */
  function Records(headers: seq<string>, lines: seq<string>): (r: seq<map<string, string>>)
    ensures |r| == |lines|
  {
    if lines == [] then []
    else Records(headers, lines[..|lines| - 1]) + [Record(headers, ParseLine(lines[|lines| - 1]))]
  }

  /** The GET handler: the rows are mapped one by one to records. */
  method HandleGet(up: Upstream) returns (resp: Response)
    ensures resp == Export(up)
  {
    if up.NetworkError? || !up.ok {
      return Failed(FailureMessage);
    }
    var rows := Rows(up.text);
    if rows == [] {
      return Failed(FailureMessage);
    }
    var headers := ParseCsvLine(rows[0]);
    var data: seq<map<string, string>> := [];
    var i := 1;
    while i < |rows|
      invariant 1 <= i <= |rows|
      invariant data == Records(headers, rows[1..i])
    {
      var values := ParseCsvLine(rows[i]);
      var obj := BuildRecord(headers, values);
      assert Records(headers, rows[1..i + 1]) == data + [obj] by {
        var next := rows[1..i + 1];
        assert next[..|next| - 1] == rows[1..i] && next[|next| - 1] == rows[i];
      }
      data := data + [obj];
      i := i + 1;
    }
    assert rows[1..i] == rows[1..];
    assert Export(up) == Ok(Records(headers, rows[1..]));
    resp := Ok(data);
  }

  lemma {:induction false} RecordsAt(headers: seq<string>, lines: seq<string>, i: int)
    requires 0 <= i < |lines|
    ensures Records(headers, lines)[i] == Record(headers, ParseLine(lines[i]))
    decreases |lines|
  {
    if i < |lines| - 1 {
      RecordsAt(headers, lines[..|lines| - 1], i);
    }
  }

  /** The record keys are the non-empty headers. */
  lemma RecordKeys(headers: seq<string>, values: seq<string>)
    ensures Record(headers, values).Keys == set h | h in headers && h != ""
  {
    RecordUpToKeys(headers, values, |headers|);
    RecordUpToValues(headers, values, |headers|);
    var a := set j | 0 <= j < |headers| && headers[j] != "" :: headers[j];
    var b := set h | h in headers && h != "";
    forall h | h in b ensures h in a {
      var j :| 0 <= j < |headers| && headers[j] == h;
    }
  }

  /** The endpoint fails exactly when the upstream cannot be reached, answers
      with an error status, or sends no non-blank line (the header line is
      then missing); otherwise it returns one record per line after the
      header line, keyed by the non-empty headers. */
  lemma ExportOutcome(up: Upstream)
    ensures Export(up).Failed? <==> up.NetworkError? || !up.ok || Rows(up.text) == []
    ensures Export(up).Failed? ==> Export(up).error == FailureMessage
    ensures Export(up).Ok? ==>
              var rows := Rows(up.text);
              |Export(up).data| == |rows| - 1
              && forall i :: 0 <= i < |rows| - 1 ==>
                   Export(up).data[i] == Record(ParseLine(rows[0]), ParseLine(rows[i + 1]))
                   && Export(up).data[i].Keys == set h | h in ParseLine(rows[0]) && h != ""
  {
    if Export(up).Ok? {
      var rows := Rows(up.text);
      var headers := ParseLine(rows[0]);
      forall i | 0 <= i < |rows| - 1
        ensures Export(up).data[i] == Record(headers, ParseLine(rows[i + 1]))
        ensures Export(up).data[i].Keys == set h | h in headers && h != ""
      {
        RecordsAt(headers, rows[1..], i);
        RecordKeys(headers, ParseLine(rows[i + 1]));
      }
    }
  }

  /** No line that becomes a record is blank. */
  lemma RowsNotBlank(text: string)
    ensures forall r :: r in Rows(text) ==> Trim(r) != ""
    ensures |Rows(text)| <= CountChar(text, '\n') + 1
  {
    FilterMembers(Split(text, '\n'), NotBlank);
  }
}
