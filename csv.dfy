/**
  * The CSV reader of the reference-data builder (scripts/build-duke-reference.js).
  * A line is scanned one character at a time with the quoting rules of section 2 of
  * RFC 4180 (a field may be enclosed in double quotes, inside which a comma does not
  * separate and a doubled quote stands for one quote); a quoted field may not span
  * lines. A file is split into lines, the first line gives the headers and every
  * non-blank line after it becomes a row that maps each header to a trimmed value.
  */
module Csv {
  import opened Text
  import opened Collections

  /** One parsed record: trimmed header name to trimmed field value. */
  type Row = map<string, string>

  /**
    * The line scanner. `i` is the next character, `inQuotes` whether a quoted section
    * is open, `current` the field being read and `fields` the fields already finished.
    */
  function Scan(line: string, i: nat, inQuotes: bool, current: string, fields: seq<string>): (r: seq<string>)
    requires i <= |line|
    ensures |r| > |fields|
    decreases |line| - i
  {
    if i == |line| then fields + [current]
    else
      var ch := line[i];
      if inQuotes then
        if ch == '"' then
          if i + 1 < |line| && line[i + 1] == '"' then Scan(line, i + 2, true, current + ['"'], fields)
          else Scan(line, i + 1, false, current, fields)
        else Scan(line, i + 1, true, current + [ch], fields)
      else if ch == '"' then Scan(line, i + 1, true, current, fields)
      else if ch == ',' then Scan(line, i + 1, false, "", fields + [current])
      else Scan(line, i + 1, false, current + [ch], fields)
  }

  /** The fields of one line. */
  function Fields(line: string): (r: seq<string>)
    ensures |r| >= 1
  {
    Scan(line, 0, false, "", [])
  }

  /** `parseCSVLine`: the loop over the characters of the line. */
  method ParseLine(line: string) returns (fields: seq<string>)
    ensures fields == Fields(line)
  {
    fields := [];
    var current := "";
    var inQuotes := false;
    var i := 0;
    while i < |line|
      invariant 0 <= i <= |line|
      invariant Scan(line, i, inQuotes, current, fields) == Fields(line)
    {
      var ch := line[i];
      if inQuotes {
        if ch == '"' {
          if i + 1 < |line| && line[i + 1] == '"' {
            current := current + ['"'];
            i := i + 1;
          } else {
            inQuotes := false;
          }
        } else {
          current := current + [ch];
        }
      } else if ch == '"' {
        inQuotes := true;
      } else if ch == ',' {
        fields := fields + [current];
        current := "";
      } else {
        current := current + [ch];
      }
      i := i + 1;
    }
    fields := fields + [current];
  }

  // ---- Writing a line, and reading it back ----

  /** The content of a quoted field: every quote doubled. */
  function Escape(f: string): (r: string)
    ensures |r| >= |f|
  {
    if f == [] then [] else (if f[0] == '"' then "\"\"" else [f[0]]) + Escape(f[1..])
  }

  function Quote(f: string): string {
    "\"" + Escape(f) + "\""
  }

  /** A line whose every field is quoted and escaped. */
  function EncodeQuoted(fs: seq<string>): string
    requires |fs| >= 1
  {
    if |fs| == 1 then Quote(fs[0]) else Quote(fs[0]) + "," + EncodeQuoted(fs[1..])
  }

  /** Scanning an escaped field up to its closing quote yields the field itself. */
  lemma {:induction false} ScanEscaped(line: string, i: nat, f: string, cur: string, acc: seq<string>)
    requires i + |Escape(f)| < |line|
    requires line[i..i + |Escape(f)|] == Escape(f)
    requires line[i + |Escape(f)|] == '"'
    requires i + |Escape(f)| + 1 == |line| || line[i + |Escape(f)| + 1] != '"'
    ensures Scan(line, i, true, cur, acc) == Scan(line, i + |Escape(f)| + 1, false, cur + f, acc)
    decreases |f|
  {
    var e := Escape(f);
    if f == [] {
      assert cur + f == cur;
    } else {
      var e' := Escape(f[1..]);
      if f[0] == '"' {
        assert e == "\"\"" + e';
        assert line[i] == e[0] && line[i + 1] == e[1];
        assert line[i + 2..i + 2 + |e'|] == e[2..];
        ScanEscaped(line, i + 2, f[1..], cur + ['"'], acc);
        assert cur + ['"'] + f[1..] == cur + f;
      } else {
        assert e == [f[0]] + e';
        assert line[i] == e[0];
        assert line[i + 1..i + 1 + |e'|] == e[1..];
        ScanEscaped(line, i + 1, f[1..], cur + [f[0]], acc);
        assert cur + [f[0]] + f[1..] == cur + f;
      }
    }
  }

  /** The positions of a sequence that holds `[q] + e + [q] + rest` from `i` on. */
  lemma Enclosed<T>(line: seq<T>, i: nat, q: T, e: seq<T>, rest: seq<T>)
    requires i <= |line| && line[i..] == [q] + e + [q] + rest
    ensures i + |e| + 1 < |line| && line[i] == q && line[i + 1 + |e|] == q
    ensures line[i + 1..i + 1 + |e|] == e && line[i + |e| + 2..] == rest
  {
    assert line[i..][0] == q;
    assert line[i..][1..1 + |e|] == e;
    assert line[i..][1 + |e|] == q;
    assert line[i..][|e| + 2..] == rest;
  }

  /** Where the first quoted field of an encoded line sits: its opening quote, its escaped content, its closing quote, then the rest. */
  lemma EncodedLayout(line: string, i: nat, fs: seq<string>) returns (rest: string)
    requires |fs| >= 1 && i <= |line|
    requires line[i..] == EncodeQuoted(fs)
    ensures rest == if |fs| == 1 then "" else "," + EncodeQuoted(fs[1..])
    ensures var e := Escape(fs[0]);
      && i + |e| + 1 < |line| && line[i] == '"'
      && line[i + 1..i + 1 + |e|] == e
      && line[i + 1 + |e|] == '"'
      && line[i + |e| + 2..] == rest
  {
    rest := EncodedFirst(fs);
    Enclosed(line, i, '"', Escape(fs[0]), rest);
  }

  /** An encoded line is the first field between quotes, then the rest. */
  lemma EncodedFirst(fs: seq<string>) returns (rest: string)
    requires |fs| >= 1
    ensures rest == if |fs| == 1 then "" else "," + EncodeQuoted(fs[1..])
    ensures EncodeQuoted(fs) == ['"'] + Escape(fs[0]) + ['"'] + rest
  {
    rest := if |fs| == 1 then "" else "," + EncodeQuoted(fs[1..]);
  }

  /** A quote outside a quoted section opens one. */
  lemma ScanOpen(line: string, i: nat, cur: string, acc: seq<string>)
    requires i < |line| && line[i] == '"'
    ensures Scan(line, i, false, cur, acc) == Scan(line, i + 1, true, cur, acc)
  {
  }

  /** A comma outside a quoted section ends the field. */
  lemma ScanComma(line: string, i: nat, cur: string, acc: seq<string>)
    requires i < |line| && line[i] == ','
    ensures Scan(line, i, false, cur, acc) == Scan(line, i + 1, false, "", acc + [cur])
  {
  }

  lemma {:induction false} ScanEncoded(line: string, i: nat, fs: seq<string>, acc: seq<string>)
    requires |fs| >= 1 && i <= |line|
    requires line[i..] == EncodeQuoted(fs)
    ensures Scan(line, i, false, "", acc) == acc + fs
    decreases |fs|
  {
    var rest := EncodedLayout(line, i, fs);
    var j := i + |Escape(fs[0])| + 2;
    ScanOpen(line, i, "", acc);
    ScanEscaped(line, i + 1, fs[0], "", acc);
    assert "" + fs[0] == fs[0];
    if |fs| > 1 {
      var tail := EncodeQuoted(fs[1..]);
      PrefixAt(line, j, ",", tail);
      ScanComma(line, j, fs[0], acc);
      ScanEncoded(line, j + 1, fs[1..], acc + [fs[0]]);
      AppendAssoc(acc, [fs[0]], fs[1..]);
    } else {
      assert [fs[0]] == fs;
    }
  }

  /** Quoting every field and reading the line back gives the fields back, whatever they hold. */
  lemma QuotedRoundTrip(fs: seq<string>)
    requires |fs| >= 1
    ensures Fields(EncodeQuoted(fs)) == fs
  {
    var line := EncodeQuoted(fs);
    assert line[0..] == line;
    ScanEncoded(line, 0, fs, []);
  }

  /** Without any quote character the scanner is the plain split on commas. */
  lemma {:induction false} ScanUnquoted(line: string, i: nat, cur: string, acc: seq<string>)
    requires i <= |line|
    requires '"' !in line[i..]
    ensures Scan(line, i, false, cur, acc) == acc + [cur + Split(line[i..], ',')[0]] + Split(line[i..], ',')[1..]
    decreases |line| - i
  {
    var sp := Split(line[i..], ',');
    if i == |line| {
      assert line[i..] == [];
      assert cur + "" == cur;
    } else {
      assert line[i..][1..] == line[i + 1..];
      assert line[i] == line[i..][0];
      var rest := Split(line[i + 1..], ',');
      if line[i] == ',' {
        ScanUnquoted(line, i + 1, "", acc + [cur]);
        assert "" + rest[0] == rest[0];
        assert sp == [""] + rest;
        assert cur + sp[0] == cur;
        assert sp[1..] == rest;
        assert acc + [cur] + [rest[0]] + rest[1..] == acc + [cur] + rest;
      } else {
        ScanUnquoted(line, i + 1, cur + [line[i]], acc);
        assert sp == [[line[i]] + rest[0]] + rest[1..];
        assert cur + [line[i]] + rest[0] == cur + sp[0];
      }
    }
  }

  /** A line without quotes is split at every comma, so it has one more field than commas. */
  lemma UnquotedIsSplit(line: string)
    requires '"' !in line
    ensures Fields(line) == Split(line, ',')
    ensures |Fields(line)| == Count(line, ',') + 1
  {
    assert line[0..] == line;
    ScanUnquoted(line, 0, "", []);
    var sp := Split(line, ',');
    assert "" + sp[0] == sp[0];
    assert [] + [sp[0]] + sp[1..] == sp;
    SplitPieces(line, ',');
  }

  /** No two quote characters in a row anywhere in the line. */
  predicate NoDoubledQuote(line: string) {
    forall k :: 0 <= k < |line| - 1 ==> !(line[k] == '"' && line[k + 1] == '"')
  }

  lemma {:induction false} ScanNoQuote(line: string, i: nat, q: bool, cur: string, acc: seq<string>)
    requires i <= |line| && NoDoubledQuote(line)
    requires '"' !in cur && forall k :: 0 <= k < |acc| ==> '"' !in acc[k]
    ensures forall k :: 0 <= k < |Scan(line, i, q, cur, acc)| ==> '"' !in Scan(line, i, q, cur, acc)[k]
    decreases |line| - i
  {
    if i < |line| {
      var ch := line[i];
      if q && ch == '"' {
        ScanNoQuote(line, i + 1, false, cur, acc);
      } else if q {
        ScanNoQuote(line, i + 1, true, cur + [ch], acc);
      } else if ch == '"' {
        ScanNoQuote(line, i + 1, true, cur, acc);
      } else if ch == ',' {
        ScanNoQuote(line, i + 1, false, "", acc + [cur]);
      } else {
        ScanNoQuote(line, i + 1, false, cur + [ch], acc);
      }
    }
  }

  /** A quote character reaches a field only through a doubled quote in the line. */
  lemma QuotesOnlyFromDoubled(line: string)
    requires NoDoubledQuote(line)
    ensures forall k :: 0 <= k < |Fields(line)| ==> '"' !in Fields(line)[k]
  {
    ScanNoQuote(line, 0, false, "", []);
  }

  /**
    * The commas from position `i` on that stand outside quotes, starting inside a quoted
    * section when `inQuotes`: a quote opens a section, a lone quote inside one closes it, and
    * a doubled quote inside one is a literal quote.
    */
  function CommasOutside(line: string, i: nat, inQuotes: bool): nat
    requires i <= |line|
    decreases |line| - i
  {
    if i == |line| then 0
    else if inQuotes then
      if line[i] != '"' then CommasOutside(line, i + 1, true)
      else if i + 1 < |line| && line[i + 1] == '"' then CommasOutside(line, i + 2, true)
      else CommasOutside(line, i + 1, false)
    else if line[i] == '"' then CommasOutside(line, i + 1, true)
    else (if line[i] == ',' then 1 else 0) + CommasOutside(line, i + 1, false)
  }

  lemma {:induction false} ScanCount(line: string, i: nat, q: bool, cur: string, acc: seq<string>)
    requires i <= |line|
    ensures |Scan(line, i, q, cur, acc)| == |acc| + CommasOutside(line, i, q) + 1
    decreases |line| - i
  {
    if i < |line| {
      var ch := line[i];
      if q {
        if ch != '"' {
          ScanCount(line, i + 1, true, cur + [ch], acc);
        } else if i + 1 < |line| && line[i + 1] == '"' {
          ScanCount(line, i + 2, true, cur + ['"'], acc);
        } else {
          ScanCount(line, i + 1, false, cur, acc);
        }
      } else if ch == '"' {
        ScanCount(line, i + 1, true, cur, acc);
      } else if ch == ',' {
        ScanCount(line, i + 1, false, "", acc + [cur]);
      } else {
        ScanCount(line, i + 1, false, cur + [ch], acc);
      }
    }
  }

  /** A line has one more field than it has commas outside quotes. */
  lemma FieldCount(line: string)
    ensures |Fields(line)| == CommasOutside(line, 0, false) + 1
  {
    ScanCount(line, 0, false, "", []);
  }

  // ---- Files ----

  /** `(values[idx] || "")`: a field the line is too short to have is the empty string. */
  function ValueAt(values: seq<string>, idx: nat): string {
    if idx < |values| then values[idx] else ""
  }

  /** The trimmed field of every header position: `(values[idx] || "").trim()`. */
  function Cells(values: seq<string>, n: nat): (r: seq<string>)
    ensures |r| == n
    ensures forall k :: 0 <= k < n ==> r[k] == Trim(ValueAt(values, k))
  {
    seq(n, k requires 0 <= k < n => Trim(ValueAt(values, k)))
  }

  /** Each key maps to the value in its position, assigned left to right, so a later position overwrites. */
  function Assign<V>(keys: seq<string>, vals: seq<V>): (r: map<string, V>)
    requires |keys| == |vals|
    ensures r.Keys == set h | h in keys
    ensures forall h :: h in r ==> r[h] in vals
    decreases |keys|
  {
    if keys == [] then map[]
    else
      var n := |keys| - 1;
      var r := Assign(keys[..n], vals[..n])[keys[n] := vals[n]];
      assert forall h :: h in keys <==> h in keys[..n] || h == keys[n] by {
        assert keys == keys[..n] + [keys[n]];
      }
      assert forall v :: v in vals[..n] ==> v in vals;
      r
  }

  /** A key gets the value of its last position. */
  lemma {:induction false} AssignValue<V>(keys: seq<string>, vals: seq<V>, idx: nat)
    requires |keys| == |vals| && idx < |keys|
    requires keys[idx] !in keys[idx + 1..]
    ensures Assign(keys, vals)[keys[idx]] == vals[idx]
    decreases |keys|
  {
    var n := |keys| - 1;
    if idx < n {
      var pre := keys[..n];
      assert keys[idx + 1..] == pre[idx + 1..] + [keys[n]];
      AssignValue(pre, vals[..n], idx);
    }
  }

  /**
    * The row built from the headers and the fields of one line: every header maps to the
    * trimmed field in its position; a header that repeats keeps its last position's field.
    */
  function RowOf(headers: seq<string>, values: seq<string>): (r: Row)
    ensures r.Keys == set h | h in headers
    ensures forall h :: h in r ==> IsTrimmed(r[h])
  {
    Assign(headers, Cells(values, |headers|))
  }

  /** The field a header gets is the one at its last position, trimmed, or "" when the line is short. */
  lemma RowOfValue(headers: seq<string>, values: seq<string>, idx: nat)
    requires idx < |headers| && headers[idx] !in headers[idx + 1..]
    ensures RowOf(headers, values)[headers[idx]] == Trim(ValueAt(values, idx))
    ensures idx >= |values| ==> RowOf(headers, values)[headers[idx]] == ""
  {
    AssignValue(headers, Cells(values, |headers|), idx);
  }

  /** Assigning one more position. */
  lemma AssignSnoc<V>(keys: seq<string>, vals: seq<V>, idx: nat)
    requires |keys| == |vals| && idx < |keys|
    ensures Assign(keys[..idx + 1], vals[..idx + 1]) == Assign(keys[..idx], vals[..idx])[keys[idx] := vals[idx]]
  {
    assert keys[..idx + 1][..idx] == keys[..idx];
    assert vals[..idx + 1][..idx] == vals[..idx];
  }

  /** `headers.forEach((h, idx) => row[h] = ...)`. */
  method BuildRow(headers: seq<string>, values: seq<string>) returns (row: Row)
    ensures row == RowOf(headers, values)
  {
    ghost var cells := Cells(values, |headers|);
    row := map[];
    for idx := 0 to |headers|
      invariant row == Assign(headers[..idx], cells[..idx])
    {
      AssignSnoc(headers, cells, idx);
      row := row[headers[idx] := Trim(ValueAt(values, idx))];
    }
    assert headers[..|headers|] == headers && cells[..|headers|] == cells;
  }

  /** A line with something other than white space on it. */
  predicate NonBlank(line: string) {
    Trim(line) != ""
  }

  /** The row one non-blank line gives. */
  function LineRow(headers: seq<string>, line: string): Row {
    RowOf(headers, Fields(Trim(line)))
  }

  /** The rows of the lines after the header line, skipping blank ones. */
  function DataRows(headers: seq<string>, lines: seq<string>): seq<Row>
    decreases |lines|
  {
    if lines == [] then []
    else if !NonBlank(lines[0]) then DataRows(headers, lines[1..])
    else [LineRow(headers, lines[0])] + DataRows(headers, lines[1..])
  }

  function HeadersOf(lines: seq<string>): (hs: seq<string>)
    requires |lines| >= 1
    ensures forall k :: 0 <= k < |hs| ==> IsTrimmed(hs[k])
  {
    var raw := Fields(lines[0]);
    seq(|raw|, k requires 0 <= k < |raw| => Trim(raw[k]))
  }

  /** The table a file's content holds. */
  function Table(content: string): seq<Row> {
    var lines := Split(content, '\n');
    DataRows(HeadersOf(lines), lines[1..])
  }

  /** `parseCSV`, with the file's content as the parameter instead of its path. */
  method ParseCsv(content: string) returns (rows: seq<Row>)
    ensures rows == Table(content)
  {
    var lines := Split(content, '\n');
    var raw := ParseLine(lines[0]);
    var headers := seq(|raw|, k requires 0 <= k < |raw| => Trim(raw[k]));
    assert headers == HeadersOf(lines);
    rows := ReadRows(headers, lines);
  }

  /** The loop of `parseCSV` over the lines after the header line. */
  method ReadRows(headers: seq<string>, lines: seq<string>) returns (rows: seq<Row>)
    requires |lines| >= 1
    ensures rows == DataRows(headers, lines[1..])
  {
    rows := [];
    var i := 1;
    while i < |lines|
      invariant 1 <= i <= |lines|
      invariant rows + DataRows(headers, lines[i..]) == DataRows(headers, lines[1..])
    {
      DataRowsStep(headers, lines, i);
      var line := Trim(lines[i]);
      if line != "" {
        var values := ParseLine(line);
        var row := BuildRow(headers, values);
        AppendAssoc(rows, [row], DataRows(headers, lines[i + 1..]));
        rows := rows + [row];
      }
      i := i + 1;
    }
    assert rows + [] == rows;
  }

  lemma DataRowsStep(headers: seq<string>, lines: seq<string>, i: nat)
    requires i < |lines|
    ensures DataRows(headers, lines[i..]) ==
      (if NonBlank(lines[i]) then [LineRow(headers, lines[i])] else []) + DataRows(headers, lines[i + 1..])
  {
    assert lines[i..][1..] == lines[i + 1..];
  }

  /**
    * The rows are exactly the non-blank lines, in order, each read with the same headers:
    * blank and white-space-only lines are dropped and nothing else is.
    */
  lemma {:induction false} DataRowsAreNonBlankLines(headers: seq<string>, lines: seq<string>)
    ensures |DataRows(headers, lines)| == |Keep(lines, NonBlank)|
    ensures forall k :: 0 <= k < |DataRows(headers, lines)| ==>
      DataRows(headers, lines)[k] == LineRow(headers, Keep(lines, NonBlank)[k])
  {
    var g := line => LineRow(headers, line);
    DataRowsKeepMap(headers, lines, g);
    KeepMapIndex(lines, NonBlank, g);
    var rows := DataRows(headers, lines);
    var kept := Keep(lines, NonBlank);
    forall k | 0 <= k < |rows| ensures rows[k] == LineRow(headers, kept[k]) {
      assert rows[k] == g(kept[k]);
    }
  }

  lemma {:induction false} DataRowsKeepMap(headers: seq<string>, lines: seq<string>, g: string -> Row)
    requires forall line :: g(line) == LineRow(headers, line)
    ensures DataRows(headers, lines) == KeepMap(lines, NonBlank, g)
    decreases |lines|
  {
    if lines != [] {
      DataRowsKeepMap(headers, lines[1..], g);
    }
  }

  /** Every row of a table has exactly the header names as keys, and trimmed values. */
  lemma {:induction false} TableRowsShape(headers: seq<string>, lines: seq<string>, row: Row)
    requires row in DataRows(headers, lines)
    ensures row.Keys == (set h | h in headers)
    ensures forall h :: h in row ==> IsTrimmed(row[h])
    decreases |lines|
  {
    if !NonBlank(lines[0]) || row != LineRow(headers, lines[0]) {
      TableRowsShape(headers, lines[1..], row);
    }
  }
}
