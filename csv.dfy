/** The CSV reader of the dashboard: `parseCSVData` and its line splitter
    `parseCSVLine` (Website.js:30-113). */
module Csv {
  import opened Text
  import opened Numbers

  // ----- One line -----

  /** Where the line splitter stands after a prefix of the line: the fields
      seen so far, the last of them still being built, and whether it is
      inside a quoted stretch. */
  datatype LexState = LexState(fields: seq<string>, inQuotes: bool)

  /** The splitter's reaction to one character: a quote toggles the quoted
      state and is dropped, a comma outside quotes closes the field, anything
      else extends the current field. */
  function LexStep(st: LexState, c: char): LexState
    requires |st.fields| >= 1
  {
    var n := |st.fields|;
    if c == '"' then st.(inQuotes := !st.inQuotes)
    else if c == ',' && !st.inQuotes then st.(fields := st.fields + [""])
    else st.(fields := st.fields[..n - 1] + [st.fields[n - 1] + [c]])
  }

  /** The splitter's state after reading all of `s` from the start. */
  function Lex(s: string): (st: LexState)
    ensures |st.fields| >= 1
  {
    if s == [] then LexState([""], false) else LexStep(Lex(s[..|s| - 1]), s[|s| - 1])
  }

  /** The commas of `s` that stand after an even number of quotes, that is,
      outside every quoted stretch. */
  function UnquotedCommas(s: string): nat {
    if s == [] then 0
    else
      var init := s[..|s| - 1];
      UnquotedCommas(init) + (if s[|s| - 1] == ',' && Count(init, '"') % 2 == 0 then 1 else 0)
  }

  /** `parseCSVLine`: one pass over the characters, pushing the current value
      at every comma outside quotes and once more at the end. */
  method ParseCsvLine(line: string) returns (result: seq<string>)
    ensures result == Lex(line).fields
  {
    var fields: seq<string> := [];
    var inQuotes := false;
    var currentValue := "";
    for i := 0 to |line|
      invariant Lex(line[..i]) == LexState(fields + [currentValue], inQuotes)
    {
      var c := line[i];
      assert line[..i + 1][..i] == line[..i];
      if c == '"' {
        inQuotes := !inQuotes;
      } else if c == ',' && !inQuotes {
        fields := fields + [currentValue];
        currentValue := "";
      } else {
        currentValue := currentValue + [c];
      }
    }
    assert line[..|line|] == line;
    result := fields + [currentValue];
  }

  /** The splitter is inside quotes exactly after an odd number of quotes. */
  lemma {:induction false} LexQuoteParity(s: string)
    ensures Lex(s).inQuotes <==> Count(s, '"') % 2 == 1
  {
    if s != [] {
      LexQuoteParity(s[..|s| - 1]);
    }
  }

  /** The splitter makes one field more than there are commas outside quotes. */
  lemma {:induction false} LexFieldCount(s: string)
    ensures |Lex(s).fields| == 1 + UnquotedCommas(s)
  {
    if s != [] {
      var init := s[..|s| - 1];
      LexFieldCount(init);
      LexQuoteParity(init);
    }
  }

  /** No field keeps a quote. */
  lemma {:induction false} LexFieldsQuoteFree(s: string)
    ensures forall k :: 0 <= k < |Lex(s).fields| ==> '"' !in Lex(s).fields[k]
  {
    if s != [] {
      LexFieldsQuoteFree(s[..|s| - 1]);
    }
  }

  /** The fields joined by commas give back the line with its quotes
      deleted: no other character is lost, added or moved. */
  lemma {:induction false} LexJoin(s: string)
    ensures Join(Lex(s).fields, ',') == Remove(s, {'"'})
  {
    if s == [] {
      assert Remove(s, {'"'}) == [];
    } else {
      var init, c := s[..|s| - 1], s[|s| - 1];
      assert s == init + [c];
      LexJoin(init);
      RemoveSnoc(init, c, {'"'});
      var st := Lex(init);
      assert Lex(s) == LexStep(st, c);
      if c == '"' {
        assert Lex(s).fields == st.fields;
      } else if c == ',' && !st.inQuotes {
        assert Lex(s).fields == st.fields + [""];
        JoinSnoc(st.fields, "", ',');
      } else {
        var n := |st.fields|;
        assert Lex(s).fields == st.fields[..n - 1] + [st.fields[n - 1] + [c]];
        JoinExtendLast(st.fields, c, ',');
      }
    }
  }

  /** A line without quotes is split at every comma, like `split(',')`. */
  lemma {:induction false} LexWithoutQuotes(s: string)
    requires '"' !in s
    ensures Lex(s) == LexState(Split(s, ','), false)
  {
    if s != [] {
      var init := s[..|s| - 1];
      LexWithoutQuotes(init);
    }
  }

  // ----- Cells -----

  /** A parsed cell: text, or a number (which may be NaN for a percentage
      cell that does not hold a number). */
  datatype Cell = TextCell(text: string) | NumberCell(number: JsNumber)

  /** A parsed row: header to cell. */
  type Entry = map<string, Cell>

  /** The columns whose cells are coerced to numbers. */
  const ValueColumns: set<string> := {"Actual", "Forecast", "YTD Actual Totals", "YTD Forecast Totals"}

  /** `replace(/^"|"$/g, '')`: one leading and one trailing quote go. */
  function StripEdgeQuotes(v: string): string {
    var w := if v != [] && v[0] == '"' then v[1..] else v;
    if w != [] && w[|w| - 1] == '"' then w[..|w| - 1] else w
  }

  /** The number read from a value cell: as a percentage when the text
      holds `%`, as a plain number otherwise. */
  function ValueOf(value: string): (n: JsNumber)
    ensures n == NaN ==> '%' in value
  {
    if '%' in value then ParsePercentage(value) else Num(ParseNumericValue(value))
  }

  /** A field as the reader stores it: trimmed, then edge-unquoted. */
  function CleanField(raw: string): string {
    StripEdgeQuotes(Trim(raw))
  }

  /** The cell stored for `raw` under `header`: the cleaned text, read as a
      number in a value column. */
  function Coerce(header: string, raw: string): Cell {
    var value := CleanField(raw);
    if header == "Month" then TextCell(value)
    else if header in ValueColumns then NumberCell(ValueOf(value))
    else TextCell(value)
  }

  /** Which columns give numbers: exactly the value columns, "Month" not among them. */
  lemma CoerceKind(header: string, raw: string)
    ensures Coerce(header, raw).NumberCell? <==> header in ValueColumns
  {
  }

  /** A field straight from the splitter holds no quote, so the edge-quote
      removal never changes it: it is stored trimmed. */
  lemma CleanQuoteFree(raw: string)
    requires '"' !in raw
    ensures CleanField(raw) == Trim(raw)
  {
    TrimInside(raw, '"');
    var t := Trim(raw);
    assert t != [] ==> t[0] != '"' && t[|t| - 1] != '"';
  }

  /** A field from the splitter is stored trimmed, and read as a number in
      a value column. */
  lemma CoerceField(header: string, raw: string)
    requires '"' !in raw
    ensures Coerce(header, raw) ==
            if header in ValueColumns then NumberCell(ValueOf(Trim(raw))) else TextCell(Trim(raw))
  {
    var v := CleanField(raw);
    CleanQuoteFree(raw);
    CoerceKind(header, raw);
    if header in ValueColumns {
      assert Coerce(header, raw) == NumberCell(ValueOf(v));
    }
  }

  /** The map that stores each cell under its header in order, a later
      header overwriting an earlier one of the same name. */
  function Assign(hs: seq<string>, cs: seq<Cell>): Entry
    requires |hs| == |cs|
  {
    if hs == [] then map[]
    else
      var n := |hs|;
      Assign(hs[..n - 1], cs[..n - 1])[hs[n - 1] := cs[n - 1]]
  }

  /** The keys of the map are the headers, and each key holds the cell of
      some position of that header. */
  lemma {:induction false} AssignKeys(hs: seq<string>, cs: seq<Cell>)
    requires |hs| == |cs|
    ensures forall h :: h in Assign(hs, cs) <==> h in hs
    ensures forall h :: h in Assign(hs, cs) ==> exists k :: 0 <= k < |hs| && hs[k] == h && Assign(hs, cs)[h] == cs[k]
  {
    if hs != [] {
      var n := |hs|;
      AssignKeys(hs[..n - 1], cs[..n - 1]);
      assert hs == hs[..n - 1] + [hs[n - 1]];
      forall h | h in Assign(hs, cs)
        ensures exists k :: 0 <= k < |hs| && hs[k] == h && Assign(hs, cs)[h] == cs[k]
      {
        if h == hs[n - 1] {
          assert hs[n - 1] == h && Assign(hs, cs)[h] == cs[n - 1];
        } else {
          var k :| 0 <= k < n - 1 && hs[..n - 1][k] == h && Assign(hs[..n - 1], cs[..n - 1])[h] == cs[..n - 1][k];
          assert hs[k] == h && Assign(hs, cs)[h] == cs[k];
        }
      }
    }
  }

  /** A header holds the cell of its last position. */
  lemma {:induction false} AssignLastWins(hs: seq<string>, cs: seq<Cell>, j: nat)
    requires |hs| == |cs| && j < |hs| && forall k :: j < k < |hs| ==> hs[k] != hs[j]
    ensures hs[j] in Assign(hs, cs) && Assign(hs, cs)[hs[j]] == cs[j]
  {
    var n := |hs|;
    if j < n - 1 {
      var init := hs[..n - 1];
      forall k | j < k < n - 1
        ensures init[k] != init[j]
      {
        assert init[k] == hs[k];
      }
      assert init[j] == hs[j] && cs[..n - 1][j] == cs[j];
      assert hs[n - 1] != hs[j];
      AssignLastWins(init, cs[..n - 1], j);
    }
  }

  /** The cells of a line: each field coerced under its header. */
  function Cells(hs: seq<string>, vs: seq<string>): (cs: seq<Cell>)
    requires |hs| == |vs|
    ensures |cs| == |hs|
  {
    seq(|hs|, k requires 0 <= k < |hs| => Coerce(hs[k], vs[k]))
  }

  /** The entry built from header/value pairs written in order. */
  function BuildEntry(hs: seq<string>, vs: seq<string>): Entry
    requires |hs| == |vs|
  {
    Assign(hs, Cells(hs, vs))
  }

  /** Building an entry ends by storing the last column under the last header. */
  lemma BuildEntryStep(hs: seq<string>, vs: seq<string>)
    requires |hs| == |vs| && hs != []
    ensures var n := |hs|;
            BuildEntry(hs, vs) == BuildEntry(hs[..n - 1], vs[..n - 1])[hs[n - 1] := Coerce(hs[n - 1], vs[n - 1])]
  {
    var n := |hs|;
    assert Cells(hs, vs)[..n - 1] == Cells(hs[..n - 1], vs[..n - 1]);
  }

  /** An entry has exactly the header names as keys, and holds a number
      exactly under a value column. */
  lemma EntryShape(hs: seq<string>, vs: seq<string>)
    requires |hs| == |vs|
    ensures forall h :: h in BuildEntry(hs, vs) <==> h in hs
    ensures forall h :: h in BuildEntry(hs, vs) ==> (BuildEntry(hs, vs)[h].NumberCell? <==> h in ValueColumns)
  {
    var cs := Cells(hs, vs);
    AssignKeys(hs, cs);
    forall h | h in BuildEntry(hs, vs)
      ensures BuildEntry(hs, vs)[h].NumberCell? <==> h in ValueColumns
    {
      var k :| 0 <= k < |hs| && hs[k] == h && Assign(hs, cs)[h] == cs[k];
      CoerceKind(hs[k], vs[k]);
    }
  }

  /** Each header's cell comes from its last column. */
  lemma EntryLastWins(hs: seq<string>, vs: seq<string>, j: nat)
    requires |hs| == |vs| && j < |hs| && forall k :: j < k < |hs| ==> hs[k] != hs[j]
    ensures hs[j] in BuildEntry(hs, vs) && BuildEntry(hs, vs)[hs[j]] == Coerce(hs[j], vs[j])
  {
    AssignLastWins(hs, Cells(hs, vs), j);
  }

  /** In the entry built from a line, each header at its last column holds
      that column's trimmed field, read as a number in a value column. */
  lemma EntryFromLine(hs: seq<string>, line: string, j: nat)
    requires |Lex(line).fields| == |hs| && j < |hs| && forall k :: j < k < |hs| ==> hs[k] != hs[j]
    ensures var vs := Lex(line).fields;
            hs[j] in BuildEntry(hs, vs) &&
            BuildEntry(hs, vs)[hs[j]] ==
            if hs[j] in ValueColumns then NumberCell(ValueOf(Trim(vs[j]))) else TextCell(Trim(vs[j]))
  {
    var vs := Lex(line).fields;
    LexFieldsQuoteFree(line);
    EntryLastWins(hs, vs, j);
    CoerceField(hs[j], vs[j]);
  }

  // ----- The whole text -----

  /** The lines of the trimmed text. */
  function Lines(csv: string): (ls: seq<string>)
    ensures |ls| >= 1
  {
    Split(Trim(csv), '\n')
  }

  /** Every field with the white space at both of its ends removed. */
  function TrimAll(fs: seq<string>): (ts: seq<string>)
    ensures |ts| == |fs| && forall k :: 0 <= k < |fs| ==> TrimmedFrom(ts[k], fs[k])
  {
    var ts := seq(|fs|, k requires 0 <= k < |fs| => Trim(fs[k]));
    assert forall k :: 0 <= k < |fs| ==> TrimmedFrom(ts[k], fs[k]) by {
      forall k | 0 <= k < |fs| {
        TrimSlice(fs[k]);
      }
    }
    ts
  }

  /** The header names: the first line split and each name trimmed. */
  function Headers(csv: string): seq<string> {
    TrimAll(Lex(Lines(csv)[0]).fields)
  }

  /** There is one header per field of the first line, each that field
      with the white space at both of its ends removed. */
  lemma HeadersTrimmed(csv: string)
    ensures var fs := Lex(Lines(csv)[0]).fields;
            |Headers(csv)| == |fs| && forall k :: 0 <= k < |fs| ==> TrimmedFrom(Headers(csv)[k], fs[k])
  {
  }


  /** The entries of the data lines `ls[1..i]` in order; a line whose field
      count differs from the header count is skipped. */
  function Rows(hs: seq<string>, ls: seq<string>, i: nat): seq<Entry>
    requires i <= |ls|
  {
    if i <= 1 then [] else Rows(hs, ls, i - 1) + LineRow(hs, ls[i - 1])
  }

  /** The entry of one data line, or none when its field count is off. */
  function LineRow(hs: seq<string>, l: string): seq<Entry> {
    var vs := Lex(l).fields;
    if |vs| == |hs| then [BuildEntry(hs, vs)] else []
  }

  /** The result of `parseCSVData`: the entries of every line after the
      header line. */
  function ParseCsv(csv: string): seq<Entry> {
    var ls := Lines(csv);
    Rows(Headers(csv), ls, |ls|)
  }

  /** The inner loop of `parseCSVData`: each header in turn receives its
      coerced value. */
  method MakeEntry(headers: seq<string>, values: seq<string>) returns (entry: Entry)
    requires |headers| == |values|
    ensures entry == BuildEntry(headers, values)
  {
    entry := map[];
    for j := 0 to |headers|
      invariant entry == BuildEntry(headers[..j], values[..j])
    {
      assert headers[..j + 1][..j] == headers[..j];
      assert values[..j + 1][..j] == values[..j];
      BuildEntryStep(headers[..j + 1], values[..j + 1]);
      entry := entry[headers[j] := Coerce(headers[j], values[j])];
    }
    assert headers[..|headers|] == headers && values[..|values|] == values;
  }

  /** `parseCSVData`: the header line, then each data line whose field count
      matches, built into an entry column by column. */
  method ParseCsvData(csv: string) returns (result: seq<Entry>)
    ensures result == ParseCsv(csv)
  {
    var lines := Lines(csv);
    if |lines| <= 1 {
      return [];
    }
    var fields := ParseCsvLine(lines[0]);
    var headers := TrimAll(fields);
    result := DataRows(headers, lines);
  }

  /** The loop over the data lines. */
  method DataRows(headers: seq<string>, lines: seq<string>) returns (result: seq<Entry>)
    requires |lines| >= 1
    ensures result == Rows(headers, lines, |lines|)
  {
    result := [];
    for i := 1 to |lines|
      invariant result == Rows(headers, lines, i)
    {
      var row := LineRowOf(headers, lines[i]);
      result := result + row;
    }
  }

  /** One data line: split it, and build its entry when the field count
      matches the header count. */
  method LineRowOf(headers: seq<string>, line: string) returns (row: seq<Entry>)
    ensures row == LineRow(headers, line)
  {
    var values := ParseCsvLine(line);
    if |values| == |headers| {
      var entry := MakeEntry(headers, values);
      row := [entry];
    } else {
      row := [];
    }
  }

  /** Every row has exactly the header names as keys, at most one row comes
      from each data line, and the value columns hold numbers while every
      other column holds text. */
  lemma {:induction false} RowsShape(hs: seq<string>, ls: seq<string>, i: nat)
    requires i <= |ls|
    ensures i >= 1 ==> |Rows(hs, ls, i)| <= i - 1
    ensures forall r: Entry, h :: r in Rows(hs, ls, i) ==> (h in r <==> h in hs)
    ensures forall r: Entry, h :: r in Rows(hs, ls, i) && h in r ==> (r[h].NumberCell? <==> h in ValueColumns)
  {
    if i > 1 {
      RowsShape(hs, ls, i - 1);
      var vs := Lex(ls[i - 1]).fields;
      if |vs| == |hs| {
        EntryShape(hs, vs);
      }
    }
  }

  /** When every data line has as many fields as there are headers, no line
      is dropped. */
  lemma {:induction false} RowsKeepMatchingLines(hs: seq<string>, ls: seq<string>, i: nat)
    requires 1 <= i <= |ls| && forall k :: 1 <= k < i ==> |Lex(ls[k]).fields| == |hs|
    ensures |Rows(hs, ls, i)| == i - 1
  {
    if i > 1 {
      RowsKeepMatchingLines(hs, ls, i - 1);
    }
  }

  /** Text with fewer than two lines has no data rows. */
  lemma ParseCsvNoDataLines(csv: string)
    requires '\n' !in Trim(csv)
    ensures ParseCsv(csv) == []
  {
    SplitJoin(Trim(csv), '\n');
    CountAbsent(Trim(csv), '\n');
  }
}
