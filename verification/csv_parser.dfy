/**
 * The compound CSV of the chemistry quiz (muki-cursor/src/utils/csvParser.ts):
 * a quote-aware line splitter in which "" inside quotes stands for one
 * double quote, the header-to-field row mapping, and the conversion of
 * rows to compounds, reusing the structure of a known compound of the
 * same name or decoding the structure from the row's own JSON text.
 */
module CsvParser {
  import opened Wrappers
  import opened Text
  import opened CsvRows
  import opened ChemTypes

  /**
   * The untrimmed fields of rest, when the field read so far is current
   * and inQuotes says whether the scan is inside quotes.
   */
  function RawFields(rest: string, current: string, inQuotes: bool): seq<string>
    decreases |rest|
  {
    if rest == [] then [current]
    else if rest[0] == '"' && inQuotes && |rest| > 1 && rest[1] == '"' then RawFields(rest[2..], current + ['"'], inQuotes)
    else if rest[0] == '"' then RawFields(rest[1..], current, !inQuotes)
    else if rest[0] == ',' && !inQuotes then [current] + RawFields(rest[1..], "", inQuotes)
    else RawFields(rest[1..], current + [rest[0]], inQuotes)
  }

  /** What parseCSVLine returns for line: its fields, each trimmed. */
  function LineFields(line: string): (r: seq<string>)
    ensures |r| >= 1
    ensures forall k :: 0 <= k < |r| ==> IsTrimmed(r[k])
  {
    RawFieldsNotEmpty(line, "", false);
    TrimAll(RawFields(line, "", false))
  }

  lemma {:induction false} RawFieldsNotEmpty(s: string, current: string, inQuotes: bool)
    ensures |RawFields(s, current, inQuotes)| >= 1
    decreases |s|
  {
    if s != [] {
      if s[0] == '"' && inQuotes && |s| > 1 && s[1] == '"' {
        RawFieldsNotEmpty(s[2..], current + ['"'], inQuotes);
      } else if s[0] == '"' {
        RawFieldsNotEmpty(s[1..], current, !inQuotes);
      } else if s[0] == ',' && !inQuotes {
      } else {
        RawFieldsNotEmpty(s[1..], current + [s[0]], inQuotes);
      }
    }
  }

  /** One step of the scan at position i of line. */
  lemma RawFieldsAt(line: string, i: nat, current: string, inQuotes: bool)
    requires i < |line|
    ensures RawFields(line[i..], current, inQuotes) ==
      if line[i] == '"' && inQuotes && i + 1 < |line| && line[i + 1] == '"' then RawFields(line[i + 2..], current + ['"'], inQuotes)
      else if line[i] == '"' then RawFields(line[i + 1..], current, !inQuotes)
      else if line[i] == ',' && !inQuotes then [current] + RawFields(line[i + 1..], "", inQuotes)
      else RawFields(line[i + 1..], current + [line[i]], inQuotes)
  {
    var rest := line[i..];
    assert rest[0] == line[i] && rest[1..] == line[i + 1..];
    if i + 1 < |line| {
      assert rest[1] == line[i + 1] && rest[2..] == line[i + 2..];
    }
  }

  /** parseCSVLine (csvParser.ts:32-62): the index loop that skips the second quote of an escape. */
  method ParseCSVLine(line: string) returns (values: seq<string>)
    ensures values == LineFields(line)
  {
    values := [];
    ghost var raw: seq<string> := [];
    var current := "";
    var inQuotes := false;
    var i := 0;
    while i < |line|
      invariant 0 <= i <= |line|
      invariant raw + RawFields(line[i..], current, inQuotes) == RawFields(line, "", false)
      invariant values == TrimAll(raw)
    {
      RawFieldsAt(line, i, current, inQuotes);
      var c := line[i];
      if c == '"' {
        if inQuotes && i + 1 < |line| && line[i + 1] == '"' {
          current := current + ['"'];
          i := i + 1;
        } else {
          inQuotes := !inQuotes;
        }
      } else if c == ',' && !inQuotes {
        ghost var later := RawFields(line[i + 1..], "", inQuotes);
        assert raw + ([current] + later) == (raw + [current]) + later;
        TrimAllSnoc(raw, current);
        raw := raw + [current];
        values := values + [Trim(current)];
        current := "";
      } else {
        current := current + [c];
      }
      i := i + 1;
    }
    assert line[i..] == [];
    TrimAllSnoc(raw, current);
    values := values + [Trim(current)];
  }

  // ---------------------------------------------------------------------
  // Writing fields so that parseCSVLine reads them back.

  /** s with every double quote doubled. */
  function Escape(s: string): (r: string)
    ensures |r| >= |s|
  {
    if s == [] then ""
    else (if s[0] == '"' then "\"\"" else [s[0]]) + Escape(s[1..])
  }

  /** A field written in quotes. */
  function Quote(s: string): string
  {
    "\"" + Escape(s) + "\""
  }

  /** A record of fields, each quoted, separated by commas. */
  function EncodeRecord(fields: seq<string>): string
  {
    Join(seq(|fields|, k requires 0 <= k < |fields| => Quote(fields[k])), ',')
  }

  /** Inside quotes, an escaped field followed by the closing quote adds the field to current. */
  lemma {:induction false} ScanEscaped(f: string, t: string, current: string)
    requires t == [] || t[0] == ','
    ensures RawFields(Escape(f) + "\"" + t, current, true) == RawFields(t, current + f, false)
    decreases |f|
  {
    var x := Escape(f) + "\"" + t;
    if f == [] {
      assert x == ['"'] + t;
      assert x[1..] == t;
      assert current + f == current;
    } else {
      var e := Escape(f[1..]) + "\"" + t;
      ScanEscaped(f[1..], t, current + [f[0]]);
      assert current + [f[0]] + f[1..] == current + f;
      if f[0] == '"' {
        assert x == "\"\"" + e;
        assert x[0] == '"' && x[1] == '"' && x[2..] == e;
        assert RawFields(x, current, true) == RawFields(e, current + ['"'], true);
      } else {
        assert x == [f[0]] + e;
        assert x[0] == f[0] && x[1..] == e;
        assert RawFields(x, current, true) == RawFields(e, current + [f[0]], true);
      }
    }
  }

  /** A quoted field followed by a comma or the end of the line is read back as the field. */
  lemma ScanQuoted(f: string, t: string)
    requires t == [] || t[0] == ','
    ensures RawFields(Quote(f) + t, "", false) == RawFields(t, f, false)
  {
    assert Quote(f) + t == "\"" + (Escape(f) + "\"" + t);
    ScanEscaped(f, t, "");
    assert "" + f == f;
  }

  /** The untrimmed fields of an encoded record are the record's fields. */
  lemma {:induction false} RawFieldsEncode(fields: seq<string>)
    requires |fields| >= 1
    ensures RawFields(EncodeRecord(fields), "", false) == fields
  {
    var quoted := seq(|fields|, k requires 0 <= k < |fields| => Quote(fields[k]));
    if |fields| == 1 {
      ScanQuoted(fields[0], "");
      assert Quote(fields[0]) + "" == Quote(fields[0]);
    } else {
      var rest := EncodeRecord(fields[1..]);
      assert quoted[1..] == seq(|fields| - 1, k requires 0 <= k < |fields| - 1 => Quote(fields[1..][k]));
      assert EncodeRecord(fields) == Quote(fields[0]) + ([','] + rest);
      ScanQuoted(fields[0], [','] + rest);
      RawFieldsEncode(fields[1..]);
      assert ([','] + rest)[1..] == rest;
      assert fields == [fields[0]] + fields[1..];
    }
  }

  /** Reading an encoded record gives back its fields, trimmed. */
  lemma EncodeRoundTrip(fields: seq<string>)
    requires |fields| >= 1
    ensures LineFields(EncodeRecord(fields)) == TrimAll(fields)
  {
    RawFieldsEncode(fields);
  }

  /** On a line without double quotes the splitter is a plain comma split. */
  lemma {:induction false} RawFieldsPlain(s: string, current: string)
    requires '"' !in s
    ensures RawFields(s, current, false) == [current + Split(s, ',')[0]] + Split(s, ',')[1..]
    decreases |s|
  {
    if s == [] {
      assert current + "" == current;
    } else {
      var tail := Split(s[1..], ',');
      assert '"' !in s[1..];
      if s[0] == ',' {
        RawFieldsPlain(s[1..], "");
        assert Split(s, ',') == [""] + tail;
        assert "" + tail[0] == tail[0];
        assert current + "" == current;
        assert [tail[0]] + tail[1..] == tail;
      } else {
        RawFieldsPlain(s[1..], current + [s[0]]);
        assert current + [s[0]] + tail[0] == current + ([s[0]] + tail[0]);
      }
    }
  }

  lemma PlainLine(line: string)
    requires '"' !in line
    ensures LineFields(line) == TrimAll(Split(line, ','))
  {
    RawFieldsPlain(line, "");
    var sp := Split(line, ',');
    assert "" + sp[0] == sp[0];
    assert [sp[0]] + sp[1..] == sp;
  }

  // ---------------------------------------------------------------------
  // parseCSV.

  /** The rows of the lines under headers, one per line, in order. */
  function RowsUnder(headers: seq<string>, lines: seq<string>): (rows: seq<Row>)
    ensures |rows| == |lines|
    ensures forall k :: 0 <= k < |lines| ==> rows[k] == RowOf(headers, LineFields(lines[k]))
  {
    seq(|lines|, k requires 0 <= k < |lines| => RowOf(headers, LineFields(lines[k])))
  }

  /** The rows parseCSV returns for text (csvParser.ts:12-29). */
  function Records(text: string): (rows: seq<Row>)
    ensures |rows| == Count(Trim(text), '\n')
  {
    var lines := Split(Trim(text), '\n');
    if |lines| < 2 then [] else RowsUnder(LineFields(lines[0]), lines[1..])
  }

  /**
   * With two lines or more, every line after the header is a row, blank or
   * not, in order, and has a key for every header holding the field at the
   * same position (or "" when the line is short).
   */
  lemma RecordsRows(text: string, k: nat)
    requires k < |Records(text)|
    ensures var lines := Split(Trim(text), '\n');
      && Records(text)[k] == RowOf(LineFields(lines[0]), LineFields(lines[k + 1]))
      && Records(text)[k].Keys == set h | h in LineFields(lines[0])
  {
    var lines := Split(Trim(text), '\n');
    assert lines[1..][k] == lines[k + 1];
  }

  lemma RowsUnderSnoc(headers: seq<string>, lines: seq<string>, line: string)
    ensures RowsUnder(headers, lines + [line]) == RowsUnder(headers, lines) + [RowOf(headers, LineFields(line))]
  {
    var r := RowsUnder(headers, lines + [line]);
    var q := RowsUnder(headers, lines) + [RowOf(headers, LineFields(line))];
    forall k | 0 <= k < |r|
      ensures r[k] == q[k]
    {
      assert (lines + [line])[k] == if k < |lines| then lines[k] else line;
    }
  }

  /** parseCSV (csvParser.ts:12-29). */
  method ParseCSV(csvText: string) returns (rows: seq<Row>)
    ensures rows == Records(csvText)
  {
    var lines := Split(Trim(csvText), '\n');
    if |lines| < 2 {
      return [];
    }
    var headers := ParseCSVLine(lines[0]);
    rows := ParseRows(headers, lines[1..]);
  }

  /** The row loop of parseCSV (csvParser.ts:19-27): one row per line under the headers. */
  method ParseRows(headers: seq<string>, lines: seq<string>) returns (rows: seq<Row>)
    ensures rows == RowsUnder(headers, lines)
  {
    rows := [];
    var i := 0;
    while i < |lines|
      invariant 0 <= i <= |lines|
      invariant rows == RowsUnder(headers, lines[..i])
    {
      assert lines[..i + 1] == lines[..i] + [lines[i]];
      var values := ParseCSVLine(lines[i]);
      var row := FillRow(headers, values);
      RowsUnderSnoc(headers, lines[..i], lines[i]);
      rows := rows + [row];
      i := i + 1;
    }
    assert lines[..i] == lines;
  }

  // ---------------------------------------------------------------------
  // csvToCompounds.

  /** s with each "" pair read left to right replaced by one double quote (replace(/""/g, '"')). */
  function Undouble(s: string): (r: string)
    ensures |r| <= |s|
  {
    if |s| >= 2 && s[0] == '"' && s[1] == '"' then "\"" + Undouble(s[2..])
    else if s == [] then ""
    else [s[0]] + Undouble(s[1..])
  }

  lemma {:induction false} UndoubleEscape(s: string)
    ensures Undouble(Escape(s)) == s
  {
    if s != [] {
      UndoubleEscape(s[1..]);
      if s[0] == '"' {
        assert ("\"\"" + Escape(s[1..]))[2..] == Escape(s[1..]);
      } else {
        var e := [s[0]] + Escape(s[1..]);
        assert e[1..] == Escape(s[1..]);
      }
      assert s == [s[0]] + s[1..];
    }
  }

  /** One surrounding pair of double quotes removed and "" unescaped (csvParser.ts:86-91). */
  function StripQuotes(s: string): (r: string)
    ensures !(|s| >= 1 && s[0] == '"' && s[|s| - 1] == '"') ==> r == s
  {
    if |s| >= 1 && s[0] == '"' && s[|s| - 1] == '"' then
      if |s| >= 2 then Undouble(s[1..|s| - 1]) else ""
    else s
  }

  lemma StripQuotesQuote(s: string)
    ensures StripQuotes(Quote(s)) == s
  {
    var q := Quote(s);
    assert q[1..|q| - 1] == Escape(s);
    UndoubleEscape(s);
  }

  /** The first compound whose name is name (existingCompounds.find), None for an absent name. */
  function FindByName(compounds: seq<Compound>, name: Option<string>): (r: Option<Compound>)
    ensures r.Some? <==> name.Some? && exists c :: c in compounds && c.name == name.value
    ensures r.Some? ==> r.value in compounds && r.value.name == name.value
    ensures r.Some? ==>
      exists k :: (0 <= k < |compounds| && compounds[k] == r.value &&
                   forall j :: 0 <= j < k ==> compounds[j].name != name.value)
  {
    if compounds == [] || name.None? then None
    else if compounds[0].name == name.value then Some(compounds[0])
    else
      var r := FindByName(compounds[1..], name);
      if r.Some? then
        var k :| 0 <= k < |compounds[1..]| && compounds[1..][k] == r.value &&
                 (forall j :: 0 <= j < k ==> compounds[1..][j].name != name.value);
        assert compounds[k + 1] == r.value;
        r
      else
        assert forall c :: c in compounds && c.name == name.value ==> c in compounds[1..] by {
          assert compounds == [compounds[0]] + compounds[1..];
        }
        r
  }

  /** A string field as the compound reads it: an absent key reads as "". */
  function StringField(row: Row, key: string): string
  {
    match Field(row, key)
    case Some(v) => v
    case None => ""
  }

  /** row.atoms && row.bonds && both non-blank (csvParser.ts:79). */
  predicate HasStructureText(row: Row) {
    && Field(row, "atoms").Some? && Field(row, "bonds").Some?
    && Field(row, "atoms").value != "" && Field(row, "bonds").value != ""
    && Trim(Field(row, "atoms").value) != "" && Trim(Field(row, "bonds").value) != ""
  }

  /**
   * The compound a row yields, if any (csvParser.ts:66-114). decodeAtoms and
   * decodeBonds stand for JSON.parse followed by the array test: None when
   * the text does not parse or is not an array.
   */
  function RowToCompound(row: Row, existing: seq<Compound>,
                         decodeAtoms: string -> Option<seq<Atom>>,
                         decodeBonds: string -> Option<seq<Bond>>): Option<Compound>
  {
    var found := FindByName(existing, Field(row, "name"));
    if found.Some? then
      Some(Compound(StringField(row, "id"), StringField(row, "name"), found.value.structure))
    else if HasStructureText(row) then
      var atoms := decodeAtoms(StripQuotes(Trim(StringField(row, "atoms"))));
      var bonds := decodeBonds(StripQuotes(Trim(StringField(row, "bonds"))));
      if atoms.Some? && bonds.Some? && |atoms.value| > 0 && |bonds.value| > 0 then
        Some(Compound(StringField(row, "id"), StringField(row, "name"), StructureData(atoms.value, bonds.value)))
      else None
    else None
  }

  /**
   * A row whose name matches a known compound takes that compound's
   * structure with the row's id and name; any other row yields a compound
   * exactly when both structure texts are present, non-blank, decode, and
   * decode to non-empty lists, and then the compound holds what they decode to.
   */
  lemma RowToCompoundCases(row: Row, existing: seq<Compound>,
                           decodeAtoms: string -> Option<seq<Atom>>,
                           decodeBonds: string -> Option<seq<Bond>>)
    ensures var r := RowToCompound(row, existing, decodeAtoms, decodeBonds);
      var found := FindByName(existing, Field(row, "name"));
      var atoms := decodeAtoms(StripQuotes(Trim(StringField(row, "atoms"))));
      var bonds := decodeBonds(StripQuotes(Trim(StringField(row, "bonds"))));
      && (found.Some? ==> r == Some(Compound(StringField(row, "id"), StringField(row, "name"), found.value.structure)))
      && (found.None? ==>
            (r.Some? <==> HasStructureText(row) && atoms.Some? && bonds.Some? && |atoms.value| > 0 && |bonds.value| > 0))
      && (found.None? && r.Some? ==>
            r.value == Compound(StringField(row, "id"), StringField(row, "name"), StructureData(atoms.value, bonds.value))
            && HasStructure(r.value))
  {
  }

  /** The callback of the .map step of csvToCompounds. */
  function Converter(existing: seq<Compound>,
                     decodeAtoms: string -> Option<seq<Atom>>,
                     decodeBonds: string -> Option<seq<Bond>>): Row -> Option<Compound>
  {
    row => RowToCompound(row, existing, decodeAtoms, decodeBonds)
  }

  /** The .map step: every row converted, in order. */
  function Converted(rows: seq<Row>, convert: Row -> Option<Compound>): (r: seq<Option<Compound>>)
    ensures |r| == |rows|
    ensures forall k :: 0 <= k < |rows| ==> r[k] == convert(rows[k])
  {
    seq(|rows|, k requires 0 <= k < |rows| => convert(rows[k]))
  }

  lemma ConvertedAppend(a: seq<Row>, b: seq<Row>, convert: Row -> Option<Compound>)
    ensures Converted(a + b, convert) == Converted(a, convert) + Converted(b, convert)
  {
    var ca, cb, cab := Converted(a, convert), Converted(b, convert), Converted(a + b, convert);
    forall k | 0 <= k < |cab|
      ensures cab[k] == (ca + cb)[k]
    {
      if k < |a| {
        assert (a + b)[k] == a[k];
      } else {
        assert (a + b)[k] == b[k - |a|];
      }
    }
  }

  /** The .filter step of csvToCompounds: the values present, in order. */
  function Present(xs: seq<Option<Compound>>): (r: seq<Compound>)
    ensures |r| <= |xs|
    ensures forall c :: c in r <==> Some(c) in xs
  {
    if xs == [] then []
    else
      assert forall o :: o in xs <==> o == xs[0] || o in xs[1..];
      (match xs[0] case Some(c) => [c] case None => []) + Present(xs[1..])
  }

  lemma {:induction false} PresentAppend(a: seq<Option<Compound>>, b: seq<Option<Compound>>)
    ensures Present(a + b) == Present(a) + Present(b)
  {
    if a == [] {
      assert a + b == b;
    } else {
      assert (a + b)[0] == a[0] && (a + b)[1..] == a[1..] + b;
      PresentAppend(a[1..], b);
      var head := match a[0] case Some(c) => [c] case None => [];
      assert Present(a + b) == head + (Present(a[1..]) + Present(b));
      assert head + (Present(a[1..]) + Present(b)) == (head + Present(a[1..])) + Present(b);
    }
  }

  /** csvToCompounds (csvParser.ts:64-116): the compounds of the rows that yield one, in row order. */
  function CsvToCompounds(rows: seq<Row>, existing: seq<Compound>,
                          decodeAtoms: string -> Option<seq<Atom>>,
                          decodeBonds: string -> Option<seq<Bond>>): (r: seq<Compound>)
    ensures |r| <= |rows|
  {
    Present(Converted(rows, Converter(existing, decodeAtoms, decodeBonds)))
  }

  /** Every compound returned is the compound of one of the rows. */
  lemma CsvToCompoundsFromRows(rows: seq<Row>, existing: seq<Compound>,
                               decodeAtoms: string -> Option<seq<Atom>>,
                               decodeBonds: string -> Option<seq<Bond>>)
    ensures forall c :: c in CsvToCompounds(rows, existing, decodeAtoms, decodeBonds) ==>
      exists row :: row in rows && RowToCompound(row, existing, decodeAtoms, decodeBonds) == Some(c)
  {
    var conv := Converted(rows, Converter(existing, decodeAtoms, decodeBonds));
    forall c | c in CsvToCompounds(rows, existing, decodeAtoms, decodeBonds)
      ensures exists row :: row in rows && RowToCompound(row, existing, decodeAtoms, decodeBonds) == Some(c)
    {
      var k :| 0 <= k < |conv| && conv[k] == Some(c);
      assert rows[k] in rows;
    }
  }

  /**
   * Rows are converted independently: converting two lists of rows one
   * after the other gives the two results one after the other, so a row
   * that fails to decode drops only itself and the order is kept.
   */
  lemma CsvToCompoundsAppend(a: seq<Row>, b: seq<Row>, existing: seq<Compound>,
                             decodeAtoms: string -> Option<seq<Atom>>,
                             decodeBonds: string -> Option<seq<Bond>>)
    ensures CsvToCompounds(a + b, existing, decodeAtoms, decodeBonds) ==
            CsvToCompounds(a, existing, decodeAtoms, decodeBonds) + CsvToCompounds(b, existing, decodeAtoms, decodeBonds)
  {
    var convert := Converter(existing, decodeAtoms, decodeBonds);
    ConvertedAppend(a, b, convert);
    PresentAppend(Converted(a, convert), Converted(b, convert));
  }

  /** When every known compound has a structure, so does every compound the conversion returns. */
  lemma CsvToCompoundsStructured(rows: seq<Row>, existing: seq<Compound>,
                                 decodeAtoms: string -> Option<seq<Atom>>,
                                 decodeBonds: string -> Option<seq<Bond>>)
    requires forall c :: c in existing ==> HasStructure(c)
    ensures forall c :: c in CsvToCompounds(rows, existing, decodeAtoms, decodeBonds) ==> HasStructure(c)
  {
    CsvToCompoundsFromRows(rows, existing, decodeAtoms, decodeBonds);
  }
}
