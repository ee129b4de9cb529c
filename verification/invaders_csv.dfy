/**
 * The question file of Quiz Invaders (script.js:94-121): one question per
 * line, the question text first, the correct answer second and the other
 * answers after it. A field may be wrapped in double quotes to hold a
 * comma; every double quote only switches quoted mode and is dropped.
 */
module InvadersCsv {
  import opened Wrappers
  import opened Text

  datatype Question = Question(question: string, correct: string, answers: seq<string>)

  /**
   * The untrimmed fields of rest, when the field read so far is current
   * and inQuotes says whether the scan is inside quotes.
   */
  function RawFields(rest: string, current: string, inQuotes: bool): seq<string>
    decreases |rest|
  {
    if rest == [] then [current]
    else if rest[0] == '"' then RawFields(rest[1..], current, !inQuotes)
    else if rest[0] == ',' && !inQuotes then [current] + RawFields(rest[1..], "", inQuotes)
    else RawFields(rest[1..], current + [rest[0]], inQuotes)
  }

  /** What parseLine returns for line: its fields, each trimmed. */
  function LineFields(line: string): seq<string>
  {
    TrimAll(RawFields(line, "", false))
  }

  /** The number of commas of s that stand outside double quotes. */
  function UnquotedCommas(s: string, inQuotes: bool): nat
    decreases |s|
  {
    if s == [] then 0
    else if s[0] == '"' then UnquotedCommas(s[1..], !inQuotes)
    else (if s[0] == ',' && !inQuotes then 1 else 0) + UnquotedCommas(s[1..], inQuotes)
  }

  /** s with every double quote removed. */
  function Unquoted(s: string): (r: string)
    ensures '"' !in r
  {
    if s == [] then ""
    else if s[0] == '"' then Unquoted(s[1..])
    else [s[0]] + Unquoted(s[1..])
  }

  /** A line splits into one field more than it has commas outside quotes. */
  lemma {:induction false} RawFieldsCount(s: string, current: string, inQuotes: bool)
    ensures |RawFields(s, current, inQuotes)| == UnquotedCommas(s, inQuotes) + 1
    decreases |s|
  {
    if s != [] {
      if s[0] == '"' {
        RawFieldsCount(s[1..], current, !inQuotes);
      } else if s[0] == ',' && !inQuotes {
        RawFieldsCount(s[1..], "", inQuotes);
      } else {
        RawFieldsCount(s[1..], current + [s[0]], inQuotes);
      }
    }
  }

  /**
   * Nothing but the quotes is lost: joining the untrimmed fields with commas
   * gives back the line without its double quotes.
   */
  lemma {:induction false} RawFieldsJoin(s: string, current: string, inQuotes: bool)
    ensures Join(RawFields(s, current, inQuotes), ',') == current + Unquoted(s)
    decreases |s|
  {
    if s == [] {
      assert current + "" == current;
    } else if s[0] == '"' {
      RawFieldsJoin(s[1..], current, !inQuotes);
    } else if s[0] == ',' && !inQuotes {
      var rest := RawFields(s[1..], "", inQuotes);
      RawFieldsJoin(s[1..], "", inQuotes);
      RawFieldsNotEmpty(s[1..], "", inQuotes);
      assert ([current] + rest)[1..] == rest;
      assert "" + Unquoted(s[1..]) == Unquoted(s[1..]);
      assert current + [','] + Unquoted(s[1..]) == current + ([','] + Unquoted(s[1..]));
    } else {
      RawFieldsJoin(s[1..], current + [s[0]], inQuotes);
      assert current + [s[0]] + Unquoted(s[1..]) == current + ([s[0]] + Unquoted(s[1..]));
    }
  }

  lemma {:induction false} RawFieldsNotEmpty(s: string, current: string, inQuotes: bool)
    ensures |RawFields(s, current, inQuotes)| >= 1
  {
    RawFieldsCount(s, current, inQuotes);
  }

  /** No field keeps a double quote. */
  lemma {:induction false} RawFieldsQuoteFree(s: string, current: string, inQuotes: bool)
    requires '"' !in current
    ensures forall k :: 0 <= k < |RawFields(s, current, inQuotes)| ==> '"' !in RawFields(s, current, inQuotes)[k]
    decreases |s|
  {
    if s != [] {
      if s[0] == '"' {
        RawFieldsQuoteFree(s[1..], current, !inQuotes);
      } else if s[0] == ',' && !inQuotes {
        RawFieldsQuoteFree(s[1..], "", inQuotes);
      } else {
        RawFieldsQuoteFree(s[1..], current + [s[0]], inQuotes);
      }
    }
  }

  /** One step of the scan at position i of line. */
  lemma RawFieldsAt(line: string, i: nat, current: string, inQuotes: bool)
    requires i < |line|
    ensures RawFields(line[i..], current, inQuotes) ==
      if line[i] == '"' then RawFields(line[i + 1..], current, !inQuotes)
      else if line[i] == ',' && !inQuotes then [current] + RawFields(line[i + 1..], "", inQuotes)
      else RawFields(line[i + 1..], current + [line[i]], inQuotes)
  {
    var rest := line[i..];
    assert rest[0] == line[i] && rest[1..] == line[i + 1..];
  }

  /** The fields of a line: one more than its unquoted commas, trimmed, without quotes. */
  lemma LineFieldsShape(line: string)
    ensures |LineFields(line)| == UnquotedCommas(line, false) + 1
    ensures forall k :: 0 <= k < |LineFields(line)| ==> IsTrimmed(LineFields(line)[k]) && '"' !in LineFields(line)[k]
  {
    var raw := RawFields(line, "", false);
    RawFieldsCount(line, "", false);
    RawFieldsQuoteFree(line, "", false);
    forall k | 0 <= k < |raw|
      ensures '"' !in TrimAll(raw)[k]
    {
      assert forall c :: c in Trim(raw[k]) ==> c in raw[k];
    }
  }

  /** parseLine (script.js:95-109): the character loop with a quote flag. */
  method ParseLine(line: string) returns (result: seq<string>)
    ensures result == LineFields(line)
  {
    result := [];
    ghost var raw: seq<string> := [];
    var current := "";
    var inQuotes := false;
    var i := 0;
    while i < |line|
      invariant 0 <= i <= |line|
      invariant raw + RawFields(line[i..], current, inQuotes) == RawFields(line, "", false)
      invariant result == TrimAll(raw)
    {
      RawFieldsAt(line, i, current, inQuotes);
      var c := line[i];
      if c == '"' {
        inQuotes := !inQuotes;
      } else if c == ',' && !inQuotes {
        ghost var later := RawFields(line[i + 1..], "", inQuotes);
        assert raw + ([current] + later) == (raw + [current]) + later;
        TrimAllSnoc(raw, current);
        raw := raw + [current];
        result := result + [Trim(current)];
        current := "";
      } else {
        current := current + [c];
      }
      i := i + 1;
    }
    assert line[i..] == [];
    TrimAllSnoc(raw, current);
    result := result + [Trim(current)];
  }

  /** The lines of data whose trimmed text is not empty, in order. */
  function NonBlankLines(lines: seq<string>): (r: seq<string>)
    ensures |r| <= |lines|
    ensures forall s :: s in r <==> s in lines && !Blank(s)
  {
    if lines == [] then []
    else
      assert lines == [lines[0]] + lines[1..];
      (if !Blank(lines[0]) then [lines[0]] else []) + NonBlankLines(lines[1..])
  }

  /** A line that trims to nothing. */
  predicate Blank(line: string) {
    Trim(line) == ""
  }

  /** The non-empty strings of xs, in order. */
  function NonEmpty(xs: seq<string>): (r: seq<string>)
    ensures |r| <= |xs|
    ensures forall a :: a in r <==> a in xs && a != ""
    ensures forall a :: multiset(r)[a] == if a == "" then 0 else multiset(xs)[a]
    ensures |xs| == 1 ==> r == if xs[0] == "" then [] else xs
    ensures xs != [] && xs[0] != "" ==> r != [] && r[0] == xs[0]
  {
    if xs == [] then []
    else
      assert xs == [xs[0]] + xs[1..];
      (if xs[0] != "" then [xs[0]] else []) + NonEmpty(xs[1..])
  }

  /** A non-blank line is kept as often as it occurs, a blank one never. */
  lemma {:induction false} NonBlankLinesCount(lines: seq<string>, s: string)
    ensures multiset(NonBlankLines(lines))[s] == if Blank(s) then 0 else multiset(lines)[s]
  {
    if lines != [] {
      var x, rest := lines[0], lines[1..];
      calc {
        multiset(NonBlankLines(lines))[s];
        { assert lines == [x] + rest; NonBlankLinesCons(x, rest); }
        multiset(NonBlankLines([x]))[s] + multiset(NonBlankLines(rest))[s];
        { NonBlankLinesCount(rest, s); }
        multiset(NonBlankLines([x]))[s] + (if Blank(s) then 0 else multiset(rest)[s]);
        { assert multiset(lines) == multiset([x]) + multiset(rest) by { assert lines == [x] + rest; } }
        if Blank(s) then 0 else multiset(lines)[s];
      }
    }
  }

  /** Lines are kept or dropped one by one: the filter keeps their order. */
  lemma {:induction false} NonBlankLinesAppend(a: seq<string>, b: seq<string>)
    ensures NonBlankLines(a + b) == NonBlankLines(a) + NonBlankLines(b)
  {
    if a == [] {
      assert a + b == b;
    } else {
      var x, rest := a[0], a[1..];
      calc {
        NonBlankLines(a + b);
        { assert a + b == [x] + (rest + b); }
        NonBlankLines([x] + (rest + b));
        { NonBlankLinesCons(x, rest + b); }
        NonBlankLines([x]) + NonBlankLines(rest + b);
        { NonBlankLinesAppend(rest, b); }
        NonBlankLines([x]) + (NonBlankLines(rest) + NonBlankLines(b));
        (NonBlankLines([x]) + NonBlankLines(rest)) + NonBlankLines(b);
        { assert a == [x] + rest; NonBlankLinesCons(x, rest); }
        NonBlankLines(a) + NonBlankLines(b);
      }
    }
  }

  /** Filtering a line in front of others. */
  lemma NonBlankLinesCons(x: string, rest: seq<string>)
    ensures NonBlankLines([x]) == if Blank(x) then [] else [x]
    ensures NonBlankLines([x] + rest) == NonBlankLines([x]) + NonBlankLines(rest)
  {
    assert NonBlankLines([x]) == (if Blank(x) then [] else [x]) + NonBlankLines([]) by {
      assert [x][1..] == [];
    }
    assert NonBlankLines([x] + rest) == (if Blank(x) then [] else [x]) + NonBlankLines(rest) by {
      assert ([x] + rest)[0] == x && ([x] + rest)[1..] == rest;
    }
  }

  /** The same for the answers: the non-empty ones keep their order. */
  lemma {:induction false} NonEmptyAppend(a: seq<string>, b: seq<string>)
    ensures NonEmpty(a + b) == NonEmpty(a) + NonEmpty(b)
  {
    if a == [] {
      assert a + b == b;
    } else {
      var head := if a[0] != "" then [a[0]] else [];
      assert (a + b)[0] == a[0] && (a + b)[1..] == a[1..] + b;
      assert NonEmpty(a + b) == head + NonEmpty(a[1..] + b);
      NonEmptyAppend(a[1..], b);
      assert NonEmpty(a) == head + NonEmpty(a[1..]);
    }
  }

  /** The question a row of at least two fields makes (script.js:116-120). */
  function ToQuestion(row: seq<string>): (q: Question)
    requires |row| >= 2
    ensures q.question == row[0] && q.correct == row[1]
    ensures forall a :: a in q.answers <==> a in row[1..] && a != ""
    ensures forall a :: a != "" ==> multiset(q.answers)[a] == multiset(row[1..])[a]
    ensures q.correct != "" ==> q.answers != [] && q.answers[0] == q.correct
  {
    Question(row[0], row[1], NonEmpty(row[1..]))
  }

  /** The questions of the data rows: rows of fewer than two fields are dropped. */
  function QuestionsFromRows(rows: seq<seq<string>>): (qs: seq<Question>)
    ensures |qs| <= |rows|
    ensures forall q :: q in qs ==> exists row :: row in rows && |row| >= 2 && q == ToQuestion(row)
    ensures (forall k :: 0 <= k < |rows| ==> |rows[k]| >= 2) ==>
      |qs| == |rows| && forall k :: 0 <= k < |rows| ==> qs[k] == ToQuestion(rows[k])
    ensures |rows| == 1 ==> qs == if |rows[0]| >= 2 then [ToQuestion(rows[0])] else []
  {
    if rows == [] then []
    else (if |rows[0]| >= 2 then [ToQuestion(rows[0])] else []) + QuestionsFromRows(rows[1..])
  }

  /** Rows become questions one by one, in order; a short row is dropped alone. */
  lemma {:induction false} QuestionsFromRowsAppend(a: seq<seq<string>>, b: seq<seq<string>>)
    ensures QuestionsFromRows(a + b) == QuestionsFromRows(a) + QuestionsFromRows(b)
  {
    if a == [] {
      assert a + b == b;
    } else {
      var head := if |a[0]| >= 2 then [ToQuestion(a[0])] else [];
      assert (a + b)[0] == a[0] && (a + b)[1..] == a[1..] + b;
      assert QuestionsFromRows(a + b) == head + QuestionsFromRows(a[1..] + b);
      QuestionsFromRowsAppend(a[1..], b);
      assert QuestionsFromRows(a) == head + QuestionsFromRows(a[1..]);
    }
  }

  /** Every line parsed as a row. */
  function Rows(lines: seq<string>): (rows: seq<seq<string>>)
    ensures |rows| == |lines|
  {
    seq(|lines|, k requires 0 <= k < |lines| => LineFields(lines[k]))
  }

  /** lines.map(parseLine) (script.js:112). */
  method ParseRows(lines: seq<string>) returns (rows: seq<seq<string>>)
    ensures rows == Rows(lines)
  {
    rows := [];
    var k := 0;
    while k < |lines|
      invariant 0 <= k <= |lines|
      invariant rows == Rows(lines)[..k]
    {
      var row := ParseLine(lines[k]);
      assert Rows(lines)[..k + 1] == Rows(lines)[..k] + [row];
      rows := rows + [row];
      k := k + 1;
    }
  }

  /**
   * parseCSV (script.js:111-120): None when the data has fewer than two
   * non-blank lines (the question list is then left as it was), otherwise
   * the questions of every non-blank line after the header.
   */
  function ParseQuestions(data: string): (r: Option<seq<Question>>)
    ensures r.None? <==> |NonBlankLines(Split(data, '\n'))| < 2
    ensures r.Some? ==> |r.value| < |NonBlankLines(Split(data, '\n'))|
    ensures r.Some? ==> forall q :: q in r.value ==>
              (forall a :: a in q.answers ==> a != "") &&
              (q.correct != "" ==> q.answers != [] && q.answers[0] == q.correct)
  {
    var rows := Rows(NonBlankLines(Split(data, '\n')));
    if |rows| < 2 then None else Some(QuestionsFromRows(rows[1..]))
  }

  /**
   * The first non-blank line is the header and yields no question; every
   * later non-blank line yields, in order, the question of its fields, or
   * nothing when it has fewer than two.
   */
  lemma ParseQuestionsSkipsHeader(data: string)
    ensures var lines := NonBlankLines(Split(data, '\n'));
      |lines| >= 2 ==> ParseQuestions(data) == Some(QuestionsFromRows(Rows(lines[1..])))
  {
    var lines := NonBlankLines(Split(data, '\n'));
    if |lines| >= 2 {
      RowsTail(lines);
    }
  }

  /** Dropping the first line drops the first row. */
  lemma RowsTail(lines: seq<string>)
    requires |lines| >= 1
    ensures Rows(lines)[1..] == Rows(lines[1..])
  {
  }

  /**
   * When every line after the header has at least two fields, question k
   * is the question of non-blank line k + 1.
   */
  lemma ParseQuestionsWellFormed(data: string)
    requires |NonBlankLines(Split(data, '\n'))| >= 2
    requires var lines := NonBlankLines(Split(data, '\n'));
      forall k :: 1 <= k < |lines| ==> |LineFields(lines[k])| >= 2
    ensures var lines := NonBlankLines(Split(data, '\n'));
      && ParseQuestions(data).Some?
      && |ParseQuestions(data).value| == |lines| - 1
      && forall k :: 0 <= k < |lines| - 1 ==>
           (|LineFields(lines[k + 1])| >= 2 && ParseQuestions(data).value[k] == ToQuestion(LineFields(lines[k + 1])))
  {
    var lines := NonBlankLines(Split(data, '\n'));
    ParseQuestionsSkipsHeader(data);
    QuestionsAfterHeader(lines);
  }

  /** The row-level half of ParseQuestionsWellFormed. */
  lemma QuestionsAfterHeader(lines: seq<string>)
    requires |lines| >= 1
    requires forall k :: 1 <= k < |lines| ==> |LineFields(lines[k])| >= 2
    ensures var qs := QuestionsFromRows(Rows(lines[1..]));
      && |qs| == |lines| - 1
      && forall k :: 0 <= k < |lines| - 1 ==>
           (|LineFields(lines[k + 1])| >= 2 && qs[k] == ToQuestion(LineFields(lines[k + 1])))
  {
    var rows := Rows(lines[1..]);
    assert forall k :: 0 <= k < |rows| ==> rows[k] == LineFields(lines[k + 1]) && |rows[k]| >= 2;
  }
}
