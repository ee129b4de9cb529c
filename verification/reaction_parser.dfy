/**
 * The reaction CSV of the chemistry quiz (muki/src/utils/reactionParser.ts):
 * the same row mapping as the compound CSV, but every line is split on
 * every comma, with no quote handling.
 */
module ReactionParser {
  import opened Text
  import opened CsvRows
  import CsvParser

  /** A line split on every comma, each piece trimmed. */
  function Pieces(line: string): (r: seq<string>)
    ensures |r| == Count(line, ',') + 1
    ensures forall k :: 0 <= k < |r| ==> IsTrimmed(r[k]) && ',' !in r[k]
  {
    var parts := Split(line, ',');
    assert forall k :: 0 <= k < |parts| ==> forall c :: c in Trim(parts[k]) ==> c in parts[k];
    TrimAll(parts)
  }

  /** Each line read as a row under headers, its pieces split on every comma. */
  function PieceRows(headers: seq<string>, lines: seq<string>): (rows: seq<Row>)
    ensures |rows| == |lines|
    ensures forall k :: 0 <= k < |lines| ==> rows[k] == RowOf(headers, Pieces(lines[k]))
  {
    seq(|lines|, k requires 0 <= k < |lines| => RowOf(headers, Pieces(lines[k])))
  }

  /** The rows parseReactionCSV returns for text (reactionParser.ts:9-26). */
  function ReactionRecords(text: string): (rows: seq<Row>)
    ensures |rows| == Count(Trim(text), '\n')
  {
    var lines := Split(Trim(text), '\n');
    if |lines| < 2 then [] else PieceRows(Pieces(lines[0]), lines[1..])
  }

  lemma PieceRowsSnoc(headers: seq<string>, lines: seq<string>, line: string)
    ensures PieceRows(headers, lines + [line]) == PieceRows(headers, lines) + [RowOf(headers, Pieces(line))]
  {
    var r := PieceRows(headers, lines + [line]);
    var q := PieceRows(headers, lines) + [RowOf(headers, Pieces(line))];
    forall k | 0 <= k < |r|
      ensures r[k] == q[k]
    {
      if k < |lines| {
        assert (lines + [line])[k] == lines[k];
      }
    }
  }

  /** parseReactionCSV (reactionParser.ts:9-26). */
  method ParseReactionCSV(csvText: string) returns (rows: seq<Row>)
    ensures rows == ReactionRecords(csvText)
  {
    var lines := Split(Trim(csvText), '\n');
    if |lines| < 2 {
      return [];
    }
    var headers := Pieces(lines[0]);
    rows := ParsePieceRows(headers, lines[1..]);
  }

  /** The loop of parseReactionCSV (reactionParser.ts:16-23): one row per line, in order. */
  method ParsePieceRows(headers: seq<string>, lines: seq<string>) returns (rows: seq<Row>)
    ensures rows == PieceRows(headers, lines)
  {
    rows := [];
    var i := 0;
    while i < |lines|
      invariant 0 <= i <= |lines|
      invariant rows == PieceRows(headers, lines[..i])
    {
      assert lines[..i + 1] == lines[..i] + [lines[i]];
      var values := Pieces(lines[i]);
      var row := FillRow(headers, values);
      PieceRowsSnoc(headers, lines[..i], lines[i]);
      rows := rows + [row];
      i := i + 1;
    }
    assert lines[..i] == lines;
  }

  /**
   * Every line after the header becomes a row, none rejected, in order,
   * with a key for every header holding the piece at the same position
   * (or "" when the line is short).
   */
  lemma ReactionRows(text: string, k: nat)
    requires k < |ReactionRecords(text)|
    ensures var lines := Split(Trim(text), '\n');
      && ReactionRecords(text)[k] == RowOf(Pieces(lines[0]), Pieces(lines[k + 1]))
      && ReactionRecords(text)[k].Keys == set h | h in Pieces(lines[0])
  {
    var lines := Split(Trim(text), '\n');
    assert lines[1..][k] == lines[k + 1];
  }

  /** Text without double quotes is read the same by both CSV parsers. */
  lemma AgreesWithCompoundParser(text: string)
    requires '"' !in text
    ensures ReactionRecords(text) == CsvParser.Records(text)
  {
    var lines := Split(Trim(text), '\n');
    if |lines| >= 2 {
      var tail := lines[1..];
      CsvParser.PlainLine(lines[0]);
      forall k | 0 <= k < |tail|
        ensures PieceRows(Pieces(lines[0]), tail)[k] == CsvParser.RowsUnder(CsvParser.LineFields(lines[0]), tail)[k]
      {
        assert tail[k] == lines[k + 1];
        CsvParser.PlainLine(tail[k]);
      }
    }
  }
}
