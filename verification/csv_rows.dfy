/**
 * The row object both CSV parsers of the chemistry quiz build from a
 * header line and a data line: one key per header, holding the field at
 * the same position or the empty string when the line is short. When a
 * header repeats, the later position wins, as with repeated assignment to
 * a JavaScript object.
 */
module CsvRows {
  import opened Wrappers

  type Row = map<string, string>

  /** values[index] || '': the field at index, or "" past the end (an empty field is "" either way). */
  function ValueAt(values: seq<string>, index: nat): (v: string)
    ensures index < |values| ==> v == values[index]
    ensures index >= |values| ==> v == ""
  {
    if index < |values| then values[index] else ""
  }

  /** The row headers.forEach builds, assigning in header order. */
  function RowOf(headers: seq<string>, values: seq<string>): (row: Row)
    ensures row.Keys == set h | h in headers
    decreases |headers|
  {
    if headers == [] then map[]
    else
      var n := |headers| - 1;
      var row := RowOf(headers[..n], values);
      assert forall h :: h in headers <==> h in headers[..n] || h == headers[n] by {
        assert headers == headers[..n] + [headers[n]];
      }
      row[headers[n] := ValueAt(values, n)]
  }

  /** The field of row under key, None when the row has no such key (JavaScript's undefined). */
  function Field(row: Row, key: string): Option<string>
  {
    if key in row then Some(row[key]) else None
  }

  /** headers.forEach((header, index) => row[header] = values[index] || ''). */
  method FillRow(headers: seq<string>, values: seq<string>) returns (row: Row)
    ensures row == RowOf(headers, values)
  {
    row := map[];
    var index := 0;
    while index < |headers|
      invariant 0 <= index <= |headers|
      invariant row == RowOf(headers[..index], values)
    {
      assert headers[..index + 1][..index] == headers[..index];
      row := row[headers[index] := ValueAt(values, index)];
      index := index + 1;
    }
    assert headers[..|headers|] == headers;
  }

  /**
   * A header holds the field at its last position: the field of the same
   * position when the header does not repeat later, "" when the line is
   * too short.
   */
  lemma {:induction false} RowAtLast(headers: seq<string>, values: seq<string>, k: nat)
    requires k < |headers|
    requires forall j :: k < j < |headers| ==> headers[j] != headers[k]
    ensures RowOf(headers, values)[headers[k]] == ValueAt(values, k)
    decreases |headers|
  {
    var n := |headers| - 1;
    if k < n {
      assert headers[..n][k] == headers[k];
      RowAtLast(headers[..n], values, k);
    }
  }

  /** Fields beyond the header count are ignored. */
  lemma {:induction false} RowIgnoresExtra(headers: seq<string>, values: seq<string>, extra: seq<string>)
    requires |values| >= |headers|
    ensures RowOf(headers, values + extra) == RowOf(headers, values)
    decreases |headers|
  {
    if headers != [] {
      RowIgnoresExtra(headers[..|headers| - 1], values, extra);
    }
  }
}
