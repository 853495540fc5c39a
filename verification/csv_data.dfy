/** Package `csv_tools`: the in-memory table `CSVData` — header line, name-to-column map,
    rows, separator and the sticky error. Each setter is a function from the old record to the
    new one; reading and writing files is not part of this model. */
module CsvData {
  import opened Wrappers

  /** `io.EOF`, the error an empty `LoadFromLines` records. */
  const Eof := "EOF"

  /** The header map is only ever filled with range indices, so its values are `nat`. */
  datatype Table = Table(
    headers: map<string, nat>,
    headersLine: seq<string>,
    data: seq<seq<string>>,
    split: string,
    err: Option<string>)

  /** `NewCSVData`: no headers, no rows, comma separator, no error. */
  function NewCsvData(): (c: Table)
    ensures c.headers == map[] && c.headersLine == [] && c.data == []
    ensures c.split == "," && c.err == None
  {
    Table(map[], [], [], ",", None)
  }

  /** The column a name refers to: the last position at which it occurs. */
  predicate IsLastIndex(hs: seq<string>, name: string, i: int)
  {
    0 <= i < |hs| && hs[i] == name && forall j :: i < j < |hs| ==> hs[j] != name
  }

  /** The map the `range` loop builds: every name assigned in turn, later positions
      overwriting earlier ones. */
  function IndexMap(hs: seq<string>): (m: map<string, nat>)
    ensures m.Keys == set j | 0 <= j < |hs| :: hs[j]
    ensures forall name :: name in m ==> IsLastIndex(hs, name, m[name])
  {
    if hs == [] then map[]
    else
      var prefix := hs[..|hs| - 1];
      var m := IndexMap(prefix)[hs[|hs| - 1] := |hs| - 1];
      assert forall name :: name in m && name != hs[|hs| - 1] ==> IsLastIndex(prefix, name, m[name]);
      m
  }

  /** `SetHeaders`: stores the line and the map from each name to its column. */
  function SetHeaders(c: Table, hs: seq<string>): (r: Table)
    ensures r.headersLine == hs
    ensures forall name :: name in r.headers <==> name in hs
    ensures forall name :: name in r.headers ==> IsLastIndex(hs, name, r.headers[name])
    ensures r.data == c.data && r.split == c.split && r.err == c.err
  {
    c.(headersLine := hs, headers := IndexMap(hs))
  }

  /** The last index is a function of the line: at most one position qualifies. */
  lemma LastIndexUnique(hs: seq<string>, name: string, i: int, j: int)
    requires IsLastIndex(hs, name, i) && IsLastIndex(hs, name, j)
    ensures i == j
  {
  }

  /** `GetHeaderIndex`: the mapped column, or -1 for a name that is not a header. */
  function GetHeaderIndex(c: Table, key: string): (r: int)
    ensures r == -1 <==> key !in c.headers
    ensures r != -1 ==> r == c.headers[key]
  {
    if key in c.headers then c.headers[key] else -1
  }

  /** After `SetHeaders(hs)` the index of a name is exactly its last position in `hs`. */
  lemma HeaderIndexAfterSet(c: Table, hs: seq<string>, name: string, i: int)
    ensures GetHeaderIndex(SetHeaders(c, hs), name) == i <==> IsLastIndex(hs, name, i) || (i == -1 && name !in hs)
  {
    var r := SetHeaders(c, hs);
    if name in hs {
      var k := GetHeaderIndex(r, name);
      if IsLastIndex(hs, name, i) {
        LastIndexUnique(hs, name, i, k);
      }
    }
  }

  /** `GetLineValue`: the cell in row `line` under column `key`, or "" when the name is
      unknown, the row does not exist, or the row is too short. */
  function GetLineValue(c: Table, key: string, line: int): (r: string)
    ensures key !in c.headers ==> r == ""
    ensures key in c.headers && 0 <= line < |c.data| && c.headers[key] < |c.data[line]| ==>
      r == c.data[line][c.headers[key]]
    ensures key in c.headers && !(0 <= line < |c.data| && c.headers[key] < |c.data[line]|) ==> r == ""
  {
    if key in c.headers then
      var index := c.headers[key];
      if 0 <= line < |c.data| && index < |c.data[line]| then c.data[line][index] else ""
    else ""
  }

  /** `SetSplit`: "" selects the comma; any other separator is kept as given. */
  function SetSplit(c: Table, split: string): (r: Table)
    ensures r.split != ""
    ensures split != "" ==> r.split == split
    ensures split == "" ==> r.split == ","
    ensures r.headers == c.headers && r.headersLine == c.headersLine && r.data == c.data && r.err == c.err
  {
    if split == "" then c.(split := ",") else c.(split := split)
  }

  /** Setting a separator twice is the same as setting it once. */
  lemma SetSplitIdempotent(c: Table, split: string)
    ensures SetSplit(SetSplit(c, split), split) == SetSplit(c, split)
  {
  }

  /** `GetData`. */
  function GetData(c: Table): (r: seq<seq<string>>)
    ensures forall key, line :: key in c.headers && 0 <= line < |r| && c.headers[key] < |r[line]| ==>
      GetLineValue(c, key, line) == r[line][c.headers[key]]
  {
    c.data
  }

  /** `SetData`: replaces the rows and nothing else. */
  function SetData(c: Table, data: seq<seq<string>>): (r: Table)
    ensures GetData(r) == data
    ensures r.headers == c.headers && r.headersLine == c.headersLine && r.split == c.split && r.err == c.err
  {
    c.(data := data)
  }

  /** `AppendData`: one row more at the end, the earlier rows as they were. */
  function AppendData(c: Table, row: seq<string>): (r: Table)
    ensures |GetData(r)| == |GetData(c)| + 1
    ensures GetData(r)[..|GetData(c)|] == GetData(c) && GetData(r)[|GetData(c)|] == row
    ensures r.headers == c.headers && r.headersLine == c.headersLine && r.split == c.split && r.err == c.err
  {
    c.(data := c.data + [row])
  }

  /** Appending rows one by one builds the same table as setting them all at once. */
  lemma {:induction false} AppendAll(c: Table, rows: seq<seq<string>>)
    ensures AppendRows(SetData(c, []), rows) == SetData(c, rows)
  {
    if rows != [] {
      var init := rows[..|rows| - 1];
      AppendAll(c, init);
      assert init + [rows[|rows| - 1]] == rows;
    }
  }

  /** Appends the rows in order (a helper for stating `AppendAll`). */
  function AppendRows(c: Table, rows: seq<seq<string>>): Table
  {
    if rows == [] then c else AppendData(AppendRows(c, rows[..|rows| - 1]), rows[|rows| - 1])
  }

  /** `LoadFromLines`: with no lines the error becomes EOF and the table is otherwise as it was;
      otherwise the first line is the header and the rest are the rows. An earlier error is
      not cleared. */
  function LoadFromLines(c: Table, lines: seq<seq<string>>): (r: Table)
    ensures lines == [] ==> r == c.(err := Some(Eof))
    ensures lines != [] ==> r.headersLine == lines[0] && GetData(r) == lines[1..]
    ensures lines != [] ==> r.split == c.split && r.err == c.err
  {
    if lines == [] then c.(err := Some(Eof))
    else SetData(SetHeaders(c, lines[0]), lines[1..])
  }

  /** Reading a loaded table: the cell under header `name` in row `line` is the entry of line
      `line + 1` at the last column called `name`, and "" whenever that does not exist. */
  lemma LineValueAfterLoad(c: Table, lines: seq<seq<string>>, name: string, line: int)
    requires lines != []
    ensures name !in lines[0] ==> GetLineValue(LoadFromLines(c, lines), name, line) == ""
    ensures forall i :: IsLastIndex(lines[0], name, i) ==>
      GetLineValue(LoadFromLines(c, lines), name, line) ==
        (if 0 <= line < |lines| - 1 && i < |lines[line + 1]| then lines[line + 1][i] else "")
  {
    var r := LoadFromLines(c, lines);
    forall i | IsLastIndex(lines[0], name, i)
      ensures GetLineValue(r, name, line) ==
        (if 0 <= line < |lines| - 1 && i < |lines[line + 1]| then lines[line + 1][i] else "")
    {
      LastIndexUnique(lines[0], name, i, r.headers[name]);
      if 0 <= line < |lines| - 1 {
        assert r.data[line] == lines[line + 1];
      }
    }
  }

  /** A fresh table answers every lookup with -1 or "". */
  lemma FreshTableIsEmpty(key: string, line: int)
    ensures GetHeaderIndex(NewCsvData(), key) == -1
    ensures GetLineValue(NewCsvData(), key, line) == ""
  {
  }
}
