/**
 * Rows as the spreadsheet store returns them: ordered lists of cell strings,
 * possibly shorter than the header. The pages read a missing trailing cell as "".
 */
module Rows {
  import opened Wrappers

  type Row = seq<string>

  /** Cell `c` (0 = column A) of a row, "" when the row is shorter. */
  function Col(row: Row, c: nat): string {
    if c < |row| then row[c] else ""
  }

  /** `n` empty cells. */
  function Blanks(n: nat): (r: Row)
    ensures |r| == n && forall k :: 0 <= k < n ==> r[k] == ""
  {
    seq(n, _ => "")
  }

  /**
   * The row after a single-cell update of column `c`: that cell holds `v`, every
   * other cell reads as before, and a short row grows just enough to hold it.
   */
  function SetCol(row: Row, c: nat, v: string): (r: Row)
    ensures |r| == if c < |row| then |row| else c + 1
    ensures Col(r, c) == v
    ensures forall j: nat :: j != c ==> Col(r, j) == Col(row, j)
  {
    if c < |row| then row[c := v] else row + Blanks(c - |row|) + [v]
  }

  /** A single-cell update that may not land: `SetCol` when `done`, else the row as it was. */
  function Update(row: Row, done: bool, c: nat, v: string): (r: Row)
    ensures Col(r, c) == if done then v else Col(row, c)
    ensures forall j: nat :: j != c ==> Col(r, j) == Col(row, j)
  {
    if done then SetCol(row, c, v) else row
  }

  /** `rows` without the element at index `k`; later rows move up by one. */
  function RemoveAt(rows: seq<Row>, k: nat): (r: seq<Row>)
    requires k < |rows|
    ensures |r| == |rows| - 1
    ensures forall j :: 0 <= j < k ==> r[j] == rows[j]
    ensures forall j :: k <= j < |r| ==> r[j] == rows[j + 1]
  {
    rows[..k] + rows[k + 1..]
  }

  /** The row has a cell `c` equal to `key` (`len(row) > c and str(row[c]) == key`). */
  predicate KeyAt(row: Row, c: nat, key: string) {
    c < |row| && row[c] == key
  }

  /** Index of the first row whose cell `c` equals `key`, if any. */
  function FirstAt(rows: seq<Row>, c: nat, key: string): (r: Option<nat>)
    ensures r.Some? ==> r.value < |rows| && KeyAt(rows[r.value], c, key)
    ensures r.Some? ==> forall j :: 0 <= j < r.value ==> !KeyAt(rows[j], c, key)
    ensures r.None? <==> forall j :: 0 <= j < |rows| ==> !KeyAt(rows[j], c, key)
  {
    if rows == [] then None
    else if KeyAt(rows[0], c, key) then Some(0)
    else match FirstAt(rows[1..], c, key)
      case None => None
      case Some(k) => Some(k + 1)
  }

  /**
   * The scan `for idx, r in enumerate(rows, start=2): if len(r) > 0 and r[0] == key: break`:
   * the index of the first row whose column A is `key`.
   */
  method FindRow(rows: seq<Row>, key: string) returns (found: Option<nat>)
    ensures found == FirstAt(rows, 0, key)
  {
    found := None;
    var k := 0;
    while k < |rows|
      invariant 0 <= k <= |rows|
      invariant forall j :: 0 <= j < k ==> !KeyAt(rows[j], 0, key)
    {
      if KeyAt(rows[k], 0, key) {
        found := Some(k);
        return;
      }
      k := k + 1;
    }
  }

  /** The row with empty cells added up to `n` cells; a row that long already stays as it is. */
  function PadTo(row: Row, n: nat): (r: Row)
    ensures |r| == if |row| < n then n else |row|
    ensures r[..|row|] == row
    ensures forall c: nat :: Col(r, c) == Col(row, c)
  {
    if |row| < n then row + Blanks(n - |row|) else row
  }

  /** `while len(row) < n: row.append("")`: the loop pads the row to `n` cells. */
  method PadRow(row: Row, n: nat) returns (padded: Row)
    ensures padded == PadTo(row, n)
  {
    padded := row;
    while |padded| < n
      invariant |row| <= |padded| <= if |row| < n then n else |row|
      invariant padded == row + Blanks(|padded| - |row|)
    {
      padded := padded + [""];
    }
  }

  /** Replacing a row by one that matches `key` in column `c` exactly when it did leaves the first match where it was. */
  lemma {:induction false} FirstAtReplace(rows: seq<Row>, k: nat, row: Row, c: nat, key: string)
    requires k < |rows| && (KeyAt(row, c, key) <==> KeyAt(rows[k], c, key))
    ensures FirstAt(rows[k := row], c, key) == FirstAt(rows, c, key)
  {
    if k > 0 {
      assert rows[k := row][1..] == rows[1..][k - 1 := row];
      FirstAtReplace(rows[1..], k - 1, row, c, key);
    }
  }

  /** Two lists of rows that match `key` in column `c` at the same indices have their first match at the same index. */
  lemma {:induction false} FirstAtSameMatches(rows1: seq<Row>, rows2: seq<Row>, c: nat, key: string)
    requires |rows1| == |rows2|
    requires forall j :: 0 <= j < |rows1| ==> (KeyAt(rows1[j], c, key) <==> KeyAt(rows2[j], c, key))
    ensures FirstAt(rows1, c, key) == FirstAt(rows2, c, key)
  {
    if rows1 != [] {
      FirstAtSameMatches(rows1[1..], rows2[1..], c, key);
    }
  }

  /** How many rows have column A equal to `key`. */
  function Count(rows: seq<Row>, key: string): (n: nat)
    ensures n <= |rows|
  {
    if rows == [] then 0 else (if KeyAt(rows[0], 0, key) then 1 else 0) + Count(rows[1..], key)
  }

  /** 1 when the row carries `key` in column A, else 0. */
  function Hit(row: Row, key: string): nat {
    if KeyAt(row, 0, key) then 1 else 0
  }

  lemma {:induction false} CountAppend(rows: seq<Row>, row: Row, key: string)
    ensures Count(rows + [row], key) == Count(rows, key) + Hit(row, key)
  {
    if rows != [] {
      assert (rows + [row])[1..] == rows[1..] + [row];
      CountAppend(rows[1..], row, key);
    }
  }

  lemma {:induction false} CountRemoveAt(rows: seq<Row>, k: nat, key: string)
    requires k < |rows|
    ensures Count(RemoveAt(rows, k), key) + Hit(rows[k], key) == Count(rows, key)
  {
    if k > 0 {
      assert RemoveAt(rows, k)[1..] == RemoveAt(rows[1..], k - 1);
      CountRemoveAt(rows[1..], k - 1, key);
    } else {
      assert RemoveAt(rows, 0) == rows[1..];
    }
  }

  /** A key is counted exactly when some row carries it. */
  lemma {:induction false} CountZeroIff(rows: seq<Row>, key: string)
    ensures Count(rows, key) == 0 <==> FirstAt(rows, 0, key).None?
  {
    if rows != [] {
      CountZeroIff(rows[1..], key);
    }
  }
}
