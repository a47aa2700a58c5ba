/**
 * The spreadsheet workbook the pages share, reduced to what they do with it:
 * six named sheets of data rows (the header row is not stored; the row at
 * spreadsheet position i, header at 1, is data index i - 2), and the retried
 * append, single-cell update and row delete of `safe_append`, `safe_update`
 * and `safe_delete`.
 *
 * A store call can fail. An action receives, per store call it may issue,
 * the success flag of each attempt of that call (`Outcomes`); a flag that is
 * not given is a failure.
 */
module Store {
  import opened Wrappers
  import opened Rows

  datatype Sheet =
    | Complaints        // active complaints
    | Responded         // complaints with an action decided
    | Archive           // closed complaints, kept for lookup and restoration
    | ManagerSignatures // approval and rejection records, upserted by complaint id
    | AramexPending     // "معلق ارامكس": pending Aramex orders
    | AramexArchive     // "أرشيف أرامكس": archived Aramex orders

  /** The data rows of every sheet at one moment. */
  datatype Book = Book(
    complaints: seq<Row>, responded: seq<Row>, archive: seq<Row>,
    signatures: seq<Row>, aramexPending: seq<Row>, aramexArchive: seq<Row>)
  {
    function Rows(s: Sheet): seq<Row> {
      match s
      case Complaints => complaints
      case Responded => responded
      case Archive => archive
      case ManagerSignatures => signatures
      case AramexPending => aramexPending
      case AramexArchive => aramexArchive
    }

    /** The book with sheet `s` replaced by `rows` and every other sheet as it was. */
    function With(s: Sheet, rows: seq<Row>): (r: Book)
      ensures r.Rows(s) == rows
      ensures forall t :: t != s ==> r.Rows(t) == Rows(t)
    {
      match s
      case Complaints => this.(complaints := rows)
      case Responded => this.(responded := rows)
      case Archive => this.(archive := rows)
      case ManagerSignatures => this.(signatures := rows)
      case AramexPending => this.(aramexPending := rows)
      case AramexArchive => this.(aramexArchive := rows)
    }

    /** Position `i` (1-based, header at 1) names a data row of sheet `s`. */
    predicate ValidPos(s: Sheet, i: int) {
      2 <= i < |Rows(s)| + 2
    }

    /** The data row at position `i` of sheet `s`. */
    function At(s: Sheet, i: int): Row
      requires ValidPos(s, i)
    {
      Rows(s)[i - 2]
    }

    /** `append_row`: `row` becomes the last row of `s`. */
    function Appended(s: Sheet, row: Row): (r: Book)
      ensures r.Rows(s) == Rows(s) + [row]
      ensures forall t :: t != s ==> r.Rows(t) == Rows(t)
    {
      With(s, Rows(s) + [row])
    }

    /** `delete_rows(i)`: the row at position `i` goes and the rows below it move up. */
    function Deleted(s: Sheet, i: int): (r: Book)
      requires ValidPos(s, i)
      ensures r.Rows(s) == RemoveAt(Rows(s), i - 2)
      ensures forall t :: t != s ==> r.Rows(t) == Rows(t)
    {
      With(s, RemoveAt(Rows(s), i - 2))
    }

    /** The row at position `i` of `s` replaced by `row`; every other row and sheet as it was. */
    function RowSet(s: Sheet, i: int, row: Row): (r: Book)
      requires ValidPos(s, i)
      ensures r.Rows(s) == Rows(s)[i - 2 := row]
      ensures forall t :: t != s ==> r.Rows(t) == Rows(t)
    {
      With(s, Rows(s)[i - 2 := row])
    }

    /** `update("<column letter><i>", [[v]])`: cell `c` of the row at position `i` becomes `v`. */
    function CellSet(s: Sheet, i: int, c: nat, v: string): (r: Book)
      requires ValidPos(s, i)
      ensures r.Rows(s) == Rows(s)[i - 2 := SetCol(At(s, i), c, v)]
      ensures forall t :: t != s ==> r.Rows(t) == Rows(t)
    {
      RowSet(s, i, SetCol(At(s, i), c, v))
    }
  }

  /** Two books with the same rows in every sheet are the same book. */
  lemma BookExt(b1: Book, b2: Book)
    requires forall t :: b1.Rows(t) == b2.Rows(t)
    ensures b1 == b2
  {
    assert b1.Rows(Complaints) == b2.Rows(Complaints) && b1.Rows(Responded) == b2.Rows(Responded);
    assert b1.Rows(Archive) == b2.Rows(Archive) && b1.Rows(ManagerSignatures) == b2.Rows(ManagerSignatures);
    assert b1.Rows(AramexPending) == b2.Rows(AramexPending) && b1.Rows(AramexArchive) == b2.Rows(AramexArchive);
  }

  /** Putting a row back where it is changes nothing. */
  lemma RowSetSame(b: Book, s: Sheet, i: int)
    requires b.ValidPos(s, i)
    ensures b.RowSet(s, i, b.At(s, i)) == b
  {
    BookExt(b.RowSet(s, i, b.At(s, i)), b);
  }

  /** A cell update of a replaced row is the replacement by the updated row. */
  lemma CellSetRowSet(b: Book, s: Sheet, i: int, row: Row, c: nat, v: string)
    requires b.ValidPos(s, i)
    ensures b.RowSet(s, i, row).ValidPos(s, i)
    ensures b.RowSet(s, i, row).CellSet(s, i, c, v) == b.RowSet(s, i, SetCol(row, c, v))
  {
    BookExt(b.RowSet(s, i, row).CellSet(s, i, c, v), b.RowSet(s, i, SetCol(row, c, v)));
  }

  /**
   * What a guarded `get_all_values()[1:]` of `s` yields: its rows (padding aside), or [] when the
   * read raised (the pages catch that and go on with an empty list). `unread`
   * names the sheets whose read raises.
   */
  function Seen(b: Book, s: Sheet, unread: set<Sheet>): seq<Row> {
    if s in unread then [] else b.Rows(s)
  }

  /** The number of cells of the longest row, and at least `least`. */
  function Widest(rows: seq<Row>, least: nat): (w: nat)
    ensures least <= w && forall j :: 0 <= j < |rows| ==> |rows[j]| <= w
    ensures w == least || exists j :: 0 <= j < |rows| && |rows[j]| == w
  {
    if rows == [] then least
    else
      var w := Widest(rows[1..], least);
      assert forall j :: 0 <= j < |rows| - 1 ==> rows[1..][j] == rows[j + 1];
      if |rows[0]| > w then |rows[0]| else w
  }

  /**
   * The data rows as `get_all_values()` hands them over: every row padded with
   * empty cells to the width of the sheet's longest row, counting the header
   * row of `header` cells. Padding changes no cell as `Col` reads it; only a
   * page that copies a whole row it read can tell the two apart.
   */
  function ReadPadded(rows: seq<Row>, header: nat): (r: seq<Row>)
    ensures |r| == |rows|
    ensures forall j :: 0 <= j < |rows| ==> r[j] == PadTo(rows[j], Widest(rows, header))
    ensures forall j :: 0 <= j < |rows| ==> |r[j]| == Widest(rows, header)
  {
    seq(|rows|, j requires 0 <= j < |rows| => PadTo(rows[j], Widest(rows, header)))
  }

  /** With a non-empty key, the padded read has its first column-A match in the same row as the stored sheet. */
  lemma PaddedFirstAt(rows: seq<Row>, header: nat, key: string)
    requires key != ""
    ensures FirstAt(ReadPadded(rows, header), 0, key) == FirstAt(rows, 0, key)
  {
    var padded := ReadPadded(rows, header);
    forall j | 0 <= j < |rows|
      ensures KeyAt(padded[j], 0, key) <==> KeyAt(rows[j], 0, key)
    {
      assert Col(padded[j], 0) == Col(rows[j], 0);
    }
    FirstAtSameMatches(padded, rows, 0, key);
  }

  /** The three complaint sheets, in the order the pages scan them. */
  const ComplaintSheets: seq<Sheet> := [Complaints, Responded, Archive]

  /** Index of the first row of sheet `t` whose column A is `key`, as a guarded read sees the sheet. */
  function Lookup(b: Book, t: Sheet, unread: set<Sheet>, key: string): (r: Option<nat>)
    ensures r.Some? ==> t !in unread && r == FirstAt(b.Rows(t), 0, key) && b.ValidPos(t, r.value + 2)
    ensures t !in unread ==> r == FirstAt(b.Rows(t), 0, key)
  {
    FirstAt(Seen(b, t, unread), 0, key)
  }

  /** The scan behind a guarded lookup: the first row of the sheet as read whose column A is `key`. */
  method LookupRow(wb: Workbook, t: Sheet, unread: set<Sheet>, key: string) returns (k: Option<nat>)
    ensures k == Lookup(wb.State(), t, unread, key)
  {
    k := FindRow(Seen(wb.State(), t, unread), key);
  }

  /** How many rows of the whole book carry `key` in column A. */
  function Held(b: Book, key: string): nat {
    Count(b.complaints, key) + Count(b.responded, key) + Count(b.archive, key)
    + Count(b.signatures, key) + Count(b.aramexPending, key) + Count(b.aramexArchive, key)
  }

  /** Replacing one sheet changes `Held` by exactly the change of that sheet's count. */
  lemma HeldWith(b: Book, s: Sheet, rows: seq<Row>, key: string)
    ensures Held(b.With(s, rows), key) + Count(b.Rows(s), key) == Held(b, key) + Count(rows, key)
  {
  }

  /** An append adds the appended row's id to the book and nothing else. */
  lemma HeldAppended(b: Book, s: Sheet, row: Row, key: string)
    ensures Held(b.Appended(s, row), key) == Held(b, key) + Hit(row, key)
  {
    HeldWith(b, s, b.Rows(s) + [row], key);
    CountAppend(b.Rows(s), row, key);
  }

  /** A delete removes the deleted row's id from the book and nothing else. */
  lemma HeldDeleted(b: Book, s: Sheet, i: int, key: string)
    requires b.ValidPos(s, i)
    ensures Held(b.Deleted(s, i), key) + Hit(b.At(s, i), key) == Held(b, key)
  {
    HeldWith(b, s, RemoveAt(b.Rows(s), i - 2), key);
    CountRemoveAt(b.Rows(s), i - 2, key);
  }

  /** Replacing a row by one with the same column A leaves the non-empty ids of the book as they were. */
  lemma HeldRowSet(b: Book, s: Sheet, i: int, row: Row, key: string)
    requires b.ValidPos(s, i) && key != "" && Col(row, 0) == Col(b.At(s, i), 0)
    ensures Held(b.RowSet(s, i, row), key) == Held(b, key)
  {
    var rows := b.Rows(s);
    var k := i - 2;
    var updated := rows[k := row];
    HeldWith(b, s, updated, key);
    assert Hit(updated[k], key) == Hit(rows[k], key);
    CountRemoveAt(rows, k, key);
    assert RemoveAt(updated, k) == RemoveAt(rows, k);
    CountRemoveAt(updated, k, key);
  }

  /**
   * A cell update outside column A leaves the non-empty ids of the book as they
   * were (updating a row with no cells creates an empty column A cell).
   */
  lemma HeldCellSet(b: Book, s: Sheet, i: int, c: nat, v: string, key: string)
    requires b.ValidPos(s, i) && c > 0 && key != ""
    ensures Held(b.CellSet(s, i, c, v), key) == Held(b, key)
  {
    HeldRowSet(b, s, i, SetCol(b.At(s, i), c, v), key);
  }

  /** The `retries` argument every caller of the safe_* helpers leaves at its default. */
  const Retries: nat := 5

  /** Success flag of each attempt of one store call. */
  type Attempts = seq<bool>

  /** Per store call of an action, in the order the action can issue them, its attempts. */
  type Outcomes = seq<Attempts>

  /** Attempt `k` (0-based) of the call goes through. */
  predicate Goes(attempts: Attempts, k: nat) {
    k < |attempts| && attempts[k]
  }

  /** One of the first `retries` attempts goes through. */
  predicate Succeeds(attempts: Attempts, retries: nat) {
    exists k :: 0 <= k < retries && Goes(attempts, k)
  }

  /** The attempts of the store call in slot `slot` of an action. */
  function Call(outcomes: Outcomes, slot: nat): Attempts {
    if slot < |outcomes| then outcomes[slot] else []
  }

  /** The safe_* helper called in slot `slot` returns true. */
  predicate Done(outcomes: Outcomes, slot: nat) {
    Succeeds(Call(outcomes, slot), Retries)
  }

  /**
   * The loop shared by `safe_append`, `safe_update` and `safe_delete`:
   * `for attempt in range(retries): try: <call>; return True except: sleep`.
   * It makes at most `retries` attempts, stops at the first that goes
   * through, and reports whether one did.
   */
  method Retry(attempts: Attempts, retries: nat) returns (ok: bool, made: nat)
    ensures made <= retries
    ensures ok <==> Succeeds(attempts, retries)
    ensures ok ==> 1 <= made && Goes(attempts, made - 1)
    ensures ok ==> forall k :: 0 <= k < made - 1 ==> !Goes(attempts, k)
    ensures !ok ==> made == retries
  {
    ok, made := false, 0;
    while made < retries && !ok
      invariant made <= retries
      invariant ok ==> 1 <= made && Goes(attempts, made - 1)
      invariant forall k :: 0 <= k < made - (if ok then 1 else 0) ==> !Goes(attempts, k)
    {
      ok := Goes(attempts, made);
      made := made + 1;
    }
  }

  /**
   * One `safe_update` of cell `c` of the row at position `i`, seen as a change of
   * that row alone: while the book is `b` with that row replaced by `row`, it
   * stays `b` with the row replaced by `row`, updated when the call succeeds.
   */
  method SafeUpdateRow(wb: Workbook, s: Sheet, i: int, c: nat, v: string, attempts: Attempts, ghost b: Book, ghost row: Row) returns (ok: bool)
    requires b.ValidPos(s, i) && wb.State() == b.RowSet(s, i, row)
    modifies wb
    ensures ok == Succeeds(attempts, Retries)
    ensures wb.State() == b.RowSet(s, i, Update(row, ok, c, v))
  {
    ok := wb.SafeUpdate(s, i, c, v, attempts);
    if ok {
      CellSetRowSet(b, s, i, row, c, v);
    }
  }

  /** The workbook: one list of data rows per sheet, changed in place by the store calls. */
  class Workbook {
    var complaints: seq<Row>
    var responded: seq<Row>
    var archive: seq<Row>
    var signatures: seq<Row>
    var aramexPending: seq<Row>
    var aramexArchive: seq<Row>

    /** The current rows of every sheet. */
    function State(): Book
      reads this
    {
      Book(complaints, responded, archive, signatures, aramexPending, aramexArchive)
    }

    constructor (b: Book)
      ensures State() == b
    {
      complaints, responded, archive := b.complaints, b.responded, b.archive;
      signatures, aramexPending, aramexArchive := b.signatures, b.aramexPending, b.aramexArchive;
    }

    /** The stored data rows of sheet `s`: `get_all_values()[1:]` before its padding (see `ReadPadded`). */
    function Rows(s: Sheet): seq<Row>
      reads this
    {
      State().Rows(s)
    }

    /** Replace the rows of sheet `s`. */
    method Put(s: Sheet, rows: seq<Row>)
      modifies this
      ensures State() == old(State()).With(s, rows)
    {
      match s
      case Complaints => complaints := rows;
      case Responded => responded := rows;
      case Archive => archive := rows;
      case ManagerSignatures => signatures := rows;
      case AramexPending => aramexPending := rows;
      case AramexArchive => aramexArchive := rows;
    }

    /** `safe_append(sheet, row)`: true iff an attempt went through, and then `row` was appended once. */
    method SafeAppend(s: Sheet, row: Row, attempts: Attempts) returns (ok: bool)
      modifies this
      ensures ok == Succeeds(attempts, Retries)
      ensures State() == if ok then old(State()).Appended(s, row) else old(State())
    {
      var made;
      ok, made := Retry(attempts, Retries);
      if ok {
        Put(s, Rows(s) + [row]);
      }
    }

    /** `safe_update(sheet, "<column><i>", [[v]])`: on success the one cell is rewritten, else nothing changes. */
    method SafeUpdate(s: Sheet, i: int, c: nat, v: string, attempts: Attempts) returns (ok: bool)
      requires State().ValidPos(s, i)
      modifies this
      ensures ok == Succeeds(attempts, Retries)
      ensures State() == if ok then old(State()).CellSet(s, i, c, v) else old(State())
    {
      var made;
      ok, made := Retry(attempts, Retries);
      if ok {
        var rows := Rows(s);
        Put(s, rows[i - 2 := SetCol(rows[i - 2], c, v)]);
      }
    }

    /** `safe_delete(sheet, i)`: on success the row at position `i` is removed, else nothing changes. */
    method SafeDelete(s: Sheet, i: int, attempts: Attempts) returns (ok: bool)
      requires State().ValidPos(s, i)
      modifies this
      ensures ok == Succeeds(attempts, Retries)
      ensures State() == if ok then old(State()).Deleted(s, i) else old(State())
    {
      var made;
      ok, made := Retry(attempts, Retries);
      if ok {
        Put(s, RemoveAt(Rows(s), i - 2));
      }
    }
  }
}
