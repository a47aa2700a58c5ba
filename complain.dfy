/**
 * The complaint page: lookups that decorate a complaint, the edit / delete /
 * archive / move actions on a displayed complaint row, the search across the
 * three complaint sheets, the "new complaint" form (reject, restore from the
 * archive, or record), and the Aramex pending-orders sub-flow.
 *
 * Complaint rows are `[id, type, notes, action, created, restored marker,
 * outbound AWB, inbound AWB]` (columns A to H).
 */
module Complain {
  import opened Wrappers
  import opened Text
  import opened Rows
  import opened Store

  const TypePlaceholder: string := "اختر نوع الشكوى..."
  const RestoredMarker: string := "🔄 مسترجعة"
  const ShippedWithAramex: string := "📦 مشحونة مع أرامكس الطلب الاساسي"
  const ShippedWithDelegate: string := "الطلب الاساسي🚚 مشحونة مع مندوب الرياض ("
  const OrderFollowUp: string := "الطلب الاساسي⏳ تحت المتابعة"
  const FollowUp: string := "⏳ تحت المتابعة"

  // ---------------------------------------------------------------- lookups

  /** The fields shown from a ReturnWarehouse row. */
  datatype ReturnRecord = ReturnRecord(
    order: string, invoice: string, date: string, customer: string,
    amount: string, shipment: string, statement: string)

  function RecordOf(row: Row): ReturnRecord {
    ReturnRecord(Col(row, 0), Col(row, 1), Col(row, 2), Col(row, 3), Col(row, 4), Col(row, 5), Col(row, 6))
  }

  /** `get_returnwarehouse_record`: the record of the first row whose column A is the order id. */
  function ReturnWarehouseRecord(rows: seq<Row>, orderId: string): (r: Option<ReturnRecord>)
    ensures r.None? <==> FirstAt(rows, 0, orderId).None?
    ensures r.Some? ==> r.value == RecordOf(rows[FirstAt(rows, 0, orderId).value])
    ensures r.Some? ==> r.value.order == orderId
  {
    if rows == [] then None
    else if KeyAt(rows[0], 0, orderId) then Some(RecordOf(rows[0]))
    else ReturnWarehouseRecord(rows[1..], orderId)
  }

  /** The status text for an order row whose delegate (column D) is `delegate`. */
  function DelegateStatus(delegate: string): (r: string)
    ensures r == ShippedWithAramex <==> AsciiLower(Strip(delegate)) == "aramex"
    ensures Strip(delegate) == "" ==> r == OrderFollowUp
    ensures Strip(delegate) != "" && AsciiLower(Strip(delegate)) != "aramex" ==>
      r == ShippedWithDelegate + delegate + ")" && Contains(r, delegate)
    ensures r != FollowUp
  {
    var named := ShippedWithDelegate + delegate + ")";
    assert named[0] == 'ا' && named[|ShippedWithDelegate|..|ShippedWithDelegate| + |delegate|] == delegate;
    assert OccursAt(named, delegate, |ShippedWithDelegate|);
    if AsciiLower(Strip(delegate)) == "aramex" then ShippedWithAramex
    else if Strip(delegate) != "" then named
    else OrderFollowUp
  }

  /**
   * `get_order_status`: the first order row whose column B is the id decides,
   * through its delegate; with no such row the complaint is under follow-up.
   */
  function OrderStatus(orderRows: seq<Row>, orderId: string): (r: string)
    ensures FirstAt(orderRows, 1, orderId).None? ==> r == FollowUp
    ensures FirstAt(orderRows, 1, orderId).Some? ==>
      r == DelegateStatus(Col(orderRows[FirstAt(orderRows, 1, orderId).value], 3))
    ensures r == FollowUp <==> FirstAt(orderRows, 1, orderId).None?
  {
    if orderRows == [] then FollowUp
    else if KeyAt(orderRows[0], 1, orderId) then DelegateStatus(Col(orderRows[0], 3))
    else OrderStatus(orderRows[1..], orderId)
  }

  // ------------------------------------------------ actions on a shown complaint

  /** The values of the edit form of a displayed complaint. */
  datatype Edit = Edit(kind: string, notes: string, action: string, outbound: string, inbound: string)

  /** The row an archive or a move writes: id, creation date and restored marker carried, the rest from the form. */
  function CarriedRow(row: Row, e: Edit): Row {
    [Col(row, 0), e.kind, e.notes, e.action, Col(row, 4), Col(row, 5), e.outbound, e.inbound]
  }

  /**
   * The shown row after save: five single-cell updates (slots 0-4: columns B,
   * C, D, G, H), each landing exactly when its own update succeeds; the id,
   * the date and the restored marker stay.
   */
  function SavedRow(row: Row, e: Edit, outcomes: Outcomes): (r: Row)
    ensures forall c: nat :: c !in {1, 2, 3, 6, 7} ==> Col(r, c) == Col(row, c)
    ensures Col(r, 1) == if Done(outcomes, 0) then e.kind else Col(row, 1)
    ensures Col(r, 2) == if Done(outcomes, 1) then e.notes else Col(row, 2)
    ensures Col(r, 3) == if Done(outcomes, 2) then e.action else Col(row, 3)
    ensures Col(r, 6) == if Done(outcomes, 3) then e.outbound else Col(row, 6)
    ensures Col(r, 7) == if Done(outcomes, 4) then e.inbound else Col(row, 7)
  {
    var r1 := Update(row, Done(outcomes, 0), 1, e.kind);
    var r2 := Update(r1, Done(outcomes, 1), 2, e.notes);
    var r3 := Update(r2, Done(outcomes, 2), 3, e.action);
    var r4 := Update(r3, Done(outcomes, 3), 6, e.outbound);
    Update(r4, Done(outcomes, 4), 7, e.inbound)
  }

  /** Save on the book: the row at position `i` becomes its saved form; no other row or sheet changes. */
  function SaveSpec(b: Book, s: Sheet, i: int, e: Edit, outcomes: Outcomes): (r: Book)
    requires b.ValidPos(s, i)
    ensures forall t :: t != s ==> r.Rows(t) == b.Rows(t)
    ensures |r.Rows(s)| == |b.Rows(s)|
    ensures forall j :: 0 <= j < |b.Rows(s)| && j != i - 2 ==> r.Rows(s)[j] == b.Rows(s)[j]
    ensures r.ValidPos(s, i) && r.At(s, i) == SavedRow(b.At(s, i), e, outcomes)
  {
    b.RowSet(s, i, SavedRow(b.At(s, i), e, outcomes))
  }

  /** The save button of `render_complaint`. */
  method SaveComplaint(wb: Workbook, s: Sheet, i: int, e: Edit, outcomes: Outcomes)
    requires wb.State().ValidPos(s, i)
    modifies wb
    ensures wb.State() == SaveSpec(old(wb.State()), s, i, e, outcomes)
  {
    ghost var b, row := wb.State(), wb.State().At(s, i);
    RowSetSame(b, s, i);
    var ok := SafeUpdateRow(wb, s, i, 1, e.kind, Call(outcomes, 0), b, row);
    row := Update(row, ok, 1, e.kind);
    ok := SafeUpdateRow(wb, s, i, 2, e.notes, Call(outcomes, 1), b, row);
    row := Update(row, ok, 2, e.notes);
    ok := SafeUpdateRow(wb, s, i, 3, e.action, Call(outcomes, 2), b, row);
    row := Update(row, ok, 3, e.action);
    ok := SafeUpdateRow(wb, s, i, 6, e.outbound, Call(outcomes, 3), b, row);
    row := Update(row, ok, 6, e.outbound);
    ok := SafeUpdateRow(wb, s, i, 7, e.inbound, Call(outcomes, 4), b, row);
  }

  /** The delete button of `render_complaint`: the row goes iff the delete succeeds. */
  method DeleteComplaint(wb: Workbook, s: Sheet, i: int, outcomes: Outcomes) returns (deleted: bool)
    requires wb.State().ValidPos(s, i)
    modifies wb
    ensures deleted == Done(outcomes, 0)
    ensures wb.State() == if deleted then old(wb.State()).Deleted(s, i) else old(wb.State())
  {
    deleted := wb.SafeDelete(s, i, Call(outcomes, 0));
  }

  /**
   * The page's move protocol: append `row` to `dst`; only if that succeeded,
   * delete position `i` of `src`.
   */
  function Transfer(b: Book, src: Sheet, i: int, dst: Sheet, row: Row, appended: bool, deleted: bool): Book
    requires b.ValidPos(src, i)
  {
    if !appended then b
    else if !deleted then b.Appended(dst, row)
    else b.Appended(dst, row).Deleted(src, i)
  }

  /**
   * Book-wide id bookkeeping of a transfer: the moved row's id is added by the
   * append and removed only when the delete follows it.
   */
  lemma TransferCount(b: Book, src: Sheet, i: int, dst: Sheet, row: Row, appended: bool, deleted: bool, key: string)
    requires b.ValidPos(src, i)
    ensures Held(Transfer(b, src, i, dst, row, appended, deleted), key) + (if appended && deleted then Hit(b.At(src, i), key) else 0)
      == Held(b, key) + (if appended then Hit(row, key) else 0)
  {
    if appended {
      var b1 := b.Appended(dst, row);
      HeldAppended(b, dst, row, key);
      if deleted {
        assert b1.ValidPos(src, i) && b1.At(src, i) == b.At(src, i);
        HeldDeleted(b1, src, i, key);
      }
    }
  }

  /**
   * Archiving or moving the complaint at position `i` of `s` to `dst` (slot 0:
   * the append to `dst`, slot 1: the delete from `s`): a failed append changes
   * nothing; a successful one files the carried row at the end of `dst`; the
   * source row goes only when the delete follows.
   */
  function MoveTo(b: Book, s: Sheet, i: int, dst: Sheet, e: Edit, outcomes: Outcomes): (r: Book)
    requires b.ValidPos(s, i)
    ensures !Done(outcomes, 0) ==> r == b
    ensures forall t :: t != s && t != dst ==> r.Rows(t) == b.Rows(t)
    ensures Done(outcomes, 0) && s != dst ==> r.Rows(dst) == b.Rows(dst) + [CarriedRow(b.At(s, i), e)]
    ensures s != dst ==> r.Rows(s) == if Done(outcomes, 0) && Done(outcomes, 1) then RemoveAt(b.Rows(s), i - 2) else b.Rows(s)
    ensures Done(outcomes, 0) && s == dst ==>
      r.Rows(s) == (if Done(outcomes, 1) then RemoveAt(b.Rows(s), i - 2) else b.Rows(s)) + [CarriedRow(b.At(s, i), e)]
  {
    var carried := CarriedRow(b.At(s, i), e);
    assert s == dst && Done(outcomes, 0) && Done(outcomes, 1) ==>
      RemoveAt(b.Rows(s) + [carried], i - 2) == RemoveAt(b.Rows(s), i - 2) + [carried];
    Transfer(b, s, i, dst, carried, Done(outcomes, 0), Done(outcomes, 1))
  }

  /** An archive or a move never loses the complaint's id from the book, and a failed delete leaves exactly one extra copy. */
  lemma MoveToKeepsId(b: Book, s: Sheet, i: int, dst: Sheet, e: Edit, outcomes: Outcomes)
    requires b.ValidPos(s, i)
    ensures Held(MoveTo(b, s, i, dst, e, outcomes), Col(b.At(s, i), 0)) >= Held(b, Col(b.At(s, i), 0))
    ensures Done(outcomes, 0) && !Done(outcomes, 1) ==>
      Held(MoveTo(b, s, i, dst, e, outcomes), Col(b.At(s, i), 0)) == Held(b, Col(b.At(s, i), 0)) + 1
  {
    var carried := CarriedRow(b.At(s, i), e);
    TransferCount(b, s, i, dst, carried, Done(outcomes, 0), Done(outcomes, 1), carried[0]);
  }

  /** Where the move button sends a complaint: back to Complaints from Responded, else to Responded. */
  function MoveDestination(inResponded: bool): Sheet {
    if inResponded then Complaints else Responded
  }

  /** The flag the page passes as `in_responded` for a complaint shown from sheet `s`. */
  function ShownAsResponded(s: Sheet): bool {
    s == Responded
  }

  /** A Responded complaint moves to Complaints; one shown from Complaints or Archive moves to Responded. */
  lemma MoveDestinations()
    ensures MoveDestination(ShownAsResponded(Responded)) == Complaints
    ensures MoveDestination(ShownAsResponded(Complaints)) == Responded
    ensures MoveDestination(ShownAsResponded(Archive)) == Responded
  {
  }

  /** Archive and move share this: pad the shown row to 8 cells, append the carried row, delete on success. */
  method Relocate(wb: Workbook, s: Sheet, i: int, dst: Sheet, e: Edit, outcomes: Outcomes) returns (moved: bool)
    requires wb.State().ValidPos(s, i)
    modifies wb
    ensures moved == (Done(outcomes, 0) && Done(outcomes, 1))
    ensures wb.State() == MoveTo(old(wb.State()), s, i, dst, e, outcomes)
  {
    var row := PadRow(wb.State().At(s, i), 8);
    var carried := [row[0], e.kind, e.notes, e.action, row[4], row[5], e.outbound, e.inbound];
    assert carried == CarriedRow(wb.State().At(s, i), e) by {
      assert Col(row, 0) == row[0] && Col(row, 4) == row[4] && Col(row, 5) == row[5];
    }
    var appended := wb.SafeAppend(dst, carried, Call(outcomes, 0));
    moved := false;
    if appended {
      moved := wb.SafeDelete(s, i, Call(outcomes, 1));
    }
  }

  /** The archive button of `render_complaint`. */
  method ArchiveComplaint(wb: Workbook, s: Sheet, i: int, e: Edit, outcomes: Outcomes) returns (moved: bool)
    requires wb.State().ValidPos(s, i)
    modifies wb
    ensures moved == (Done(outcomes, 0) && Done(outcomes, 1))
    ensures wb.State() == MoveTo(old(wb.State()), s, i, Archive, e, outcomes)
  {
    moved := Relocate(wb, s, i, Archive, e, outcomes);
  }

  /** The move button of `render_complaint`: the destination depends on `in_responded` alone. */
  method MoveComplaint(wb: Workbook, s: Sheet, i: int, inResponded: bool, e: Edit, outcomes: Outcomes) returns (moved: bool)
    requires wb.State().ValidPos(s, i)
    modifies wb
    ensures moved == (Done(outcomes, 0) && Done(outcomes, 1))
    ensures wb.State() == MoveTo(old(wb.State()), s, i, MoveDestination(inResponded), e, outcomes)
  {
    moved := Relocate(wb, s, i, MoveDestination(inResponded), e, outcomes);
  }

  // ------------------------------------------------------------------ search

  datatype SearchResult = BlankQuery | NotFound | Found(sheet: Sheet, pos: int)

  /**
   * The search: nothing for a blank query; otherwise the first row whose column A
   * equals the query, in Complaints, then Responded, then Archive (a sheet whose
   * read raised counts as empty); not found iff none of the three has one.
   */
  function SearchSpec(b: Book, query: string, unread: set<Sheet>): (r: SearchResult)
    ensures r.BlankQuery? <==> Strip(query) == ""
    ensures r.NotFound? <==> (Strip(query) != "" && Lookup(b, Complaints, unread, query).None?
      && Lookup(b, Responded, unread, query).None? && Lookup(b, Archive, unread, query).None?)
    ensures r.Found? ==> r.sheet in ComplaintSheets && r.sheet !in unread && b.ValidPos(r.sheet, r.pos)
    ensures r.Found? ==> FirstAt(b.Rows(r.sheet), 0, query) == Some(r.pos - 2)
    ensures r.Found? && r.sheet != Complaints ==> Lookup(b, Complaints, unread, query).None?
    ensures r.Found? && r.sheet == Archive ==> Lookup(b, Responded, unread, query).None?
  {
    if Strip(query) == "" then BlankQuery
    else if Lookup(b, Complaints, unread, query).Some? then FoundIn(b, Complaints, unread, query)
    else if Lookup(b, Responded, unread, query).Some? then FoundIn(b, Responded, unread, query)
    else if Lookup(b, Archive, unread, query).Some? then FoundIn(b, Archive, unread, query)
    else NotFound
  }

  /** The answer for a hit in sheet `t`: the position of its first row with the query. */
  function FoundIn(b: Book, t: Sheet, unread: set<Sheet>, query: string): (r: SearchResult)
    requires Lookup(b, t, unread, query).Some?
    ensures r.Found? && r.sheet == t && t !in unread && b.ValidPos(t, r.pos)
    ensures FirstAt(b.Rows(t), 0, query) == Some(r.pos - 2)
  {
    Found(t, Lookup(b, t, unread, query).value + 2)
  }

  /** The query is in none of the first `n` complaint sheets, as the guarded reads see them. */
  predicate MissedBefore(b: Book, query: string, unread: set<Sheet>, n: nat)
    requires n <= |ComplaintSheets|
  {
    n == 0 || (MissedBefore(b, query, unread, n - 1) && Lookup(b, ComplaintSheets[n - 1], unread, query).None?)
  }

  /** A hit in the `n`-th sheet of the order, after misses in every earlier one, is the search's answer. */
  lemma FoundAt(b: Book, query: string, unread: set<Sheet>, n: nat, k: nat)
    requires Strip(query) != "" && n < |ComplaintSheets| && MissedBefore(b, query, unread, n)
    requires Lookup(b, ComplaintSheets[n], unread, query) == Some(k)
    ensures SearchSpec(b, query, unread) == Found(ComplaintSheets[n], k + 2)
  {
    if n == 2 {
      assert MissedBefore(b, query, unread, 1);
    }
    if n > 0 {
      assert Lookup(b, ComplaintSheets[0], unread, query).None?;
    }
    assert SearchSpec(b, query, unread) == FoundIn(b, ComplaintSheets[n], unread, query);
  }

  /** Misses in all three sheets make the search come back empty. */
  lemma NotFoundAnywhere(b: Book, query: string, unread: set<Sheet>)
    requires Strip(query) != "" && MissedBefore(b, query, unread, |ComplaintSheets|)
    ensures SearchSpec(b, query, unread) == NotFound
  {
    assert MissedBefore(b, query, unread, 2) && MissedBefore(b, query, unread, 1);
    assert Lookup(b, ComplaintSheets[0], unread, query).None?;
    assert Lookup(b, ComplaintSheets[1], unread, query).None?;
    assert Lookup(b, ComplaintSheets[2], unread, query).None?;
  }

  /** The search loop over the three sheets; the first hit ends it (the page's `found` flag and `break`). */
  method Search(wb: Workbook, query: string, unread: set<Sheet>) returns (r: SearchResult)
    ensures r == SearchSpec(wb.State(), query, unread)
  {
    if Strip(query) == "" {
      return BlankQuery;
    }
    ghost var b := wb.State();
    var n := 0;
    while n < |ComplaintSheets|
      invariant 0 <= n <= |ComplaintSheets|
      invariant MissedBefore(b, query, unread, n)
    {
      var sheet := ComplaintSheets[n];
      var k := LookupRow(wb, sheet, unread, query);
      if k.Some? {
        FoundAt(b, query, unread, n, k.value);
        return Found(sheet, k.value + 2);
      }
      n := n + 1;
    }
    NotFoundAnywhere(b, query, unread);
    r := NotFound;
  }

  // ------------------------------------------------------- new complaint form

  /** The values of the "new complaint" form. */
  datatype NewComplaint = NewComplaint(
    id: string, kind: string, notes: string, action: string, outbound: string, inbound: string)

  datatype CreateOutcome =
    | Incomplete                              // blank id or no type chosen
    | Duplicate                               // id already in Complaints or Responded
    | Restored(appended: bool, deleted: bool) // taken back out of the archive
    | Recorded(sheet: Sheet, appended: bool)  // a fresh complaint

  /** `id in [str(r["ID"]) for r in records]` for a non-empty id. */
  predicate Listed(rows: seq<Row>, id: string) {
    FirstAt(rows, 0, id).Some?
  }

  /** The row a restoration files in Complaints: the archived fields, a new date and the restored marker. */
  function RestoredRow(archived: Row, id: string, now: string): Row {
    [id, Col(archived, 1), Col(archived, 2), Col(archived, 3), now, RestoredMarker, Col(archived, 6), Col(archived, 7)]
  }

  /** Where a fresh complaint goes: Responded when an action is given, Complaints otherwise. */
  function Destination(c: NewComplaint): Sheet {
    if Strip(c.action) != "" then Responded else Complaints
  }

  /** The row a fresh complaint is recorded as; the action is kept only in Responded. */
  function FreshRow(c: NewComplaint, now: string): Row {
    [c.id, c.kind, c.notes, if Strip(c.action) != "" then c.action else "", now, "", c.outbound, c.inbound]
  }

  /**
   * Taking `id` back out of the archive: its first archived row, with a new date
   * and the restored marker, is appended to Complaints (slot 0); only when that
   * succeeds is the archived row deleted (slot 1).
   */
  function RestoreSpec(b: Book, id: string, now: string, outcomes: Outcomes): (r: (Book, CreateOutcome))
    requires Listed(b.archive, id)
    ensures r.1 == Restored(Done(outcomes, 0), Done(outcomes, 0) && Done(outcomes, 1))
    ensures var k := FirstAt(b.archive, 0, id).value;
      && r.0.complaints == b.complaints + (if r.1.appended then [RestoredRow(b.archive[k], id, now)] else [])
      && r.0.archive == (if r.1.deleted then RemoveAt(b.archive, k) else b.archive)
    ensures forall t :: t != Complaints && t != Archive ==> r.0.Rows(t) == b.Rows(t)
  {
    var k := FirstAt(b.archive, 0, id).value;
    var appended, deleted := Done(outcomes, 0), Done(outcomes, 1);
    (Transfer(b, Archive, k + 2, Complaints, RestoredRow(b.archive[k], id, now), appended, deleted), Restored(appended, appended && deleted))
  }

  /** A restoration never loses the id from the book. */
  lemma RestoreKeepsId(b: Book, id: string, now: string, outcomes: Outcomes)
    requires Listed(b.archive, id)
    ensures Held(RestoreSpec(b, id, now, outcomes).0, id) >= Held(b, id)
  {
    var k := FirstAt(b.archive, 0, id).value;
    TransferCount(b, Archive, k + 2, Complaints, RestoredRow(b.archive[k], id, now), Done(outcomes, 0), Done(outcomes, 1), id);
  }

  /** Recording a fresh complaint: one append (slot 0) to its destination sheet. */
  function RecordSpec(b: Book, c: NewComplaint, now: string, outcomes: Outcomes): (r: (Book, CreateOutcome))
    ensures r.1 == Recorded(Destination(c), Done(outcomes, 0))
    ensures r.0.Rows(Destination(c)) == b.Rows(Destination(c)) + (if r.1.appended then [FreshRow(c, now)] else [])
    ensures forall t :: t != Destination(c) ==> r.0.Rows(t) == b.Rows(t)
  {
    (if Done(outcomes, 0) then b.Appended(Destination(c), FreshRow(c, now)) else b, Recorded(Destination(c), Done(outcomes, 0)))
  }

  /**
   * The "add" button. `unread` holds the sheets whose record read raised: an
   * incomplete form and an id already active change nothing; an archived id is
   * restored; any other id is recorded.
   */
  function CreateSpec(b: Book, c: NewComplaint, now: string, unread: set<Sheet>, outcomes: Outcomes): (r: (Book, CreateOutcome))
    ensures r.1 == Incomplete <==> Strip(c.id) == "" || c.kind == TypePlaceholder
    ensures r.1 == Duplicate <==> (Strip(c.id) != "" && c.kind != TypePlaceholder
      && (Listed(Seen(b, Complaints, unread), c.id) || Listed(Seen(b, Responded, unread), c.id)))
    ensures r.1 == Incomplete || r.1 == Duplicate ==> r.0 == b
    ensures r.1.Restored? <==> (Strip(c.id) != "" && c.kind != TypePlaceholder
      && !Listed(Seen(b, Complaints, unread), c.id) && !Listed(Seen(b, Responded, unread), c.id)
      && Listed(Seen(b, Archive, unread), c.id))
  {
    if Strip(c.id) == "" || c.kind == TypePlaceholder then (b, Incomplete)
    else if Listed(Seen(b, Complaints, unread), c.id) || Listed(Seen(b, Responded, unread), c.id) then (b, Duplicate)
    else if Listed(Seen(b, Archive, unread), c.id) then RestoreSpec(b, c.id, now, outcomes)
    else RecordSpec(b, c, now, outcomes)
  }

  /** The archive branch of the "add" button: scan the archive for the id, append, then delete. */
  method Restore(wb: Workbook, id: string, now: string, outcomes: Outcomes) returns (outcome: CreateOutcome)
    requires Listed(wb.State().archive, id)
    modifies wb
    ensures (wb.State(), outcome) == RestoreSpec(old(wb.State()), id, now, outcomes)
  {
    var k := FindRow(wb.Rows(Archive), id);
    var archived := PadRow(wb.Rows(Archive)[k.value], 8);
    var restored := [id, archived[1], archived[2], archived[3], now, RestoredMarker, archived[6], archived[7]];
    assert restored == RestoredRow(wb.Rows(Archive)[k.value], id, now) by {
      assert forall c :: 0 <= c < 8 ==> archived[c] == Col(archived, c);
    }
    var appended := wb.SafeAppend(Complaints, restored, Call(outcomes, 0));
    var deleted := false;
    if appended {
      deleted := wb.SafeDelete(Archive, k.value + 2, Call(outcomes, 1));
    }
    outcome := Restored(appended, deleted);
  }

  /** The fresh-complaint branch of the "add" button: one append, to Responded when an action is given, else to Complaints. */
  method Record(wb: Workbook, c: NewComplaint, now: string, outcomes: Outcomes) returns (outcome: CreateOutcome)
    modifies wb
    ensures (wb.State(), outcome) == RecordSpec(old(wb.State()), c, now, outcomes)
  {
    if Strip(c.action) != "" {
      var appended := wb.SafeAppend(Responded, [c.id, c.kind, c.notes, c.action, now, "", c.outbound, c.inbound], Call(outcomes, 0));
      outcome := Recorded(Responded, appended);
    } else {
      var appended := wb.SafeAppend(Complaints, [c.id, c.kind, c.notes, "", now, "", c.outbound, c.inbound], Call(outcomes, 0));
      outcome := Recorded(Complaints, appended);
    }
  }

  /** The "add" button of the new-complaint form. */
  method Create(wb: Workbook, c: NewComplaint, now: string, unread: set<Sheet>, outcomes: Outcomes) returns (outcome: CreateOutcome)
    modifies wb
    ensures (wb.State(), outcome) == CreateSpec(old(wb.State()), c, now, unread, outcomes)
  {
    ghost var b := wb.State();
    if !(Strip(c.id) != "" && c.kind != TypePlaceholder) {
      assert CreateSpec(b, c, now, unread, outcomes) == (b, Incomplete);
      return Incomplete;
    }
    var complaints := Seen(wb.State(), Complaints, unread);
    var responded := Seen(wb.State(), Responded, unread);
    var archive := Seen(wb.State(), Archive, unread);
    if Listed(complaints, c.id) || Listed(responded, c.id) {
      assert CreateSpec(b, c, now, unread, outcomes) == (b, Duplicate);
      outcome := Duplicate;
    } else if Listed(archive, c.id) {
      assert CreateSpec(b, c, now, unread, outcomes) == RestoreSpec(b, c.id, now, outcomes);
      outcome := Restore(wb, c.id, now, outcomes);
    } else {
      assert CreateSpec(b, c, now, unread, outcomes) == RecordSpec(b, c, now, outcomes);
      outcome := Record(wb, c, now, outcomes);
    }
  }

  /** A restoration ignores the caller's type, notes, action and AWBs: only the id matters. */
  lemma RestoreIgnoresForm(b: Book, c1: NewComplaint, c2: NewComplaint, now: string, unread: set<Sheet>, outcomes: Outcomes)
    requires c1.id == c2.id && c1.kind != TypePlaceholder && c2.kind != TypePlaceholder
    requires CreateSpec(b, c1, now, unread, outcomes).1.Restored?
    ensures CreateSpec(b, c2, now, unread, outcomes) == CreateSpec(b, c1, now, unread, outcomes)
  {
  }

  // ------------------------------------------- one active copy per complaint id

  /** How many rows of Complaints and Responded carry the id. */
  function ActiveCount(b: Book, id: string): nat {
    Count(b.complaints, id) + Count(b.responded, id)
  }

  /** Every non-empty id is active at most once. */
  ghost predicate Exclusive(b: Book) {
    forall id :: id != "" ==> ActiveCount(b, id) <= 1
  }

  /** Appending a row whose id is not active keeps `Exclusive`. */
  lemma {:induction false} AppendKeepsExclusive(b: Book, dst: Sheet, row: Row)
    requires Exclusive(b) && (dst == Complaints || dst == Responded)
    requires Col(row, 0) == "" || ActiveCount(b, Col(row, 0)) == 0
    ensures Exclusive(b.Appended(dst, row))
  {
    var r := b.Appended(dst, row);
    forall id | id != "" ensures ActiveCount(r, id) <= 1 {
      CountAppend(b.Rows(dst), row, id);
      assert ActiveCount(r, id) == ActiveCount(b, id) + Hit(row, id);
      if Hit(row, id) == 1 {
        assert Col(row, 0) == id;
      }
    }
  }

  /** `Exclusive` looks at Complaints and Responded only. */
  lemma ExclusiveOfActive(a: Book, r: Book)
    requires Exclusive(a) && r.complaints == a.complaints && r.responded == a.responded
    ensures Exclusive(r)
  {
    forall id | id != "" ensures ActiveCount(r, id) <= 1 {
      assert ActiveCount(r, id) == ActiveCount(a, id);
    }
  }

  /** Restoring an id active nowhere keeps `Exclusive`. */
  lemma RestoreKeepsExclusive(b: Book, id: string, now: string, outcomes: Outcomes)
    requires Exclusive(b) && Listed(b.archive, id)
    requires !Listed(b.complaints, id) && !Listed(b.responded, id)
    ensures Exclusive(RestoreSpec(b, id, now, outcomes).0)
  {
    var r := RestoreSpec(b, id, now, outcomes);
    var a := b;
    if r.1.appended {
      var row := RestoredRow(b.archive[FirstAt(b.archive, 0, id).value], id, now);
      CountZeroIff(b.complaints, id);
      CountZeroIff(b.responded, id);
      AppendKeepsExclusive(b, Complaints, row);
      a := b.Appended(Complaints, row);
    }
    ExclusiveOfActive(a, r.0);
  }

  /** Recording an id active nowhere keeps `Exclusive`. */
  lemma RecordKeepsExclusive(b: Book, c: NewComplaint, now: string, outcomes: Outcomes)
    requires Exclusive(b) && !Listed(b.complaints, c.id) && !Listed(b.responded, c.id)
    ensures Exclusive(RecordSpec(b, c, now, outcomes).0)
  {
    var r := RecordSpec(b, c, now, outcomes);
    var a := b;
    if r.1.appended {
      CountZeroIff(b.complaints, c.id);
      CountZeroIff(b.responded, c.id);
      AppendKeepsExclusive(b, Destination(c), FreshRow(c, now));
      a := b.Appended(Destination(c), FreshRow(c, now));
    }
    ExclusiveOfActive(a, r.0);
  }

  /** With its reads succeeding, a create never makes an id active twice. */
  lemma {:induction false} CreateKeepsExclusive(b: Book, c: NewComplaint, now: string, unread: set<Sheet>, outcomes: Outcomes)
    requires Exclusive(b) && Complaints !in unread && Responded !in unread
    ensures Exclusive(CreateSpec(b, c, now, unread, outcomes).0)
  {
    if Strip(c.id) != "" && c.kind != TypePlaceholder && !Listed(b.complaints, c.id) && !Listed(b.responded, c.id) {
      if Listed(Seen(b, Archive, unread), c.id) {
        assert Listed(b.archive, c.id);
        RestoreKeepsExclusive(b, c.id, now, outcomes);
      } else {
        RecordKeepsExclusive(b, c, now, outcomes);
      }
    }
  }

  /**
   * A create trusts the record reads: when reading Complaints raised, a
   * complaint already active there is recorded a second time.
   */
  lemma {:induction false} FailedReadAdmitsDuplicate(b: Book, c: NewComplaint, now: string, unread: set<Sheet>, outcomes: Outcomes)
    requires Complaints in unread && Responded in unread && Archive in unread
    requires Strip(c.id) != "" && c.kind != TypePlaceholder && Strip(c.action) == ""
    requires Listed(b.complaints, c.id) && Done(outcomes, 0)
    ensures Count(CreateSpec(b, c, now, unread, outcomes).0.complaints, c.id) >= 2
  {
    var r := CreateSpec(b, c, now, unread, outcomes);
    assert r.1 == Recorded(Complaints, true);
    CountAppend(b.complaints, FreshRow(c, now), c.id);
    CountZeroIff(b.complaints, c.id);
  }

  /** A completed move between Complaints and Responded keeps every id active at most once. */
  lemma {:induction false} MoveKeepsExclusive(b: Book, s: Sheet, i: int, e: Edit, outcomes: Outcomes)
    requires Exclusive(b) && (s == Complaints || s == Responded) && b.ValidPos(s, i)
    requires Done(outcomes, 0) && Done(outcomes, 1)
    ensures Exclusive(MoveTo(b, s, i, MoveDestination(ShownAsResponded(s)), e, outcomes))
  {
    var dst := MoveDestination(ShownAsResponded(s));
    var r := MoveTo(b, s, i, dst, e, outcomes);
    var carried := CarriedRow(b.At(s, i), e);
    assert dst != s && r.Rows(dst) == b.Rows(dst) + [carried] && r.Rows(s) == RemoveAt(b.Rows(s), i - 2);
    forall id | id != "" ensures ActiveCount(r, id) <= 1 {
      CountAppend(b.Rows(dst), carried, id);
      CountRemoveAt(b.Rows(s), i - 2, id);
      assert Hit(carried, id) == Hit(b.At(s, i), id) by {
        assert carried[0] == Col(b.At(s, i), 0);
      }
      assert ActiveCount(r, id) == Count(r.Rows(dst), id) + Count(r.Rows(s), id);
      assert ActiveCount(b, id) == Count(b.Rows(dst), id) + Count(b.Rows(s), id);
    }
  }

  /** A move whose delete fails leaves the id active twice. */
  lemma {:induction false} PartialMoveDuplicates(b: Book, s: Sheet, i: int, e: Edit, outcomes: Outcomes)
    requires (s == Complaints || s == Responded) && b.ValidPos(s, i) && Col(b.At(s, i), 0) != ""
    requires Done(outcomes, 0) && !Done(outcomes, 1)
    ensures var id := Col(b.At(s, i), 0);
      ActiveCount(MoveTo(b, s, i, MoveDestination(ShownAsResponded(s)), e, outcomes), id) == ActiveCount(b, id) + 1
      && ActiveCount(b, id) >= 1
  {
    var dst := MoveDestination(ShownAsResponded(s));
    var id := Col(b.At(s, i), 0);
    CountAppend(b.Rows(dst), CarriedRow(b.At(s, i), e), id);
    CountZeroIff(b.Rows(s), id);
    assert KeyAt(b.Rows(s)[i - 2], 0, id);
  }

  /**
   * Moving an archived complaint goes to Responded without any duplicate check:
   * when the id has meanwhile been recorded again in Complaints, it ends up
   * active twice.
   */
  lemma {:induction false} ArchivedMoveCanDuplicate(b: Book, i: int, e: Edit, outcomes: Outcomes)
    requires b.ValidPos(Archive, i) && Col(b.At(Archive, i), 0) != ""
    requires Listed(b.complaints, Col(b.At(Archive, i), 0)) && Done(outcomes, 0)
    ensures !Exclusive(MoveTo(b, Archive, i, MoveDestination(ShownAsResponded(Archive)), e, outcomes))
  {
    var id := Col(b.At(Archive, i), 0);
    var r := MoveTo(b, Archive, i, Responded, e, outcomes);
    CountAppend(b.responded, CarriedRow(b.At(Archive, i), e), id);
    CountZeroIff(b.complaints, id);
    assert ActiveCount(r, id) >= 2;
  }

  // ------------------------------------------------------ Aramex pending orders

  datatype AramexAddOutcome = MissingField | Logged(appended: bool)

  /** The Aramex "add" form: order, status and action must all be non-blank; then one row is appended. */
  function AramexAddSpec(b: Book, order: string, status: string, action: string, now: string, outcomes: Outcomes): (r: (Book, AramexAddOutcome))
    ensures r.1 == MissingField <==> Strip(order) == "" || Strip(status) == "" || Strip(action) == ""
    ensures r.1 == MissingField ==> r.0 == b
    ensures r.1.Logged? ==> r.1.appended == Done(outcomes, 0)
    ensures r.1.Logged? ==> r.0.aramexPending == b.aramexPending + (if r.1.appended then [[order, status, now, action]] else [])
    ensures forall t :: t != AramexPending ==> r.0.Rows(t) == b.Rows(t)
  {
    if Strip(order) != "" && Strip(status) != "" && Strip(action) != "" then
      (if Done(outcomes, 0) then b.Appended(AramexPending, [order, status, now, action]) else b, Logged(Done(outcomes, 0)))
    else (b, MissingField)
  }

  method AddAramexOrder(wb: Workbook, order: string, status: string, action: string, now: string, outcomes: Outcomes) returns (r: AramexAddOutcome)
    modifies wb
    ensures (wb.State(), r) == AramexAddSpec(old(wb.State()), order, status, action, now, outcomes)
  {
    if Strip(order) != "" && Strip(status) != "" && Strip(action) != "" {
      var appended := wb.SafeAppend(AramexPending, [order, status, now, action], Call(outcomes, 0));
      r := Logged(appended);
    } else {
      r := MissingField;
    }
  }

  /** The Aramex "save" button: status (B, slot 0) and action (D, slot 1) of the order row; nothing else. */
  function AramexSaveSpec(b: Book, i: int, status: string, action: string, outcomes: Outcomes): (r: Book)
    requires b.ValidPos(AramexPending, i)
    ensures forall t :: t != AramexPending ==> r.Rows(t) == b.Rows(t)
    ensures |r.aramexPending| == |b.aramexPending|
    ensures forall j :: 0 <= j < |b.aramexPending| && j != i - 2 ==> r.aramexPending[j] == b.aramexPending[j]
    ensures forall c: nat :: c != 1 && c != 3 ==> Col(r.At(AramexPending, i), c) == Col(b.At(AramexPending, i), c)
    ensures Col(r.aramexPending[i - 2], 1) == if Done(outcomes, 0) then status else Col(b.aramexPending[i - 2], 1)
    ensures Col(r.aramexPending[i - 2], 3) == if Done(outcomes, 1) then action else Col(b.aramexPending[i - 2], 3)
  {
    var b1 := if Done(outcomes, 0) then b.CellSet(AramexPending, i, 1, status) else b;
    if Done(outcomes, 1) then b1.CellSet(AramexPending, i, 3, action) else b1
  }

  method SaveAramexOrder(wb: Workbook, i: int, status: string, action: string, outcomes: Outcomes)
    requires wb.State().ValidPos(AramexPending, i)
    modifies wb
    ensures wb.State() == AramexSaveSpec(old(wb.State()), i, status, action, outcomes)
  {
    var ok := wb.SafeUpdate(AramexPending, i, 1, status, Call(outcomes, 0));
    ok := wb.SafeUpdate(AramexPending, i, 3, action, Call(outcomes, 1));
  }

  /** The row archiving an Aramex order writes: order id and date carried, status and action from the form. */
  function AramexArchivedRow(row: Row, status: string, action: string): Row {
    [Col(row, 0), status, Col(row, 2), action]
  }

  /**
   * The Aramex "archive" button: append to the Aramex archive (slot 0), then,
   * only on success, delete the pending row (slot 1).
   */
  function AramexArchiveSpec(b: Book, i: int, status: string, action: string, outcomes: Outcomes): (r: Book)
    requires b.ValidPos(AramexPending, i)
    ensures !Done(outcomes, 0) ==> r == b
    ensures forall t :: t != AramexPending && t != AramexArchive ==> r.Rows(t) == b.Rows(t)
    ensures r.aramexArchive == b.aramexArchive + (if Done(outcomes, 0) then [AramexArchivedRow(b.At(AramexPending, i), status, action)] else [])
    ensures r.aramexPending == if Done(outcomes, 0) && Done(outcomes, 1) then RemoveAt(b.aramexPending, i - 2) else b.aramexPending
    ensures Held(r, Col(b.At(AramexPending, i), 0)) >= Held(b, Col(b.At(AramexPending, i), 0))
  {
    var row := AramexArchivedRow(b.At(AramexPending, i), status, action);
    TransferCount(b, AramexPending, i, AramexArchive, row, Done(outcomes, 0), Done(outcomes, 1), row[0]);
    Transfer(b, AramexPending, i, AramexArchive, row, Done(outcomes, 0), Done(outcomes, 1))
  }

  method ArchiveAramexOrder(wb: Workbook, i: int, status: string, action: string, outcomes: Outcomes) returns (moved: bool)
    requires wb.State().ValidPos(AramexPending, i)
    modifies wb
    ensures moved == (Done(outcomes, 0) && Done(outcomes, 1))
    ensures wb.State() == AramexArchiveSpec(old(wb.State()), i, status, action, outcomes)
  {
    var row := PadRow(wb.State().At(AramexPending, i), 4);
    var archived := [row[0], status, row[2], action];
    assert archived == AramexArchivedRow(wb.State().At(AramexPending, i), status, action) by {
      assert Col(row, 0) == row[0] && Col(row, 2) == row[2];
    }
    var appended := wb.SafeAppend(AramexArchive, archived, Call(outcomes, 0));
    moved := false;
    if appended {
      moved := wb.SafeDelete(AramexPending, i, Call(outcomes, 1));
    }
  }
}
