/**
 * The manager's control panel: the password gate and password change kept in
 * the browser session, the signature record upsert in ManagerSignatures, the
 * approval / rejection note added to column D of the complaint, the older
 * approve / reject forms and the signature-request page.
 *
 * ManagerSignatures rows are `[id, manager, date, notes, status, signature]`
 * (columns A to F).
 */
module Admin {
  import opened Wrappers
  import opened Text
  import opened Rows
  import opened Store

  const DefaultPassword: string := "1234"
  const Manager: string := "المدير"
  const Approved: string := "معتمد"
  const Rejected: string := "مرفوض"
  const SignatureRequested: string := "مطلوب توقيع"

  // ------------------------------------------------------------ password gate

  datatype Gate = EmptyPassword | WrongPassword | Admitted

  /** The login gate: an empty entry is turned away first, then anything but the stored password. */
  function CheckPassword(stored: string, entered: string): (g: Gate)
    ensures g == EmptyPassword <==> entered == ""
    ensures g == WrongPassword <==> entered != "" && entered != stored
    ensures g == Admitted <==> entered != "" && entered == stored
  {
    if entered == "" then EmptyPassword
    else if entered != stored then WrongPassword
    else Admitted
  }

  datatype Change = WrongCurrent | Mismatch | Changed

  /** The password change form: the new password is stored only when the current one matches and the two entries agree. */
  function PasswordChange(stored: string, current: string, chosen: string, confirm: string): (r: (Change, string))
    ensures r.0 == WrongCurrent <==> current != stored
    ensures r.0 == Mismatch <==> current == stored && chosen != confirm
    ensures r.0 == Changed <==> current == stored && chosen == confirm
    ensures r.1 == if r.0 == Changed then chosen else stored
  {
    if current != stored then (WrongCurrent, stored)
    else if chosen != confirm then (Mismatch, stored)
    else (Changed, chosen)
  }

  /** Nothing but a non-empty new password lets the manager in after a change; an empty one locks the session out. */
  lemma {:induction false} ChangedPasswordGate(stored: string, current: string, chosen: string, entered: string)
    requires PasswordChange(stored, current, chosen, chosen).0 == Changed
    ensures CheckPassword(PasswordChange(stored, current, chosen, chosen).1, entered) == Admitted <==> entered != "" && entered == chosen
    ensures chosen == "" ==> CheckPassword(PasswordChange(stored, current, chosen, chosen).1, entered) != Admitted
  {
  }

  /** The part of the browser session this page keeps: the manager password, absent until the first login. */
  class Session {
    var adminPassword: Option<string>

    constructor ()
      ensures adminPassword == None
    {
      adminPassword := None;
    }

    /** The password in force: the stored one, or the default while none is stored. */
    function Stored(): string
      reads this
    {
      if adminPassword.Some? then adminPassword.value else DefaultPassword
    }

    /** The login gate; it stores the default password when none is stored yet. */
    method Login(entered: string) returns (g: Gate)
      modifies this
      ensures adminPassword == Some(old(Stored()))
      ensures g == CheckPassword(old(Stored()), entered)
    {
      if adminPassword.None? {
        adminPassword := Some(DefaultPassword);
      }
      if entered == "" {
        return EmptyPassword;
      }
      if entered != adminPassword.value {
        return WrongPassword;
      }
      g := Admitted;
    }

    /** The password change form, reached only after a login. */
    method ChangePassword(current: string, chosen: string, confirm: string) returns (c: Change)
      requires adminPassword.Some?
      modifies this
      ensures adminPassword.Some?
      ensures (c, Stored()) == PasswordChange(old(Stored()), current, chosen, confirm)
    {
      if current != adminPassword.value {
        c := WrongCurrent;
      } else if chosen != confirm {
        c := Mismatch;
      } else {
        adminPassword := Some(chosen);
        c := Changed;
      }
    }
  }

  // ------------------------------------------------------ signature records

  /** The signature record appended for an id without one; an absent signature is stored as "". */
  function SignatureRow(id: string, now: string, status: string, sig: Option<string>): Row {
    [id, Manager, now, "", status, if sig.Some? then sig.value else ""]
  }

  /**
   * An existing signature record after the decision's updates: manager (B,
   * slot 0), date (C, slot 1), status (E, slot 2) and, when a signature is
   * given, the signature (F, slot 3), each landing when its own update does.
   * The id and the notes stay.
   */
  function SignedRow(row: Row, now: string, status: string, sig: Option<string>, outcomes: Outcomes): (r: Row)
    ensures forall c: nat :: c !in {1, 2, 4, 5} ==> Col(r, c) == Col(row, c)
    ensures Col(r, 1) == if Done(outcomes, 0) then Manager else Col(row, 1)
    ensures Col(r, 2) == if Done(outcomes, 1) then now else Col(row, 2)
    ensures Col(r, 4) == if Done(outcomes, 2) then status else Col(row, 4)
    ensures Col(r, 5) == if sig.Some? && Done(outcomes, 3) then sig.value else Col(row, 5)
  {
    var r1 := Update(row, Done(outcomes, 0), 1, Manager);
    var r2 := Update(r1, Done(outcomes, 1), 2, now);
    var r3 := Update(r2, Done(outcomes, 2), 4, status);
    if sig.Some? then Update(r3, Done(outcomes, 3), 5, sig.value) else r3
  }

  /** The record at position `i` takes its signed form; every other row and sheet stays. */
  function RecordUpdate(b: Book, i: int, now: string, status: string, sig: Option<string>, outcomes: Outcomes): (r: Book)
    requires b.ValidPos(ManagerSignatures, i)
    ensures forall t :: t != ManagerSignatures ==> r.Rows(t) == b.Rows(t)
    ensures |r.signatures| == |b.signatures|
    ensures forall j :: 0 <= j < |b.signatures| && j != i - 2 ==> r.signatures[j] == b.signatures[j]
    ensures r.ValidPos(ManagerSignatures, i) && r.At(ManagerSignatures, i) == SignedRow(b.At(ManagerSignatures, i), now, status, sig, outcomes)
  {
    b.RowSet(ManagerSignatures, i, SignedRow(b.At(ManagerSignatures, i), now, status, sig, outcomes))
  }

  /** Updating a signature record leaves every non-empty id of the book where it was. */
  lemma RecordUpdateKeepsIds(b: Book, i: int, now: string, status: string, sig: Option<string>, outcomes: Outcomes, key: string)
    requires b.ValidPos(ManagerSignatures, i) && key != ""
    ensures Held(RecordUpdate(b, i, now, status, sig, outcomes), key) == Held(b, key)
  {
    HeldRowSet(b, ManagerSignatures, i, SignedRow(b.At(ManagerSignatures, i), now, status, sig, outcomes), key);
  }

  /**
   * The ManagerSignatures upsert: when the read finds a record for the id, the
   * first one is updated as `RecordUpdate` says; otherwise one record is
   * appended (slot 0). Nothing outside ManagerSignatures changes.
   */
  function UpsertSpec(b: Book, id: string, now: string, status: string, sig: Option<string>, unread: set<Sheet>, outcomes: Outcomes): (r: Book)
    ensures forall t :: t != ManagerSignatures ==> r.Rows(t) == b.Rows(t)
    ensures Lookup(b, ManagerSignatures, unread, id).None? ==>
      r.signatures == b.signatures + (if Done(outcomes, 0) then [SignatureRow(id, now, status, sig)] else [])
    ensures Lookup(b, ManagerSignatures, unread, id).Some? ==>
      r == RecordUpdate(b, Lookup(b, ManagerSignatures, unread, id).value + 2, now, status, sig, outcomes)
  {
    match Lookup(b, ManagerSignatures, unread, id)
    case None =>
      if Done(outcomes, 0) then b.Appended(ManagerSignatures, SignatureRow(id, now, status, sig)) else b
    case Some(k) => RecordUpdate(b, k + 2, now, status, sig, outcomes)
  }

  method Upsert(wb: Workbook, id: string, now: string, status: string, sig: Option<string>, unread: set<Sheet>, outcomes: Outcomes)
    modifies wb
    ensures wb.State() == UpsertSpec(old(wb.State()), id, now, status, sig, unread, outcomes)
  {
    var existing := FindRow(Seen(wb.State(), ManagerSignatures, unread), id);
    if existing.Some? {
      var i := existing.value + 2;
      ghost var b, row := wb.State(), wb.State().At(ManagerSignatures, i);
      RowSetSame(b, ManagerSignatures, i);
      var ok := SafeUpdateRow(wb, ManagerSignatures, i, 1, Manager, Call(outcomes, 0), b, row);
      row := Update(row, ok, 1, Manager);
      ok := SafeUpdateRow(wb, ManagerSignatures, i, 2, now, Call(outcomes, 1), b, row);
      row := Update(row, ok, 2, now);
      ok := SafeUpdateRow(wb, ManagerSignatures, i, 4, status, Call(outcomes, 2), b, row);
      if sig.Some? {
        row := Update(row, ok, 4, status);
        ok := SafeUpdateRow(wb, ManagerSignatures, i, 5, sig.value, Call(outcomes, 3), b, row);
      }
    } else {
      var ok := wb.SafeAppend(ManagerSignatures, SignatureRow(id, now, status, sig), Call(outcomes, 0));
    }
  }

  // -------------------------------------------------- the note in column D

  function ApprovalNote(now: string): string {
    " | ✔ تم اعتمادها بواسطة " + Manager + " بتاريخ " + now
  }

  function RejectionNote(now: string): string {
    " | ❌ تم رفضها بواسطة " + Manager + " بتاريخ " + now
  }

  /**
   * Column D after a decision: the note is concatenated unless its stripped
   * form already occurs. The old text is always kept as a prefix and the
   * stripped note always occurs in the result.
   */
  function Annotated(action: string, note: string): (r: string)
    ensures Contains(action, Strip(note)) ==> r == action
    ensures !Contains(action, Strip(note)) ==> r == action + note
    ensures |action| <= |r| && r[..|action|] == action
    ensures Contains(r, Strip(note))
  {
    StrippedNoteFound(action, note);
    if Contains(action, Strip(note)) then action else action + note
  }

  /** Adding the same note twice adds it once. */
  lemma AnnotatedIdempotent(action: string, note: string)
    ensures Annotated(Annotated(action, note), note) == Annotated(action, note)
  {
  }

  /**
   * The note step on one sheet: the first row whose column A is the id (as the
   * guarded read sees the sheet) gets the note in column D, written by one
   * update whose attempts are `attempts`, and only when the note is not there
   * yet. Reports whether the sheet held the id.
   */
  function AnnotateIn(b: Book, t: Sheet, id: string, note: string, unread: set<Sheet>, attempts: Attempts): (r: (Book, bool))
    ensures r.1 <==> Lookup(b, t, unread, id).Some?
    ensures !r.1 ==> r.0 == b
    ensures forall u :: u != t ==> r.0.Rows(u) == b.Rows(u)
    ensures |r.0.Rows(t)| == |b.Rows(t)|
    ensures r.1 ==> var k := Lookup(b, t, unread, id).value;
      && (forall j :: 0 <= j < |b.Rows(t)| && j != k ==> r.0.Rows(t)[j] == b.Rows(t)[j])
      && (forall c: nat :: c != 3 ==> Col(r.0.Rows(t)[k], c) == Col(b.Rows(t)[k], c))
      && Col(r.0.Rows(t)[k], 3) == (if Succeeds(attempts, Retries) then Annotated(Col(b.Rows(t)[k], 3), note) else Col(b.Rows(t)[k], 3))
      && KeyAt(r.0.Rows(t)[k], 0, id)
  {
    match Lookup(b, t, unread, id)
    case None => (b, false)
    case Some(k) =>
      var action := Col(b.Rows(t)[k], 3);
      if Contains(action, Strip(note)) || !Succeeds(attempts, Retries) then (b, true)
      else (b.CellSet(t, k + 2, 3, action + note), true)
  }

  /** The note step writes column D only, so no non-empty id is lost or gained anywhere. */
  lemma AnnotateKeepsIds(b: Book, t: Sheet, id: string, note: string, unread: set<Sheet>, attempts: Attempts)
    ensures forall key :: key != "" ==> Held(AnnotateIn(b, t, id, note, unread, attempts).0, key) == Held(b, key)
  {
    match Lookup(b, t, unread, id)
    case None =>
    case Some(k) =>
      var action := Col(b.Rows(t)[k], 3);
      if !(Contains(action, Strip(note)) || !Succeeds(attempts, Retries)) {
        forall key | key != "" ensures Held(b.CellSet(t, k + 2, 3, action + note), key) == Held(b, key) {
          HeldCellSet(b, t, k + 2, 3, action + note, key);
        }
      }
  }

  /** The note step touches column D alone, so the id is found in the same row afterwards. */
  lemma AnnotateKeepsLookup(b: Book, t: Sheet, id: string, note: string, unread: set<Sheet>, attempts: Attempts, u: Sheet)
    ensures Lookup(AnnotateIn(b, t, id, note, unread, attempts).0, u, unread, id) == Lookup(b, u, unread, id)
  {
    var r := AnnotateIn(b, t, id, note, unread, attempts);
    if u == t && r.1 {
      var k := Lookup(b, t, unread, id).value;
      var rows := b.Rows(t);
      var action := Col(rows[k], 3);
      if !(Contains(action, Strip(note)) || !Succeeds(attempts, Retries)) {
        var row := SetCol(rows[k], 3, action + note);
        assert r.0.Rows(t) == rows[k := row];
        assert Col(row, 0) == Col(rows[k], 0);
        FirstAtReplace(rows, k, row, 0, id);
      }
    }
  }

  /** Repeating the note step with the same note and the same attempts changes nothing more. */
  lemma AnnotateInTwice(b: Book, t: Sheet, id: string, note: string, unread: set<Sheet>, attempts: Attempts)
    ensures AnnotateIn(AnnotateIn(b, t, id, note, unread, attempts).0, t, id, note, unread, attempts)
      == AnnotateIn(b, t, id, note, unread, attempts)
  {
    var r := AnnotateIn(b, t, id, note, unread, attempts);
    AnnotateKeepsLookup(b, t, id, note, unread, attempts, t);
    if r.1 && Succeeds(attempts, Retries) {
      var k := Lookup(b, t, unread, id).value;
      assert Contains(Col(r.0.Rows(t)[k], 3), Strip(note));
    }
  }

  /** The note step on a sheet reads that sheet alone. */
  lemma AnnotateInLocal(b1: Book, b2: Book, t: Sheet, id: string, note: string, unread: set<Sheet>, attempts: Attempts)
    requires b1.Rows(t) == b2.Rows(t)
    ensures AnnotateIn(b1, t, id, note, unread, attempts).1 == AnnotateIn(b2, t, id, note, unread, attempts).1
    ensures AnnotateIn(b1, t, id, note, unread, attempts).0.Rows(t) == AnnotateIn(b2, t, id, note, unread, attempts).0.Rows(t)
  {
  }

  /** The slot of the column-D update on the `n`-th complaint sheet; slots 0 to 3 belong to the upsert. */
  function NoteSlot(n: nat): nat {
    4 + n
  }

  /**
   * The approve loop with its `appended` / `updated` flag, from the `n`-th
   * complaint sheet on: the note goes to the first sheet holding the id, and
   * the scan stops there. Only complaint sheets from the `n`-th on can change.
   */
  function FirstPass(b: Book, n: nat, id: string, note: string, unread: set<Sheet>, outcomes: Outcomes): (r: Book)
    requires n <= |ComplaintSheets|
    decreases |ComplaintSheets| - n
    ensures forall u :: u !in ComplaintSheets[n..] ==> r.Rows(u) == b.Rows(u)
  {
    if n == |ComplaintSheets| then b
    else
      var (b1, hit) := AnnotateIn(b, ComplaintSheets[n], id, note, unread, Call(outcomes, NoteSlot(n)));
      if hit then b1 else FirstPass(b1, n + 1, id, note, unread, outcomes)
  }

  /** No complaint sheet comes twice in the scan order. */
  lemma LaterSheets(n: nat)
    requires n < |ComplaintSheets|
    ensures ComplaintSheets[n] !in ComplaintSheets[n + 1..]
    ensures forall m :: n < m < |ComplaintSheets| ==> ComplaintSheets[m] in ComplaintSheets[n + 1..]
  {
    assert ComplaintSheets[n + 1..] == if n == 0 then [Responded, Archive] else if n == 1 then [Archive] else [];
  }

  /** The approve scan changes a complaint sheet only when it is the first one, in scan order, holding the id. */
  lemma {:induction false} FirstPassFirstHolder(b: Book, n: nat, id: string, note: string, unread: set<Sheet>, outcomes: Outcomes, m: nat)
    requires n <= m < |ComplaintSheets|
    requires FirstPass(b, n, id, note, unread, outcomes).Rows(ComplaintSheets[m]) != b.Rows(ComplaintSheets[m])
    decreases |ComplaintSheets| - n
    ensures Lookup(b, ComplaintSheets[m], unread, id).Some?
    ensures forall j :: n <= j < m ==> Lookup(b, ComplaintSheets[j], unread, id).None?
  {
    var (b1, hit) := AnnotateIn(b, ComplaintSheets[n], id, note, unread, Call(outcomes, NoteSlot(n)));
    if hit {
      LaterSheets(n);
      assert FirstPass(b, n, id, note, unread, outcomes) == b1;
    } else {
      assert b1 == b;
      if m == n {
        assert false;
      }
      FirstPassFirstHolder(b, n + 1, id, note, unread, outcomes, m);
    }
  }

  /** The `m`-th complaint sheet is the first, in scan order, whose readable rows hold the id. */
  predicate FirstToHold(b: Book, id: string, unread: set<Sheet>, m: nat)
    requires m < |ComplaintSheets|
  {
    Lookup(b, ComplaintSheets[m], unread, id).Some?
    && forall j :: 0 <= j < m ==> Lookup(b, ComplaintSheets[j], unread, id).None?
  }

  /** The approve scan leaves the first complaint sheet holding the id as the single-sheet note step leaves it. */
  lemma {:induction false} FirstPassNotesFirstHolder(b: Book, n: nat, id: string, note: string, unread: set<Sheet>, outcomes: Outcomes, m: nat)
    requires n <= m < |ComplaintSheets|
    requires Lookup(b, ComplaintSheets[m], unread, id).Some?
    requires forall j :: n <= j < m ==> Lookup(b, ComplaintSheets[j], unread, id).None?
    decreases m - n
    ensures FirstPass(b, n, id, note, unread, outcomes).Rows(ComplaintSheets[m])
      == AnnotateIn(b, ComplaintSheets[m], id, note, unread, Call(outcomes, NoteSlot(m))).0.Rows(ComplaintSheets[m])
  {
    var (b1, hit) := AnnotateIn(b, ComplaintSheets[n], id, note, unread, Call(outcomes, NoteSlot(n)));
    if n == m {
      assert FirstPass(b, n, id, note, unread, outcomes) == b1;
    } else {
      assert b1 == b;
      assert FirstPass(b, n, id, note, unread, outcomes) == FirstPass(b, n + 1, id, note, unread, outcomes);
      FirstPassNotesFirstHolder(b, n + 1, id, note, unread, outcomes, m);
    }
  }

  /**
   * The old reject loop, which has no outer break, from the `n`-th complaint
   * sheet on: every sheet holding the id gets the note in its first such row.
   */
  function EachPass(b: Book, n: nat, id: string, note: string, unread: set<Sheet>, outcomes: Outcomes): (r: Book)
    requires n <= |ComplaintSheets|
    decreases |ComplaintSheets| - n
    ensures forall u :: u !in ComplaintSheets[n..] ==> r.Rows(u) == b.Rows(u)
  {
    if n == |ComplaintSheets| then b
    else EachPass(AnnotateIn(b, ComplaintSheets[n], id, note, unread, Call(outcomes, NoteSlot(n))).0, n + 1, id, note, unread, outcomes)
  }

  /** The old reject loop leaves each complaint sheet as the single-sheet note step leaves it, each sheet on its own. */
  lemma {:induction false} EachPassNotesEach(b: Book, n: nat, id: string, note: string, unread: set<Sheet>, outcomes: Outcomes)
    requires n <= |ComplaintSheets|
    decreases |ComplaintSheets| - n
    ensures forall m :: n <= m < |ComplaintSheets| ==>
      EachPass(b, n, id, note, unread, outcomes).Rows(ComplaintSheets[m])
      == AnnotateIn(b, ComplaintSheets[m], id, note, unread, Call(outcomes, NoteSlot(m))).0.Rows(ComplaintSheets[m])
  {
    if n < |ComplaintSheets| {
      var t := ComplaintSheets[n];
      var b1 := AnnotateIn(b, t, id, note, unread, Call(outcomes, NoteSlot(n))).0;
      var r := EachPass(b1, n + 1, id, note, unread, outcomes);
      assert EachPass(b, n, id, note, unread, outcomes) == r;
      LaterSheets(n);
      assert r.Rows(t) == b1.Rows(t);
      EachPassNotesEach(b1, n + 1, id, note, unread, outcomes);
      forall m | n < m < |ComplaintSheets|
        ensures r.Rows(ComplaintSheets[m])
          == AnnotateIn(b, ComplaintSheets[m], id, note, unread, Call(outcomes, NoteSlot(m))).0.Rows(ComplaintSheets[m])
      {
        assert ComplaintSheets[m] != t;
        AnnotateInLocal(b1, b, ComplaintSheets[m], id, note, unread, Call(outcomes, NoteSlot(m)));
      }
    }
  }

  /** Neither scan loses or gains a non-empty id anywhere in the book. */
  lemma {:induction false} PassesKeepIds(b: Book, n: nat, id: string, note: string, unread: set<Sheet>, outcomes: Outcomes, key: string)
    requires n <= |ComplaintSheets| && key != ""
    decreases |ComplaintSheets| - n
    ensures Held(FirstPass(b, n, id, note, unread, outcomes), key) == Held(b, key)
    ensures Held(EachPass(b, n, id, note, unread, outcomes), key) == Held(b, key)
  {
    if n < |ComplaintSheets| {
      var t, attempts := ComplaintSheets[n], Call(outcomes, NoteSlot(n));
      AnnotateKeepsIds(b, t, id, note, unread, attempts);
      PassesKeepIds(AnnotateIn(b, t, id, note, unread, attempts).0, n + 1, id, note, unread, outcomes, key);
    }
  }

  /** Approving twice on the same date adds the note once. */
  lemma {:induction false} FirstPassTwice(b: Book, n: nat, id: string, note: string, unread: set<Sheet>, outcomes: Outcomes)
    requires n <= |ComplaintSheets|
    decreases |ComplaintSheets| - n
    ensures FirstPass(FirstPass(b, n, id, note, unread, outcomes), n, id, note, unread, outcomes)
      == FirstPass(b, n, id, note, unread, outcomes)
  {
    if n < |ComplaintSheets| {
      var t, attempts := ComplaintSheets[n], Call(outcomes, NoteSlot(n));
      var (b1, hit) := AnnotateIn(b, t, id, note, unread, attempts);
      if hit {
        AnnotateKeepsLookup(b, t, id, note, unread, attempts, t);
        AnnotateInTwice(b, t, id, note, unread, attempts);
      } else {
        var r := FirstPass(b, n + 1, id, note, unread, outcomes);
        AnnotateInLocal(r, b, t, id, note, unread, attempts);
        FirstPassTwice(b, n + 1, id, note, unread, outcomes);
      }
    }
  }

  /** A note step that finds the id, succeeds and finds no earlier note changes the sheet. */
  lemma NoteWrites(b: Book, t: Sheet, id: string, note: string, unread: set<Sheet>, attempts: Attempts)
    requires Lookup(b, t, unread, id).Some? && Succeeds(attempts, Retries)
    requires !Contains(Col(b.Rows(t)[Lookup(b, t, unread, id).value], 3), Strip(note))
    ensures AnnotateIn(b, t, id, note, unread, attempts).0.Rows(t) != b.Rows(t)
  {
    var k := Lookup(b, t, unread, id).value;
    var noted := AnnotateIn(b, t, id, note, unread, attempts).0;
    var action := Col(b.Rows(t)[k], 3);
    assert Col(noted.Rows(t)[k], 3) == action + note;
    assert note != [] by {
      if note == [] {
        assert Strip(note) == [];
        assert OccursAt(action, Strip(note), 0);
      }
    }
    assert noted.Rows(t)[k] != b.Rows(t)[k];
  }

  /** With the id held in Complaints, approval stops there and Responded is left alone. */
  lemma ApprovalStopsAtComplaints(b: Book, id: string, note: string, unread: set<Sheet>, outcomes: Outcomes)
    requires Lookup(b, Complaints, unread, id).Some?
    ensures FirstPass(b, 0, id, note, unread, outcomes).responded == b.responded
  {
    var noted := AnnotateIn(b, ComplaintSheets[0], id, note, unread, Call(outcomes, NoteSlot(0)));
    assert noted.1;
    assert FirstPass(b, 0, id, note, unread, outcomes) == noted.0;
    assert noted.0.Rows(Responded) == b.Rows(Responded);
  }

  /** A note the old rejection can write in Responded does get written there. */
  lemma RejectionReachesResponded(b: Book, id: string, note: string, unread: set<Sheet>, outcomes: Outcomes)
    requires Lookup(b, Responded, unread, id).Some? && Done(outcomes, NoteSlot(1))
    requires !Contains(Col(b.responded[Lookup(b, Responded, unread, id).value], 3), Strip(note))
    ensures EachPass(b, 0, id, note, unread, outcomes).responded != b.responded
  {
    EachPassNotesEach(b, 0, id, note, unread, outcomes);
    assert ComplaintSheets[1] == Responded;
    NoteWrites(b, Responded, id, note, unread, Call(outcomes, NoteSlot(1)));
  }

  /**
   * With the id active in both Complaints and Responded, approval leaves
   * Responded alone while the old rejection, lacking the outer break, also
   * writes its note there.
   */
  lemma {:induction false} OnlyRejectionReachesSecondHolder(b: Book, id: string, note: string, unread: set<Sheet>, outcomes: Outcomes)
    requires Lookup(b, Complaints, unread, id).Some? && Lookup(b, Responded, unread, id).Some?
    requires Done(outcomes, NoteSlot(1))
    requires !Contains(Col(b.responded[Lookup(b, Responded, unread, id).value], 3), Strip(note))
    ensures FirstPass(b, 0, id, note, unread, outcomes).responded == b.responded
    ensures EachPass(b, 0, id, note, unread, outcomes).responded != b.responded
  {
    ApprovalStopsAtComplaints(b, id, note, unread, outcomes);
    RejectionReachesResponded(b, id, note, unread, outcomes);
  }

  /** The note step on one sheet, with its scan for the id. */
  method AnnotateSheet(wb: Workbook, t: Sheet, id: string, note: string, unread: set<Sheet>, attempts: Attempts) returns (hit: bool)
    modifies wb
    ensures (wb.State(), hit) == AnnotateIn(old(wb.State()), t, id, note, unread, attempts)
  {
    var found := FindRow(Seen(wb.State(), t, unread), id);
    hit := found.Some?;
    if hit {
      var action := Col(wb.Rows(t)[found.value], 3);
      if !Contains(action, Strip(note)) {
        var ok := wb.SafeUpdate(t, found.value + 2, 3, action + note, attempts);
      }
    }
  }

  /** The approve loop: stop at the first sheet holding the id. */
  method AnnotateFirst(wb: Workbook, id: string, note: string, unread: set<Sheet>, outcomes: Outcomes)
    modifies wb
    ensures wb.State() == FirstPass(old(wb.State()), 0, id, note, unread, outcomes)
  {
    var n := 0;
    while n < |ComplaintSheets|
      invariant 0 <= n <= |ComplaintSheets|
      invariant FirstPass(wb.State(), n, id, note, unread, outcomes) == FirstPass(old(wb.State()), 0, id, note, unread, outcomes)
    {
      var updated := AnnotateSheet(wb, ComplaintSheets[n], id, note, unread, Call(outcomes, NoteSlot(n)));
      if updated {
        break;
      }
      n := n + 1;
    }
  }

  /** The old reject loop: every sheet holding the id. */
  method AnnotateEach(wb: Workbook, id: string, note: string, unread: set<Sheet>, outcomes: Outcomes)
    modifies wb
    ensures wb.State() == EachPass(old(wb.State()), 0, id, note, unread, outcomes)
  {
    var n := 0;
    while n < |ComplaintSheets|
      invariant 0 <= n <= |ComplaintSheets|
      invariant EachPass(wb.State(), n, id, note, unread, outcomes) == EachPass(old(wb.State()), 0, id, note, unread, outcomes)
    {
      var hit := AnnotateSheet(wb, ComplaintSheets[n], id, note, unread, Call(outcomes, NoteSlot(n)));
      n := n + 1;
    }
  }

  // --------------------------------------------------------- the decisions

  datatype Verdict = Approval | Rejection

  function StatusOf(v: Verdict): string {
    if v == Approval then Approved else Rejected
  }

  function NoteOf(v: Verdict, now: string): string {
    if v == Approval then ApprovalNote(now) else RejectionNote(now)
  }

  /** Which sheets holding the id get the note: the first one (the loops with an outer break) or each of them. */
  datatype Scan = FirstHolder | EveryHolder

  /**
   * A decision once its guards have passed: the signature record is upserted,
   * then the note is added to column D of the complaint. The two steps touch
   * different sheets, and no other non-empty id is lost or gained.
   */
  function Decide(b: Book, id: string, now: string, status: string, sig: Option<string>, note: string, scan: Scan, unread: set<Sheet>, outcomes: Outcomes): (r: Book)
    ensures r.signatures == UpsertSpec(b, id, now, status, sig, unread, outcomes).signatures
    ensures r.aramexPending == b.aramexPending && r.aramexArchive == b.aramexArchive
  {
    var b1 := UpsertSpec(b, id, now, status, sig, unread, outcomes);
    assert ManagerSignatures !in ComplaintSheets && AramexPending !in ComplaintSheets && AramexArchive !in ComplaintSheets;
    if scan == FirstHolder then FirstPass(b1, 0, id, note, unread, outcomes)
    else EachPass(b1, 0, id, note, unread, outcomes)
  }

  /** On the complaint sheets, a first-holder decision does what the approve loop does to the book as it was. */
  lemma DecideFirstHolder(b: Book, id: string, now: string, status: string, sig: Option<string>, note: string, unread: set<Sheet>, outcomes: Outcomes)
    ensures forall t :: t in ComplaintSheets ==>
      Decide(b, id, now, status, sig, note, FirstHolder, unread, outcomes).Rows(t) == FirstPass(b, 0, id, note, unread, outcomes).Rows(t)
  {
    var b1 := UpsertSpec(b, id, now, status, sig, unread, outcomes);
    assert ManagerSignatures !in ComplaintSheets;
    FirstPassLocal(b1, b, 0, id, note, unread, outcomes);
  }

  /** On the complaint sheets, an every-holder decision notes each sheet as the single-sheet step would. */
  lemma DecideEveryHolder(b: Book, id: string, now: string, status: string, sig: Option<string>, note: string, unread: set<Sheet>, outcomes: Outcomes)
    ensures forall m :: 0 <= m < |ComplaintSheets| ==>
      Decide(b, id, now, status, sig, note, EveryHolder, unread, outcomes).Rows(ComplaintSheets[m])
      == AnnotateIn(b, ComplaintSheets[m], id, note, unread, Call(outcomes, NoteSlot(m))).0.Rows(ComplaintSheets[m])
  {
    var b1 := UpsertSpec(b, id, now, status, sig, unread, outcomes);
    assert ManagerSignatures !in ComplaintSheets;
    EachPassNotesEach(b1, 0, id, note, unread, outcomes);
    forall m | 0 <= m < |ComplaintSheets|
      ensures EachPass(b1, 0, id, note, unread, outcomes).Rows(ComplaintSheets[m])
        == AnnotateIn(b, ComplaintSheets[m], id, note, unread, Call(outcomes, NoteSlot(m))).0.Rows(ComplaintSheets[m])
    {
      AnnotateInLocal(b1, b, ComplaintSheets[m], id, note, unread, Call(outcomes, NoteSlot(m)));
    }
  }

  /**
   * On a complaint sheet, a first-holder decision gives the note to the first
   * sheet holding the id, as the single-sheet step would, and leaves every
   * other complaint sheet as it was.
   */
  lemma DecideNotesFirstHolder(b: Book, id: string, now: string, status: string, sig: Option<string>, note: string, unread: set<Sheet>, outcomes: Outcomes, m: nat)
    requires m < |ComplaintSheets|
    ensures Decide(b, id, now, status, sig, note, FirstHolder, unread, outcomes).Rows(ComplaintSheets[m])
      == if FirstToHold(b, id, unread, m)
         then AnnotateIn(b, ComplaintSheets[m], id, note, unread, Call(outcomes, NoteSlot(m))).0.Rows(ComplaintSheets[m])
         else b.Rows(ComplaintSheets[m])
  {
    DecideFirstHolder(b, id, now, status, sig, note, unread, outcomes);
    if FirstToHold(b, id, unread, m) {
      FirstPassNotesFirstHolder(b, 0, id, note, unread, outcomes, m);
    } else if FirstPass(b, 0, id, note, unread, outcomes).Rows(ComplaintSheets[m]) != b.Rows(ComplaintSheets[m]) {
      FirstPassFirstHolder(b, 0, id, note, unread, outcomes, m);
      assert false;
    }
  }

  /** A decision adds or updates the record of its own id and loses or gains no other non-empty id. */
  lemma DecideKeepsOtherIds(b: Book, id: string, now: string, status: string, sig: Option<string>, note: string, scan: Scan, unread: set<Sheet>, outcomes: Outcomes, key: string)
    requires key != "" && key != id
    ensures Held(Decide(b, id, now, status, sig, note, scan, unread, outcomes), key) == Held(b, key)
  {
    UpsertKeepsOtherIds(b, id, now, status, sig, unread, outcomes, key);
    PassesKeepIds(UpsertSpec(b, id, now, status, sig, unread, outcomes), 0, id, note, unread, outcomes, key);
  }

  method RecordDecision(wb: Workbook, id: string, now: string, status: string, sig: Option<string>, note: string, scan: Scan, unread: set<Sheet>, outcomes: Outcomes)
    modifies wb
    ensures wb.State() == Decide(old(wb.State()), id, now, status, sig, note, scan, unread, outcomes)
  {
    Upsert(wb, id, now, status, sig, unread, outcomes);
    if scan == FirstHolder {
      AnnotateFirst(wb, id, note, unread, outcomes);
    } else {
      AnnotateEach(wb, id, note, unread, outcomes);
    }
  }

  datatype OldOutcome = MissingId | MissingSignature | Decided

  /**
   * The older approve and reject forms: nothing is written without an id and a
   * signature. Approval notes the first sheet holding the id; rejection, whose
   * loop lacks the outer break, notes every sheet holding it.
   */
  function OldDecisionSpec(b: Book, v: Verdict, id: string, now: string, sig: Option<string>, unread: set<Sheet>, outcomes: Outcomes): (r: (Book, OldOutcome))
    ensures r.1 == MissingId <==> id == ""
    ensures r.1 == MissingSignature <==> id != "" && sig.None?
    ensures r.1 != Decided ==> r.0 == b
    ensures r.1 == Decided ==> r.0 == Decide(b, id, now, StatusOf(v), sig, NoteOf(v, now),
      if v == Approval then FirstHolder else EveryHolder, unread, outcomes)
  {
    if id == "" then (b, MissingId)
    else if sig.None? then (b, MissingSignature)
    else (Decide(b, id, now, StatusOf(v), sig, NoteOf(v, now), if v == Approval then FirstHolder else EveryHolder, unread, outcomes), Decided)
  }

  method OldDecision(wb: Workbook, v: Verdict, id: string, now: string, sig: Option<string>, unread: set<Sheet>, outcomes: Outcomes) returns (r: OldOutcome)
    modifies wb
    ensures (wb.State(), r) == OldDecisionSpec(old(wb.State()), v, id, now, sig, unread, outcomes)
  {
    if id == "" {
      return MissingId;
    }
    if sig.None? {
      return MissingSignature;
    }
    RecordDecision(wb, id, now, StatusOf(v), sig, NoteOf(v, now), if v == Approval then FirstHolder else EveryHolder, unread, outcomes);
    r := Decided;
  }

  /** The upsert changes only ManagerSignatures, and there only the record of `id`. */
  lemma UpsertKeepsOtherIds(b: Book, id: string, now: string, status: string, sig: Option<string>, unread: set<Sheet>, outcomes: Outcomes, key: string)
    requires key != "" && key != id
    ensures Held(UpsertSpec(b, id, now, status, sig, unread, outcomes), key) == Held(b, key)
  {
    match Lookup(b, ManagerSignatures, unread, id)
    case None =>
      if Done(outcomes, 0) {
        HeldAppended(b, ManagerSignatures, SignatureRow(id, now, status, sig), key);
      }
    case Some(k) =>
      RecordUpdateKeepsIds(b, k + 2, now, status, sig, outcomes, key);
  }

  /** The approve loop reads and writes the complaint sheets alone. */
  lemma {:induction false} FirstPassLocal(b1: Book, b2: Book, n: nat, id: string, note: string, unread: set<Sheet>, outcomes: Outcomes)
    requires n <= |ComplaintSheets|
    requires forall t :: t in ComplaintSheets ==> b1.Rows(t) == b2.Rows(t)
    decreases |ComplaintSheets| - n
    ensures forall t :: t in ComplaintSheets ==>
      FirstPass(b1, n, id, note, unread, outcomes).Rows(t) == FirstPass(b2, n, id, note, unread, outcomes).Rows(t)
  {
    if n < |ComplaintSheets| {
      var t, attempts := ComplaintSheets[n], Call(outcomes, NoteSlot(n));
      AnnotateInLocal(b1, b2, t, id, note, unread, attempts);
      var (c1, hit) := AnnotateIn(b1, t, id, note, unread, attempts);
      var c2 := AnnotateIn(b2, t, id, note, unread, attempts).0;
      forall u | u in ComplaintSheets ensures c1.Rows(u) == c2.Rows(u) {
        if u != t {
          assert c1.Rows(u) == b1.Rows(u) && c2.Rows(u) == b2.Rows(u);
        }
      }
      if hit {
        assert FirstPass(b1, n, id, note, unread, outcomes) == c1;
        assert FirstPass(b2, n, id, note, unread, outcomes) == c2;
      } else {
        FirstPassLocal(c1, c2, n + 1, id, note, unread, outcomes);
        assert FirstPass(b1, n, id, note, unread, outcomes) == FirstPass(c1, n + 1, id, note, unread, outcomes);
        assert FirstPass(b2, n, id, note, unread, outcomes) == FirstPass(c2, n + 1, id, note, unread, outcomes);
      }
    }
  }

  // ------------------------------------------------- the signature requests

  /** A ManagerSignatures row the request page lists: at least five cells, status "مطلوب توقيع". */
  predicate Requested(row: Row) {
    |row| > 4 && row[4] == SignatureRequested
  }

  /** The request page's list: exactly the requested rows, each as often as the sheet has it, in sheet order. */
  function PendingRequests(rows: seq<Row>): (r: seq<Row>)
    ensures |r| <= |rows|
    ensures forall k :: 0 <= k < |r| ==> Requested(r[k])
  {
    if rows == [] then []
    else
      var rest := PendingRequests(rows[1..]);
      if Requested(rows[0]) then [rows[0]] + rest else rest
  }

  /** A row is listed exactly when the sheet has it and it is requested. */
  lemma {:induction false} PendingMembers(rows: seq<Row>)
    ensures forall row :: row in PendingRequests(rows) <==> row in rows && Requested(row)
  {
    if rows != [] {
      PendingMembers(rows[1..]);
      assert rows == [rows[0]] + rows[1..];
    }
  }

  /** Each requested row is listed as often as the sheet holds it, and no other row is listed. */
  lemma {:induction false} PendingCounts(rows: seq<Row>)
    ensures forall row :: multiset(PendingRequests(rows))[row] == if Requested(row) then multiset(rows)[row] else 0
  {
    if rows != [] {
      PendingCounts(rows[1..]);
      assert rows == [rows[0]] + rows[1..];
    }
  }

  /** The list of a sheet cut in two is the list of the first part followed by that of the second: the sheet's order is kept. */
  lemma {:induction false} PendingKeepsOrder(front: seq<Row>, back: seq<Row>)
    ensures PendingRequests(front + back) == PendingRequests(front) + PendingRequests(back)
  {
    if front != [] {
      assert (front + back)[0] == front[0] && (front + back)[1..] == front[1..] + back;
      PendingKeepsOrder(front[1..], back);
      var head := if Requested(front[0]) then [front[0]] else [];
      assert PendingRequests(front) == head + PendingRequests(front[1..]);
      assert PendingRequests(front + back) == head + PendingRequests(front[1..] + back);
    } else {
      assert front + back == back;
    }
  }

  /**
   * Approving a request needs a drawn (non-empty) signature; the record read
   * is not guarded, so it is taken to succeed. The note goes to the first
   * sheet holding the id.
   */
  function RequestApprovalSpec(b: Book, id: string, now: string, sig: Option<string>, unread: set<Sheet>, outcomes: Outcomes): (r: (Book, bool))
    ensures r.1 <==> sig.Some? && sig.value != ""
    ensures !r.1 ==> r.0 == b
    ensures r.1 ==> r.0 == Decide(b, id, now, Approved, sig, ApprovalNote(now), FirstHolder, unread - {ManagerSignatures}, outcomes)
  {
    if sig.Some? && sig.value != "" then
      (Decide(b, id, now, Approved, sig, ApprovalNote(now), FirstHolder, unread - {ManagerSignatures}, outcomes), true)
    else (b, false)
  }

  method RequestApproval(wb: Workbook, id: string, now: string, sig: Option<string>, unread: set<Sheet>, outcomes: Outcomes) returns (decided: bool)
    modifies wb
    ensures (wb.State(), decided) == RequestApprovalSpec(old(wb.State()), id, now, sig, unread, outcomes)
  {
    decided := sig.Some? && sig.value != "";
    if decided {
      RecordDecision(wb, id, now, Approved, sig, ApprovalNote(now), FirstHolder, unread - {ManagerSignatures}, outcomes);
    }
  }

  /**
   * Rejecting a request needs no signature and is not guarded at all; the
   * record read is taken to succeed and the note goes to the first sheet
   * holding the id.
   */
  method RequestRejection(wb: Workbook, id: string, now: string, unread: set<Sheet>, outcomes: Outcomes)
    modifies wb
    ensures wb.State() == Decide(old(wb.State()), id, now, Rejected, None, RejectionNote(now), FirstHolder, unread - {ManagerSignatures}, outcomes)
  {
    RecordDecision(wb, id, now, Rejected, None, RejectionNote(now), FirstHolder, unread - {ManagerSignatures}, outcomes);
  }

  /**
   * A decision without a signature (the request page's reject) leaves the
   * signature cell of an existing record as it was, and a new record it
   * appends has an empty signature.
   */
  lemma UnsignedDecisionKeepsSignature(b: Book, id: string, now: string, status: string, note: string, scan: Scan, unread: set<Sheet>, outcomes: Outcomes)
    requires ManagerSignatures !in unread
    ensures var r := Decide(b, id, now, status, None, note, scan, unread, outcomes);
      && (FirstAt(b.signatures, 0, id).Some? ==>
        Col(r.signatures[FirstAt(b.signatures, 0, id).value], 5) == Col(b.signatures[FirstAt(b.signatures, 0, id).value], 5))
      && (FirstAt(b.signatures, 0, id).None? && Done(outcomes, 0) ==>
        r.signatures == b.signatures + [[id, Manager, now, "", status, ""]])
  {
    var k := FirstAt(b.signatures, 0, id);
    if k.Some? {
      var r := RecordUpdate(b, k.value + 2, now, status, None, outcomes);
      assert r.At(ManagerSignatures, k.value + 2) == r.signatures[k.value];
    }
  }
}
