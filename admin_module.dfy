/**
 * The older manager page: a login against a fixed password, a password form
 * whose change is never kept, and approve / reject as "copy the complaint row
 * with a note and the signature to the end of Complaints, then delete the
 * original", where the delete runs whether or not the copy was written.
 */
module AdminModule {
  import opened Wrappers
  import opened Rows
  import opened Store
  import opened Admin

  /** The login gate: the entry is always compared with the fixed default password. */
  function ModuleLogin(entered: string): (g: Gate)
    ensures g == Admitted <==> entered == DefaultPassword
    ensures g == EmptyPassword <==> entered == ""
  {
    CheckPassword(DefaultPassword, entered)
  }

  /**
   * The password form: it answers as a change against the fixed password
   * would, but the new value only lives in a local variable of the run, so the
   * password the next login checks is still the default.
   */
  function ModulePasswordChange(current: string, chosen: string, confirm: string): (r: (Change, string))
    ensures r.0 == PasswordChange(DefaultPassword, current, chosen, confirm).0
    ensures r.1 == DefaultPassword
  {
    (PasswordChange(DefaultPassword, current, chosen, confirm).0, DefaultPassword)
  }

  /** Whatever the form reported, the next login admits exactly the default password. */
  lemma {:induction false} ChangeNeverTakesEffect(current: string, chosen: string, confirm: string, entered: string)
    ensures CheckPassword(ModulePasswordChange(current, chosen, confirm).1, entered) == Admitted <==> entered == DefaultPassword
    ensures PasswordChange(DefaultPassword, current, chosen, confirm).0 == Changed && chosen != DefaultPassword && chosen != "" ==>
      CheckPassword(ModulePasswordChange(current, chosen, confirm).1, chosen) == WrongPassword
  {
  }

  /** The note this page writes into the copied row. */
  function ModuleNote(v: Verdict, now: string): string {
    if v == Approval then "✔ تم اعتمادها بواسطة " + Manager + " " + now
    else "❌ تم رفضها بواسطة " + Manager + " " + now
  }

  /**
   * The copy appended for the decided complaint: its row as the padded read
   * returned it, `width` cells wide, then the note and the signature. The
   * note lands in the first column past the sheet's longest row, not
   * necessarily right after the row's own cells.
   */
  function DecidedRow(row: Row, width: nat, v: Verdict, now: string, sig: string): (r: Row)
    requires |row| <= width
    ensures |r| == width + 2
    ensures forall c: nat :: c < width ==> Col(r, c) == Col(row, c)
    ensures r[width] == ModuleNote(v, now) && r[width + 1] == sig
  {
    PadTo(row, width) + [ModuleNote(v, now), sig]
  }

  datatype ModuleOutcome =
    | NoId
    | NoSignature
    | NotFound
    | Handled(appended: bool, deleted: bool)

  /**
   * Approve or reject on this page. Without an id or a signature, or with no
   * Complaints row for the id, nothing is written. Otherwise the first such
   * row is copied to the end of Complaints (slot 0) and the original deleted
   * (slot 1); the delete does not wait for the copy. The id's rows in the book
   * go up by one for the copy and down by one for the delete, so a failed copy
   * with a successful delete loses the complaint.
   */
  function ModuleDecisionSpec(b: Book, header: nat, v: Verdict, id: string, now: string, sig: Option<string>, outcomes: Outcomes): (r: (Book, ModuleOutcome))
    ensures r.1 == NoId <==> id == ""
    ensures r.1 == NoSignature <==> id != "" && sig.None?
    ensures r.1 == NotFound <==> id != "" && sig.Some? && FirstAt(b.complaints, 0, id).None?
    ensures !r.1.Handled? ==> r.0 == b
    ensures r.1.Handled? ==> r.1.appended == Done(outcomes, 0) && r.1.deleted == Done(outcomes, 1)
    ensures r.1.Handled? ==>
      var k := FirstAt(b.complaints, 0, id).value;
      var copy := DecidedRow(b.complaints[k], Widest(b.complaints, header), v, now, sig.value);
      var grown := b.complaints + (if r.1.appended then [copy] else []);
      r.0.complaints == if r.1.deleted then RemoveAt(grown, k) else grown
    ensures forall t :: t != Complaints ==> r.0.Rows(t) == b.Rows(t)
  {
    if id == "" then (b, NoId)
    else if sig.None? then (b, NoSignature)
    else match FirstAt(b.complaints, 0, id)
      case None => (b, NotFound)
      case Some(k) =>
        var appended, deleted := Done(outcomes, 0), Done(outcomes, 1);
        var b1 := if appended then b.Appended(Complaints, DecidedRow(b.complaints[k], Widest(b.complaints, header), v, now, sig.value)) else b;
        assert b1.ValidPos(Complaints, k + 2);
        (if deleted then b1.Deleted(Complaints, k + 2) else b1, Handled(appended, deleted))
  }

  /** The id's rows in the book go up by one with the copy and down by one with the delete. */
  lemma ModuleDecisionCount(b: Book, header: nat, v: Verdict, id: string, now: string, sig: Option<string>, outcomes: Outcomes)
    ensures var r := ModuleDecisionSpec(b, header, v, id, now, sig, outcomes);
      r.1.Handled? ==> Held(r.0, id) + (if r.1.deleted then 1 else 0) == Held(b, id) + (if r.1.appended then 1 else 0)
  {
    var r := ModuleDecisionSpec(b, header, v, id, now, sig, outcomes);
    if r.1.Handled? {
      var k := FirstAt(b.complaints, 0, id).value;
      var row := DecidedRow(b.complaints[k], Widest(b.complaints, header), v, now, sig.value);
      assert Col(row, 0) == Col(b.complaints[k], 0);
      var b1 := if Done(outcomes, 0) then b.Appended(Complaints, row) else b;
      assert b1.ValidPos(Complaints, k + 2) && b1.At(Complaints, k + 2) == b.complaints[k];
      assert r.0 == if Done(outcomes, 1) then b1.Deleted(Complaints, k + 2) else b1;
      HeldAppended(b, Complaints, row, id);
      if Done(outcomes, 1) {
        HeldDeleted(b1, Complaints, k + 2, id);
      }
    }
  }

  /** A copy that fails followed by a delete that succeeds removes the complaint's row from the book. */
  lemma {:induction false} UnguardedDeleteLosesRecord(b: Book, header: nat, v: Verdict, id: string, now: string, sig: string, outcomes: Outcomes)
    requires id != "" && FirstAt(b.complaints, 0, id).Some?
    requires !Done(outcomes, 0) && Done(outcomes, 1)
    ensures Held(ModuleDecisionSpec(b, header, v, id, now, Some(sig), outcomes).0, id) == Held(b, id) - 1
    ensures Count(ModuleDecisionSpec(b, header, v, id, now, Some(sig), outcomes).0.complaints, id) == Count(b.complaints, id) - 1
  {
    var k := FirstAt(b.complaints, 0, id).value;
    ModuleDecisionCount(b, header, v, id, now, Some(sig), outcomes);
    CountRemoveAt(b.complaints, k, id);
    assert b.complaints + [] == b.complaints;
  }

  /**
   * The approve / reject button: the for-else scan (`FindRow`) of the
   * unguarded, padded read of Complaints, whose header row has `header`
   * cells, then the copy and the delete, each issued regardless of the
   * other's result.
   */
  method ModuleDecision(wb: Workbook, header: nat, v: Verdict, id: string, now: string, sig: Option<string>, outcomes: Outcomes) returns (outcome: ModuleOutcome)
    modifies wb
    ensures (wb.State(), outcome) == ModuleDecisionSpec(old(wb.State()), header, v, id, now, sig, outcomes)
  {
    if id == "" {
      return NoId;
    }
    if sig.None? {
      return NoSignature;
    }
    ghost var b := wb.State();
    var data := ReadPadded(wb.Rows(Complaints), header);
    var found := FindRow(data, id);
    PaddedFirstAt(b.complaints, header, id);
    if found.None? {
      return NotFound;
    }
    var k := found.value;
    var updated := data[k] + [ModuleNote(v, now), sig.value];
    assert updated == DecidedRow(b.complaints[k], Widest(b.complaints, header), v, now, sig.value);
    var appended := wb.SafeAppend(Complaints, updated, Call(outcomes, 0));
    assert wb.State().ValidPos(Complaints, k + 2);
    var deleted := wb.SafeDelete(Complaints, k + 2, Call(outcomes, 1));
    outcome := Handled(appended, deleted);
  }
}
