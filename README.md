# Complaint records over a spreadsheet store — a Dafny model

The system is a small complaint-handling application for a shipping
operation. Its data lives in one spreadsheet workbook. Each sheet holds string
rows under a header row:

- Complaints — active complaints.
- Responded — complaints with an action decided.
- Archive — closed complaints.
- ManagerSignatures — approval and rejection records, upserted by complaint id.
- AramexPending — pending Aramex orders ("معلق ارامكس").
- AramexArchive — archived Aramex orders ("أرشيف أرامكس").

The staff page (`Complain.py`) creates, restores, searches, edits, deletes,
archives and moves complaints, and keeps the Aramex pending-order list. The
manager page (`admin.py`) signs complaints off:

- It upserts a record in ManagerSignatures.
- It appends an approval or rejection note to column D of the complaint.
- It has a page for signature requests.

An older manager page (`pages/admin_module.py`) decides a complaint by
copying its row, with a note and the signature, to the end of Complaints.
It then deletes the original.

Every user action is a short sequential read-modify-write over the sheets.
The model follows that shape:

- `Store.Workbook` is a class with one `seq<Row>` field per sheet.
- `Store.Book` is the same state as a value.
- The retried store calls `safe_append`, `safe_update` and `safe_delete` are
  methods of the workbook. `Store.Retry` is their shared attempt loop.
- Each page action is a method. Its `ensures` ties the new state to a
  specification function of the old state. The properties the pages promise
  are proved about those functions.

Conventions used throughout:

- Row positions are 1-based with the header at 1, as in the source. Position
  `i` is data index `i - 2`.
- A missing trailing cell reads as "".
- The sheets hold the rows as stored. A read (`get_all_values`) hands every
  row over padded with empty cells to the width of the sheet's longest row,
  header included (`Store.ReadPadded`). No cell read and no match of a
  non-empty id can tell the two apart. The one page that copies a whole row
  it read, the older manager page, is modelled with the padding.
- A store call can fail. Each action receives `outcomes`: for each store
  call it may issue (its slot), the success flag of each attempt.
  `Done(outcomes, k)` says that the call in slot `k` returned true.
- Reads that the source wraps in `try/except` can raise; the page then
  continues with an empty list. They are modelled by `unread`, the set of
  sheets whose read raises. Reads the source does not guard are taken to
  succeed.
- Timestamps come in as the parameter `now`. The drawn signature comes in
  as an optional opaque string.

Modules:

- `wrappers.dfy` — `Option`.
- `text.dfy` — Python's `str.strip()`, ASCII `lower()` and substring test.
- `rows.dfy` — cells, first-match scans, padding, id counts.
- `store.dfy` — sheets, the book, the padded read, retries, the workbook class.
- `complain.dfy` — the staff page.
- `admin.dfy` — the manager page.
- `admin_module.dfy` — the older manager page.

`Store.Held(b, id)` counts the rows of the whole book whose column A is `id`.
It states the "never lose a record" behaviour:

- The guarded moves of the staff page never lower it.
- The unguarded delete of the older manager page can.

## Model

| member | source | states |
|---|---|---|
| Text.Lead | Complain.py:224 | the number of leading characters `strip()` drops: all white space, and the next character, if any, is not |
| Text.Trail | Complain.py:224 | the number of trailing characters `strip()` drops: all white space, and the character before them, if any, is not |
| Text.Strip | Complain.py:224 | `s.strip()` is the slice of `s` that starts after its leading Python white space and is followed by white space only, with no white space at either end of the slice |
| Text.StripBlankIff | Complain.py:258 | a string is blank after strip exactly when every character is white space |
| Text.LowerChar | Complain.py:123 | `lower()` on one character: an ASCII capital becomes the small letter 32 code points above it; every other character stays |
| Text.AsciiLower | Complain.py:123 | `lower()` maps each ASCII capital to its small letter and keeps every other character, position by position |
| Text.StrippedNoteFound | admin.py:199-202 | text followed by a note always contains the stripped note, so a written note is recognised afterwards |
| Rows.SetCol | Complain.py:195-199 | a single-cell update sets exactly cell `c`; every other cell reads as before; a short row grows just enough |
| Rows.Update | Complain.py:65-75 | a cell update that may fail: the cell holds the new value exactly when it lands; every other cell reads as before |
| Rows.RemoveAt | Complain.py:80 | `delete_rows`: one row fewer; rows above keep their place, rows below move up by one |
| Rows.FirstAt | Complain.py:235-240 | the index of the first row whose cell `c` equals the key; none iff no row has it |
| Rows.FindRow | admin.py:176-180 | the `existing_idx` scan loop returns exactly the first match of column A |
| Rows.PadTo | Complain.py:143-144 | padding to `n` cells reaches at least `n` cells, keeps the row as a prefix, and changes no cell as read |
| Rows.PadRow | Complain.py:143-144 | the padding loop gives `PadTo` |
| Rows.FirstAtReplace | admin.py:202 | rewriting a row without changing whether it matches leaves the first match where it was |
| Rows.FirstAtSameMatches | pages/admin_module.py:136-137 | two lists that match the key in the same rows have their first match in the same row |
| Rows.CountAppend | Complain.py:56 | an append adds the appended row's id, and nothing else, to a sheet's count |
| Rows.CountRemoveAt | Complain.py:80 | a delete removes the deleted row's id, and nothing else, from a sheet's count |
| Rows.CountZeroIff | Complain.py:273-276 | an id is counted in a sheet exactly when the scan finds it |
| Store.Book.Appended | Complain.py:56 | `append_row`: the row becomes the last row of that sheet; other sheets unchanged |
| Store.Book.Deleted | Complain.py:80 | `delete_rows(i)`: the row at position `i` goes; other sheets unchanged |
| Store.Book.CellSet | Complain.py:68 | `update("<col><i>")`: only cell `c` of row `i` changes; other rows and sheets unchanged |
| Store.Book.RowSet | Complain.py:68 | replacing row `i` changes that row of that sheet and nothing else |
| Store.Lookup | Complain.py:231-236 | a guarded read finds a row only on a readable sheet, and then it finds the first match at a valid position |
| Store.LookupRow | Complain.py:232-236 | the scan of a sheet as read returns the guarded lookup |
| Store.Widest | pages/admin_module.py:135 | the width the read pads to: no row is longer, and it is the header's width or some row's length |
| Store.ReadPadded | pages/admin_module.py:135 | the read returns as many rows as stored, each the stored row padded to the sheet's widest row |
| Store.PaddedFirstAt | pages/admin_module.py:135-137 | with a non-empty id, the scan of the padded read finds the same first row as a scan of the stored rows |
| Store.HeldAppended | Complain.py:56 | an append raises the book-wide count of the row's id by one |
| Store.HeldDeleted | Complain.py:80 | a delete lowers the book-wide count of the deleted row's id by one |
| Store.HeldCellSet | Complain.py:68 | a cell update outside column A loses or gains no non-empty id |
| Store.HeldRowSet | Complain.py:68 | rewriting a row without changing its column A loses or gains no non-empty id |
| Store.Retry | Complain.py:53-63 | at most `retries` attempts; true iff one of the first `retries` attempts goes through; it stops at the first success |
| Store.Workbook.SafeAppend | Complain.py:53-63 | returns true iff an attempt succeeds; then the row is appended exactly once, else nothing changes |
| Store.Workbook.SafeUpdate | Complain.py:65-75 | returns true iff an attempt succeeds; then the one cell is rewritten, else nothing changes |
| Store.SafeUpdateRow | Complain.py:65-75 | a retried cell update on a row being rebuilt: true iff an attempt succeeds, and the row then holds the new cell exactly when it did |
| Store.Workbook.SafeDelete | Complain.py:77-87 | returns true iff an attempt succeeds; then the row is deleted once, else nothing changes |
| Complain.ReturnWarehouseRecord | Complain.py:100-112 | the record of the first ReturnWarehouse row whose column A is the order id, missing cells as ""; none iff no row has it |
| Complain.DelegateStatus | Complain.py:122-128 | "aramex" after strip and lower gives the Aramex text (iff); a blank delegate gives the follow-up of the order; any other delegate gives the delegate text that contains the name |
| Complain.OrderStatus | Complain.py:119-129 | the first order row with the id in column B decides through its column D; the plain follow-up text exactly when no row matches |
| Complain.SavedRow | Complain.py:194-200 | save rewrites only columns B, C, D, G, H of the row, each exactly when its own update succeeds; the id, the date and the restored marker stay |
| Complain.SaveSpec | Complain.py:194-200 | row `i` takes its saved form; the other rows, the row count and the other sheets stay |
| Complain.SaveComplaint | Complain.py:194-200 | the five updates of the save button produce the state `SaveSpec` describes |
| Complain.DeleteComplaint | Complain.py:202-204 | the row goes iff the delete succeeds; nothing else changes |
| Complain.TransferCount | Complain.py:206-209 | append-then-delete-on-success: the moved id is added by the append and removed only if the delete follows it |
| Complain.MoveTo | Complain.py:206-219 | a failed append changes nothing; a successful one appends `[id, type, notes, action, created, marker, outbound, inbound]` with id, date and marker carried; the source row goes only when the delete succeeds |
| Complain.MoveToKeepsId | Complain.py:206-219 | an archive or a move never lowers the book-wide count of the complaint's id, and a failed delete leaves exactly one extra copy |
| Complain.MoveDestinations | Complain.py:189-192 | Responded rows move to Complaints; rows from Complaints and from Archive move to Responded |
| Complain.Relocate | Complain.py:143-149 | padding the row to 8 cells, appending the carried row and deleting on success give the state `MoveTo` describes |
| Complain.ArchiveComplaint | Complain.py:206-209 | the archive button is `MoveTo` with Archive as destination; it reports success iff both calls succeed |
| Complain.MoveComplaint | Complain.py:211-219 | the move button is `MoveTo` toward the destination chosen by `in_responded` alone |
| Complain.SearchSpec | Complain.py:221-244 | blank query iff the query strips to nothing; found is the first match in Complaints, then Responded, then Archive, on a readable sheet; not found iff no readable sheet has a match |
| Complain.FoundIn | Complain.py:235-238 | a hit reports its sheet, a readable one, and the 1-based position of the sheet's first row with the query |
| Complain.FoundAt | Complain.py:226-242 | a hit in the n-th sheet after misses in all earlier sheets is the search's answer |
| Complain.NotFoundAnywhere | Complain.py:243-244 | misses in all three sheets make the search report not found |
| Complain.Search | Complain.py:224-244 | the search loop, ended by the first hit, returns `SearchSpec` |
| Complain.RestoreSpec | Complain.py:278-289 | the first archived row with the id comes back to Complaints with archived type, notes, action and AWBs, new date and the restored marker; the archived row is deleted only when the append succeeded |
| Complain.RestoreKeepsId | Complain.py:278-289 | a restoration never lowers the book-wide count of the id |
| Complain.RecordSpec | Complain.py:290-296 | a fresh complaint is one appended row: to Responded with its action when the action is not blank, else to Complaints with action ""; the restored cell is "" |
| Complain.CreateSpec | Complain.py:257-298 | refused with no change iff the id is blank or the type is the placeholder; duplicate with no change iff the id is in Complaints or Responded as read; restored iff it is only in Archive; recorded otherwise |
| Complain.Restore | Complain.py:278-289 | the archive branch's scan, append and delete give `RestoreSpec` |
| Complain.Record | Complain.py:290-296 | the fresh-complaint branch, one append to Responded or to Complaints, gives `RecordSpec` |
| Complain.Create | Complain.py:257-298 | the add button gives `CreateSpec` |
| Complain.RestoreIgnoresForm | Complain.py:278-289 | a restoration does not depend on the type, notes, action or AWBs typed into the form |
| Complain.AppendKeepsExclusive | Complain.py:273-277 | appending a row whose id is not active keeps every id active at most once |
| Complain.RestoreKeepsExclusive | Complain.py:278-289 | restoring an id active nowhere keeps every id active at most once |
| Complain.RecordKeepsExclusive | Complain.py:290-296 | recording an id active nowhere keeps every id active at most once |
| Complain.CreateKeepsExclusive | Complain.py:273-296 | when the record reads succeed, a create never makes an id active twice |
| Complain.FailedReadAdmitsDuplicate | Complain.py:259-262 | when the record reads raise, an id already active in Complaints is recorded a second time |
| Complain.MoveKeepsExclusive | Complain.py:211-219 | a completed move between Complaints and Responded keeps every id active at most once |
| Complain.PartialMoveDuplicates | Complain.py:213-218 | a move whose delete fails leaves the id active once more than before |
| Complain.ArchivedMoveCanDuplicate | Complain.py:211-213 | moving an archived row to Responded is unchecked, so an id re-created in Complaints becomes active twice |
| Complain.AramexAddSpec | Complain.py:345-358 | nothing is written unless order, status and action are all non-blank; then `[order, status, now, action]` is appended iff the append succeeds |
| Complain.AddAramexOrder | Complain.py:350-356 | the Aramex add button gives `AramexAddSpec` |
| Complain.AramexSaveSpec | Complain.py:378-381 | save rewrites only the status (B) and action (D) of the order row, each when its update succeeds |
| Complain.SaveAramexOrder | Complain.py:378-381 | the two updates of the Aramex save button give `AramexSaveSpec` |
| Complain.AramexArchiveSpec | Complain.py:382-385 | archiving appends `[order, status, date, action]` to the Aramex archive and deletes the pending row only after a successful append; the order id is never lost |
| Complain.ArchiveAramexOrder | Complain.py:365-385 | padding to 4 cells, appending and deleting on success give `AramexArchiveSpec` |
| Admin.CheckPassword | admin.py:117-123 | an empty entry is turned away, any entry other than the stored password is refused, and only the stored password admits |
| Admin.PasswordChange | admin.py:271-278 | the new password is stored iff the current one matches and new equals confirm; otherwise the stored one is kept |
| Admin.ChangedPasswordGate | admin.py:277 | after a change, exactly the new password admits; an empty new password locks the manager out |
| Admin.Session.constructor | admin.py:114 | a fresh browser session holds no password |
| Admin.Session.Login | admin.py:113-123 | the default "1234" is stored only when none is stored; the entry is checked against the password in force |
| Admin.Session.ChangePassword | admin.py:266-278 | the session password afterwards is what `PasswordChange` says |
| Admin.SignedRow | admin.py:182-186 | an existing signature record gets manager (B), date (C), status (E) and, when one is given, signature (F), each when its own update succeeds; the id and the notes stay |
| Admin.RecordUpdate | admin.py:182-186 | the record at the found position takes its signed form; the other rows, the row count and the other sheets stay |
| Admin.RecordUpdateKeepsIds | admin.py:182-186 | updating a signature record loses or gains no non-empty id |
| Admin.UpsertSpec | admin.py:171-188 | with a record for the id, the first one is updated as `RecordUpdate` says; without one, exactly one `[id, "المدير", now, "", status, sig]` is appended when the append succeeds; no other sheet changes |
| Admin.Upsert | admin.py:171-188 | the record scan and the updates or the append give `UpsertSpec` |
| Admin.Annotated | admin.py:198-202 | column D becomes old text plus note unless the stripped note already occurs; the old text stays a prefix and the stripped note always occurs afterwards |
| Admin.AnnotatedIdempotent | admin.py:200 | adding the same note twice adds it once |
| Admin.AnnotateIn | admin.py:192-205 | on one sheet, the first row holding the id gets the note in column D when the update succeeds; hit iff a readable row holds the id; no other row, cell or sheet changes |
| Admin.AnnotateKeepsIds | admin.py:196-202 | the note step writes column D only, so no non-empty id is lost or gained anywhere |
| Admin.AnnotateKeepsLookup | admin.py:196-202 | the note touches column D only, so the id is found in the same row afterwards |
| Admin.AnnotateInTwice | admin.py:196-205 | repeating the note step with the same note changes nothing more |
| Admin.AnnotateInLocal | admin.py:191-196 | the note step on a sheet depends on that sheet alone |
| Admin.FirstPass | admin.py:191-208 | the approve scan from the n-th complaint sheet on leaves every other sheet as it was |
| Admin.FirstPassFirstHolder | admin.py:191-208 | the approve scan changes a complaint sheet only when it is the first one, in scan order, that holds the id |
| Admin.FirstPassNotesFirstHolder | admin.py:191-208 | the approve scan leaves the first complaint sheet holding the id exactly as the single-sheet note step leaves it |
| Admin.EachPass | admin.py:247-261 | the old reject scan from the n-th complaint sheet on leaves every other sheet as it was |
| Admin.EachPassNotesEach | admin.py:247-261 | with no outer break, the old reject scan leaves each complaint sheet exactly as the single-sheet note step leaves it |
| Admin.PassesKeepIds | admin.py:191-208 | neither the approve scan nor the old reject scan loses or gains a non-empty id anywhere in the book |
| Admin.FirstPassTwice | admin.py:191-208 | approving twice with the same timestamp adds the note once |
| Admin.NoteWrites | admin.py:198-202 | a note step that finds the id, succeeds and finds no earlier note does change the sheet |
| Admin.ApprovalStopsAtComplaints | admin.py:206-208 | with the id held in Complaints, approval leaves Responded alone |
| Admin.RejectionReachesResponded | admin.py:247-261 | a note the old rejection can write in Responded is written there |
| Admin.OnlyRejectionReachesSecondHolder | admin.py:207-208 | with the id in both Complaints and Responded, approval leaves Responded alone while the old rejection also writes there |
| Admin.AnnotateSheet | admin.py:192-206 | the per-sheet scan and update give `AnnotateIn` |
| Admin.AnnotateFirst | admin.py:191-208 | the approve loop with its `appended` flag gives `FirstPass` |
| Admin.AnnotateEach | admin.py:247-261 | the old reject loop gives `EachPass` |
| Admin.Decide | admin.py:165-208 | a decision upserts the signature record exactly as `UpsertSpec` says and leaves the Aramex sheets alone |
| Admin.DecideFirstHolder | admin.py:190-208 | on the complaint sheets an approval acts as the approve loop on the book as it was |
| Admin.DecideNotesFirstHolder | admin.py:190-208 | on each complaint sheet, an approval-style decision gives the first sheet holding the id the single-sheet note step's result and leaves every other complaint sheet as it was |
| Admin.DecideEveryHolder | admin.py:246-261 | on the complaint sheets an old rejection notes each sheet as the single-sheet step would |
| Admin.DecideKeepsOtherIds | admin.py:165-208 | a decision loses or gains no row of any other non-empty id |
| Admin.RecordDecision | admin.py:165-208 | the upsert followed by the chosen scan gives `Decide` |
| Admin.OldDecisionSpec | admin.py:154-263 | nothing is written without an id or without a signature; otherwise it is `Decide` with the first-holder scan for approval (`DecideNotesFirstHolder`) and the every-holder scan for rejection (`DecideEveryHolder`) |
| Admin.OldDecision | admin.py:154-263 | the old approve and reject buttons give `OldDecisionSpec` |
| Admin.UpsertKeepsOtherIds | admin.py:176-188 | the upsert loses or gains no row of any other non-empty id |
| Admin.FirstPassLocal | admin.py:191-208 | the approve scan reads and writes only the complaint sheets |
| Admin.PendingRequests | admin.py:298 | every listed row has at least five cells and status "مطلوب توقيع", and the list is no longer than the sheet |
| Admin.PendingMembers | admin.py:298 | a row is listed exactly when the sheet has it and it is requested |
| Admin.PendingCounts | admin.py:298 | each requested row is listed as often as the sheet holds it, and no other row at all |
| Admin.PendingKeepsOrder | admin.py:298 | the list of a sheet cut in two is the first part's list followed by the second's, so the sheet's order is kept |
| Admin.RequestApprovalSpec | admin.py:316-358 | a request is approved iff a non-empty signature was drawn, with the record read taken to succeed; then it is `Decide` with the first-holder scan, so the note goes to the first sheet holding the id (`DecideNotesFirstHolder`) |
| Admin.RequestApproval | admin.py:316-358 | the request approve button gives `RequestApprovalSpec` |
| Admin.RequestRejection | admin.py:360-400 | a request rejection needs no signature: it is `Decide` without a signature and with the first-holder scan: the record's column F is untouched (`UnsignedDecisionKeepsSignature`) and the first sheet holding the id gets the note (`DecideNotesFirstHolder`) |
| Admin.UnsignedDecisionKeepsSignature | admin.py:372-377 | without a signature, an existing record keeps its signature cell and a new record gets an empty one |
| AdminModule.ModuleLogin | pages/admin_module.py:86-95 | the entry is always checked against the fixed "1234": empty is turned away, only "1234" admits |
| AdminModule.ModulePasswordChange | pages/admin_module.py:180-187 | the form answers as a change against "1234" would, but the password in force stays "1234" |
| AdminModule.ChangeNeverTakesEffect | pages/admin_module.py:87 | whatever the form reported, the next login admits exactly "1234", and a reported new password is refused |
| AdminModule.DecidedRow | pages/admin_module.py:138-140 | the copy is the row as the padded read returned it, as wide as the sheet's longest row, with the note and the signature in the next two columns |
| AdminModule.ModuleDecisionSpec | pages/admin_module.py:125-172 | no id, no signature or no matching Complaints row writes nothing; otherwise the copy of the first matching row, padded as read, is appended and the original deleted, each independently of the other |
| AdminModule.ModuleDecisionCount | pages/admin_module.py:138-142 | the id's book-wide count moves by +1 for the copy and by -1 for the delete |
| AdminModule.UnguardedDeleteLosesRecord | pages/admin_module.py:141-142 | a failed copy followed by a successful delete removes the complaint from the book |
| AdminModule.ModuleDecision | pages/admin_module.py:134-147 | the padded read, the for-else scan, the copy and the unconditional delete give `ModuleDecisionSpec` |

## Left out

- Google authentication and the opening or creating of worksheets: these are external service calls. The workbook is given as a value.
- Streamlit widgets, forms, expanders, messages, `st.cache_data` and `experimental_rerun`: these are the user interface, with no state beyond the calls modelled.
- `draw_signature` (canvas capture and PNG/base64 encoding): the signature is an opaque `Option<string>`.
- `time.sleep` between attempts: only the attempt count and each attempt's success are modelled.
- `datetime.now()`: the timestamp is the parameter `now`.
- An attempt that raised after it had already written: the model takes a failed attempt to change nothing.
- The disabled Aramex status stubs `get_aramex_status` and `cached_aramex_status` (Complain.py:132-139): they return constants and no action depends on them.
- The listing views: active complaints, the Responded groups, the paginated archive (Complain.py:300-340), the Aramex pending list display, the manager's "view complaints" page and the signature-only page (admin.py:138-151, admin.py:280-287). They show rows and change nothing.
- The list of complaint types and the type dropdown: `NewComplaint.kind` is any string; only the placeholder is refused.
- `get_all_records` keyed by the "ID" header with its numeric conversion: the duplicate check compares column A strings.
- Matching an empty id against a row stored with no cells: the padded read gives such a row an empty column A, which `row[0] == comp_id` matches. An empty id reaches a scan only from a request row with an empty column A (admin.py:304); the model's match needs a stored cell. A sheet whose header and rows all have no cells makes `row[0]` raise (Complain.py:280, pages/admin_module.py:137); the model reads the missing cell as empty.
- Complain.DelegateStatus: `lower()` is modelled on ASCII letters only. For the comparison with "aramex" this is exact, since no other character lower-cases to one of its letters.
- Admin.RequestApproval, Admin.RequestRejection: the buttons appear only next to a listed request; the model does not require the id to be listed.
- Reads that the source does not guard (the archive re-read at Complain.py:279, the signature reads at admin.py:322 and admin.py:365, the Complaints read of pages/admin_module.py:135) are taken to succeed.
- Concurrent sessions editing the same sheets (lost updates, positions that shift between a read and a write): the model is single-threaded.
- The unused `in_archive` flag of `render_complaint`: it only selects a message.
