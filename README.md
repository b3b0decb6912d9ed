# Registration store of the 1RM competition sign-up app

The app is a one-page registration form for a bench-press and pull-up
competition. A participant enters a full name and a member number and ticks
a box confirming that the fee is understood. The app validates the three
fields and checks that places are left (`MAX_PARTICIPANTS` is 20). It then
appends the registration to one worksheet of a spreadsheet. That worksheet
starts with the header row
`nom_complet, numero_membre, frais_compris, date_inscription`.
Every visitor can see the list of registrations. Behind the admin login, an
administrator can also delete every row that carries a given member number.

This project models that core in Dafny:

- `text.dfy` (module `Text`): Python's `str.strip()`, with Python's set of
  white-space characters, and its properties.
- `validation.dfy` (module `Validation`): the three form validators.
  - The member-number regular expression `[A-Za-z0-9\- ]{3,30}` is a
    bounded-repetition matcher.
  - That matcher is proved equal to "3 to 30 characters from the class".
- `sheets.dfy` (module `Sheets`): the worksheet as a class.
  - Its field `rows` holds the cell values that `get_all_values()` returns,
    except that each row keeps its own length. The client instead pads every
    row with "" to the sheet's width.
  - Its four methods are the spreadsheet client calls the store makes:
    `get_all_values`, `append_row`, `insert_row` and `delete_rows`, with the
    client's 1-based row numbers.
- `storage.dfy` (module `Storage`): the spreadsheet branch of the store
  (`init_storage`, `count_registrations`, `_gsheets_df_raw`,
  `insert_registration`, `get_registrations_df`,
  `delete_registration_by_member`).
  - Each operation is a method on the worksheet. It is proved to leave the
    worksheet holding a function of the rows it found (`InitializedAsWritten`,
    `AfterInsert`, `Deleted`), and to return a function of them
    (`InsertDecision`, `Count`, `Listing`).
  - The lemmas state what those functions guarantee.
  - The delete collects row numbers in one loop and deletes them from the
    last to the first in a second loop. It is proved equal to "the header
    followed by the data rows that do not match, in order".
- `submission.dfy` (module `Submission`): the registration tab.
  - The render guard closes the form when no place is left.
  - The submit handler re-reads the count, lists the errors in order and
    hands the trimmed fields to the store.
  - A run of actions (start-up, submissions, deletions) is proved to keep the
    count within `MAX_PARTICIPANTS`.
  - A run that starts from a consistent sheet keeps it consistent: the header
    row comes first and no member number appears twice. Start-up makes a sheet
    with distinct member numbers consistent, except when its first row equals
    the header only once its cells are trimmed (see "## Findings").

The timestamp the store writes is a parameter. Sheet consistency is the
`Storage.Consistent` predicate.

The model follows the code as written throughout:

- A full name is accepted when its trimmed length is at least 3, not when it
  has three characters other than white space: `"a b"` passes
  (`Validation.ShortestAcceptedName`).
- The header labels are the French ones above.
- `init_storage` compares the header after trimming its cells, as the code
  does. The corrected comparison of "## Findings" is modelled beside it
  (`Storage.Initialized`) and is not what `Storage.InitStorage` does.

## Model

| member | source | states |
|---|---|---|
| `Text.TrimStartFacts` | script.py:407 | the left part of `strip` drops only white space from the front, and what it leaves does not start with white space |
| `Text.TrimEndFacts` | script.py:407 | the right part of `strip` drops only white space from the back, and what it leaves does not end with white space |
| `Text.TrimFacts` | script.py:407 | `strip` returns the slice of its input between white-space runs at both ends; the result is empty exactly when the input is all white space, and otherwise starts and ends with a non-space |
| `Text.TrimUnpadded` | script.py:233 | a string with no white space at either end is left unchanged by `strip` |
| `Text.TrimIdempotent` | script.py:553 | stripping twice gives the same as stripping once |
| `Text.TrimAllFixedIff` | script.py:233 | stripping every cell leaves a row unchanged exactly when no cell has white space at either end |
| `Validation.RepeatMatchIff` | script.py:408 | the bounded repetition of the character class matches exactly the strings of class characters whose length lies between the bounds |
| `Validation.MemberPatternIff` | script.py:408 | `[A-Za-z0-9\- ]{3,30}` fully matches exactly the strings of 3 to 30 letters, digits, hyphens and spaces |
| `Validation.ValidateFullName` | script.py:401-402 | the only possible error is "Nom complet invalide.", given exactly when the trimmed name is shorter than 3 (the empty name included) |
| `Validation.ValidateMemberNumber` | script.py:404-410 | the result is empty, "required" or "format"; "required" exactly for the empty input; "format" exactly for a non-empty input whose trimmed value does not match the pattern |
| `Validation.ValidateFeeAck` | script.py:412-413 | no error exactly when the fee box is ticked, otherwise the single fee message |
| `Validation.MemberNumberAcceptedIff` | script.py:404-410 | a member number is accepted exactly when its trimmed value has 3 to 30 characters, each a letter, digit, hyphen or space |
| `Validation.BlankMemberNumber` | script.py:405-409 | a non-empty, all white-space member number gets the format error, not the "required" error |
| `Validation.AcceptedMemberNumberShape` | script.py:407-408 | an accepted member number, trimmed, is stable under a second trim, has at least 3 characters and begins and ends with a class character other than space |
| `Validation.ShortestAcceptedName` | script.py:402 | `"a b"`, with only two non-space characters, is accepted |
| `Sheets.Worksheet.GetAllValues` | script.py:228 | returns the worksheet's rows unchanged |
| `Sheets.Worksheet.AppendRow` | script.py:230 | the row goes after the last one |
| `Sheets.Worksheet.InsertRow` | script.py:235 | the row becomes sheet row `index`; the rows from there on move down by one |
| `Sheets.Worksheet.DeleteRows` | script.py:382 | sheet row `index` is removed; the rows below it move up by one |
| `Storage.InitializedAsWritten` | script.py:224-235 | an empty sheet becomes exactly the header row; otherwise the row count and the data rows are unchanged, and the first row, trimmed cell by cell, is `SHEET_HEADERS`; a first row that already trims to it is kept as it is |
| `Storage.Initialized` | script.py:233 | the corrected init of "## Findings": afterwards the first row is exactly `SHEET_HEADERS`, with the same empty-sheet, count and data-row facts |
| `Storage.InitStorage` | script.py:224-235 | the append, or the delete and insert of row 1, leave the worksheet holding `InitializedAsWritten` of its old rows |
| `Storage.CountRegistrations` | script.py:266-271 | returns `max(len(values) - 1, 0)`: the number of rows below the header, 0 for an empty sheet |
| `Storage.NormalizeFee` | script.py:285-286 | the fee cell is trimmed; it normalises to "1" exactly for "True" or "1", to "0" exactly for "False" or "0", and to itself trimmed otherwise |
| `Storage.NormalizeColumn` | script.py:285-286 | only the fee cell of each record changes, to its normalised value; shapes are kept |
| `Storage.RawFrame` | script.py:275-287 | a sheet of at most one row gives an empty frame labelled `SHEET_HEADERS`; otherwise the first row labels the columns and record `i` is data row `i + 1`, cell for cell, with the cell under the first fee label normalised |
| `Storage.NewRowFacts` | script.py:298-303 | the appended row's name and member cells carry no padding, its key is the trimmed member number, and its fee cell lists as itself |
| `Storage.InsertRegistration` | script.py:289-306 | answers `InsertDecision` of the rows it found and leaves the worksheet holding `AfterInsert` of them |
| `Storage.Listing` | script.py:325-348 | a sheet of at most one row, or with an empty header, lists as empty; otherwise there is one entry per data row |
| `Storage.GetRegistrations` | script.py:325-348 | returns `Listing` of the worksheet's rows and changes nothing |
| `Storage.Keep` | script.py:376-382 | the kept rows are no more than the rows and none of them matches |
| `Storage.CollectRowsToDelete` | script.py:374-378 | gathers, in increasing order, exactly the 1-based sheet row numbers (from 2) of the data rows that match |
| `Storage.DeleteStep` | script.py:381-382 | deleting the next collected row from the end extends the part of the sheet that already equals the filter |
| `Storage.DeleteDone` | script.py:381-382 | once every collected row is deleted, the sheet is the header followed by the non-matching data rows |
| `Storage.DeleteRegistrationByMember` | script.py:365-384 | the shifting-index reverse deletion leaves exactly `Deleted`: the header followed by every non-matching data row in its order (a sheet of at most one row is unchanged); the return value is the number of rows removed |
| `Storage.SheetHeadersFacts` | script.py:44 | the header labels sit at positions 0 to 3, the member and fee labels occur once, and none is padded |
| `Storage.InitIdempotent` | script.py:224-235 | running init twice gives the same sheet as running it once; the same holds of the corrected init |
| `Storage.InitKeepsCount` | script.py:229-235 | init never changes the registration count, nor does the corrected init |
| `Storage.InitMakesConsistent` | script.py:224-235 | init keeps distinct data-row member numbers distinct, and its result is consistent exactly when the first row was empty, exactly the header, or not the header even once trimmed; the corrected init always gives a consistent sheet |
| `Storage.InitVersionsAgree` | script.py:233 | the written and the corrected init differ only on a first row that equals the header once trimmed but not before |
| `Storage.PaddedHeaderTrims` | script.py:233 | a header with a trailing space after `numero_membre` differs from `SHEET_HEADERS` but passes the stripped comparison |
| `Storage.PaddedHeaderLabels` | script.py:282 | that header has no `numero_membre` label and one `frais_compris` label |
| `Storage.AsWrittenKeepsPaddedHeader` | script.py:233-235 | as written, init leaves a sheet under that header unchanged; the corrected init rewrites its header |
| `Storage.PaddedHeaderBlocksInserts` | script.py:295 | under that header every insert, for any member number, ends in the generic error |
| `Storage.InitializedAllowsInserts` | script.py:293-306 | after the corrected init, an insert never ends in the generic error |
| `Storage.InitAllowsInsertsUnlessPadded` | script.py:224-235 | after init as written, an insert never ends in the generic error unless the first row equals the header only once trimmed |
| `Storage.FieldsUnderHeaders` | script.py:280-287 | under the header row the frame reads each data row's cells 0 to 3 (cell 2 normalised as a fee) |
| `Storage.InsertDecisionUnderHeaders` | script.py:293-296 | under the header row, an insert is refused exactly when some data row's trimmed member cell equals the trimmed argument (case-sensitive), and accepted otherwise |
| `Storage.InsertAppendsOneRow` | script.py:295-304 | an accepted insert appends exactly `[trim(name), trim(member), "1"/"0", ts]`, leaves every earlier row alone and raises the count by one; a refused insert changes nothing |
| `Storage.InsertKeepsConsistent` | script.py:294-304 | an insert keeps a consistent sheet consistent |
| `Storage.InsertSameMemberTwice` | script.py:295-296 | after a registration, a second one with the same trimmed member number is refused as a duplicate and changes nothing |
| `Storage.ListingUnderHeaders` | script.py:337-348 | under the header row, each entry is its data row's name, member number, normalised fee and date, in that order |
| `Storage.ListingMissingColumns` | script.py:337-347 | on a header that trims to `SHEET_HEADERS`, as init leaves it, a display column whose label the header lacks is listed as "" |
| `Storage.FeeFlagRoundTrip` | script.py:286 | the "1" and "0" an insert writes list as themselves |
| `Storage.ListingAppend` | script.py:298-303 | appending a row below the header row appends exactly that row's entry to the listing |
| `Storage.ListingAfterInsert` | script.py:298-348 | round trip: an accepted insert shows up at the end of the listing with the trimmed name and number, the fee flag and the timestamp |
| `Storage.KeepFacts` | script.py:376-382 | kept rows plus matching rows account for every row; every kept row was there before; every non-matching row is kept; no match means nothing is counted |
| `Storage.DeletedShape` | script.py:365-384 | the delete keeps the header, removes as many data rows as match (the count drops by as many), and leaves no matching row |
| `Storage.DeleteAbsent` | script.py:374-382 | deleting a member number no data row carries leaves the sheet unchanged |
| `Storage.NonMatchingRowsSurvive` | script.py:377 | a data row with fewer than two cells, or whose trimmed second cell differs from the target, survives the delete |
| `Storage.DeleteKeepsConsistent` | script.py:365-384 | the delete keeps a consistent sheet consistent |
| `Storage.UniqueMatchCount` | script.py:376-378 | with distinct member numbers at most one row matches, and exactly one when the number is present |
| `Storage.DeleteRemovesAtMostOne` | script.py:365-384 | on a consistent sheet the delete removes at most one row, and exactly one registration when the number is present |
| `Submission.SubmissionErrors` | script.py:539-546 | no error exactly when the trimmed name has at least 3 characters, the member number is accepted, the fee box is ticked and the count is below 20; at capacity the last message is the capacity one |
| `Submission.SubmissionErrorsListed` | script.py:539-546 | each of the five messages is listed exactly when its own condition holds |
| `Submission.SubmissionErrorsOrdered` | script.py:539-546 | the messages come in the order name, member number, fee, capacity, each at most once |
| `Submission.Submit` | script.py:538-558 | answers `SubmitResult` and leaves the worksheet holding `Submitted` of its old rows; it rereads the count and inserts only when the list is empty |
| `Submission.Remaining` | script.py:525 | places left never exceed 20 and are positive exactly when the count is below 20 |
| `Submission.RegistrationTab` | script.py:525-558 | the tab closes when no place is left, shows the form otherwise, and on submit answers as the handler and changes the sheet as `TabAfter` |
| `Submission.TrimmedFieldsStoreTheSame` | script.py:553 | handing the store the trimmed fields decides and appends the same as handing it the raw ones |
| `Submission.RegisteredIff` | script.py:548-555 | a form registers exactly when it is valid, a place is left and the store accepts the number; then exactly one row is appended, holding the trimmed name and number, "1" and the timestamp |
| `Submission.RegisteredRowValid` | script.py:553 | a registered row holds a trimmed name of at least 3 characters, a trimmed member number matching the pattern, and the fee flag "1" |
| `Submission.UnchangedUnlessRegistered` | script.py:548-558 | any answer other than success leaves the sheet unchanged |
| `Submission.FullSheetRejects` | script.py:545-546 | at capacity the handler rejects, ending its list with the capacity message, and leaves the sheet unchanged |
| `Submission.SubmitKeepsCapacity` | script.py:545-553 | a submission on a sheet within capacity leaves it within capacity |
| `Submission.SubmitKeepsConsistent` | script.py:553 | a submission keeps a consistent sheet consistent |
| `Submission.ClosedIff` | script.py:525-528 | the tab is closed exactly when the count has reached 20, and then changes nothing |
| `Submission.DeleteNeverAdds` | script.py:365-384 | a delete never raises the count |
| `Submission.RunKeepsCapacity` | script.py:525-553 | any run of start-ups (init as written), submissions and deletions from a sheet within capacity stays within capacity |
| `Submission.RunKeepsConsistent` | script.py:224-384 | any run from a consistent sheet stays consistent |
| `Submission.StartedRunConsistent` | script.py:394-395 | a sheet whose data rows are distinct, and whose first row is not one that equals the header only once trimmed, becomes consistent at start-up and stays so for the rest of the run |
| `Submission.PaddedStartNotConsistent` | script.py:233-235 | the excluded case: under the padded header, start-up leaves a sheet that is not consistent |

## Left out

- The SQLite fallback store, and the switch that chooses between the two stores: the model is the spreadsheet branch only.
- The spreadsheet client, its authentication and the creation of a missing worksheet: network and vendor calls, replaced by the in-memory `Worksheet`.
- Network and client failures caught as the generic insert error: these are foreign failures. The model keeps the two generic-error paths of its own data: a frame without exactly one member column, and a header with the fee label twice (`Storage.FeeColumnTwice`).
- The delete has no such handler, so exceptions raised during it are not modelled either.
- The date sort of the listing: it relies on pandas' lenient date parsing and sort, so the listing is modelled in sheet order.
- `Storage.Listing`: reads each field by its sheet label and does not model the rename-fill-select of the listing for headers that `init_storage` rewrites at start-up. Those are headers that already hold a display label such as `Nom complet`, which the app lists where the model gives "". They also include headers with the name, member, fee or date label twice. With the fee or date label twice the app's listing raises. With the name or member label twice it returns more than four columns. The model reads the first such column.
- `Storage.RawFrame`: the client pads every row to the sheet's width. The model reads a cell past the end of its row as "" and does not model the frame-construction error for a row longer than its header.
- `Storage.Matches`: rows are stored unpadded, so the test `len(row) >= 2` is made on the row's own length. On a sheet at least two columns wide, the app deletes a data row of fewer than two cells when asked to delete the member number "" (its padded member cell is ""). The model keeps that row and does not count it as removed.
- The timestamp written by the insert (UTC time, formatted): an opaque parameter.
- The Streamlit interface: page styling, the home tab's layout, the CSV export, the admin login and the static rules text. The admin delete button simply calls the modelled delete.
- StartedRunConsistent: does not promise consistency after start-up for a first row that equals the header only once trimmed, because init as written keeps such a row (`Submission.PaddedStartNotConsistent`, and "## Findings").
- Concurrency and the race between the capacity check and the append: the model runs one action at a time.

## Findings

| source | as written | input that shows it | evidently intended | confidence | as-written member | corrected member |
|---|---|---|---|---|---|---|
| script.py:233 | the header row is compared with `SHEET_HEADERS` after stripping each cell, but the frame at script.py:282 uses the unstripped labels | a first row `nom_complet, "numero_membre " (trailing space), frais_compris, date_inscription` above at least one data row: init keeps it, and every insert then fails the member-column lookup and answers "Erreur lors de l'inscription." | replace any first row that is not exactly `SHEET_HEADERS`, so that inserts find the member column | moderate, not executed | `Storage.PaddedHeaderBlocksInserts` | `Storage.InitializedAllowsInserts` |

The store's model keeps the code's behaviour: `Storage.InitStorage` and the start-up step of a run use `Storage.InitializedAsWritten`. The corrected `Storage.Initialized` stands beside it with the property it restores (`Storage.InitializedAllowsInserts`). `Storage.InitVersionsAgree` shows the two agree outside the padded case.
