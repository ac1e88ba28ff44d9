# Participant roster engine of the certificate service

This project models the part of the certificate generation service that holds
and manipulates a roster of participants (name, e-mail, role, place), and
proves properties of that model.

- **Ingestion.** A CSV text or a spreadsheet's cell grid becomes a roster
  (`parseFile` on the main page and in the upload widget).
- **Store.** The main page's roster can be replaced, have one entry removed,
  one updated, several removed or one appended.
- **Participants table.** The table shows the roster sorted on a copy that
  remembers each row's roster position. It pages the rows, draws the
  page-button row, and keeps a selection, a select-all flag and an edit buffer.
- **Role translation.** Roles are translated through a case-insensitive table;
  the `t` lookup falls back to its key, and the language can be toggled.
- **Backend helpers.**
  - The e-mail and certificate-template placeholder substitution.
  - The demonstration accounts and the token-to-user lookup.
  - Event roles with their colours, and the event store with create, update
    and the per-organisation listing.

Modules follow the program's components:

| module | component |
|---|---|
| `Wrappers` | `Option`, `Result` |
| `Text` | the JavaScript and Python string built-ins the code calls (`trim`, `strip`, `split`, `includes`, `toLowerCase`, `str.replace`, `str(int)`) |
| `Language` | `LanguageContext.tsx` |
| `Roster` | the participant record and the store operations of `MainPage.tsx` |
| `Ingest` | `parseFile` (CSV and spreadsheet branches), shared by the page and the widget |
| `MainPage` | the page's state (`participants`, the add form, the generate guards) |
| `FileUpload` | the upload widget's state |
| `Projection` | the pure sort, page and page-button computations of `ParticipantsTable.tsx` |
| `Table` | the table's component state and handlers |
| `Placeholders`, `Accounts`, `Events` | `backend/main.py` |

Where the source mutates state, the model is a class with `modifies` clauses.
This covers the page, the add form, the widget, the table and the event store.
Each method is proved against a pure function whose properties are lemmas.

Loops are `while`/`for` methods proved equal to a recursive specification:
- the record-collecting loop of `parseFile`;
- the `forEach` of `handleSelectAll`;
- `Array.from` of the selection;
- the two placeholder loops;
- the role loops of `create_event` and `update_event`.

Abstractions:
- `parseInt` is a parameter `string -> Option<int>`, with `None` for `NaN`.
- `localeCompare` is a parameter `(string, string) -> int`. Properties of the
  name sort assume it is a total preorder.
- `random.choice` is a parameter `draw: nat -> nat`, the palette index the
  k-th call picks.
- `datetime.now()`, `uuid4()` and the creation timestamp are plain parameters.

`Array.prototype.sort` is modelled as a stable insertion sort. ECMAScript
requires the sort to be stable (section 23.1.3.30 of ECMA-262), and for a
comparator that is a total preorder a stable sort has exactly one possible
result. A `NaN` comparison counts as 0, as `SortCompare` prescribes.

Where the intended behaviour and the code differ, the model follows the code:
- A CSV line with an empty name or e-mail is accepted (`Ingest.CsvEmptyNameAccepted`).
- Removing a single row leaves the selection as it was, so selected positions
  then name other participants (`Table.StaleSelectionAfterRemove`).
- In a descending place sort the whole comparison is negated, so rows with no
  place come first (`Projection.PlaceSortOrder`).
- `handleRemoveMultiple` steps back at most one page (`Projection.PageAfterRemovalStep`).
- An empty cell in a spreadsheet's header row stays a hole after `map`, and
  `findIndex` still visits it: a column scan that meets it before its first
  match calls `includes` on `undefined` and throws, so the upload fails
  (`Ingest.HoleBeforeEmailThrows`).

## Model

| member | source | states |
|---|---|---|
| Roster.RemoveAtDropsOne | frontend/src/pages/MainPage.tsx:332-337 | removing an in-range position drops exactly that participant and keeps the others in order; any other index leaves the roster unchanged |
| Roster.RemoveManyKeepsUnlisted | frontend/src/pages/MainPage.tsx:347-353 | removing several positions keeps exactly the participants at unlisted positions, in roster order |
| Roster.RemoveManyOutOfRange | frontend/src/pages/MainPage.tsx:347-353 | listing no in-range position removes nothing |
| Roster.RemoveManySingle | frontend/src/pages/MainPage.tsx:332-353 | removing the one-element list `[i]` is the same as removing position `i` |
| Roster.UpdateAt | frontend/src/pages/MainPage.tsx:339-345 | updating keeps the length, puts the new participant at an in-range index and leaves every other position as it was |
| Roster.UpdateSame | frontend/src/pages/MainPage.tsx:339-345 | writing back the participant already at a position changes nothing |
| Roster.UpdateTwice | frontend/src/pages/MainPage.tsx:339-345 | a second update of the same position overrides the first |
| Roster.Append | frontend/src/pages/MainPage.tsx:546-553 | appending adds the participant at the end and keeps every earlier entry |
| Roster.RemoveUndoesAppend | frontend/src/pages/MainPage.tsx:332-337 | removing the last position after an append restores the roster |
| Roster.FilterIsKeptIndices | frontend/src/pages/MainPage.tsx:334 | a positional `filter` gives the input read at the accepted positions, ascending |
| Roster.FilterDropOne | frontend/src/pages/MainPage.tsx:334 | a filter that rejects exactly one position drops exactly that element |
| Ingest.PlaceOf | frontend/src/pages/MainPage.tsx:241 | the place is absent exactly for an empty cell, a number when `parseInt` reads one, and `NaN` otherwise |
| Ingest.CollectFrom | frontend/src/pages/MainPage.tsx:234-244 | the loop over the lines after the header pushes exactly the specified records, in order |
| Ingest.CollectKept | frontend/src/pages/MainPage.tsx:268-279 | the records collected are those read from the accepted inputs, in input order |
| Ingest.CollectAll | frontend/src/pages/MainPage.tsx:234-244 | when every input is accepted, one record per input is collected |
| Ingest.NonBlankLinesIff | frontend/src/pages/MainPage.tsx:230 | the line filter keeps exactly the lines whose trim is non-empty |
| Ingest.Cells | frontend/src/pages/MainPage.tsx:235 | a line has one cell per comma-separated piece |
| Ingest.CellsTrimmed | frontend/src/pages/MainPage.tsx:235 | every cell is trimmed |
| Ingest.ParseCsvSpec | frontend/src/pages/MainPage.tsx:228-246 | the CSV branch can only fail for want of a header line (`lines[0]` undefined) |
| Ingest.ParseCsv | frontend/src/pages/MainPage.tsx:228-246 | the CSV branch as run, loop included, equals its specification |
| Ingest.CsvRecordIff | frontend/src/pages/MainPage.tsx:236 | a data line yields a record exactly when it has at least two cells, that is when it holds a comma |
| Ingest.CsvRecordFields | frontend/src/pages/MainPage.tsx:237-242 | name and e-mail are cells 0 and 1 (trimmed, possibly empty); the role is cell 2, or the default when it is missing or empty; the place is absent exactly when cell 3 is missing or empty |
| Ingest.CsvEmptyNameAccepted | frontend/src/pages/MainPage.tsx:236-239 | a line with an empty name is accepted with name "" |
| Ingest.CsvRecordsKept | frontend/src/pages/MainPage.tsx:234-244 | the collected records are those of the data lines holding a comma, in file order |
| Ingest.NonBlankEmptyIff | frontend/src/pages/MainPage.tsx:230 | filtering leaves no line exactly when every line is all whitespace |
| Ingest.CsvFailsIffBlank | frontend/src/pages/MainPage.tsx:230-231 | the CSV branch throws exactly when the text is all whitespace |
| Ingest.CsvHeaderIgnored | frontend/src/pages/MainPage.tsx:231-234 | the first non-blank line is never emitted and its content does not matter |
| Ingest.QuotedLineKeepsQuotes | frontend/src/pages/MainPage.tsx:316-318 | a line of the quoted example file reads back with the quote marks inside name, e-mail and role |
| Ingest.PlainCsvRoundTrip | frontend/src/pages/MainPage.tsx:228-246 | an unquoted file written from a roster of plain fields reads back as that roster |
| Ingest.PlainLineRoundTrip | frontend/src/pages/MainPage.tsx:235-242 | one unquoted line reads back as the participant it was written from |
| Ingest.PlainLinesRoundTrip | frontend/src/pages/MainPage.tsx:234-244 | the unquoted data lines of a roster read back as the roster |
| Ingest.PlaceTextReadsBack | frontend/src/pages/MainPage.tsx:241 | a non-negative place written as digits, or no place written as nothing, reads back as itself |
| Ingest.FindIndex | frontend/src/pages/MainPage.tsx:259-262 | `findIndex` over the header row gives a position inside the row, or -1 |
| Ingest.FindIndexSpec | frontend/src/pages/MainPage.tsx:259-262 | the scan throws exactly when it meets an empty header cell before any match (it calls `includes` on `undefined`), gives -1 exactly when every header is present and none matches, and otherwise gives the first match |
| Ingest.Headers | frontend/src/pages/MainPage.tsx:258 | one normalised header per header cell; `map` leaves an empty cell's hole a hole |
| Ingest.DetectColumns | frontend/src/pages/MainPage.tsx:258-262 | the four scans run before any check, so the columns are missing exactly when one of them throws; otherwise each column is -1 exactly when no header names it, and else the first header that does |
| Ingest.ParseSheetSpec | frontend/src/pages/MainPage.tsx:247-281 | the sheet branch fails with too few rows exactly when there are fewer than 2 rows; with the header-hole error exactly when there are enough rows and one of the four column scans meets an empty header cell before its first match; with missing columns exactly when no scan throws but no header names the name or the e-mail column; and otherwise yields at most one record per data row |
| Ingest.HoleBeforeEmailThrows | frontend/src/pages/MainPage.tsx:258-260 | an empty header cell between the name header and the e-mail header stops the upload with the header-hole error |
| Ingest.ParseSheet | frontend/src/pages/MainPage.tsx:247-281 | the sheet branch as run, loop included, equals its specification |
| Ingest.SheetRecordsKept | frontend/src/pages/MainPage.tsx:269-279 | the records are those of the rows with a truthy name cell and a truthy e-mail cell, in sheet order |
| Ingest.SheetRecordFields | frontend/src/pages/MainPage.tsx:272-277 | an accepted row's name and e-mail are its cells trimmed; the role is never empty; the place is absent exactly when its column is missing or its cell is falsy |
| MainPage.ParseUpload | frontend/src/pages/MainPage.tsx:226-288 | `.csv` files go to the CSV branch, `.xlsx`/`.xls` to the sheet branch, and any other name is refused |
| MainPage.Page.constructor | frontend/src/pages/MainPage.tsx:146-153 | the page starts with an empty roster and the add form closed |
| MainPage.Page.HandleFileParsed | frontend/src/pages/MainPage.tsx:220-224 | the parsed roster replaces the whole roster, unless there is no event id |
| MainPage.Page.ParseFile | frontend/src/pages/MainPage.tsx:226-288 | the roster changes only when parsing succeeded, and then to exactly the parsed roster |
| MainPage.Page.RemoveParticipant | frontend/src/pages/MainPage.tsx:332-337 | with an event id, the roster becomes `RemoveAt`; without one, nothing changes |
| MainPage.Page.UpdateParticipant | frontend/src/pages/MainPage.tsx:339-345 | with an event id, the roster becomes `UpdateAt`; without one, nothing changes |
| MainPage.Page.RemoveMultipleParticipants | frontend/src/pages/MainPage.tsx:347-353 | with an event id, the roster becomes `RemoveMany`; without one, nothing changes |
| MainPage.Page.AddParticipant | frontend/src/pages/MainPage.tsx:546-553 | with an event id, the participant is appended and the form closes; without one, nothing changes |
| MainPage.AddForm.constructor | frontend/src/pages/MainPage.tsx:22-27 | the form starts empty with the default role and no place |
| MainPage.AddForm.HandleSubmit | frontend/src/pages/MainPage.tsx:29-42 | a form whose trimmed name or e-mail is empty is refused and kept; otherwise it is handed on untrimmed and reset |
| MainPage.Generate | frontend/src/pages/MainPage.tsx:406-434 | generation is refused, in this order, without a template, with an empty roster, or without a loaded event; it goes ahead exactly when all three are present, and the request then carries the roster, template, event name, issue date and e-mail flag, with the given subject and body when e-mail is on and neither when it is off |
| FileUpload.SameParserAsPage | frontend/src/components/FileUpload.tsx:20-82 | the widget reads a file exactly as the page does, except that a file of another extension is ignored instead of refused |
| FileUpload.Widget.constructor | frontend/src/components/FileUpload.tsx:17-18 | no file and no parsed data at first |
| FileUpload.Widget.ParseFile | frontend/src/components/FileUpload.tsx:20-82 | on success `parsedData` is exactly the roster handed to `onFileParsed`; on an error or another extension, nothing is handed on and `parsedData` is unchanged |
| FileUpload.Widget.OnDrop | frontend/src/components/FileUpload.tsx:84-93 | the first accepted file becomes the chosen file and is parsed; an empty drop changes nothing |
| FileUpload.Widget.RemoveFile | frontend/src/components/FileUpload.tsx:105-109 | the file and `parsedData` are cleared and `[]` is handed to the parent |
| Language.Toggle | frontend/src/contexts/LanguageContext.tsx:117-119 | toggling always changes the language |
| Language.ToggleTwice | frontend/src/contexts/LanguageContext.tsx:117-119 | toggling twice restores the language |
| Language.T | frontend/src/contexts/LanguageContext.tsx:121-123 | `t` gives the entry's text in the chosen language when it is non-empty, else the key (also when there is no entry); it is empty only for the empty key |
| Language.RoleKeysLowered | frontend/src/contexts/LanguageContext.tsx:79-88 | every key of the role map is already lower case |
| Language.RoleValuesAreKeys | frontend/src/contexts/LanguageContext.tsx:69-72 | every translated role text is itself a role-map key naming the same row |
| Language.TranslateRoleCaseInsensitive | frontend/src/contexts/LanguageContext.tsx:90 | two spellings of a known role that differ only in letter case translate alike |
| Language.TranslateRoleUnknown | frontend/src/contexts/LanguageContext.tsx:93-94 | a role whose modelled lower case is not in the map is returned unchanged |
| Language.TranslateRoleKnown | frontend/src/contexts/LanguageContext.tsx:90-92 | a known role translates to its row's text in the requested language |
| Language.SpellingsAgree | frontend/src/contexts/LanguageContext.tsx:79-88 | the Russian and English spellings of a role translate to the same text |
| Language.TranslateRoleIdempotent | frontend/src/contexts/LanguageContext.tsx:78-95 | translating a translated role changes nothing |
| Projection.WithIndices | frontend/src/components/ParticipantsTable.tsx:62 | row `i` holds participant `i` and position `i` |
| Projection.RoleRanks | frontend/src/components/ParticipantsTable.tsx:75-81 | участник ranks 1, докладчик 2, призер 3, победитель 4, and any other role 0 |
| Projection.DescNegatesAsc | frontend/src/components/ParticipantsTable.tsx:90 | the descending comparison is the ascending one negated |
| Projection.UnrankedAgainstRanked | frontend/src/components/ParticipantsTable.tsx:83-87 | a row without a place sorts after a row placed below 999 when ascending, and before it when descending |
| Projection.Insert | frontend/src/components/ParticipantsTable.tsx:67 | inserting adds exactly one row (as a multiset) |
| Projection.Sort | frontend/src/components/ParticipantsTable.tsx:67 | the sort is a permutation of its input |
| Projection.InsertSorted | frontend/src/components/ParticipantsTable.tsx:67 | inserting a row with a larger original index keeps the rows stably sorted |
| Projection.SortSorted | frontend/src/components/ParticipantsTable.tsx:67 | under a total preorder the sort puts every pair in order and keeps equal rows in original order |
| Projection.UnsortedIsIdentity | frontend/src/components/ParticipantsTable.tsx:61-63 | with no sort field, entry `i` is participant `i` with original index `i` |
| Projection.ProjectionIsPermutation | frontend/src/components/ParticipantsTable.tsx:60-94 | every projection is a permutation of the roster's rows, each row naming the position its participant holds, every position present |
| Projection.SortedRowsOrdered | frontend/src/components/ParticipantsTable.tsx:65-91 | under a total preorder the sorted copy is in order and stable |
| Projection.RoleComparatorConsistent | frontend/src/components/ParticipantsTable.tsx:74-81 | the role comparator is a total preorder in both directions |
| Projection.PlaceComparatorConsistent | frontend/src/components/ParticipantsTable.tsx:83-87 | the place comparator is a total preorder on rows with no `NaN` place |
| Projection.FioComparatorConsistent | frontend/src/components/ParticipantsTable.tsx:71-73 | the name comparator is a total preorder when the collation is |
| Projection.RoleSortOrder | frontend/src/components/ParticipantsTable.tsx:74-90 | a role sort orders rows by rank in the chosen direction and keeps rows of equal rank in roster order |
| Projection.PlaceSortOrder | frontend/src/components/ParticipantsTable.tsx:83-90 | without `NaN` places, unranked rows come after every row placed below 999 when ascending and before it when descending; equal places keep roster order |
| Projection.CeilDiv | frontend/src/components/ParticipantsTable.tsx:111 | `Math.ceil(x / k)`: the least `r` with `x <= r * k` |
| Projection.TotalPages | frontend/src/components/ParticipantsTable.tsx:111 | the number of pages is `ceil(n / k)`, and 0 exactly for an empty list |
| Projection.PageRowsRange | frontend/src/components/ParticipantsTable.tsx:112-114 | page `p` holds at most `k` rows, those from `(p-1)k` to `pk` cut at the end, and none when it starts past the end |
| Projection.PageNonEmptyIff | frontend/src/components/ParticipantsTable.tsx:111-114 | a page is non-empty exactly when it is at most `totalPages` |
| Projection.PagesUpToPrefix | frontend/src/components/ParticipantsTable.tsx:112-114 | the first `m` pages laid end to end are the first `mk` rows |
| Projection.AllPages | frontend/src/components/ParticipantsTable.tsx:111-114 | all pages laid end to end are the whole sorted list |
| Projection.ShowingMatchesPage | frontend/src/components/ParticipantsTable.tsx:450 | the "showing a - b of n" line names the first and last row of the page shown |
| Projection.WindowUpToIff | frontend/src/components/ParticipantsTable.tsx:461-484 | the rendered items for pages `1..m` are exactly those pages' items, in increasing page order |
| Projection.ButtonIff | frontend/src/components/ParticipantsTable.tsx:462-479 | a page has a button exactly when it is the first, the last, or within one of the current page |
| Projection.EllipsisIff | frontend/src/components/ParticipantsTable.tsx:480-482 | a page shows as "..." exactly when it is two away from the current page and neither the first nor the last |
| Projection.PageAfterRemovalStep | frontend/src/components/ParticipantsTable.tsx:174-176 | after a removal the page moves back by at most one, never below 1, and moves exactly when it no longer shows any remaining row (page 1 excepted) |
| Projection.RemovalLeavesEmptyPage | frontend/src/components/ParticipantsTable.tsx:174-176 | removing 30 of 31 rows on page 4 of 10-row pages lands on page 3, which is empty, while only one page remains |
| Projection.ClampedPageShowsRows | frontend/src/components/ParticipantsTable.tsx:174-176 | the clamped page is at least 1, unchanged when it still exists, and shows some row whenever rows remain |
| Table.ParticipantsTable.constructor | frontend/src/components/ParticipantsTable.tsx:29-35 | nothing selected or edited, page 1, no sort field, ascending |
| Table.ParticipantsTable.SetParticipants | frontend/src/components/ParticipantsTable.tsx:29-35 | a new non-empty roster prop leaves the selection, page, sort and edit state as they were; an empty roster unmounts the table (the page renders it only while the roster is non-empty, frontend/src/pages/MainPage.tsx:559), so the state returns to its initial values |
| Table.ParticipantsTable.HandleSort | frontend/src/components/ParticipantsTable.tsx:98-108 | the current field flips direction, a new field starts ascending, and the page becomes 1 |
| Table.ParticipantsTable.HandleEdit | frontend/src/components/ParticipantsTable.tsx:116-119 | editing starts at the roster position with a copy of its participant |
| Table.ParticipantsTable.HandleSave | frontend/src/components/ParticipantsTable.tsx:121-127 | the edit buffer, if any, goes to `onUpdate` for that position, and editing ends |
| Table.ParticipantsTable.HandleCancel | frontend/src/components/ParticipantsTable.tsx:129-132 | editing ends and the buffer is discarded |
| Table.ParticipantsTable.EditFio | frontend/src/components/ParticipantsTable.tsx:307 | the name input sets the buffer's name only |
| Table.ParticipantsTable.EditEmail | frontend/src/components/ParticipantsTable.tsx:321 | the e-mail input sets the buffer's e-mail only |
| Table.ParticipantsTable.EditRole | frontend/src/components/ParticipantsTable.tsx:334 | the role select sets the buffer's role only |
| Table.ParticipantsTable.EditPlace | frontend/src/components/ParticipantsTable.tsx:374-384 | an empty place input clears the place, a positive number sets it, anything else is ignored |
| Table.ParticipantsTable.HandleSelectAll | frontend/src/components/ParticipantsTable.tsx:134-149 | with the flag set, the selection is emptied and the flag cleared; otherwise the current page's positions are added to the selection and the flag is set exactly when the selection has as many entries as the roster |
| Table.ParticipantsTable.HandleSelect | frontend/src/components/ParticipantsTable.tsx:151-166 | exactly one position is toggled; the flag is set exactly when the whole current page is selected and the selection is as large as the roster |
| Table.ParticipantsTable.HandleRemoveMultiple | frontend/src/components/ParticipantsTable.tsx:168-178 | with a selection, its positions are handed on once each, the selection and flag are cleared, and the page steps back as `PageAfterRemoval` says; with none, nothing happens |
| Table.ParticipantsTable.HandlePageChange | frontend/src/components/ParticipantsTable.tsx:180-183 | the page changes and the flag is cleared, but the selection is kept |
| Table.AddPagePositions | frontend/src/components/ParticipantsTable.tsx:140-145 | the `forEach` adds to a copy of the selection exactly the roster positions of the page's rows |
| Table.OriginalIndexOnPage | frontend/src/components/ParticipantsTable.tsx:143 | for a row on the page the `?? sortedIndex` fallback is never taken |
| Table.ArrayFrom | frontend/src/components/ParticipantsTable.tsx:170 | `Array.from` lists each selected position exactly once |
| Table.StaleSelectionAfterRemove | frontend/src/components/ParticipantsTable.tsx:429 | after a single remove, an unchanged selected position at or after the removed one names the next participant |
| Table.StaleSelectionExample | frontend/src/components/ParticipantsTable.tsx:429 | with `[a, b, c]`, `b` selected and `a` removed, the selection now names `c` |
| Table.ShiftedSelectionFollowsParticipants | frontend/src/components/ParticipantsTable.tsx:151-166 | a selection shifted past the removed position names exactly the participants selected before |
| Placeholders.PlaceTextCases | backend/main.py:576-578 | a missing or zero place prints as nothing, any other place as its decimal numeral |
| Placeholders.ReplaceInOrder | backend/main.py:593-595 | the loop applies the entries in dictionary order |
| Placeholders.ApplySplit | backend/main.py:593-595 | applying a run of entries is applying a prefix of it and then the rest |
| Placeholders.ApplyAbsent | backend/main.py:593-597 | a text in which none of the placeholders occurs comes back unchanged |
| Placeholders.NoBraceUnchanged | backend/main.py:593-597 | a text without `{` comes back unchanged |
| Placeholders.PlaceholderBecomesValue | backend/main.py:593-595 | a text that is one placeholder becomes that entry's value when no earlier placeholder occurs in it and the value has no `{` |
| Placeholders.EmailKeysAreTokens | backend/main.py:562-590 | the e-mail dictionary has 21 `{name}` placeholders |
| Placeholders.EmailKeysDistinct | backend/main.py:562-590 | no e-mail placeholder is listed twice |
| Placeholders.ReplaceEmailPlaceholders | backend/main.py:559-597 | `replace_email_placeholders` applies the 21 entries in order |
| Placeholders.EmailPlaceholderValue | backend/main.py:562-595 | each e-mail placeholder becomes the participant's name, e-mail, role or place text, the event name or the date text |
| Placeholders.EmailWithoutPlaceholders | backend/main.py:593-597 | a text without `{` is returned unchanged |
| Placeholders.ChainedPlaceholder | backend/main.py:593-595 | a value that is a later entry's placeholder is itself replaced |
| Placeholders.EmailChained | backend/main.py:562-595 | a participant named `{email}` turns `{имя}` into the e-mail address |
| Placeholders.TemplateKeysShape | backend/main.py:691-704 | the template dictionary has six `{{name}}` placeholders followed by the six matching `{name}` ones, all distinct |
| Placeholders.FillTemplate | backend/main.py:691-707 | the template loop applies the 12 entries in order |
| Placeholders.DoubleBraceLeavesNoBraces | backend/main.py:691-707 | because the `{{name}}` forms come first, a `{{name}}` token becomes its bare value |
| Placeholders.SingleFirstKeepsBraces | backend/main.py:691-707 | had `{fio}` come first, `{{fio}}` would have kept a pair of braces |
| Text.ReplaceAll | backend/main.py:595 | `str.replace` leaves a text without the pattern unchanged |
| Text.ReplaceEveryOccurrence | backend/main.py:595 | `str.replace` replaces every occurrence of the pattern |
| Text.SplitJoin | frontend/src/pages/MainPage.tsx:230 | splitting a joined text gives back the pieces |
| Accounts.UsersDbShape | backend/main.py:50-94 | every account is filed under its own user name |
| Accounts.VerifyUser | backend/main.py:247-251 | a returned user is the stored record of that name |
| Accounts.VerifyUserIff | backend/main.py:247-251 | login succeeds exactly for a known, enabled account with a matching password |
| Accounts.CurrentUserIsKnown | backend/main.py:254-266 | the caller is always a known account, with that account's organisation |
| Accounts.TokenOfKnownUser | backend/main.py:258-262 | `mock_token_<name>` identifies every account by its own name |
| Accounts.UnknownTokenFallsBack | backend/main.py:258-266 | any other token gives `admin` of `foundation` (so does no token, a case the endpoints never reach because `OAuth2PasswordBearer` refuses it with 401 first) |
| Accounts.OrganizationOfCurrentUser | backend/main.py:420-422 | the organisation the event endpoints look up agrees with the caller's |
| Events.RandomColorInPalette | backend/main.py:236-244 | every drawn colour is one of the 20 palette colours |
| Events.CleanNamesClean | backend/main.py:389-392 | every kept role name is non-blank and already stripped |
| Events.CleanNamesIdempotent | backend/main.py:389-392 | cleaning already cleaned names changes nothing |
| Events.CleanNamesOne | backend/main.py:390 | an empty or whitespace-only name is dropped, any other is kept stripped |
| Events.CreateRolesSpec | backend/main.py:386-394 | the created roles carry exactly the cleaned names in order, role `j` with the colour of the `j`-th draw |
| Events.NormaliseRoles | backend/main.py:384-394 | the loop builds the specified roles, and no roles when none are given |
| Events.ExistingColorsLastWins | backend/main.py:485 | a name maps to the colour of the last role carrying it, and only role names are mapped |
| Events.UpdateRolesSpec | backend/main.py:486-496 | the updated roles carry exactly the cleaned names in order; a name on record keeps its colour, a new one gets that step's draw |
| Events.UpdateWithoutHistoryIsCreate | backend/main.py:386-394 | with no colours on record, updating the roles is creating them |
| Events.ReplaceRoles | backend/main.py:485-498 | the update loop builds the specified roles |
| Events.ApplyUpdate | backend/main.py:478-498 | name and description are overwritten only when given, the roles only when given, and id, organisation and creation time never change |
| Events.EmptyUpdateKeepsEvent | backend/main.py:478-498 | an update that gives nothing leaves the event unchanged |
| Events.ResendKeepsColors | backend/main.py:482-498 | re-sending an event's own clean, distinct role names keeps every colour |
| Events.OrganizationEventsMembers | backend/main.py:427 | the listing holds exactly the stored events of the organisation |
| Events.OrganizationEventsInOrder | backend/main.py:427 | the listing is the store read at the organisation's positions in ascending order: every owned event as often as it is stored, in stored order, and nothing else |
| Events.OrganizationEventsAll | backend/main.py:427 | an organisation owning every event sees them all, in stored order |
| Events.FindEvent | backend/main.py:464 | `next(...)` finds the first event with the id, or none when there is none |
| Events.EventStore.CreateEvent | backend/main.py:366-409 | the new event, under the caller's organisation and with normalised roles, is appended to the store |
| Events.EventStore.UpdateEvent | backend/main.py:451-502 | an unknown id gives 404 and a foreign event 403, both leaving the store unchanged; otherwise the first event with the id is updated in place and returned |
| Events.UpdateStaysListed | backend/main.py:427 | an updated event stays in its organisation's listing |

## Left out

- Reading files (`file.text()`, `file.arrayBuffer()`) and decoding spreadsheets (`XLSX.read`, `sheet_to_json`) are I/O. The model starts from the text and from the grid of cells (`Option<string>` per cell, `None` for an empty cell, which `sheet_to_json` leaves as a hole, or a missing one).
- Ingest.SheetRecordFields: a numeric or boolean cell is taken as its text, so JavaScript truthiness of numbers is not modelled. In the source the number 0 (or `false`) is falsy: a row whose name or e-mail cell holds 0 is skipped, and a place cell holding 0 gives no place. The model reads the text "0", which is truthy, so it keeps that row and parses place 0. A number in the role column likewise arrives as text rather than as a number.
- `localStorage`, toasts, `confirm`, the example-file download and all rendering are I/O or UI. Only the text of the example file is modelled.
- `parseInt` and `localeCompare` are foreign, locale-dependent functions, so they are parameters. The name sort is proved ordered only when `localeCompare` is a total preorder.
- Projection.SortedRowsOrdered: proved only when the comparator is a total preorder on the rows. With `NaN` places the comparator is not one, and ECMAScript leaves the order implementation-defined; the model then gives its insertion-sort order.
- Projection.RoleRanks: `roleOrder` is a plain object, so a role such as `toString` reads an inherited property, not `undefined`. The model ranks every text outside the four roles 0.
- Text.ToLower: lowers exactly A–Z and the Cyrillic capitals U+0400–U+042F. Every other capital is left as it is, including the Latin ones outside A–Z (À–Þ, Ā and the rest), the Kelvin sign U+212A and the other Cyrillic capitals (Ѣ U+0462, Ґ U+0490 and the rest), all of which JavaScript's `toLowerCase` lowers. So a role spelled with such a capital, such as `SPEA\u212AER`, translates in the source but is shown unchanged by the model.
- Language.TranslateRoleUnknown: "in any letter case" is relative to the modelled `ToLower` above; a role that only JavaScript's full case mapping lowers to a map key is covered by this lemma in the model but translated in the source.
- Language: only the role rows of the translation table are modelled. `t` is modelled over any table.
- Table.ParticipantsTable.constructor: `itemsPerPage` must be at least 1; the component's default is 10, and 0 would give infinite pages.
- Table.ParticipantsTable.HandleEdit: requires an index inside the roster. The table only passes positions of rows it shows.
- Table.ParticipantsTable.HandlePageChange: requires a page of at least 1. The buttons only offer pages `1..totalPages`.
- Table.ParticipantsTable: the optional `onUpdate`, `onRemove` and `onRemoveMultiple` props are taken to be present. `HandleSave` and `HandleRemoveMultiple` return what they would hand on.
- Table.ArrayFrom: the positions come out in an unspecified order. The insertion order of a JavaScript `Set` is not modelled.
- Text.ReplaceAll: requires a non-empty pattern. Every placeholder the source replaces is non-empty.
- Events: `random.choice` is the parameter `draw`, and `uuid4()` and `datetime.now()` are parameters. `str(role_name)` of a non-string role is not modelled, because roles arrive as strings.
- Placeholders.FillTemplate: one `today` parameter stands for both `datetime.now()` calls (the `{{issue_date}}` and the `{issue_date}` entries), so the rare case of the two calls falling on different days is not modelled.
- Events.EventStore.UpdateEvent: the 500 error path for unexpected exceptions and the JSON file persistence are left out.
- The remaining endpoints of the backend are I/O: templates, PDF layout, e-mail, zip archives and file storage.

## Findings

| source | as written | input that shows it | evidently intended | confidence | as-written member | corrected member |
|---|---|---|---|---|---|---|
| frontend/src/components/ParticipantsTable.tsx:174-176 | after a bulk removal the page steps back by one only, whatever the number of pages left | 31 rows, 10 per page, on page 4, remove 30: the page becomes 3, but one row makes a single page, so the table is empty and the pagination (shown only for more than one page) is hidden | move to the last page that still exists | high, not executed | Projection.RemovalLeavesEmptyPage | Projection.ClampedPageShowsRows |
| frontend/src/components/ParticipantsTable.tsx:429 | a single-row remove leaves `selectedIndices` untouched, so selected positions then name other participants | roster `[a, b, c]`, `b` selected, remove `a`: position 1 now holds `c`, which a following bulk removal would delete | drop the removed position and shift later ones down | high, not executed | Table.StaleSelectionExample | Table.ShiftedSelectionFollowsParticipants |
| frontend/src/pages/MainPage.tsx:316-318 | the example file quotes every cell, and the CSV reader does not strip quotes | the example line `"Петрова Мария Сергеевна","petrova@example.com","докладчик",""` reads back with quote marks in the name, e-mail and role | an example file the reader reads back as written | high, not executed | Ingest.QuotedLineKeepsQuotes | Ingest.PlainCsvRoundTrip |
