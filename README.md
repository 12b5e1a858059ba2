# Prison Management System: a Dafny model

This project models the core of a prison management web application. Its Express
server (`server.js`, and the older copy `server2.js`) keeps prisoners, cells, disciplinary
actions, visitors, call logs, court cases, lawyers, a library with its issue ledger,
work assignments and login credentials in an Oracle database. Its page scripts (`public/*.js`)
filter, page, format and sort what the server sends.

The model has one Dafny module per source file:

- `ServerRules` (server_rules.dfy) holds the rows of the tables and the pure decisions of
  server.js. These are the login decision, the validation of a new prisoner, the Cell
  updates of a prisoner move, the available-cell and available-for-work lists, the latest
  issue of a book and the specialization rows of a work assignment. It also holds the three
  invariants of the data and the lemmas showing which operations keep them:
  - a cell is occupied by `p` iff prisoner `p`'s row names that cell;
  - a book is 'Issued' iff it has exactly one open issue row;
  - every specialization row matches the prisoner's department.
- `Server` (server.dfy) holds the class `Database`, whose fields are the tables (maps keyed
  by primary key, and the issue ledger as a sequence). Each mutating route is a method of
  it. The method runs the route's checks in the route's order and answers with the route's
  status and message. It updates only the tables its `modifies` clause names, and it states
  the whole new state in every case it models. Where the route keeps an invariant, the method ensures
  `old(Inv) ==> Inv`.
- `Server2` (server2.js) holds only the login route, whose successful reply has no role.
  The other routes of server2.js are the same text as in server.js, and the same
  `Server.Database` methods model them (the table cites both files).
- One module per page script: `PrisonersPage`, `LibraryPage`, `DisciplinaryPage`,
  `CasesPage`, `VisitorsPage`, `LawyerPage`, `StaffPage`, `ProfilePage` and `JailInfoPage`.
- `Common` holds the pieces of JavaScript the scripts rely on:
  - `toLowerCase` on ASCII;
  - `includes`;
  - `Array.filter`, with its membership, concatenation, composition and commutation laws;
  - `parseInt` and integer-to-string;
  - `trim` of leading white space;
  - `indexOf(' ')`;
  - dates as (year, month, day).

Where the source mutates in place, the model does too:
- the role tagging of staff.js is a method over arrays;
- so are the highlight loop of jail-info.js, its per-block tallies and its in-place sort.

## Model

| member | source | states |
|---|---|---|
| ServerRules.Authenticate | server.js:21-59 | 400 exactly when the username or the password is empty; 401 'Invalid Username!' exactly for an unknown username; 401 'Invalid Password!' exactly when the password differs from the stored one; 200 'Login successful!' with a role otherwise |
| ServerRules.AdminRoleOnlyForAdmin | server.js:49-53 | a successful login carries role 'admin' iff the username is exactly "admin", and 'user' otherwise |
| Server2.Authenticate | server2.js:21-55 | the same four outcomes as server.js, each as an iff; success is 200 'Login successful!' with no role |
| Server2.SameOutcomeAsServer | server2.js:21-55 | for every request both servers answer with the same status and message; only server.js's successful reply has a role |
| ServerRules.NewPrisonerError | server.js:2268-2282 | 'Missing required fields' iff a required field is missing; an age that is not a number in 18..100 is refused with the age message; accepted otherwise |
| ServerRules.NewPrisonerRow | server.js:2285-2303 | the inserted row copies name, age, gender, crime and date of imprisonment from the request; an empty total_sentence or cellID becomes NULL and a non-empty one is stored as sent |
| ServerRules.FreeCell | server.js:2391-2398 | the cell becomes unoccupied with no prisoner, its block is kept and every other cell is unchanged |
| ServerRules.OccupyCell | server.js:2400-2407 | the cell becomes occupied by the prisoner, its block is kept and every other cell is unchanged |
| ServerRules.MoveCells | server.js:2389-2408 | an unchanged cell leaves Cell untouched; otherwise the old cell is freed, the new one is occupied by the prisoner, and no other cell and no block changes |
| ServerRules.AvailableCells | server.js:2531-2560 | lists exactly the cells whose isOccupied is 0 |
| ServerRules.AvailableIffUnassigned | server.js:2531-2560 | under the occupancy invariant, a cell is listed as available iff no prisoner's row names it |
| ServerRules.MoveKeepsCellsConsistent | server.js:2329-2408 | a prisoner update that passes the occupancy guard keeps "cell c is occupied by p iff p's row names c" |
| ServerRules.ReleaseKeepsCellsConsistent | server.js:2420-2528 | deleting a prisoner and freeing their cell keeps the occupancy invariant |
| ServerRules.CreateKeepsCellsConsistentIff | server.js:2285-2303 | creating a prisoner keeps the occupancy invariant iff the new row names no existing cell |
| ServerRules.CreateLeavesCellFree | server.js:2285-2303 | a concrete creation with free cell C12 leaves C12 unoccupied while the new prisoner's row names it |
| ServerRules.IssuedIffOpenRow | server.js:3232-3344 | under the ledger invariant, a book is 'Issued' iff some issue row of it has no return date |
| ServerRules.CloseOpen | server.js:3327-3337 | the return sets the date on exactly the open rows of the book; every other row is unchanged |
| ServerRules.OpenRowsAppend | server.js:3267-3277 | appending an issue row adds one open row for its book if it is open, and none otherwise |
| ServerRules.OpenRowsClose | server.js:3327-3344 | a return with a date leaves the book no open row and leaves every other book's open rows as they were |
| ServerRules.OpenRowsDrop | server.js:3197-3202 | deleting one book's history leaves every other book's open rows as they were |
| ServerRules.NoRowsNoOpenRows | server.js:3176-3181 | a book with no issue row has no open row |
| ServerRules.CreateBookKeepsLedger | server.js:3061-3104 | adding a new book with status 'Available' keeps the ledger invariant |
| ServerRules.IssueKeepsLedger | server.js:3225-3296 | issuing an available book with an open row and status 'Issued' keeps the ledger invariant |
| ServerRules.ReturnKeepsLedger | server.js:3299-3344 | returning an issued book with a return date keeps the ledger invariant |
| ServerRules.DeleteBookKeepsLedger | server.js:3155-3222 | deleting a book without an open row, with its history, keeps the ledger invariant |
| ServerRules.UpdateBookKeepsLedger | server.js:3107-3152 | editing title, author or genre keeps the ledger invariant |
| ServerRules.ReturnWithoutDateBreaksLedger | server.js:3299-3344 | a return request without a date marks the book 'Available' while its row stays open, which breaks the ledger invariant |
| ServerRules.LatestIssue | server.js:2973-2991 | None iff the book has no issue row; otherwise a row of that book whose issue date is no earlier than any other row of the book |
| ServerRules.IssuedNoEarlierTotal | server.js:2979-2980 | any two rows are ordered one way or the other by issue date |
| ServerRules.IssuedNoEarlierTransitive | server.js:2979-2980 | the running maximum of the loop is no earlier than every row it has passed |
| ServerRules.AvailableLatestIsReturned | server.js:2948-3001 | on a consistent ledger, the latest issue row of a book that is not 'Issued' has a return date |
| ServerRules.Leave | server.js:2907-2926 | afterwards the prisoner has no row in the specialization table of the given department |
| ServerRules.Join | server.js:2825-2844 | Cleaning gets a Cleaning_Labor row with the area, Kitchen a Mess_Labor row, Library a Librarian row, and any other department no row |
| ServerRules.CreateAssignmentKeepsMatch | server.js:2694-2754 | creating an assignment keeps "every specialization row matches the department" |
| ServerRules.UpdateAssignmentKeepsMatch | server.js:2803-2866 | changing or keeping the department keeps the specialization invariant |
| ServerRules.JoinKeepsMatch | server.js:2825-2844 | giving a prisoner without an assignment a department, with its specialization row, keeps the specialization invariant |
| ServerRules.DeleteAssignmentKeepsMatch | server.js:2907-2933 | deleting an assignment and its specialization row keeps the specialization invariant |
| ServerRules.AvailableForWork | server.js:2608-2635 | lists exactly the prisoners without a Prison_Labor row |
| ServerRules.AssignmentAvailability | server.js:2608-2635 | creating an assignment removes exactly that prisoner from the list; deleting it puts them back |
| Server.Database.AddEmployee | server.js:62-103 | 400 with no change when a field is empty; 400 with no change for an existing username; otherwise exactly that pms row is added |
| Server.Database.ChangePassword | server.js:204-232 | success iff a pms row has the username; only that row's password changes; otherwise 200 with success false, the message 'User not found or no changes made' and no change; `server2.js:130-156` has the same route with the same outcomes |
| Server.Database.CreateCase | server.js:1139-1186 | 500 with no change for an empty caseID; 400 with no change for an existing caseID; otherwise the case is inserted with a falsy sentence stored as NULL; 500 when the CASE table is missing; `server2.js:1065-1112` has the same route with the same outcomes |
| Server.Database.DeleteCase | server.js:1188-1222 | 404 with no change for an unknown caseID; otherwise exactly that case is removed; `server2.js:1114-1148` has the same route with the same outcomes |
| Server.Database.CreateLawyer | server.js:1391-1430 | 500 with no change for an empty lawyerID; 400 with no change for a duplicate lawyerID; otherwise exactly that row is added; `server2.js:1317-1356` has the same route with the same outcomes |
| Server.Database.UpdateLawyer | server.js:1433-1474 | 404 with no change for an unknown lawyer; otherwise name and contact are replaced; `server2.js:1359-1400` has the same route with the same outcomes |
| Server.Database.DeleteLawyer | server.js:1477-1525 | 404 for an unknown lawyer; 400 with no change while a case names the lawyer; otherwise exactly that lawyer is removed; `server2.js:1403-1451` has the same route with the same outcomes |
| Server.Database.CreateCallLog | server.js:1604-1646 | 500 with no change for an empty ID; 400 with no change for a duplicate ID; otherwise exactly that row is added |
| Server.Database.UpdateCallLog | server.js:1649-1695 | 404 with no change for an unknown ID; otherwise every column but the prisoner is replaced |
| Server.Database.DeleteCallLog | server.js:1698-1732 | 404 with no change for an unknown ID; otherwise exactly that row is removed |
| Server.Database.CreateDisciplinary | server.js:1811-1851 | 500 with no change for an empty ID; 400 with no change for a duplicate ID; otherwise exactly that row is added |
| Server.Database.UpdateDisciplinary | server.js:1854-1896 | 404 with no change for an unknown ID; otherwise date and reason are replaced and the prisoner is kept |
| Server.Database.DeleteDisciplinary | server.js:1899-1933 | 404 with no change for an unknown ID; otherwise exactly that row is removed |
| Server.Database.CreateVisitor | server.js:2023-2066 | 500 with no change for an empty ID; 400 with no change for a duplicate ID; otherwise the row is added with a missing time stored as 'Not specified' |
| Server.Database.UpdateVisitor | server.js:2069-2115 | 404 with no change for an unknown ID; otherwise the row is replaced with a missing time stored as NULL |
| Server.Database.DeleteVisitor | server.js:2118-2152 | 404 with no change for an unknown ID; otherwise exactly that row is removed |
| Server.Database.CreatePrisoner | server.js:2263-2318 | a refused request answers 400 with the validation message and no change; a duplicate ID gives 500 and no change; otherwise only the Prisoner row is inserted and Cell is never touched |
| Server.Database.UpdatePrisoner | server.js:2321-2417 | 404 for an absent prisoner; 400 with no change when the requested cell is occupied by someone else; otherwise the row is replaced and the Cell updates of the move are applied; the occupancy invariant is kept |
| Server.DeleteDecision | server.js:2420-2507 | the outcome of the delete checks in the route's order: 404 for an unknown prisoner, then a 400 naming the first blocker (disciplinary actions, visitors, call logs, cases when the table exists), then 500 when a work assignment or issue row still references the prisoner, and success otherwise |
| Server.Database.DeletePrisoner | server.js:2420-2528 | 404 for an absent prisoner; 400 with no change naming the first blocker among disciplinary actions, visitors, call logs and (when the table exists) cases; otherwise 500 with no change while a work assignment or an issue row names the prisoner; with none of these the delete succeeds, the row is removed and the cell freed; the occupancy invariant is kept |
| Server.Database.CreateWorkAssignment | server.js:2688-2766 | 404 for an unknown prisoner; 400 for an existing assignment; otherwise the assignment and its specialization row are inserted; the specialization invariant is kept |
| Server.Database.UpdateWorkAssignment | server.js:2769-2879 | 404 for no assignment; otherwise the department is set, the old specialization row moves to the new department and a Cleaning area defaults to 'Not specified'; the invariant is kept |
| Server.Database.DeleteWorkAssignment | server.js:2882-2945 | 404 for no assignment; otherwise the specialization row and the assignment are removed; the invariant is kept |
| Server.Database.LeaveCrew | server.js:2907-2926 | the prisoner's row is deleted from the specialization table of the department and no other row changes |
| Server.Database.JoinCrew | server.js:2825-2844 | the prisoner's row, with its area for Cleaning, is inserted into the specialization table of the department and no other row changes |
| Server.Database.CreateBook | server.js:3061-3104 | 500 with no change for an empty ID; 400 with no change for a duplicate ID; otherwise the book starts 'Available' with an empty genre as NULL; the ledger invariant is kept |
| Server.Database.UpdateBook | server.js:3107-3152 | 404 for an unknown book; otherwise title, author and genre change and the status stays; the ledger invariant is kept |
| Server.Database.DeleteBook | server.js:3155-3222 | 404 for an unknown book; 400 with no change while it has an open row; otherwise the book and its whole issue history are removed; the ledger invariant is kept |
| Server.Database.IssueBook | server.js:3225-3296 | 404 for an unknown book; 400 unless 'Available'; 404 for an unknown prisoner; otherwise one open row is appended and the book becomes 'Issued'; the ledger invariant is kept |
| Server.Database.ReturnBook | server.js:3299-3344 | 404 for an unknown book; 400 unless 'Issued'; otherwise every open row gets the return date and the book becomes 'Available'; with a date, the ledger invariant is kept |
| Server.NoOpenRowsFor | server.js:3183-3195 | when the delete guard finds no open row of the book, the ledger has none |
| PrisonersPage.PageCount | public/prisoners.js:109-113 | the page count is the least r with n <= 6r, that is ceil(n/6) |
| PrisonersPage.PageBounds | public/prisoners.js:109-113 | every page from 1 to the page count holds 1 to 6 items, item i of page p being item (p-1)*6+i of the list |
| PrisonersPage.PagesPrefix | public/prisoners.js:109-113 | the first k pages concatenated are the list's first min(6k, n) items |
| PrisonersPage.PagesCoverAll | public/prisoners.js:109-113 | all pages concatenated are the whole list |
| PrisonersPage.PaginationFor | public/prisoners.js:190-219 | no pagination for an empty list; otherwise one button per page, numbered from 1, and the active page is the requested one |
| PrisonersPage.PaginationControls | public/prisoners.js:216-217 | prev is disabled iff the page is 1; next is disabled iff it is the last page |
| PrisonersPage.ApplyFiltersIsConjunction | public/prisoners.js:261-301 | the filters keep, in order, exactly the prisoners accepted by the search, prison and crime filters together |
| PrisonersPage.FilterPrisoners | public/prisoners.js:244-258 | a non-empty term keeps exactly the prisoners whose ID, name or crime contains it; an empty term defers to the selects |
| PrisonersPage.CrimeCategoryExamples | public/prisoners.js:287-299 | murder counts as felony; theft counts as misdemeanor and not felony; trespass counts as infraction |
| PrisonersPage.ValidateNewPrisoner | public/prisoners.js:559-583 | a request is sent iff all required fields are non-empty and the parsed age is in 18..100; an empty sentence or cell becomes null |
| PrisonersPage.FormRequestPassesServer | public/prisoners.js:559-583 | every request the form sends passes the server's validation of a new prisoner |
| PrisonersPage.EditCellOptions | public/prisoners.js:765-782 | the current cell comes first, followed by the other available cells; a cell is listed iff it is current or available |
| PrisonersPage.CurrentCellOnce | public/prisoners.js:765-782 | the current cell is listed exactly once |
| LibraryPage.RowStatus | public/library.js:127-138 | 'issued' iff there are issue details and the book is 'Issued'; 'returned' iff there are details, the book is not 'Issued' and there is a return date; 'available' otherwise |
| LibraryPage.Buttons | public/library.js:152-156 | issue button iff 'Available', return button iff 'Issued', never both; edit and delete always |
| LibraryPage.RowStatusFromLedger | public/library.js:127-138 | on a consistent ledger the badge is 'issued' iff the book is issued, 'returned' iff it is not issued but has history, 'available' iff it has none |
| LibraryPage.FilterBooks | public/library.js:209-224 | an empty term shows all books; otherwise exactly the books whose ID, title, author or genre contains the lower-cased term |
| LibraryPage.ApplyFiltersIsConjunction | public/library.js:227-253 | the status and genre selects keep, in order, exactly the books both accept |
| LibraryPage.GenreSelectIgnoresCase | public/library.js:245-250 | the genre select gives the same books for a genre and its lower-cased form |
| LibraryPage.FormGenre | public/library.js:341 | the add form sends null exactly for an empty genre field, and the field otherwise; the edit form (`public/library.js:471`) sends the genre by the same rule |
| LibraryPage.EmptyGenreNeverSelected | public/library.js:245-250 | a book saved with an empty genre is hidden by every genre selection |
| DisciplinaryPage.ApplyIsConjunction | public/disciplinary.js:230-287 | the chain keeps, in order, exactly the actions accepted by every active filter |
| DisciplinaryPage.ApplyAllOrderIndependent | public/disciplinary.js:230-287 | applying date, violation and search in the reverse order gives the same list |
| DisciplinaryPage.ClearingReappliesOthers | public/disciplinary.js:290-415 | clearing a control shows the actions that satisfy the other two |
| DisciplinaryPage.SearchIgnoresOtherControls | public/disciplinary.js:157-173 | a non-empty search shows exactly the actions matching it, whatever the violation and date selections |
| DisciplinaryPage.ApplyAllNarrowsEachFilter | public/disciplinary.js:230-287 | an action kept by all filters is kept by each single-control handler |
| CasesPage.SentenceText | public/cases.js:115 | 'TBD' iff the sentence is absent or 0; otherwise a text whose number is the sentence |
| CasesPage.StatusLabel | public/cases.js:149 | same length, first character upper-cased, rest unchanged, equal to the status ignoring case |
| CasesPage.BothHandlersShowSelected | public/cases.js:176-247 | both the search handler and the status handler show, in order, the cases satisfying both filters |
| CasesPage.NewCaseSentence | public/cases.js:397 | an empty field gives null; a number is only produced from a field containing a digit |
| CasesPage.SentenceFormToCard | public/cases.js:397 | a sentence typed as a number is sent as that number, and the card shows it, or 'TBD' for 0 |
| VisitorsPage.BeforeColon | public/visitors.js:166-168 | the longest colon-free prefix of the text |
| VisitorsPage.AfterColon | public/visitors.js:166-168 | the text is the prefix, a colon and this rest |
| VisitorsPage.Meridiem | public/visitors.js:175 | 'PM' iff the hour is at least 12, else 'AM' |
| VisitorsPage.JsMod12 | public/visitors.js:176 | JavaScript's truncating remainder by 12 |
| VisitorsPage.Hour12 | public/visitors.js:176-177 | hours 0..23 are shown as 1..12, congruent to the hour mod 12, with 0 shown as 12 |
| VisitorsPage.MinutesText | public/visitors.js:178 | minutes below 10 get a leading '0'; the text parses back to the minutes |
| VisitorsPage.FormatTime | public/visitors.js:150-181 | 'N/A' for a missing time; a text without ':' is unchanged; otherwise the hour and minutes on a 12-hour clock |
| VisitorsPage.TwoDigitsValue | public/visitors.js:166-168 | the two digits parse back to the number |
| VisitorsPage.DatabaseTimeShownOnTwelveHourClock | public/visitors.js:150-181 | a stored HH:MM:SS time is shown as its 12-hour hour, two-digit minutes and suffix |
| VisitorsPage.FilterButtonIsConjunction | public/visitors.js:239-277 | the filter button keeps exactly the visitors matching both the search and the date |
| VisitorsPage.HandlersAgreeWithButton | public/visitors.js:184-236 | with at most one control set, every handler shows what the button shows; otherwise the button's list is within each handler's |
| LawyerPage.FormatPhone | public/lawyer.js:146-161 | 'N/A' for an empty number; unchanged when it contains a space, '-' or '+'; 10 characters become XXX-XXX-XXXX; other lengths unchanged |
| LawyerPage.FormatPhoneIdempotent | public/lawyer.js:149-160 | formatting twice equals formatting once |
| LawyerPage.Capitalize | public/lawyer.js:559-562 | '' for null or empty; otherwise same length with the first character upper-cased and the rest kept |
| LawyerPage.ModalStatusMatchesCaseCard | public/lawyer.js:500 | the details modal labels a status as the case cards do |
| LawyerPage.FilterLawyers | public/lawyer.js:164-177 | an empty term shows all lawyers; otherwise exactly those whose ID, name or contact contains the term |
| StaffPage.WithRole | public/staff.js:83-86 | every record keeps its fields and gets the role |
| StaffPage.TagRole | public/staff.js:83-86 | the array afterwards holds the records tagged with the role |
| StaffPage.FetchAllStaffData | public/staff.js:53-106 | the four lists are tagged Warden, Chief Jailor, Jailor and Guard and concatenated in that order |
| StaffPage.AllStaffInFetchOrder | public/staff.js:83-89 | the concatenation has each list in its place, each record with its role |
| StaffPage.YearsOfExperience | public/staff.js:846-858 | the number of whole anniversaries of joining up to today |
| StaffPage.YearsOfExperienceBounds | public/staff.js:846-858 | non-negative when joining is not after today, and never decreasing as today advances |
| StaffPage.DisplayedYears | public/staff.js:909 | the stored experience when it is truthy, else the computed one |
| StaffPage.FilterStaffBySearch | public/staff.js:967-985 | an empty term shows all staff; otherwise exactly those whose name, ID or role contains the lower-cased term |
| StaffPage.SearchByRoleFindsList | public/staff.js:967-985 | searching "jailor" finds every jailor record |
| StaffPage.DetailsFor | public/staff.js:306-319 | details are fetched exactly for the keys warden, chiefJailor, jailor and guard |
| StaffPage.DetailsForKeys | public/staff.js:306-319 | the four case keys select their details; 'chiefjailor' selects none |
| StaffPage.ChiefJailorCardFetchesNothing | public/staff.js:954 | the Chief Jailor card's key is 'chiefjailor', which fetches no details; the other three roles fetch theirs |
| StaffPage.CamelKey | public/staff.js:306-319 | a one-word role's key is the role lower-cased |
| StaffPage.EveryCardFetchesItsDetails | public/staff.js:306-319 | with the key the switch expects, each of the four cards fetches its own details |
| StaffPage.CardDetails | public/staff.js:306-319 | the Chief Jailor card fetches the chief jailor details |
| ProfilePage.DetermineRole | public/profile.js:136-152 | null iff the ID is empty; 'clerk' iff the ID is exactly "C"; 'chief jailor' iff it starts with "CJ"; W gives warden, J jailor, G guard and T technician; any other first letter, or 'C' followed by anything but 'J', gives employee |
| ProfilePage.ProfileEndpoint | public/profile.js:31-63 | redirect iff there is no username; admin uses the admin endpoint; the upper-cased first letter W, J or G picks the warden, jailor or guard endpoint; C picks chief-jailor for "CJ" and clerk otherwise; other letters use the employee endpoint |
| ProfilePage.ClerkEndpointButEmployeeRole | public/profile.js:139-148 | an ID such as "C7" loads the clerk profile but is labelled employee |
| ProfilePage.SplitSpaces | public/profile.js:157-160 | splitting on ' ' gives at least one word, none containing a space |
| ProfilePage.SplitJoin | public/profile.js:157-160 | splitting a join of space-free words gives back the words |
| ProfilePage.CapitalizeWord | public/profile.js:158-159 | same length, and no space is introduced |
| ProfilePage.CapitalizeWords | public/profile.js:158-159 | each word is capitalized in place |
| ProfilePage.FormatRoleName | public/profile.js:155-161 | 'Employee' for a missing role |
| ProfilePage.FormatRoleNameWords | public/profile.js:155-161 | the words of the result are the role's words, each capitalized |
| ProfilePage.CapitalizeWordIdempotent | public/profile.js:158-159 | capitalizing a word twice equals capitalizing it once |
| ProfilePage.FormatRoleNameIdempotent | public/profile.js:155-161 | formatting a role name twice equals formatting it once |
| ProfilePage.FormatGender | public/profile.js:164-172 | 'Not specified' for empty, M gives Male, F gives Female, anything else is unchanged |
| ProfilePage.FormatGenderIdempotent | public/profile.js:164-172 | formatting twice equals formatting once |
| ProfilePage.RemoveSpaces | public/profile.js:398 | the contact without white space |
| ProfilePage.ValidateProfileData | public/profile.js:395-416 | the phone message iff the spaceless contact is not an optional '+' and 10-15 digits; the age message iff the phone is fine and the parsed age is below 18 or above 70; the salary message iff only the salary is blank; accepted iff all hold |
| ProfilePage.ContactSpacingIgnored | public/profile.js:397-398 | white space inside the contact does not change the phone check |
| JailInfoPage.Highlight | public/jail-info.js:89-94 | exactly the cards with the chosen jailId are selected; ids are kept |
| JailInfoPage.SelectJail | public/jail-info.js:85-121 | the cards afterwards are the highlighted cards |
| JailInfoPage.AtMostOneHighlighted | public/jail-info.js:89-94 | with distinct jail ids, at most one card is selected |
| JailInfoPage.BlockCells | public/jail-info.js:242 | exactly the cells whose blockID is the chosen block |
| JailInfoPage.OccupancyRate | public/jail-info.js:157-159 | 0 for a block without cells, else the occupied percentage rounded half up, within 0..100 |
| JailInfoPage.RoundingBounds | public/jail-info.js:157-159 | the half-up rounding lies within half a percent of the exact rate and in 0..100 |
| JailInfoPage.Tally | public/jail-info.js:152-160 | keeps the block's identity; totalCells counts the block's cells and occupiedCells its occupied ones; the rate is the rounded percentage of the two, in 0..100 |
| JailInfoPage.Tallied | public/jail-info.js:152-160 | each block is replaced by its tally |
| JailInfoPage.TallyBlocks | public/jail-info.js:152-160 | the array afterwards holds the tallied blocks |
| JailInfoPage.StatusClass | public/jail-info.js:191-196 | status-full iff the rate is at least 90, status-high iff 70..89, status-normal iff below 70 |
| JailInfoPage.StatusOfTally | public/jail-info.js:191-196 | a tallied block whose cells are all occupied shows 'status-full'; a block without cells shows 'status-normal' |
| JailInfoPage.NameLeTotal | public/jail-info.js:227 | any two names are ordered one way or the other |
| JailInfoPage.NameLeTransitive | public/jail-info.js:227 | the name order is transitive |
| JailInfoPage.OrdersArePreorders | public/jail-info.js:224-236 | the name, capacity and occupancy comparators are total preorders |
| JailInfoPage.SortBy | public/jail-info.js:224-236 | the array ends sorted by the comparator and is a permutation of its old contents |
| JailInfoPage.Insert | public/jail-info.js:224-236 | one insertion pass leaves the prefix through the new element sorted and the array a permutation of its old contents |
| JailInfoPage.SortBlocks | public/jail-info.js:224-238 | sorted by the criterion when it is known; unchanged for an unknown criterion; always a permutation |

## Left out

- The Oracle connection, the driver's bind formats and its error text are not modelled. A failing
  statement is a 500 reply whose message is the route's prefix ("Database Error", or "Error
  adding prisoner" for a new prisoner). The model produces it for a missing CASE table, an
  empty ID on a create route, a duplicate prisoner key, and the foreign keys from the labor
  and issue tables on prisoner delete. Other driver failures (a lost connection, a NOT NULL
  or foreign key constraint of the schema on another column) are not modelled.
- Server.Database.UpdatePrisoner: the age is taken as an integer, as the route stores it.
- `TO_DATE`, `FETCH FIRST` and the `user_tables` probe: dates are (year, month, day) values,
  and the existence of the CASE table is a boolean of the database.
- Oracle stores '' as NULL. The model reflects this for an empty ID on the create routes of
  cases, lawyers, call logs, disciplinary actions, visitors and books (500, no change), and for
  the columns the routes themselves null out. Other columns are stored as sent.
- ServerRules.NewPrisonerError: the age is an integer (`AgeNumber`) or a string, so a fractional
  age is not represented; the route refuses 17.5 and accepts 50.5.
- Server.Database.CreatePrisoner: as for NewPrisonerError, a fractional age is not represented.
- The foreign keys of a case to its prisoner and lawyer are not checked.
- An insert into a specialization table on an existing key overwrites the row. This can only
  happen when the specialization invariant already fails.
- Transactions, autocommit order and crash windows between statements: each route is one
  sequential step. Concurrent requests are out of scope.
- ServerRules.LatestIssue: of rows with equal issue dates the first in the ledger is taken.
  Oracle's order among ties is unspecified.
- The read-only GET routes only reshape rows, and they are not modelled. Exceptions are the
  available cells, the available-for-work list and the latest issue per book.
- JavaScript date parsing, time zones and locale formatting: dates arrive as (year, month, day)
  and "today" is a parameter.
- JailInfoPage.SortBy: the result is sorted and a permutation; the stability of `Array.prototype.sort` (equal blocks keep their order) is not stated.
- JailInfoPage.NameLeTotal: `localeCompare` is modelled as code-point lexicographic order.
- `toLowerCase`, `\s` and `trim` are modelled on ASCII only.
- JailInfoPage.OccupancyRate: floating point is replaced by exact half-up rounding.
- Rendering, modals, notifications, fetch calls and event wiring of every page are not
  modelled. So are the `currentJailId` state of jail-info.js, the jailor fetch of its
  `displayBlocks`, and the placeholder `editStaffMember` of staff.js.
- The sentence line of the lawyer details modal (public/lawyer.js:501) follows the
  same rule as the case cards. CasesPage.SentenceText models both.
- The disciplinary and visitor controls are given already lower-cased, as the scripts read them.
- public/call-logs.js, public/work-assigned.js, public/dashboard.js, public/main.js,
  public/login.js and the root login.js, dashboard.js, db.js, dbtest.js and zaza.js are
  not part of this model.
- `parseFloat` of the salary on profile update, and the dashboard percentage, are floating
  point and are not modelled.

## Findings

| source | as written | input that shows it | evidently intended | confidence | as-written member | corrected member |
|---|---|---|---|---|---|---|
| public/staff.js:954 | the card's view key is the role lower-cased with its first space removed, so Chief Jailor gets 'chiefjailor', while the switch at 306-319 tests 'chiefJailor' | a staff record with role 'Chief Jailor' | the Chief Jailor card opens the chief jailor's details | not executed | StaffPage.ChiefJailorCardFetchesNothing | StaffPage.EveryCardFetchesItsDetails |
