/** The computations of public/library.js: the status and buttons of each row of the book
    table, the search box, and the status and genre selects. */
module LibraryPage {
  import opened Common
  import ServerRules

  /** The latest issue row the server attaches to a book. */
  datatype IssueDetails = IssueDetails(prisonerID: string, issueDate: Option<Date>, returnDate: Option<Date>)

  /** A book as `GET /api/library/books` sends it. */
  datatype Book = Book(bookID: string, title: string, author: string, genre: Option<string>,
                       status: string, issue: Option<IssueDetails>)

  /** The status badge of a row in `renderBookTable`. */
  function RowStatus(b: Book): (r: string)
    ensures r == "issued" <==> b.issue.Some? && b.status == "Issued"
    ensures r == "returned" <==> b.issue.Some? && b.status != "Issued" && b.issue.value.returnDate.Some?
    ensures r == "available" <==> !(b.issue.Some? && (b.status == "Issued" || b.issue.value.returnDate.Some?))
  {
    if b.issue.Some? && b.status == "Issued" then "issued"
    else if b.issue.Some? && b.issue.value.returnDate.Some? then "returned"
    else "available"
  }

  datatype RowButtons = RowButtons(issue: bool, giveBack: bool, edit: bool, delete: bool)

  /** The action buttons of a row: issue only for 'Available' books, return only for
      'Issued' ones; edit and delete always. */
  function Buttons(b: Book): (r: RowButtons)
    ensures r.issue <==> b.status == "Available"
    ensures r.giveBack <==> b.status == "Issued"
    ensures r.edit && r.delete
    ensures !(r.issue && r.giveBack)
  {
    RowButtons(b.status == "Available", b.status == "Issued", true, true)
  }

  /** The book as the server sends it, built from the Library row and the ledger. */
  function FromServer(bookID: string, row: ServerRules.BookRow, issues: seq<ServerRules.IssueRow>): Book {
    var latest := ServerRules.LatestIssue(issues, bookID);
    Book(bookID, row.title, row.author, row.genre, row.status,
         if latest.Some? then Some(IssueDetails(latest.value.prisonerID, latest.value.issueDate, latest.value.returnDate))
         else None)
  }

  /** On a consistent ledger the badge tells the truth: 'issued' exactly for issued books,
      'returned' exactly for other books with an issue history, 'available' for books never
      issued. */
  lemma RowStatusFromLedger(books: map<string, ServerRules.BookRow>, issues: seq<ServerRules.IssueRow>, b: string)
    requires ServerRules.LedgerConsistent(books, issues) && b in books
    ensures var hasHistory := exists i | 0 <= i < |issues| :: issues[i].bookID == b;
            var status := RowStatus(FromServer(b, books[b], issues));
            (status == "issued" <==> books[b].status == "Issued") &&
            (status == "returned" <==> books[b].status != "Issued" && hasHistory) &&
            (status == "available" <==> books[b].status != "Issued" && !hasHistory)
  {
    var latest := ServerRules.LatestIssue(issues, b);
    if books[b].status == "Issued" {
      ServerRules.IssuedIffOpenRow(books, issues, b);
      var r :| r in issues && ServerRules.IsOpenFor(r, b);
      var i :| 0 <= i < |issues| && issues[i] == r;
      assert issues[i].bookID == b;
    } else if latest.Some? {
      ServerRules.AvailableLatestIsReturned(books, issues, b);
    }
  }

  // ---------------------------------------------------------------------------------
  // Search and selects (`filterBooks`, `applyFilters`)

  predicate MatchesSearch(b: Book, lowerTerm: string) {
    Contains(Lower(b.bookID), lowerTerm) || Contains(Lower(b.title), lowerTerm) ||
    Contains(Lower(b.author), lowerTerm) || (b.genre.Some? && Contains(Lower(b.genre.value), lowerTerm))
  }

  /** `filterBooks`: an empty term shows every book; otherwise the books whose ID, title,
      author or genre contains the lower-cased term, in their order. */
  function FilterBooks(all: seq<Book>, term: string): (r: seq<Book>)
    ensures term == "" ==> r == all
    ensures term != "" ==> forall b :: b in r <==> b in all && MatchesSearch(b, Lower(term))
    ensures |r| <= |all|
  {
    if term == "" then all
    else
      FilterMembershipAll(all, (b: Book) => MatchesSearch(b, Lower(term)));
      Filter(all, (b: Book) => MatchesSearch(b, Lower(term)))
  }

  /** The status select: 'available' and 'issued' compare the stored status, 'returned'
      asks for a return date on the latest issue, anything else keeps the book. */
  predicate MatchesStatus(b: Book, select: string) {
    if select == "available" then b.status == "Available"
    else if select == "issued" then b.status == "Issued"
    else if select == "returned" then b.issue.Some? && b.issue.value.returnDate.Some?
    else true
  }

  /** The genre select: case-insensitive equality; a book without genre never matches. */
  predicate MatchesGenre(b: Book, select: string) {
    b.genre.Some? && Lower(b.genre.value) == Lower(select)
  }

  /** `applyFilters`: the status select, then the genre select; an empty select is skipped. */
  function ApplyFilters(all: seq<Book>, status: string, genre: string): seq<Book> {
    var byStatus := if status != "" then Filter(all, (b: Book) => MatchesStatus(b, status)) else all;
    if genre != "" then Filter(byStatus, (b: Book) => MatchesGenre(b, genre)) else byStatus
  }

  predicate Selected(b: Book, status: string, genre: string) {
    (status == "" || MatchesStatus(b, status)) && (genre == "" || MatchesGenre(b, genre))
  }

  /** The two selects together keep, in order, exactly the books both accept. */
  lemma ApplyFiltersIsConjunction(all: seq<Book>, status: string, genre: string)
    ensures ApplyFilters(all, status, genre) == Filter(all, (b: Book) => Selected(b, status, genre))
  {
    var statusOk := (b: Book) => status == "" || MatchesStatus(b, status);
    var genreOk := (b: Book) => genre == "" || MatchesGenre(b, genre);
    var byStatus := if status != "" then Filter(all, (b: Book) => MatchesStatus(b, status)) else all;
    assert byStatus == Filter(all, statusOk) by {
      if status != "" {
        FilterSame(all, (b: Book) => MatchesStatus(b, status), statusOk);
      } else {
        FilterAll(all, statusOk);
      }
    }
    assert ApplyFilters(all, status, genre) == Filter(byStatus, genreOk) by {
      if genre != "" {
        FilterSame(byStatus, (b: Book) => MatchesGenre(b, genre), genreOk);
      } else {
        FilterAll(byStatus, genreOk);
      }
    }
    FilterFilter(all, statusOk, genreOk, (b: Book) => Selected(b, status, genre));
  }

  /** The genre filter is case-insensitive: selecting "FICTION" or "fiction" keeps the same
      books. */
  lemma GenreSelectIgnoresCase(all: seq<Book>, genre: string)
    ensures ApplyFilters(all, "", Lower(genre)) == ApplyFilters(all, "", genre)
  {
    LowerIdempotent(genre);
    assert |Lower(genre)| == |genre|;
    FilterSame(all, (b: Book) => MatchesGenre(b, Lower(genre)), (b: Book) => MatchesGenre(b, genre));
  }

  // ---------------------------------------------------------------------------------
  // Add and edit forms (`addBook`, `updateBook`)

  /** The `genre` the add and edit forms send: the field, or null when it is empty. */
  function FormGenre(field: string): (r: Option<string>)
    ensures r.None? <==> field == ""
    ensures r.Some? ==> r.value == field
  {
    NullIfEmpty(field)
  }

  /** A book saved with an empty genre field is hidden by every genre selection. */
  lemma EmptyGenreNeverSelected(all: seq<Book>, b: Book, genre: string)
    requires b.genre == FormGenre("") && genre != ""
    ensures b !in ApplyFilters(all, "", genre)
  {
    FilterMembership(all, (x: Book) => MatchesGenre(x, genre), b);
  }
}
