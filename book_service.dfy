/**
  BookServiceImpl: the catalogue. A book is keyed by its (title, author) pair for save and by its
  id for find, delete and update; getDistinctBookTitlesAndAmount counts the borrowed rows per title.

  As in MemberService, each store operation is a pure step function and a method on the Database
  proved to agree with it.
 */
module BookService {
  import opened Wrappers
  import opened Entities
  import opened Store

  /** Inserting a new row under the next id the IDENTITY column hands out. */
  function Insert(s: LibraryState, book: Book): Step<Book> {
    Step(Ok(book), s.(books := s.books[s.nextBookId := book], nextBookId := s.nextBookId + 1))
  }

  /**
    save: the stored amount of the pair, 0 when there is no row, decides. Only a non-zero amount
    makes the new entity take over the stored id; otherwise a new row is inserted. Either way the
    saved amount is the stored one plus one.
   */
  function SaveStep(s: LibraryState, request: BookRequest): (r: Step<Book>)
    ensures r.result.Err? ==> r.after == s
    ensures r.after.members == s.members
  {
    match FindByAuthorAndTitle(s.books, request.title, request.author)
    case Ambiguous => Step(Err(NonUniqueResult), s)
    case NoMatch => Insert(s, Book(request.title, request.author, 1))
    case Unique(id) =>
      var amount := s.books[id].amount;
      if amount != 0 then
        var book := Book(request.title, request.author, amount + 1);
        Step(Ok(book), s.(books := s.books[id := book]))
      else Insert(s, Book(request.title, request.author, 1))
  }

  /** deleteById: refused while some member holds the book; an absent id deletes nothing. */
  function DeleteByIdStep(s: LibraryState, id: BookId): (r: Step<()>)
    ensures r.result.Err? ==> r.after == s
    ensures r.after.members == s.members
  {
    if AreBookBorrowed(s.members, id) then Step(Err(DataProcessing), s)
    else Step(Ok(()), s.(books := s.books - {id}))
  }

  /**
    updateById: the book under the same id takes title and author from the request and keeps its
    amount (BookServiceImpl.updateById drops it; see UpdateByIdAsWritten).
   */
  function UpdateByIdStep(s: LibraryState, id: BookId, request: BookRequest): (r: Step<Book>)
    ensures r.result.Err? ==> r.after == s
    ensures r.after.members == s.members
  {
    if id !in s.books then Step(Err(NotFound), s)
    else
      var book := Book(request.title, request.author, s.books[id].amount);
      Step(Ok(book), s.(books := s.books[id := book]))
  }

  /** A books row as the store holds it: the amount column may be null. */
  datatype BookRow = BookRow(title: string, author: string, amount: Option<int>)

  /**
    updateById as written: the mapper builds a fresh entity from the request, which has no amount,
    and saving it under the stored id overwrites the row with a null amount.
   */
  function UpdateByIdAsWritten(books: map<BookId, Book>, id: BookId, request: BookRequest): (r: Result<BookRow>)
    ensures r.Err? <==> id !in books
    ensures r.Ok? ==> r.value.title == request.title && r.value.author == request.author
  {
    if id !in books then Err(NotFound)
    else Ok(BookRow(request.title, request.author, None))
  }

  /**
    The update as written loses the amount of every book it touches: the row no longer says how
    many copies are on the shelf, and the next borrowBook of it unboxes a null amount.
   */
  lemma UpdateAsWrittenLosesAmount(books: map<BookId, Book>, id: BookId, request: BookRequest)
    requires id in books
    ensures UpdateByIdAsWritten(books, id, request).Ok?
    ensures UpdateByIdAsWritten(books, id, request).value.amount != Some(books[id].amount)
  {
  }

  /** The corrected update keeps what the stored row says about copies. */
  lemma UpdateKeepsAmount(s: LibraryState, id: BookId, request: BookRequest)
    requires id in s.books
    ensures UpdateByIdStep(s, id, request).result.Ok?
    ensures UpdateByIdStep(s, id, request).after.books[id].amount == s.books[id].amount
  {
  }

  // ---------------------------------------------------------------------------------------------
  // Properties of the step functions

  /**
    The cases of save. A pair stored more than once is refused by the single-result query. A new
    pair is a new book with amount 1. A stored pair with amount n != 0 keeps its id and gets
    n + 1. A stored pair with amount 0 is not reused: a second row with amount 1 is inserted.
    Members and loans are untouched, and the store stays consistent.
   */
  lemma SaveCases(s: LibraryState, request: BookRequest)
    requires Consistent(s)
    ensures var step := SaveStep(s, request);
      var ids := MatchingIds(s.books, request.title, request.author);
      && (|ids| > 1 ==> step == Step(Err(NonUniqueResult), s))
      && (ids == {} ==>
            && step.result == Ok(Book(request.title, request.author, 1))
            && s.nextBookId !in s.books
            && step.after.books == s.books[s.nextBookId := Book(request.title, request.author, 1)]
            && step.after.nextBookId == s.nextBookId + 1)
      && (forall id :: ids == {id} && s.books[id].amount != 0 ==>
            && step.result == Ok(Book(request.title, request.author, s.books[id].amount + 1))
            && step.after.books == s.books[id := step.result.value]
            && step.after.nextBookId == s.nextBookId)
      && (forall id :: ids == {id} && s.books[id].amount == 0 ==>
            && step.result == Ok(Book(request.title, request.author, 1))
            && s.nextBookId !in s.books && s.nextBookId != id
            && step.after.books == s.books[s.nextBookId := step.result.value]
            && step.after.nextBookId == s.nextBookId + 1)
      && step.after.members == s.members && step.after.nextMemberId == s.nextMemberId
      && Consistent(step.after)
      && forall b :: Loans(step.after, b) == Loans(s, b)
  {
    var step := SaveStep(s, request);
    LoansOfBooksChange(s, step.after);
    forall id | MatchingIds(s.books, request.title, request.author) == {id}
      ensures FindByAuthorAndTitle(s.books, request.title, request.author) == Unique(id)
    {
      assert id in MatchingIds(s.books, request.title, request.author);
    }
  }

  /**
    Saving a pair whose only row has amount 0 leaves the pair stored twice, after which every
    single-result lookup of it, and so the next save of it, is refused.
   */
  lemma SaveOverExhaustedPairDuplicates(s: LibraryState, request: BookRequest, id: BookId)
    requires Consistent(s)
    requires MatchingIds(s.books, request.title, request.author) == {id}
    requires s.books[id].amount == 0
    ensures var t := SaveStep(s, request).after;
      && MatchingIds(t.books, request.title, request.author) == {id, s.nextBookId}
      && FindByAuthorAndTitle(t.books, request.title, request.author) == Ambiguous
      && SaveStep(t, request).result == Err(NonUniqueResult)
  {
    assert id in MatchingIds(s.books, request.title, request.author);
    var t := SaveStep(s, request).after;
    assert t.books == s.books[s.nextBookId := Book(request.title, request.author, 1)];
    var ids := MatchingIds(t.books, request.title, request.author);
    assert ids == {id, s.nextBookId};
    assert id != s.nextBookId;
    assert |ids| == 2;
  }

  /** A successful merge adds one copy to the stored book; nothing is lost. */
  lemma SaveAddsOneCopy(s: LibraryState, request: BookRequest, id: BookId)
    requires Consistent(s)
    requires MatchingIds(s.books, request.title, request.author) == {id}
    requires s.books[id].amount != 0
    ensures var t := SaveStep(s, request).after;
      && id in t.books && t.books.Keys == s.books.Keys
      && Copies(t, id) == Copies(s, id) + 1
      && forall b :: b in s.books && b != id ==> t.books[b] == s.books[b] && Copies(t, b) == Copies(s, b)
  {
    SaveCases(s, request);
  }

  /**
    deleteById succeeds exactly when the book has no loan, and then removes only that book;
    otherwise it fails with DataProcessing and changes nothing.
   */
  lemma DeleteByIdRules(s: LibraryState, id: BookId)
    requires Consistent(s)
    ensures var step := DeleteByIdStep(s, id);
      && (step.result.Ok? <==> Loans(s, id) == 0)
      && (step.result.Err? ==> step == Step(Err(DataProcessing), s))
      && (step.result.Ok? ==> step.after == s.(books := s.books - {id}))
      && Consistent(step.after)
      && forall b :: b in step.after.books ==> b in s.books && Copies(step.after, b) == Copies(s, b)
  {
    BorrowedIffLoaned(s, id);
    LoansOfBooksChange(s, DeleteByIdStep(s, id).after);
  }

  /**
    updateById fails with NotFound on an absent id; otherwise the book keeps its id and amount and
    takes title and author from the request, and no other book changes.
   */
  lemma UpdateByIdRules(s: LibraryState, id: BookId, request: BookRequest)
    requires Consistent(s)
    ensures var step := UpdateByIdStep(s, id, request);
      && (id !in s.books ==> step == Step(Err(NotFound), s))
      && (id in s.books ==>
            && step.result.Ok?
            && step.after.books == s.books[id := step.result.value]
            && step.result.value.title == request.title
            && step.result.value.author == request.author
            && step.result.value.amount == s.books[id].amount
            && Copies(step.after, id) == Copies(s, id))
      && step.after.members == s.members
      && Consistent(step.after)
  {
    LoansOfBooksChange(s, UpdateByIdStep(s, id, request).after);
  }

  // ---------------------------------------------------------------------------------------------
  // getDistinctBookTitlesAndAmount

  /** The number of rows carrying title t. */
  function CountTitle(rows: seq<Book>, t: string): (n: nat)
    ensures n <= |rows|
    ensures n == 0 <==> forall i :: 0 <= i < |rows| ==> rows[i].title != t
  {
    if rows == [] then 0
    else
      assert forall i :: 1 <= i < |rows| ==> rows[i] == rows[1..][i - 1];
      (if rows[0].title == t then 1 else 0) + CountTitle(rows[1..], t)
  }

  /** The titles the rows carry. */
  function TitlesOf(rows: seq<Book>): set<string> {
    set i | 0 <= i < |rows| :: rows[i].title
  }

  lemma TitlesOfCons(rows: seq<Book>)
    requires rows != []
    ensures TitlesOf(rows) == {rows[0].title} + TitlesOf(rows[1..])
  {
    forall t | t in TitlesOf(rows) ensures t in {rows[0].title} + TitlesOf(rows[1..]) {
      var i :| 0 <= i < |rows| && rows[i].title == t;
      if i > 0 {
        assert rows[1..][i - 1].title == t;
      }
    }
  }

  /**
    The groupingBy(title, counting()) collector: one key per title in the rows, mapped to how many
    rows carry it.
   */
  function GroupByTitle(rows: seq<Book>): (m: map<string, nat>)
    ensures m.Keys == TitlesOf(rows)
    ensures forall t :: t in m ==> m[t] == CountTitle(rows, t) && m[t] > 0
  {
    if rows == [] then map[]
    else
      var m := GroupByTitle(rows[1..]);
      var t := rows[0].title;
      TitlesOfCons(rows);
      m[t := (if t in m then m[t] else 0) + 1]
  }

  function InfoTitles(infos: seq<ShowBookInfo>): set<string> {
    set i | 0 <= i < |infos| :: infos[i].title
  }

  predicate DistinctTitles(infos: seq<ShowBookInfo>) {
    forall i, j :: 0 <= i < j < |infos| ==> infos[i].title != infos[j].title
  }

  function SumAmounts(infos: seq<ShowBookInfo>): int {
    if infos == [] then 0 else infos[0].amount + SumAmounts(infos[1..])
  }

  /** The rows carrying any of the entries' titles, counted entry by entry. */
  function CountAll(rows: seq<Book>, infos: seq<ShowBookInfo>): nat {
    if infos == [] then 0 else CountTitle(rows, infos[0].title) + CountAll(rows, infos[1..])
  }

  /** How many entries carry title t. */
  function TitleHits(infos: seq<ShowBookInfo>, t: string): nat {
    if infos == [] then 0 else (if infos[0].title == t then 1 else 0) + TitleHits(infos[1..], t)
  }

  lemma {:induction false} SumIsCountAll(rows: seq<Book>, infos: seq<ShowBookInfo>)
    requires forall i :: 0 <= i < |infos| ==> infos[i].amount == CountTitle(rows, infos[i].title)
    ensures SumAmounts(infos) == CountAll(rows, infos)
  {
    if infos != [] {
      assert forall i :: 1 <= i < |infos| ==> infos[1..][i - 1] == infos[i];
      SumIsCountAll(rows, infos[1..]);
    }
  }

  lemma {:induction false} CountAllCons(rows: seq<Book>, infos: seq<ShowBookInfo>)
    requires rows != []
    ensures CountAll(rows, infos) == TitleHits(infos, rows[0].title) + CountAll(rows[1..], infos)
  {
    if infos != [] {
      CountAllCons(rows, infos[1..]);
    }
  }

  lemma {:induction false} DistinctHitOnce(infos: seq<ShowBookInfo>, t: string)
    requires DistinctTitles(infos)
    ensures TitleHits(infos, t) == (if t in InfoTitles(infos) then 1 else 0)
  {
    if infos != [] {
      var rest := infos[1..];
      assert forall i, j :: 0 <= i < j < |rest| ==> rest[i] == infos[i + 1] && rest[j] == infos[j + 1];
      DistinctHitOnce(rest, t);
      assert InfoTitles(infos) == {infos[0].title} + InfoTitles(rest) by {
        forall x | x in InfoTitles(infos) ensures x in {infos[0].title} + InfoTitles(rest) {
          var i :| 0 <= i < |infos| && infos[i].title == x;
          if i > 0 { assert rest[i - 1].title == x; }
        }
        forall x | x in InfoTitles(rest) ensures x in InfoTitles(infos) {
          var i :| 0 <= i < |rest| && rest[i].title == x;
          assert infos[i + 1].title == x;
        }
      }
      if infos[0].title == t {
        assert t !in InfoTitles(rest) by {
          forall i | 0 <= i < |rest| ensures rest[i].title != t {
            assert infos[0].title != infos[i + 1].title;
          }
        }
      }
    }
  }

  /** Distinct entries covering every row's title count every row exactly once. */
  lemma {:induction false} CountAllIsLength(rows: seq<Book>, infos: seq<ShowBookInfo>)
    requires DistinctTitles(infos)
    requires TitlesOf(rows) <= InfoTitles(infos)
    ensures CountAll(rows, infos) == |rows|
  {
    if rows == [] {
      CountAllEmpty(infos);
    } else {
      TitlesOfCons(rows);
      CountAllCons(rows, infos);
      DistinctHitOnce(infos, rows[0].title);
      CountAllIsLength(rows[1..], infos);
    }
  }

  lemma {:induction false} CountAllEmpty(infos: seq<ShowBookInfo>)
    ensures CountAll([], infos) == 0
  {
    if infos != [] {
      CountAllEmpty(infos[1..]);
    }
  }

  /** Every entry carries the number of rows with its title, and that number is positive. */
  predicate Counted(rows: seq<Book>, infos: seq<ShowBookInfo>) {
    forall i :: 0 <= i < |infos| ==> infos[i].amount == CountTitle(rows, infos[i].title) > 0
  }

  /**
    Appending a correctly counted entry with a new title keeps the entries distinct and counted,
    and adds that title.
   */
  lemma AppendInfo(rows: seq<Book>, infos: seq<ShowBookInfo>, info: ShowBookInfo)
    requires DistinctTitles(infos) && info.title !in InfoTitles(infos)
    requires Counted(rows, infos) && info.amount == CountTitle(rows, info.title) > 0
    ensures DistinctTitles(infos + [info])
    ensures InfoTitles(infos + [info]) == InfoTitles(infos) + {info.title}
    ensures Counted(rows, infos + [info])
  {
    var longer := infos + [info];
    assert longer[|infos|].title == info.title;
    forall x | x in InfoTitles(longer) ensures x in InfoTitles(infos) + {info.title} {
      var i :| 0 <= i < |longer| && longer[i].title == x;
      if i < |infos| { assert infos[i].title == x; }
    }
    forall x | x in InfoTitles(infos) ensures x in InfoTitles(longer) {
      var i :| 0 <= i < |infos| && infos[i].title == x;
      assert longer[i].title == x;
    }
    forall i, j | 0 <= i < j < |longer| ensures longer[i].title != longer[j].title {
      if j == |infos| {
        assert infos[i].title in InfoTitles(infos);
      }
    }
  }

  /**
    getDistinctBookTitlesAndAmount over a fetched page of borrowed rows: one entry per distinct
    title, no title twice, each with the number of rows that carry it; the amounts add up to the
    number of rows. The entries come in the map's iteration order, which is left unspecified.
   */
  method GetDistinctBookTitlesAndAmount(rows: seq<Book>) returns (infos: seq<ShowBookInfo>)
    ensures DistinctTitles(infos)
    ensures InfoTitles(infos) == TitlesOf(rows)
    ensures Counted(rows, infos)
    ensures SumAmounts(infos) == |rows|
  {
    var bookInfo := GroupByTitle(rows);
    infos := [];
    var pending := bookInfo.Keys;
    while pending != {}
      invariant pending <= bookInfo.Keys
      invariant InfoTitles(infos) + pending == bookInfo.Keys
      invariant InfoTitles(infos) !! pending
      invariant DistinctTitles(infos)
      invariant Counted(rows, infos)
      decreases pending
    {
      var title :| title in pending;
      AppendInfo(rows, infos, ShowBookInfo(title, bookInfo[title]));
      infos := infos + [ShowBookInfo(title, bookInfo[title])];
      pending := pending - {title};
    }
    CountedSumsToLength(rows, infos);
  }

  /** Distinct, counted entries covering the rows' titles account for every row exactly once. */
  lemma CountedSumsToLength(rows: seq<Book>, infos: seq<ShowBookInfo>)
    requires DistinctTitles(infos) && InfoTitles(infos) == TitlesOf(rows) && Counted(rows, infos)
    ensures SumAmounts(infos) == |rows|
  {
    SumIsCountAll(rows, infos);
    CountAllIsLength(rows, infos);
  }

  /**
    The borrowed rows of BookServiceImplTest.getDistinctBookTitlesAndAmount_validCase: "A book"
    twice, "A book 2" and "A book 3" once.
   */
  function ExampleRows(): seq<Book> {
    [Book("A book", "An author", 3), Book("A book 2", "An author 2", 1),
     Book("A book 3", "An author 3", 5), Book("A book", "An author", 3)]
  }

  /**
    Any result getDistinctBookTitlesAndAmount may return for the example rows holds exactly the
    entries ("A book", 2), ("A book 2", 1) and ("A book 3", 1), in some order.
   */
  lemma GroupingExample(infos: seq<ShowBookInfo>)
    requires DistinctTitles(infos) && InfoTitles(infos) == TitlesOf(ExampleRows()) && Counted(ExampleRows(), infos)
    ensures forall i :: 0 <= i < |infos| ==>
      infos[i] in {ShowBookInfo("A book", 2), ShowBookInfo("A book 2", 1), ShowBookInfo("A book 3", 1)}
    ensures ShowBookInfo("A book", 2) in infos
    ensures ShowBookInfo("A book 2", 1) in infos
    ensures ShowBookInfo("A book 3", 1) in infos
  {
    var rows := ExampleRows();
    var t1, t2, t3 := "A book", "A book 2", "A book 3";
    assert t1 != t2 && t1 != t3 && t2 != t3;
    assert rows[1..] == [rows[1], rows[2], rows[3]];
    assert rows[1..][1..] == [rows[2], rows[3]];
    assert rows[1..][1..][1..] == [rows[3]];
    assert CountTitle(rows, t1) == 2;
    assert CountTitle(rows, t2) == 1;
    assert CountTitle(rows, t3) == 1;
    assert TitlesOf(rows) == {t1, t2, t3} by {
      assert rows[0].title == t1 && rows[1].title == t2 && rows[2].title == t3;
    }
    forall t | t in {t1, t2, t3} ensures exists i :: 0 <= i < |infos| && infos[i] == ShowBookInfo(t, CountTitle(rows, t)) {
      assert t in InfoTitles(infos);
      var i :| 0 <= i < |infos| && infos[i].title == t;
      assert infos[i] == ShowBookInfo(t, CountTitle(rows, t));
    }
    forall i | 0 <= i < |infos|
      ensures infos[i] in {ShowBookInfo(t1, 2), ShowBookInfo(t2, 1), ShowBookInfo(t3, 1)}
    {
      assert infos[i].title in InfoTitles(infos);
    }
  }

  // ---------------------------------------------------------------------------------------------
  // The service methods, on the store in place

  method Save(db: Database, request: BookRequest) returns (r: Result<Book>)
    requires db.Valid()
    modifies db
    ensures db.Valid()
    ensures r == SaveStep(old(db.State()), request).result
    ensures db.State() == SaveStep(old(db.State()), request).after
  {
    SaveCases(db.State(), request);
    var amount := 0;
    var storedId: BookId := 0;
    match FindByAuthorAndTitle(db.books, request.title, request.author) {
      case Ambiguous =>
        return Err(NonUniqueResult);
      case NoMatch =>
      case Unique(id) =>
        amount := db.books[id].amount;
        storedId := id;
    }
    var book := Book(request.title, request.author, 0);
    var target: Option<BookId> := None;
    if amount != 0 {
      target := Some(storedId);
    }
    amount := amount + 1;
    book := book.(amount := amount);
    match target {
      case Some(id) =>
        db.books := db.books[id := book];
      case None =>
        db.books := db.books[db.nextBookId := book];
        db.nextBookId := db.nextBookId + 1;
    }
    r := Ok(book);
  }

  method FindById(db: Database, id: BookId) returns (r: Result<Book>)
    ensures r.Ok? <==> id in db.books
    ensures r.Ok? ==> r.value == db.books[id]
    ensures r.Err? ==> r.error == NotFound
  {
    if id in db.books {
      r := Ok(db.books[id]);
    } else {
      r := Err(NotFound);
    }
  }

  method DeleteById(db: Database, id: BookId) returns (r: Result<()>)
    requires db.Valid()
    modifies db
    ensures db.Valid()
    ensures r == DeleteByIdStep(old(db.State()), id).result
    ensures db.State() == DeleteByIdStep(old(db.State()), id).after
  {
    DeleteByIdRules(db.State(), id);
    var borrowed := AreBookBorrowed(db.members, id);
    if borrowed {
      return Err(DataProcessing);
    }
    db.books := db.books - {id};
    r := Ok(());
  }

  method UpdateById(db: Database, id: BookId, request: BookRequest) returns (r: Result<Book>)
    requires db.Valid()
    modifies db
    ensures db.Valid()
    ensures r == UpdateByIdStep(old(db.State()), id, request).result
    ensures db.State() == UpdateByIdStep(old(db.State()), id, request).after
  {
    UpdateByIdRules(db.State(), id, request);
    if id !in db.books {
      return Err(NotFound);
    }
    var book := Book(request.title, request.author, db.books[id].amount);
    db.books := db.books[id := book];
    r := Ok(book);
  }
}
