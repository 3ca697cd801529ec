/**
  The two repositories as one store: the books table, the members table with their loans, and the
  next keys the IDENTITY columns hand out. The queries the services depend on
  (BookRepository.findByAuthorAndTitle, areBookBorrowed, findAllBorrowedBooks) are functions over it.
 */
module Store {
  import opened Entities

  datatype LibraryState = LibraryState(
    books: map<BookId, Book>,
    members: map<MemberId, Member>,
    nextBookId: BookId,
    nextMemberId: MemberId)

  /** What a service call returns together with the store it leaves behind. */
  datatype Step<T> = Step(result: Result<T>, after: LibraryState)

  /**
    The facts every reachable store satisfies: keys lie below the next key, no book has a
    negative amount, no member a negative quota, and every loan names a stored book.
   */
  ghost predicate Consistent(s: LibraryState) {
    && (forall id :: id in s.books ==> id < s.nextBookId && s.books[id].amount >= 0)
    && (forall id :: id in s.members ==> id < s.nextMemberId && s.members[id].availableBookAmount >= 0)
    && (forall id, b :: id in s.members && b in s.members[id].books ==> b in s.books)
  }

  /** The ids of the books whose title and author equal the given ones. */
  function MatchingIds(books: map<BookId, Book>, title: string, author: string): set<BookId> {
    set id | id in books && books[id].title == title && books[id].author == author
  }

  /** The answer of a single-result query: no row, one row, or more than one. */
  datatype Lookup = NoMatch | Unique(id: BookId) | Ambiguous

  lemma SingletonElement<T>(ids: set<T>, x: T, y: T)
    requires |ids| == 1 && x in ids && y in ids
    ensures x == y
  {
    var rest := ids - {x};
    assert |rest| == 0;
    assert rest == {};
    assert y !in rest;
  }

  /** findByAuthorAndTitle, with LIKE read as exact equality. */
  function FindByAuthorAndTitle(books: map<BookId, Book>, title: string, author: string): (r: Lookup)
    ensures r.NoMatch? <==> MatchingIds(books, title, author) == {}
    ensures r.Unique? <==> |MatchingIds(books, title, author)| == 1
    ensures r.Unique? ==> MatchingIds(books, title, author) == {r.id}
  {
    var ids := MatchingIds(books, title, author);
    if ids == {} then NoMatch
    else if |ids| == 1 then
      var id :| id in ids;
      assert forall y :: y in ids ==> y == id by {
        forall y | y in ids ensures y == id { SingletonElement(ids, y, id); }
      }
      Unique(id)
    else Ambiguous
  }

  /** areBookBorrowed: some member holds the book. */
  predicate AreBookBorrowed(members: map<MemberId, Member>, id: BookId) {
    exists m :: m in members && id in members[m].books
  }

  /**
    The rows of the join table member_books for members with a key below n: one entry per
    (member, held book) pair.
   */
  ghost function BorrowedIdsBelow(members: map<MemberId, Member>, n: nat): seq<BookId> {
    if n == 0 then [] else BorrowedIdsBelow(members, n - 1) + HeldBy(members, n - 1)
  }

  /** The books member k holds; none when there is no such member. */
  function HeldBy(members: map<MemberId, Member>, k: MemberId): seq<BookId> {
    if k in members then members[k].books else []
  }

  ghost function BorrowedIds(s: LibraryState): seq<BookId> {
    BorrowedIdsBelow(s.members, s.nextMemberId)
  }

  /** The loans of book b by the members with a key below n. */
  ghost function LoansBelow(members: map<MemberId, Member>, n: nat, b: BookId): nat {
    if n == 0 then 0 else LoansBelow(members, n - 1, b) + multiset(HeldBy(members, n - 1))[b]
  }

  /** The number of loans of book b, across all members. */
  ghost function Loans(s: LibraryState, b: BookId): nat {
    LoansBelow(s.members, s.nextMemberId, b)
  }

  /** The books of the join rows, in join order; a row whose book is missing drops out. */
  ghost function RowsOf(books: map<BookId, Book>, ids: seq<BookId>): seq<Book> {
    if ids == [] then []
    else (if ids[0] in books then [books[ids[0]]] else []) + RowsOf(books, ids[1..])
  }

  /** findAllBorrowedBooks: the books table joined with member_books. */
  ghost function BorrowedRows(s: LibraryState): seq<Book> {
    RowsOf(s.books, BorrowedIds(s))
  }

  /** Copies of book b the library owns: those on hand plus those on loan. */
  ghost function Copies(s: LibraryState, b: BookId): int
    requires b in s.books
  {
    s.books[b].amount + Loans(s, b)
  }

  /** A member's quota plus the books it holds. */
  function Allowance(m: Member): int {
    m.availableBookAmount + |m.books|
  }

  /** The loans of the store are those of its members, so a change to books alone keeps them. */
  lemma LoansOfBooksChange(s: LibraryState, t: LibraryState)
    requires t.members == s.members && t.nextMemberId == s.nextMemberId
    ensures forall b :: Loans(t, b) == Loans(s, b)
  {
  }

  /** Members with the same loans below n have the same count of loans below n. */
  lemma {:induction false} LoansAgree(m1: map<MemberId, Member>, m2: map<MemberId, Member>, n: nat, b: BookId)
    requires forall j :: 0 <= j < n ==> HeldBy(m1, j) == HeldBy(m2, j)
    ensures LoansBelow(m1, n, b) == LoansBelow(m2, n, b)
  {
    if n > 0 {
      LoansAgree(m1, m2, n - 1, b);
      assert HeldBy(m1, n - 1) == HeldBy(m2, n - 1);
    }
  }

  /** Replacing member k by v swaps k's loans of b for v's. */
  lemma {:induction false} LoansUpdate(members: map<MemberId, Member>, k: MemberId, v: Member, n: nat, b: BookId)
    requires k < n
    ensures LoansBelow(members[k := v], n, b) + multiset(HeldBy(members, k))[b]
         == LoansBelow(members, n, b) + multiset(v.books)[b]
  {
    var updated := members[k := v];
    if n - 1 == k {
      forall j | 0 <= j < n - 1 ensures HeldBy(updated, j) == HeldBy(members, j) {
        assert j != k;
      }
      LoansAgree(updated, members, n - 1, b);
      assert HeldBy(updated, k) == v.books;
    } else {
      LoansUpdate(members, k, v, n - 1, b);
      assert HeldBy(updated, n - 1) == HeldBy(members, n - 1);
    }
  }

  /** Book b has a loan below n exactly when some member below n holds it. */
  lemma {:induction false} LoansBelowExactly(members: map<MemberId, Member>, n: nat, b: BookId)
    ensures LoansBelow(members, n, b) > 0 <==> exists m :: m in members && m < n && b in members[m].books
  {
    if n > 0 {
      LoansBelowExactly(members, n - 1, b);
      if n - 1 in members && b in members[n - 1].books {
        assert b in multiset(HeldBy(members, n - 1));
      }
      if exists m :: m in members && m < n && b in members[m].books {
        var m :| m in members && m < n && b in members[m].books;
        if m == n - 1 {
          assert b in multiset(HeldBy(members, n - 1));
        }
      }
    }
  }

  /** The join table holds one row of book b per loan of b. */
  lemma {:induction false} JoinRowsPerBook(members: map<MemberId, Member>, n: nat, b: BookId)
    ensures multiset(BorrowedIdsBelow(members, n))[b] == LoansBelow(members, n, b)
  {
    if n > 0 {
      JoinRowsPerBook(members, n - 1, b);
      var before: seq<BookId> := BorrowedIdsBelow(members, n - 1);
      var last: seq<BookId> := HeldBy(members, n - 1);
      assert multiset(before + last) == multiset(before) + multiset(last);
    }
  }

  lemma {:induction false} BorrowedIdsBelowExactly(members: map<MemberId, Member>, n: nat, b: BookId)
    ensures b in BorrowedIdsBelow(members, n) <==> exists m :: m in members && m < n && b in members[m].books
  {
    if n > 0 {
      BorrowedIdsBelowExactly(members, n - 1, b);
      if n - 1 in members && b in HeldBy(members, n - 1) {
        assert b in BorrowedIdsBelow(members, n);
      }
    }
  }

  /** In a consistent store, areBookBorrowed holds exactly when the book has a loan. */
  lemma BorrowedIffLoaned(s: LibraryState, b: BookId)
    requires Consistent(s)
    ensures AreBookBorrowed(s.members, b) <==> Loans(s, b) > 0
  {
    LoansBelowExactly(s.members, s.nextMemberId, b);
  }

  lemma {:induction false} RowsOfAllStored(books: map<BookId, Book>, ids: seq<BookId>)
    requires forall i :: 0 <= i < |ids| ==> ids[i] in books
    ensures |RowsOf(books, ids)| == |ids|
    ensures forall i :: 0 <= i < |ids| ==> RowsOf(books, ids)[i] == books[ids[i]]
  {
    if ids != [] {
      RowsOfAllStored(books, ids[1..]);
      assert forall i :: 1 <= i < |ids| ==> ids[i] == ids[1..][i - 1];
    }
  }

  /** In a consistent store, findAllBorrowedBooks yields one stored book per loan. */
  lemma BorrowedRowsOnePerLoan(s: LibraryState)
    requires Consistent(s)
    ensures |BorrowedRows(s)| == |BorrowedIds(s)|
    ensures forall i :: 0 <= i < |BorrowedIds(s)| ==> BorrowedIds(s)[i] in s.books
    ensures forall i :: 0 <= i < |BorrowedIds(s)| ==> BorrowedRows(s)[i] == s.books[BorrowedIds(s)[i]]
    ensures forall b :: multiset(BorrowedIds(s))[b] == Loans(s, b)
  {
    forall b ensures multiset(BorrowedIds(s))[b] == Loans(s, b) {
      JoinRowsPerBook(s.members, s.nextMemberId, b);
    }
    var ids := BorrowedIds(s);
    forall i | 0 <= i < |ids| ensures ids[i] in s.books {
      assert ids[i] in ids;
      BorrowedIdsBelowExactly(s.members, s.nextMemberId, ids[i]);
    }
    RowsOfAllStored(s.books, ids);
  }

  /** Both repositories, updated in place by the services. */
  class Database {
    var books: map<BookId, Book>
    var members: map<MemberId, Member>
    var nextBookId: BookId
    var nextMemberId: MemberId

    function State(): LibraryState
      reads this
    {
      LibraryState(books, members, nextBookId, nextMemberId)
    }

    ghost predicate Valid()
      reads this
    {
      Consistent(State())
    }

    /** An empty store. */
    constructor ()
      ensures Valid()
      ensures State() == LibraryState(map[], map[], 0, 0)
    {
      books, members := map[], map[];
      nextBookId, nextMemberId := 0, 0;
    }
  }
}
