/**
  MemberServiceImpl: member lifecycle and the borrow / return transitions, which move one copy of
  a book between the shelf (Book.amount) and a member (Member.books, Member.availableBookAmount).

  Every operation that changes the store is a pure step function, LibraryState -> Step, and a
  method that performs it in place on a Database argument and is proved to agree with it. The
  lemmas state the rules of MemberServiceImpl about the step functions.
 */
module MemberService {
  import opened Wrappers
  import opened Entities
  import opened Store

  /**
    `List.remove(Object)` on the books a member holds. Book does not override equals, so the list
    removes by identity: the first entry with that book id.
   */
  function RemoveFirst(books: seq<BookId>, b: BookId): (r: seq<BookId>)
    ensures b in books ==> |r| == |books| - 1 && multiset(r) == multiset(books) - multiset{b}
    ensures b !in books ==> r == books
  {
    if books == [] then []
    else
      assert books == [books[0]] + books[1..];
      if books[0] == b then books[1..]
      else [books[0]] + RemoveFirst(books[1..], b)
  }

  /** When the first b is at index i, RemoveFirst keeps the entries before i and shifts the rest down. */
  lemma {:induction false} RemoveFirstAt(books: seq<BookId>, b: BookId, i: nat)
    requires i < |books| && books[i] == b
    requires forall k :: 0 <= k < i ==> books[k] != b
    ensures var r := RemoveFirst(books, b);
      && |r| == |books| - 1
      && (forall k :: 0 <= k < i ==> r[k] == books[k])
      && (forall k :: i <= k < |r| ==> r[k] == books[k + 1])
  {
    if i != 0 {
      var tail := books[1..];
      RemoveFirstAt(tail, b, i - 1);
      assert RemoveFirst(books, b) == [books[0]] + RemoveFirst(tail, b);
    }
  }

  /**
    RemoveFirst takes out the FIRST entry equal to b and keeps every other entry in its order:
    the result is the list cut at the first b with that b left out.
   */
  lemma RemoveFirstDropsFirstOccurrence(books: seq<BookId>, b: BookId)
    requires b in books
    ensures exists i :: 0 <= i < |books| && books[i] == b && b !in books[..i]
                        && RemoveFirst(books, b) == books[..i] + books[i+1..]
  {
    var i := FirstIndex(books, b);
    forall k | 0 <= k < i ensures books[k] != b {
      assert books[k] in books[..i];
    }
    RemoveFirstAt(books, b, i);
    var r, cut := RemoveFirst(books, b), books[..i] + books[i+1..];
    forall k | 0 <= k < |r| ensures r[k] == cut[k] {
      if k >= i { assert cut[k] == books[i+1..][k - i]; }
    }
    assert r == cut;
  }

  /** The position of the first b in books. */
  function FirstIndex(books: seq<BookId>, b: BookId): (i: nat)
    requires b in books
    ensures i < |books| && books[i] == b && b !in books[..i]
  {
    if books[0] == b then 0
    else
      assert books[1..][..FirstIndex(books[1..], b)] == books[1..1 + FirstIndex(books[1..], b)];
      1 + FirstIndex(books[1..], b)
  }

  /** save: a new member with the request's name, today's date, the configured quota and no books. */
  function SaveStep(s: LibraryState, request: MemberRequest, today: Date, defaultQuota: nat): (r: Step<Member>)
    ensures r.result.Ok? && r.after.books == s.books
  {
    var member := Member(request.name, today, defaultQuota, []);
    Step(Ok(member), s.(members := s.members[s.nextMemberId := member], nextMemberId := s.nextMemberId + 1))
  }

  /** deleteById: refused while the member holds a book. */
  function DeleteByIdStep(s: LibraryState, id: MemberId): (r: Step<()>)
    ensures r.result.Err? ==> r.after == s
  {
    if id !in s.members then Step(Err(NotFound), s)
    else if |s.members[id].books| != 0 then Step(Err(DataProcessing), s)
    else Step(Ok(()), s.(members := s.members - {id}))
  }

  /** updateById: the member under the same id takes the request's name. */
  function UpdateByIdStep(s: LibraryState, id: MemberId, request: MemberRequest): (r: Step<Member>)
    ensures r.result.Err? ==> r.after == s
  {
    if id !in s.members then Step(Err(NotFound), s)
    else
      var member := s.members[id].(name := request.name);
      Step(Ok(member), s.(members := s.members[id := member]))
  }

  /** A members row as the store is asked to write it: the date column may be null. */
  datatype MemberRow = MemberRow(
    name: string,
    membershipDate: Option<Date>,
    availableBookAmount: int,
    books: seq<BookId>)

  /**
    updateById as written: the mapper builds a fresh member from the request, which has only a
    name, so the row saved under the stored id has no membership date, a quota of 0 and no books.
   */
  function UpdateByIdAsWritten(members: map<MemberId, Member>, id: MemberId, request: MemberRequest): (r: Result<MemberRow>)
    ensures r.Err? <==> id !in members
    ensures r.Ok? ==> r.value.name == request.name
  {
    if id !in members then Err(NotFound)
    else Ok(MemberRow(request.name, None, 0, []))
  }

  /**
    The row updateById as written asks save to write over a member that holds books: no
    membership date, a quota of 0 and fewer books than the member holds.
   */
  lemma UpdateAsWrittenDropsLoans(members: map<MemberId, Member>, id: MemberId, request: MemberRequest)
    requires id in members && members[id].books != []
    ensures UpdateByIdAsWritten(members, id, request).Ok?
    ensures var row := UpdateByIdAsWritten(members, id, request).value;
      && row.membershipDate == None
      && row.availableBookAmount == 0
      && |row.books| < |members[id].books|
  {
  }

  /** The members table takes a row only with a membership date: the column is NOT NULL. */
  predicate StoreAccepts(row: MemberRow) {
    row.membershipDate.Some?
  }

  /**
    updateById as written, end to end: NotFound on an absent id; otherwise save is asked to write
    the fresh row, and the store takes it only if it meets the NOT NULL date column.
   */
  function UpdateByIdStepAsWritten(s: LibraryState, id: MemberId, request: MemberRequest): Step<MemberRow> {
    match UpdateByIdAsWritten(s.members, id, request)
    case Err(e) => Step(Err(e), s)
    case Ok(row) =>
      if StoreAccepts(row) then
        var member := Member(row.name, row.membershipDate.value, row.availableBookAmount, row.books);
        Step(Ok(row), s.(members := s.members[id := member]))
      else Step(Err(ConstraintViolation), s)
  }

  /**
    updateById as written never renames a stored member: the row it writes has no membership
    date, the store refuses it, and the store stays as it was; the corrected update succeeds on
    the same input.
   */
  lemma UpdateAsWrittenNeverRenames(s: LibraryState, id: MemberId, request: MemberRequest)
    ensures var step := UpdateByIdStepAsWritten(s, id, request);
      && step.result.Err?
      && step.after == s
      && (id !in s.members ==> step.result == Err(NotFound))
      && (id in s.members ==> step.result == Err(ConstraintViolation))
      && (id in s.members <==> UpdateByIdStep(s, id, request).result.Ok?)
  {
  }

  /** borrowBook: member, quota, book lookup and copies are checked in this order. */
  function BorrowBookStep(s: LibraryState, request: BookRequest, id: MemberId): (r: Step<Member>)
    ensures r.result.Err? ==> r.after == s
  {
    if id !in s.members then Step(Err(NotFound), s)
    else
      var member := s.members[id];
      if member.availableBookAmount == 0 then Step(Err(DataProcessing), s)
      else
        match FindByAuthorAndTitle(s.books, request.title, request.author)
        case NoMatch => Step(Err(NotFound), s)
        case Ambiguous => Step(Err(NonUniqueResult), s)
        case Unique(b) =>
          var book := s.books[b];
          if book.amount == 0 then Step(Err(DataProcessing), s)
          else
            var borrower := member.(books := member.books + [b],
                                    availableBookAmount := member.availableBookAmount - 1);
            Step(Ok(borrower), s.(books := s.books[b := book.(amount := book.amount - 1)],
                                  members := s.members[id := borrower]))
  }

  /** returnBook: member, book lookup, then the member must hold the book. */
  function ReturnBookStep(s: LibraryState, request: BookRequest, id: MemberId): (r: Step<Member>)
    ensures r.result.Err? ==> r.after == s
  {
    if id !in s.members then Step(Err(NotFound), s)
    else
      var member := s.members[id];
      match FindByAuthorAndTitle(s.books, request.title, request.author)
      case NoMatch => Step(Err(NotFound), s)
      case Ambiguous => Step(Err(NonUniqueResult), s)
      case Unique(b) =>
        if b !in member.books then Step(Err(NotFound), s)
        else
          var book := s.books[b];
          var returner := member.(books := RemoveFirst(member.books, b),
                                  availableBookAmount := member.availableBookAmount + 1);
          Step(Ok(returner), s.(books := s.books[b := book.(amount := book.amount + 1)],
                                members := s.members[id := returner]))
  }

  // ---------------------------------------------------------------------------------------------
  // Properties of the step functions

  /** Replacing member k by v changes the loans of each book by v's entries minus k's. */
  lemma LoansOfMemberChange(s: LibraryState, k: MemberId, v: Member, b: BookId)
    requires k in s.members && k < s.nextMemberId
    ensures Loans(s.(members := s.members[k := v]), b) + multiset(s.members[k].books)[b]
         == Loans(s, b) + multiset(v.books)[b]
  {
    LoansUpdate(s.members, k, v, s.nextMemberId, b);
    assert HeldBy(s.members, k) == s.members[k].books;
  }

  /**
    save creates a member whose quota is the configured default and whose book list is empty,
    under a fresh id; nothing else changes.
   */
  lemma SaveCreatesMember(s: LibraryState, request: MemberRequest, today: Date, defaultQuota: nat)
    requires Consistent(s)
    ensures var step := SaveStep(s, request, today, defaultQuota);
      && step.result.Ok?
      && step.result.value == Member(request.name, today, defaultQuota, [])
      && s.nextMemberId !in s.members
      && step.after.members == s.members[s.nextMemberId := step.result.value]
      && step.after.books == s.books
      && Consistent(step.after)
      && forall b :: Loans(step.after, b) == Loans(s, b)
  {
    var t := SaveStep(s, request, today, defaultQuota).after;
    assert HeldBy(t.members, s.nextMemberId) == [];
    forall b ensures Loans(t, b) == Loans(s, b) {
      LoansAgree(t.members, s.members, s.nextMemberId, b);
    }
  }

  /** deleteById fails on an absent member or one holding books, and then changes nothing. */
  lemma DeleteByIdRules(s: LibraryState, id: MemberId)
    requires Consistent(s)
    ensures var step := DeleteByIdStep(s, id);
      && (id !in s.members ==> step == Step(Err(NotFound), s))
      && (id in s.members && |s.members[id].books| != 0 ==> step == Step(Err(DataProcessing), s))
      && (step.result.Ok? <==> id in s.members && s.members[id].books == [])
      && (step.result.Ok? ==> step.after == s.(members := s.members - {id}))
      && Consistent(step.after)
      && forall b :: Loans(step.after, b) == Loans(s, b)
  {
    var t := DeleteByIdStep(s, id).after;
    if t != s {
      forall j | 0 <= j < s.nextMemberId ensures HeldBy(t.members, j) == HeldBy(s.members, j) {
        if j == id {
          assert HeldBy(t.members, j) == [] == HeldBy(s.members, j);
        }
      }
      forall b ensures Loans(t, b) == Loans(s, b) {
        LoansAgree(t.members, s.members, s.nextMemberId, b);
      }
    }
  }

  /** updateById fails on an absent id; otherwise only the name of that member changes. */
  lemma UpdateByIdRules(s: LibraryState, id: MemberId, request: MemberRequest)
    requires Consistent(s)
    ensures var step := UpdateByIdStep(s, id, request);
      && (id !in s.members ==> step == Step(Err(NotFound), s))
      && (id in s.members ==>
            && step.result.Ok?
            && step.after.members.Keys == s.members.Keys
            && step.after.members[id] == step.result.value
            && step.result.value.name == request.name
            && step.result.value == s.members[id].(name := request.name)
            && (forall m :: m in s.members && m != id ==> step.after.members[m] == s.members[m])
            && step.after.books == s.books)
      && Consistent(step.after)
      && forall b :: Loans(step.after, b) == Loans(s, b)
  {
    if id in s.members {
      var t := UpdateByIdStep(s, id, request).after;
      forall b ensures Loans(t, b) == Loans(s, b) {
        LoansOfMemberChange(s, id, t.members[id], b);
      }
    }
  }

  /**
    The checks of borrowBook and their order: a missing member is NotFound before anything else;
    an exhausted quota is DataProcessing even when no such book exists; then a missing book is
    NotFound and a book with no copy left is DataProcessing. Every failure leaves the store as it
    was.
   */
  lemma BorrowBookChecks(s: LibraryState, request: BookRequest, id: MemberId)
    ensures var step := BorrowBookStep(s, request, id);
      var lookup := FindByAuthorAndTitle(s.books, request.title, request.author);
      && (step.result.Err? ==> step.after == s)
      && (id !in s.members ==> step.result == Err(NotFound))
      && (id in s.members && s.members[id].availableBookAmount == 0 ==> step.result == Err(DataProcessing))
      && (id in s.members && s.members[id].availableBookAmount != 0 ==>
            && (MatchingIds(s.books, request.title, request.author) == {} ==> step.result == Err(NotFound))
            && (|MatchingIds(s.books, request.title, request.author)| > 1 ==> step.result == Err(NonUniqueResult))
            && (lookup.Unique? && s.books[lookup.id].amount == 0 ==> step.result == Err(DataProcessing)))
  {
  }

  /**
    A successful borrowBook appends exactly the book's id to the member's list and takes one from
    the book's amount and the member's quota; every other member and book is unchanged.
   */
  lemma BorrowBookEffect(s: LibraryState, request: BookRequest, id: MemberId)
    ensures var step := BorrowBookStep(s, request, id);
      var lookup := FindByAuthorAndTitle(s.books, request.title, request.author);
      && (step.result.Ok? <==>
            && id in s.members && s.members[id].availableBookAmount != 0
            && lookup.Unique? && s.books[lookup.id].amount != 0)
      && (step.result.Ok? ==>
            var b := lookup.id;
            var before, after := s.members[id], step.result.value;
            && step.after.members == s.members[id := after]
            && after.books == before.books + [b]
            && after.availableBookAmount == before.availableBookAmount - 1
            && after.name == before.name && after.membershipDate == before.membershipDate
            && step.after.books == s.books[b := s.books[b].(amount := s.books[b].amount - 1)]
            && step.after.nextBookId == s.nextBookId && step.after.nextMemberId == s.nextMemberId)
  {
  }

  /**
    borrowBook keeps the store consistent (no negative amount or quota) and keeps two sums: a
    member's quota plus the books it holds, and a book's amount plus its loans.
   */
  lemma BorrowBookConserves(s: LibraryState, request: BookRequest, id: MemberId)
    requires Consistent(s)
    ensures var t := BorrowBookStep(s, request, id).after;
      && Consistent(t)
      && t.members.Keys == s.members.Keys && t.books.Keys == s.books.Keys
      && (forall m :: m in s.members ==> Allowance(t.members[m]) == Allowance(s.members[m]))
      && (forall b :: b in s.books ==> Copies(t, b) == Copies(s, b))
  {
    var step := BorrowBookStep(s, request, id);
    if step.result.Ok? {
      var b := FindByAuthorAndTitle(s.books, request.title, request.author).id;
      BorrowSucceedsWith(s, request, id, b);
      AfterBorrowConsistent(s, id, b);
      forall c | c in s.books ensures Copies(step.after, c) == Copies(s, c) {
        AfterBorrowCopies(s, id, b, c);
      }
    }
  }

  /** Borrowing b keeps the store consistent and every member's allowance. */
  lemma AfterBorrowConsistent(s: LibraryState, id: MemberId, b: BookId)
    requires Consistent(s) && id in s.members && b in s.books
    requires s.members[id].availableBookAmount != 0 && s.books[b].amount != 0
    ensures var t := AfterBorrow(s, id, b);
      && Consistent(t)
      && t.members.Keys == s.members.Keys && t.books.Keys == s.books.Keys
      && (forall m :: m in s.members ==> Allowance(t.members[m]) == Allowance(s.members[m]))
  {
    var t := AfterBorrow(s, id, b);
    forall m, c | m in t.members && c in t.members[m].books ensures c in t.books {
      if m == id && c != b {
        assert c in s.members[id].books;
      }
    }
  }

  /** Borrowing b moves one copy of b from the shelf to the member; every book keeps its copies. */
  lemma AfterBorrowCopies(s: LibraryState, id: MemberId, b: BookId, c: BookId)
    requires Consistent(s) && id in s.members && b in s.books && c in s.books
    ensures Copies(AfterBorrow(s, id, b), c) == Copies(s, c)
  {
    var t := AfterBorrow(s, id, b);
    LoansOfMemberChange(s, id, t.members[id], c);
    LoansOfBooksChange(s.(members := t.members), t);
    assert multiset(t.members[id].books)[c] == multiset(s.members[id].books)[c] + (if c == b then 1 else 0);
  }

  /**
    returnBook fails with NotFound, changing nothing, when the member, the book, or the member's
    loan of that book is missing.
   */
  lemma ReturnBookChecks(s: LibraryState, request: BookRequest, id: MemberId)
    ensures var step := ReturnBookStep(s, request, id);
      var lookup := FindByAuthorAndTitle(s.books, request.title, request.author);
      && (step.result.Err? ==> step.after == s)
      && (id !in s.members ==> step.result == Err(NotFound))
      && (id in s.members ==>
            && (MatchingIds(s.books, request.title, request.author) == {} ==> step.result == Err(NotFound))
            && (|MatchingIds(s.books, request.title, request.author)| > 1 ==> step.result == Err(NonUniqueResult))
            && (lookup.Unique? && lookup.id !in s.members[id].books ==> step.result == Err(NotFound)))
  {
  }

  /**
    A successful returnBook removes the first occurrence of the book from the member's list (see
    RemoveFirstDropsFirstOccurrence), keeping the order of the rest, and adds one to the book's amount and to the member's quota; nothing else changes.
   */
  lemma ReturnBookEffect(s: LibraryState, request: BookRequest, id: MemberId)
    ensures var step := ReturnBookStep(s, request, id);
      var lookup := FindByAuthorAndTitle(s.books, request.title, request.author);
      && (step.result.Ok? <==> id in s.members && lookup.Unique? && lookup.id in s.members[id].books)
      && (step.result.Ok? ==>
            var b := lookup.id;
            var before, after := s.members[id], step.result.value;
            && step.after.members == s.members[id := after]
            && |after.books| == |before.books| - 1
            && multiset(after.books) == multiset(before.books) - multiset{b}
            && after.books == RemoveFirst(before.books, b)
            && after.availableBookAmount == before.availableBookAmount + 1
            && after.name == before.name && after.membershipDate == before.membershipDate
            && step.after.books == s.books[b := s.books[b].(amount := s.books[b].amount + 1)]
            && step.after.nextBookId == s.nextBookId && step.after.nextMemberId == s.nextMemberId)
  {
  }

  /** returnBook keeps the store consistent and keeps the same two sums as borrowBook. */
  lemma ReturnBookConserves(s: LibraryState, request: BookRequest, id: MemberId)
    requires Consistent(s)
    ensures var t := ReturnBookStep(s, request, id).after;
      && Consistent(t)
      && t.members.Keys == s.members.Keys && t.books.Keys == s.books.Keys
      && (forall m :: m in s.members ==> Allowance(t.members[m]) == Allowance(s.members[m]))
      && (forall b :: b in s.books ==> Copies(t, b) == Copies(s, b))
  {
    var step := ReturnBookStep(s, request, id);
    if step.result.Ok? {
      var b := FindByAuthorAndTitle(s.books, request.title, request.author).id;
      ReturnSucceedsWith(s, request, id, b);
      AfterReturnConsistent(s, id, b);
      forall c | c in s.books ensures Copies(step.after, c) == Copies(s, c) {
        AfterReturnCopies(s, id, b, c);
      }
    }
  }

  /** Returning b keeps the store consistent and every member's allowance. */
  lemma AfterReturnConsistent(s: LibraryState, id: MemberId, b: BookId)
    requires Consistent(s) && id in s.members && b in s.books && b in s.members[id].books
    ensures var t := AfterReturn(s, id, b);
      && Consistent(t)
      && t.members.Keys == s.members.Keys && t.books.Keys == s.books.Keys
      && (forall m :: m in s.members ==> Allowance(t.members[m]) == Allowance(s.members[m]))
  {
    var t := AfterReturn(s, id, b);
    var before := s.members[id].books;
    assert multiset(RemoveFirst(before, b)) == multiset(before) - multiset{b};
    forall m, c | m in t.members && c in t.members[m].books ensures c in t.books {
      if m == id {
        assert c in multiset(RemoveFirst(before, b));
        assert c in before;
      }
    }
  }

  /** Returning b moves one copy of b from the member back to the shelf; every book keeps its copies. */
  lemma AfterReturnCopies(s: LibraryState, id: MemberId, b: BookId, c: BookId)
    requires Consistent(s) && id in s.members && b in s.books && c in s.books
    requires b in s.members[id].books
    ensures Copies(AfterReturn(s, id, b), c) == Copies(s, c)
  {
    var t := AfterReturn(s, id, b);
    var before := s.members[id].books;
    assert multiset(RemoveFirst(before, b)) == multiset(before) - multiset{b};
    LoansOfMemberChange(s, id, t.members[id], c);
    LoansOfBooksChange(s.(members := t.members), t);
  }

  /** Title and author are untouched by a change of amount, so the lookup sees the same rows. */
  lemma LookupIgnoresAmount(books: map<BookId, Book>, b: BookId, amount: int, title: string, author: string)
    requires b in books
    ensures MatchingIds(books[b := books[b].(amount := amount)], title, author) == MatchingIds(books, title, author)
  {
  }

  /** The store after a successful borrowBook, written out; b is the book the lookup found. */
  function AfterBorrow(s: LibraryState, id: MemberId, b: BookId): LibraryState
    requires id in s.members && b in s.books
  {
    var member := s.members[id];
    s.(books := s.books[b := s.books[b].(amount := s.books[b].amount - 1)],
       members := s.members[id := member.(books := member.books + [b],
                                          availableBookAmount := member.availableBookAmount - 1)])
  }

  /** When every check of borrowBook passes, its step is the written-out store. */
  lemma BorrowSucceedsWith(s: LibraryState, request: BookRequest, id: MemberId, b: BookId)
    requires id in s.members && s.members[id].availableBookAmount != 0
    requires FindByAuthorAndTitle(s.books, request.title, request.author) == Unique(b)
    requires b in s.books && s.books[b].amount != 0
    ensures BorrowBookStep(s, request, id) == Step(Ok(AfterBorrow(s, id, b).members[id]), AfterBorrow(s, id, b))
  {
  }

  /** The store after a successful returnBook, written out; b is the book the lookup found. */
  function AfterReturn(s: LibraryState, id: MemberId, b: BookId): LibraryState
    requires id in s.members && b in s.books
  {
    var member := s.members[id];
    s.(books := s.books[b := s.books[b].(amount := s.books[b].amount + 1)],
       members := s.members[id := member.(books := RemoveFirst(member.books, b),
                                          availableBookAmount := member.availableBookAmount + 1)])
  }

  /** When every check of returnBook passes, its step is the written-out store. */
  lemma ReturnSucceedsWith(s: LibraryState, request: BookRequest, id: MemberId, b: BookId)
    requires id in s.members
    requires FindByAuthorAndTitle(s.books, request.title, request.author) == Unique(b)
    requires b in s.books && b in s.members[id].books
    ensures ReturnBookStep(s, request, id) == Step(Ok(AfterReturn(s, id, b).members[id]), AfterReturn(s, id, b))
  {
  }

  /** returnBook of a book the member holds, after the borrow: both counters come back. */
  lemma ReturnAfterBorrow(s: LibraryState, request: BookRequest, id: MemberId, b: BookId)
    requires id in s.members && b in s.books
    requires FindByAuthorAndTitle(s.books, request.title, request.author) == Unique(b)
    ensures var step := ReturnBookStep(AfterBorrow(s, id, b), request, id);
      var member := s.members[id];
      && step.result.Ok?
      && step.after == s.(members := s.members[id := member.(books := RemoveFirst(member.books + [b], b))])
  {
    var s1 := AfterBorrow(s, id, b);
    LookupIgnoresAmount(s.books, b, s.books[b].amount - 1, request.title, request.author);
    assert FindByAuthorAndTitle(s1.books, request.title, request.author) == Unique(b);
    var held := s.members[id].books;
    assert (held + [b])[|held|] == b;
    ReturnSucceedsWith(s1, request, id, b);
    assert s1.books[b := s1.books[b].(amount := s1.books[b].amount + 1)] == s.books;
  }

  /**
    A successful borrowBook followed by returnBook of the same book restores the book's amount,
    the member's quota and the multiset of the member's books, and touches nothing else; when the
    member did not hold the book before, the store is exactly as it was.
   */
  lemma BorrowThenReturn(s: LibraryState, request: BookRequest, id: MemberId)
    requires BorrowBookStep(s, request, id).result.Ok?
    ensures var s1 := BorrowBookStep(s, request, id).after;
      var step := ReturnBookStep(s1, request, id);
      var b := FindByAuthorAndTitle(s.books, request.title, request.author).id;
      && step.result.Ok?
      && step.after.books == s.books
      && step.after.members.Keys == s.members.Keys
      && (forall m :: m in s.members && m != id ==> step.after.members[m] == s.members[m])
      && step.after.members[id].availableBookAmount == s.members[id].availableBookAmount
      && multiset(step.after.members[id].books) == multiset(s.members[id].books)
      && step.after.members[id].name == s.members[id].name
      && (b !in s.members[id].books ==> step.after == s)
  {
    var b := FindByAuthorAndTitle(s.books, request.title, request.author).id;
    BorrowSucceedsWith(s, request, id, b);
    ReturnAfterBorrow(s, request, id, b);
    AppendThenRemoveRestores(s, id, b);
  }

  /** Appending b to a member's list and removing its first b keeps the multiset of the list. */
  lemma AppendThenRemoveRestores(s: LibraryState, id: MemberId, b: BookId)
    requires id in s.members
    ensures var member := s.members[id];
      var t := s.(members := s.members[id := member.(books := RemoveFirst(member.books + [b], b))]);
      && t.members.Keys == s.members.Keys
      && t.members[id].availableBookAmount == member.availableBookAmount
      && t.members[id].name == member.name
      && multiset(t.members[id].books) == multiset(member.books)
      && (b !in member.books ==> t == s)
  {
    var held := s.members[id].books;
    var back := RemoveFirst(held + [b], b);
    assert (held + [b])[|held|] == b;
    assert multiset(back) == multiset(held);
    if b !in held {
      RemoveFirstAppended(held, b);
      assert s.members[id := s.members[id].(books := back)] == s.members;
    }
  }

  /** Removing a book not otherwise held from the end of a list gives the list back. */
  lemma {:induction false} RemoveFirstAppended(books: seq<BookId>, b: BookId)
    requires b !in books
    ensures RemoveFirst(books + [b], b) == books
  {
    if books != [] {
      assert (books + [b])[1..] == books[1..] + [b];
      RemoveFirstAppended(books[1..], b);
    }
  }

  /**
    A scenario after MemberServiceImplTest.borrowBook_validCase_returnMemberDto, which checks the
    member's quota and list: here a member with quota 10 borrows the only title in stock (3
    copies); the quota becomes 9, the model's shelf holds 2, and returning it gives both back.
   */
  lemma BorrowExample(today: Date)
    ensures var s := LibraryState(map[1 := Book("A book", "An author", 3)],
                                  map[1 := Member("Name", today, 10, [])], 2, 2);
      var request := BookRequest("A book", "An author");
      var borrowed := BorrowBookStep(s, request, 1);
      && borrowed.result == Ok(Member("Name", today, 9, [1]))
      && borrowed.after.books[1].amount == 2
      && ReturnBookStep(borrowed.after, request, 1).after == s
  {
    var s := LibraryState(map[1 := Book("A book", "An author", 3)],
                          map[1 := Member("Name", today, 10, [])], 2, 2);
    var request := BookRequest("A book", "An author");
    assert MatchingIds(s.books, request.title, request.author) == {1};
    assert FindByAuthorAndTitle(s.books, request.title, request.author) == Unique(1);
    var borrowed := BorrowBookStep(s, request, 1);
    assert s.members[1].books + [1] == [1];
    assert borrowed.result == Ok(Member("Name", today, 9, [1]));
    assert borrowed.after.books[1].amount == 2;
    BorrowThenReturn(s, request, 1);
    assert ReturnBookStep(borrowed.after, request, 1).after == s;
  }

  /** With one copy and a quota of one, a second borrowBook is refused on the quota. */
  lemma SecondBorrowRefused(today: Date)
    ensures var s := LibraryState(map[1 := Book("A book", "An author", 1)],
                                  map[1 := Member("Name", today, 1, [])], 2, 2);
      var request := BookRequest("A book", "An author");
      var first := BorrowBookStep(s, request, 1);
      && first.result.Ok?
      && BorrowBookStep(first.after, request, 1) == Step(Err(DataProcessing), first.after)
  {
    var s := LibraryState(map[1 := Book("A book", "An author", 1)],
                          map[1 := Member("Name", today, 1, [])], 2, 2);
    assert MatchingIds(s.books, "A book", "An author") == {1};
  }

  // ---------------------------------------------------------------------------------------------
  // The service methods, on the store in place

  /** getMember: the stored member, or NotFound. */
  method GetMember(db: Database, id: MemberId) returns (r: Result<Member>)
    ensures r.Ok? <==> id in db.members
    ensures r.Ok? ==> r.value == db.members[id]
    ensures r.Err? ==> r.error == NotFound
  {
    if id in db.members {
      r := Ok(db.members[id]);
    } else {
      r := Err(NotFound);
    }
  }

  /** getBook: the one book with this title and author, NotFound if none, or the store's refusal. */
  method GetBook(db: Database, request: BookRequest) returns (r: Result<BookId>)
    ensures r.Ok? ==> r.value in db.books && MatchingIds(db.books, request.title, request.author) == {r.value}
    ensures r == Err(NotFound) <==> MatchingIds(db.books, request.title, request.author) == {}
    ensures r == Err(NonUniqueResult) <==> |MatchingIds(db.books, request.title, request.author)| > 1
    ensures r.Err? ==> r.error == NotFound || r.error == NonUniqueResult
    ensures r.Ok? ==> FindByAuthorAndTitle(db.books, request.title, request.author) == Unique(r.value)
    ensures r == Err(NotFound) ==> FindByAuthorAndTitle(db.books, request.title, request.author) == NoMatch
    ensures r == Err(NonUniqueResult) ==> FindByAuthorAndTitle(db.books, request.title, request.author) == Ambiguous
  {
    match FindByAuthorAndTitle(db.books, request.title, request.author)
    case NoMatch => r := Err(NotFound);
    case Ambiguous => r := Err(NonUniqueResult);
    case Unique(b) => r := Ok(b);
  }

  method Save(db: Database, request: MemberRequest, today: Date, defaultQuota: nat) returns (r: Member)
    requires db.Valid()
    modifies db
    ensures db.Valid()
    ensures Ok(r) == SaveStep(old(db.State()), request, today, defaultQuota).result
    ensures db.State() == SaveStep(old(db.State()), request, today, defaultQuota).after
  {
    SaveCreatesMember(db.State(), request, today, defaultQuota);
    var member := Member(request.name, today, defaultQuota, []);
    db.members := db.members[db.nextMemberId := member];
    db.nextMemberId := db.nextMemberId + 1;
    r := member;
  }

  method FindById(db: Database, id: MemberId) returns (r: Result<Member>)
    ensures r.Ok? <==> id in db.members
    ensures r.Ok? ==> r.value == db.members[id]
    ensures r.Err? ==> r.error == NotFound
  {
    r := GetMember(db, id);
  }

  method DeleteById(db: Database, id: MemberId) returns (r: Result<()>)
    requires db.Valid()
    modifies db
    ensures db.Valid()
    ensures r == DeleteByIdStep(old(db.State()), id).result
    ensures db.State() == DeleteByIdStep(old(db.State()), id).after
  {
    DeleteByIdRules(db.State(), id);
    var found := GetMember(db, id);
    if found.Err? {
      return Err(found.error);
    }
    if |found.value.books| != 0 {
      return Err(DataProcessing);
    }
    db.members := db.members - {id};
    r := Ok(());
  }

  method UpdateById(db: Database, id: MemberId, request: MemberRequest) returns (r: Result<Member>)
    requires db.Valid()
    modifies db
    ensures db.Valid()
    ensures r == UpdateByIdStep(old(db.State()), id, request).result
    ensures db.State() == UpdateByIdStep(old(db.State()), id, request).after
  {
    UpdateByIdRules(db.State(), id, request);
    if id !in db.members {
      return Err(NotFound);
    }
    var member := db.members[id].(name := request.name);
    db.members := db.members[id := member];
    r := Ok(member);
  }

  method BorrowBook(db: Database, request: BookRequest, id: MemberId) returns (r: Result<Member>)
    requires db.Valid()
    modifies db
    ensures db.Valid()
    ensures r == BorrowBookStep(old(db.State()), request, id).result
    ensures db.State() == BorrowBookStep(old(db.State()), request, id).after
  {
    ghost var step := BorrowBookStep(db.State(), request, id);
    var found := GetMember(db, id);
    if found.Err? {
      return Err(found.error);
    }
    var member := found.value;
    if member.availableBookAmount == 0 {
      return Err(DataProcessing);
    }
    var lookup := GetBook(db, request);
    if lookup.Err? {
      return Err(lookup.error);
    }
    var b := lookup.value;
    var book := db.books[b];
    if book.amount == 0 {
      assert step.result == Err(DataProcessing);
      return Err(DataProcessing);
    }
    ghost var s := db.State();
    BorrowSucceedsWith(s, request, id, b);
    var books := member.books + [b];
    book := book.(amount := book.amount - 1);
    db.books := db.books[b := book];
    member := member.(books := books, availableBookAmount := member.availableBookAmount - 1);
    db.members := db.members[id := member];
    r := Ok(member);
    assert db.State() == AfterBorrow(s, id, b);
    BorrowBookConserves(s, request, id);
  }

  method ReturnBook(db: Database, request: BookRequest, id: MemberId) returns (r: Result<Member>)
    requires db.Valid()
    modifies db
    ensures db.Valid()
    ensures r == ReturnBookStep(old(db.State()), request, id).result
    ensures db.State() == ReturnBookStep(old(db.State()), request, id).after
  {
    var found := GetMember(db, id);
    if found.Err? {
      return Err(found.error);
    }
    var member := found.value;
    var books := member.books;
    var lookup := GetBook(db, request);
    if lookup.Err? {
      return Err(lookup.error);
    }
    var b := lookup.value;
    if b !in books {
      return Err(NotFound);
    }
    ghost var s := db.State();
    ReturnSucceedsWith(s, request, id, b);
    books := RemoveFirst(books, b);
    var book := db.books[b];
    book := book.(amount := book.amount + 1);
    db.books := db.books[b := book];
    member := member.(books := books, availableBookAmount := member.availableBookAmount + 1);
    db.members := db.members[id := member];
    r := Ok(member);
    assert member == AfterReturn(s, id, b).members[id];
    assert db.State() == AfterReturn(s, id, b);
    ReturnBookConserves(s, request, id);
  }
}
