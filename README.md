# Library: loans, catalogue and field validation, in Dafny

This project models the business logic of a small library service. It has three parts:

- **The catalogue** (BookServiceImpl). Books are stored under generated ids with a title, an author and an `amount`, the copies on the shelf.
- **The members and their loans** (MemberServiceImpl). A member has a name, a membership date, a quota of further books it may borrow (`availableBookAmount`) and the list of books it holds.
- **The two field validators** of a book request: the `@Title` pattern and the written author-name pattern, plus the way `@AuthorName` is actually wired.

The modules:

- `Entities` holds the rows and request shapes.
- `Store` holds the store, the repository queries the services depend on, and the class `Database`.
  - The store is the books table, the members table with their loans, and the next keys the IDENTITY columns hand out.
  - The queries are `findByAuthorAndTitle`, `areBookBorrowed` and the `member_books` join behind `findAllBorrowedBooks`.
  - The services update `Database` in place.
- Every service operation that changes the store appears twice:
  - as a pure step function (state in, result and new state out);
  - as a module-level method that takes the `Database` and updates its fields in place.

  Each such method is proved to return that step's result and to leave exactly that step's state. The lemmas state the services' rules about the step functions.
- The reads are plain methods over the `Database`: the two `FindById`s, `getMember` and `getBook`.
- getDistinctBookTitlesAndAmount takes the fetched rows as its input.
- The invariant `Store.Consistent` says:
  - every key lies below its next key;
  - no amount and no quota is negative;
  - every loan names a stored book.

  Every method keeps it.
- `TitleValidator`, `AuthorNameValidator` and `FieldValidation` model the validators as character-level predicates with Java regex semantics. Under `matches()`:
  - `.` excludes line terminators;
  - `$` may stand before a final terminator;
  - `[A-Z]`/`[a-z]` are ASCII ranges.

Two behaviours follow the code as written:

- BookServiceImpl.save merges with the stored row only when its amount is not 0 (BookServiceImpl.java:34). A stored amount of 0 makes it insert a second row.
- MemberServiceImpl.returnBook of a book the member does not hold throws EntityNotFoundException (MemberServiceImpl.java:104-105). The model gives NotFound.

## Model

| member | source | states |
|---|---|---|
| `Store.FindByAuthorAndTitle` | src/main/java/org/test_task/repository/BookRepository.java:25-27 | the single-result lookup answers NoMatch exactly when no row has that title and author, and Unique(id) exactly when one does (the id is that row's); more than one row is the store's refusal |
| `Store.AreBookBorrowed` | src/main/java/org/test_task/repository/BookRepository.java:29-31 | areBookBorrowed: some member's list of held books contains the id |
| `Store.BorrowedRows` | src/main/java/org/test_task/repository/BookRepository.java:36-37 | findAllBorrowedBooks: the stored book of every `member_books` row, one per (member, held book) pair, in an order the store chooses (the query has no ORDER BY; the model uses member key order); its properties are in `Store.BorrowedRowsOnePerLoan` |
| `Store.BorrowedIffLoaned` | src/main/java/org/test_task/repository/BookRepository.java:29-31 | areBookBorrowed holds exactly when the book has at least one loan across all members |
| `Store.LoansBelowExactly` | src/main/java/org/test_task/repository/BookRepository.java:29-31 | a book has a loan among the members below a key exactly when one of them holds it |
| `Store.JoinRowsPerBook` | src/main/java/org/test_task/model/Member.java:35-40 | the member_books join table holds one row of a book per loan of it |
| `Store.BorrowedRowsOnePerLoan` | src/main/java/org/test_task/repository/BookRepository.java:36-37 | in a consistent store findAllBorrowedBooks yields one stored row per (member, held book) pair, the stored book of that loan, and as many rows of a book as it has loans |
| `MemberService.RemoveFirst` | src/main/java/org/test_task/service/impl/MemberServiceImpl.java:104 | `List.remove` of a held book removes exactly one occurrence (length down by one, multiset minus that book); of a book not held it changes nothing; which occurrence goes, and the order of the rest, are stated in `MemberService.RemoveFirstDropsFirstOccurrence` |
| `MemberService.RemoveFirstDropsFirstOccurrence` | src/main/java/org/test_task/service/impl/MemberServiceImpl.java:104 | `List.remove` of a held book removes its FIRST occurrence: the list is cut at the first index holding the book and the rest is kept in order |
| `MemberService.SaveStep` | src/main/java/org/test_task/service/impl/MemberServiceImpl.java:43-48 | save as a step: always succeeds and leaves the books unchanged; the new member is described in `MemberService.SaveCreatesMember` |
| `MemberService.DeleteByIdStep` | src/main/java/org/test_task/service/impl/MemberServiceImpl.java:62-68 | deleteById as a step: a failure leaves the store as it was; the rules are in `MemberService.DeleteByIdRules` |
| `MemberService.UpdateByIdStep` | src/main/java/org/test_task/service/impl/MemberServiceImpl.java:70-78 | the corrected updateById as a step: a failure leaves the store as it was; the rules are in `MemberService.UpdateByIdRules` |
| `MemberService.BorrowBookStep` | src/main/java/org/test_task/service/impl/MemberServiceImpl.java:80-97 | borrowBook as a step: a failure leaves the store as it was; checks and effect are in `MemberService.BorrowBookChecks` and `MemberService.BorrowBookEffect` |
| `MemberService.ReturnBookStep` | src/main/java/org/test_task/service/impl/MemberServiceImpl.java:99-112 | returnBook as a step: a failure leaves the store as it was; checks and effect are in `MemberService.ReturnBookChecks` and `MemberService.ReturnBookEffect` |
| `MemberService.SaveCreatesMember` | src/main/java/org/test_task/service/impl/MemberServiceImpl.java:43-48 | save always succeeds, creating under a fresh id a member with the request's name, today's date, the configured quota and no books; books and every loan count are unchanged and the store stays consistent |
| `MemberService.Save` | src/main/java/org/test_task/service/impl/MemberServiceImpl.java:43-48 | the in-place save returns and leaves exactly what the save step says, and keeps the store consistent |
| `MemberService.GetMember` | src/main/java/org/test_task/service/impl/MemberServiceImpl.java:122-126 | the stored member when the id is present, NotFound exactly when it is absent |
| `MemberService.FindById` | src/main/java/org/test_task/service/impl/MemberServiceImpl.java:57-60 | the stored member when present, otherwise NotFound |
| `MemberService.GetBook` | src/main/java/org/test_task/service/impl/MemberServiceImpl.java:128-131 | the one book matching title and author; NotFound exactly when none matches; the store's refusal exactly when several do |
| `MemberService.DeleteByIdRules` | src/main/java/org/test_task/service/impl/MemberServiceImpl.java:62-68 | deleteById gives NotFound on an absent member and DataProcessing on one holding books, changing nothing; it succeeds exactly when the member holds no book, and then removes only that member; loan counts are kept |
| `MemberService.DeleteById` | src/main/java/org/test_task/service/impl/MemberServiceImpl.java:62-68 | the in-place delete agrees with the delete step and keeps the store consistent |
| `MemberService.UpdateByIdRules` | src/main/java/org/test_task/service/impl/MemberServiceImpl.java:70-78 | updateById (corrected, see Findings) gives NotFound on an absent id and changes nothing; otherwise it keeps the id and sets the name from the request, and no other member, no book and no loan count changes |
| `MemberService.UpdateById` | src/main/java/org/test_task/service/impl/MemberServiceImpl.java:70-78 | the in-place update agrees with the corrected update step and keeps the store consistent |
| `MemberService.UpdateByIdAsWritten` | src/main/java/org/test_task/service/impl/MemberServiceImpl.java:70-78 | as written, updateById fails exactly on an absent id and otherwise asks save to write a fresh row carrying the request's name |
| `MemberService.UpdateAsWrittenDropsLoans` | src/main/java/org/test_task/service/impl/MemberServiceImpl.java:75-77 | as written, updateById of a member that holds books asks save to write a row with no membership date, quota 0 and fewer books than the member holds |
| `MemberService.UpdateByIdStepAsWritten` | src/main/java/org/test_task/service/impl/MemberServiceImpl.java:70-78 | updateById as written, end to end: NotFound on an absent id; otherwise the fresh row goes to save, and the members table takes it only with a membership date (Member.java:28 declares the column NOT NULL) |
| `MemberService.UpdateAsWrittenNeverRenames` | src/main/java/org/test_task/service/impl/MemberServiceImpl.java:70-78 | as written, updateById never succeeds: an absent id gives NotFound, a stored one the store's refusal of the null date, and the store is left as it was; the corrected update succeeds exactly on a stored id |
| `MemberService.BorrowBookChecks` | src/main/java/org/test_task/service/impl/MemberServiceImpl.java:81-89 | the checks of borrowBook in order: absent member gives NotFound; quota 0 gives DataProcessing even when no such book exists; then no matching book gives NotFound, several give the store's refusal, a book with amount 0 gives DataProcessing; every failure leaves the store unchanged |
| `MemberService.BorrowBookEffect` | src/main/java/org/test_task/service/impl/MemberServiceImpl.java:90-96 | borrowBook succeeds exactly when all checks pass; then it appends exactly that book id to the member's list, takes one from the book's amount and one from the quota, keeps name and date, and changes no other member or book |
| `MemberService.BorrowBookConserves` | src/main/java/org/test_task/service/impl/MemberServiceImpl.java:81-97 | borrowBook keeps the store consistent (amounts and quotas stay non-negative), keeps quota plus held books for every member and amount plus loans for every book |
| `MemberService.BorrowBook` | src/main/java/org/test_task/service/impl/MemberServiceImpl.java:80-97 | the in-place borrowBook returns and leaves exactly what the borrow step says, and keeps the store consistent |
| `MemberService.ReturnBookChecks` | src/main/java/org/test_task/service/impl/MemberServiceImpl.java:100-106 | returnBook gives NotFound on an absent member, on no matching book, and when the member does not hold the book; several matching books give the store's refusal; every failure changes nothing |
| `MemberService.ReturnBookEffect` | src/main/java/org/test_task/service/impl/MemberServiceImpl.java:104-111 | returnBook succeeds exactly when the member holds the found book; then the first occurrence of the book leaves the list and the other entries keep their order (the new list is `RemoveFirst` of the old one; length down by one, multiset minus that book), the amount and the quota go up by one, and nothing else changes |
| `MemberService.ReturnBookConserves` | src/main/java/org/test_task/service/impl/MemberServiceImpl.java:100-112 | returnBook keeps the store consistent and keeps the same two sums as borrowBook |
| `MemberService.ReturnBook` | src/main/java/org/test_task/service/impl/MemberServiceImpl.java:99-112 | the in-place returnBook returns and leaves exactly what the return step says, and keeps the store consistent |
| `MemberService.ReturnAfterBorrow` | src/main/java/org/test_task/service/impl/MemberServiceImpl.java:90-111 | right after a borrow of a book, returning it succeeds and gives back the original books and the original member except that the list has had the book appended and one occurrence removed |
| `MemberService.BorrowThenReturn` | src/main/java/org/test_task/service/impl/MemberServiceImpl.java:90-111 | a successful borrowBook followed by returnBook of the same book restores every amount, the quota and the multiset of the member's books and changes no other member; if the member did not hold the book before, the store is exactly as it was |
| `MemberService.AppendThenRemoveRestores` | src/main/java/org/test_task/service/impl/MemberServiceImpl.java:91-104 | appending a book to a member's list and then removing its first occurrence keeps the quota, the name and the multiset of the list; if the member did not hold the book, the store is exactly as before |
| `MemberService.RemoveFirstAppended` | src/main/java/org/test_task/service/impl/MemberServiceImpl.java:91 | removing a book not otherwise held from the end of a list gives the list back |
| `MemberService.LookupIgnoresAmount` | src/main/java/org/test_task/service/impl/MemberServiceImpl.java:92-93 | changing a book's amount does not change which rows match a title and author |
| `MemberService.BorrowExample` | src/test/java/org/test_task/service/impl/MemberServiceImplTest.java:160-179 | in the model's scenario after the test's borrow case, a member with quota 10 borrowing a book with 3 copies ends with quota 9 and that book in its list, the model's shelf holds 2, and returning it restores the store; the test itself checks the member's quota and list |
| `MemberService.SecondBorrowRefused` | src/main/java/org/test_task/service/impl/MemberServiceImpl.java:83-85 | with a quota of one, the second borrowBook is refused with DataProcessing and changes nothing |
| `BookService.SaveStep` | src/main/java/org/test_task/service/impl/BookServiceImpl.java:30-40 | save as a step: a failure leaves the store as it was and members are never touched; the cases are in `BookService.SaveCases` |
| `BookService.DeleteByIdStep` | src/main/java/org/test_task/service/impl/BookServiceImpl.java:50-55 | deleteById as a step: a failure leaves the store as it was and members are never touched; the rules are in `BookService.DeleteByIdRules` |
| `BookService.UpdateByIdStep` | src/main/java/org/test_task/service/impl/BookServiceImpl.java:58-65 | the corrected updateById as a step: a failure leaves the store as it was and members are never touched; the rules are in `BookService.UpdateByIdRules` |
| `BookService.SaveCases` | src/main/java/org/test_task/service/impl/BookServiceImpl.java:30-40 | save of a new pair inserts a book with amount 1 under the next id; of a pair stored once with amount n != 0 gives that id amount n + 1; of a pair stored once with amount 0 inserts a second row with amount 1 under a new id; of a pair stored several times is refused; members and loans are untouched and the store stays consistent |
| `BookService.SaveOverExhaustedPairDuplicates` | src/main/java/org/test_task/service/impl/BookServiceImpl.java:31-38 | saving a pair whose only row has amount 0 leaves the pair stored twice, after which the lookup of it is ambiguous and the next save of it is refused |
| `BookService.SaveAddsOneCopy` | src/main/java/org/test_task/service/impl/BookServiceImpl.java:34-38 | a merging save adds exactly one copy to that book and leaves every other book and its copies unchanged |
| `BookService.Save` | src/main/java/org/test_task/service/impl/BookServiceImpl.java:30-40 | the in-place save returns and leaves exactly what the save step says, and keeps the store consistent |
| `BookService.FindById` | src/main/java/org/test_task/service/impl/BookServiceImpl.java:43-47 | the stored book when the id is present, NotFound exactly when it is absent |
| `BookService.DeleteByIdRules` | src/main/java/org/test_task/service/impl/BookServiceImpl.java:50-55 | deleteById succeeds exactly when the book has no loan, and then removes only that book; otherwise it gives DataProcessing and changes nothing; every remaining book keeps its copies and the store stays consistent |
| `BookService.DeleteById` | src/main/java/org/test_task/service/impl/BookServiceImpl.java:50-55 | the in-place delete agrees with the delete step and keeps the store consistent |
| `BookService.UpdateByIdRules` | src/main/java/org/test_task/service/impl/BookServiceImpl.java:58-65 | updateById (corrected, see Findings) gives NotFound on an absent id and changes nothing; otherwise the book keeps its id and amount and takes title and author from the request; no other book and no member changes |
| `BookService.UpdateKeepsAmount` | src/main/java/org/test_task/service/impl/BookServiceImpl.java:58-65 | the corrected update succeeds on a stored id and keeps the stored amount |
| `BookService.UpdateById` | src/main/java/org/test_task/service/impl/BookServiceImpl.java:58-65 | the in-place update agrees with the corrected update step and keeps the store consistent |
| `BookService.UpdateByIdAsWritten` | src/main/java/org/test_task/service/impl/BookServiceImpl.java:58-65 | as written, updateById fails exactly on an absent id and otherwise writes a row with the request's title and author |
| `BookService.UpdateAsWrittenLosesAmount` | src/main/java/org/test_task/service/impl/BookServiceImpl.java:62-64 | as written, the row saved by updateById no longer carries the stored amount |
| `BookService.CountTitle` | src/main/java/org/test_task/service/impl/BookServiceImpl.java:82-83 | the count of a title is at most the number of rows, and is 0 exactly when no row carries it |
| `BookService.GroupByTitle` | src/main/java/org/test_task/service/impl/BookServiceImpl.java:82-83 | groupingBy(title, counting()) has one key per title in the rows, each mapped to the positive number of rows carrying it |
| `BookService.GetDistinctBookTitlesAndAmount` | src/main/java/org/test_task/service/impl/BookServiceImpl.java:80-89 | one entry per distinct title in the fetched rows, no title twice, each with the number of rows carrying it; the counts add up to the number of rows; the order is left open |
| `BookService.CountedSumsToLength` | src/main/java/org/test_task/service/impl/BookServiceImpl.java:82-87 | distinct, correctly counted entries covering exactly the rows' titles have counts that add up to the number of rows |
| `BookService.CountAllIsLength` | src/main/java/org/test_task/service/impl/BookServiceImpl.java:82-87 | distinct entries covering every row's title count each row exactly once |
| `BookService.GroupingExample` | src/test/java/org/test_task/service/impl/BookServiceImplTest.java:179-196 | for the test's four rows, any result the method may return holds exactly ("A book", 2), ("A book 2", 1) and ("A book 3", 1), in some order |
| `TitleValidator.IsValid` | src/main/java/org/test_task/validation/book/title/TitleValidator.java:10-14 | isValid: not null and the whole title matches `^[A-Z].{2,}$\n`; its acceptance set is stated in `TitleValidator.TitleAcceptedExactly` |
| `TitleValidator.IsValidIntended` | src/main/java/org/test_task/validation/book/title/TitleValidator.java:10-14 | the same predicate with the pattern `^[A-Z].{2,}$`; related to the written one in `TitleValidator.WrittenIsIntendedPlusNewline` |
| `TitleValidator.TitleAcceptedExactly` | src/main/java/org/test_task/validation/book/title/TitleValidator.java:10-14 | the title predicate accepts exactly: an ASCII capital, then at least two characters that are not line terminators, then one final newline |
| `TitleValidator.DotsThenNewlineExactly` | src/main/java/org/test_task/validation/book/title/TitleValidator.java:10 | `.{n,}$\n` under matches() accepts exactly at least n non-terminators followed by one final newline |
| `TitleValidator.NullTitleRejected` | src/main/java/org/test_task/validation/book/title/TitleValidator.java:14 | a null title is rejected |
| `TitleValidator.AcceptedTitleShape` | src/main/java/org/test_task/validation/book/title/TitleValidator.java:10-14 | an accepted title starts with A-Z, has at least four characters and ends in a newline |
| `TitleValidator.TitleWithoutNewlineRejected` | src/main/java/org/test_task/validation/book/title/TitleValidator.java:10 | a title not ending in a newline, such as "A book", is rejected |
| `TitleValidator.ExampleTitles` | src/main/java/org/test_task/validation/book/title/TitleValidator.java:10 | "A book" is rejected, "A book\n" is accepted |
| `TitleValidator.WrittenIsIntendedPlusNewline` | src/main/java/org/test_task/validation/book/title/TitleValidator.java:10 | the written pattern accepts a string plus a newline exactly when the intended pattern accepts the string, and accepts no title that the intended pattern accepts |
| `TitleValidator.ExampleTitlesIntended` | src/main/java/org/test_task/validation/book/title/TitleValidator.java:10 | the intended pattern accepts "A book" and "Dune" and rejects "dune" and "Du" |
| `AuthorNameValidator.IsValid` | src/main/java/org/test_task/validation/book/author/AuthorNameValidator.java:10-14 | isValid: not null and the whole name matches `^[A-Z][a-z]* [A-Z][a-z]*$`; its acceptance set is stated in `AuthorNameValidator.AuthorAcceptedExactly` |
| `AuthorNameValidator.LowersExactly` | src/main/java/org/test_task/validation/book/author/AuthorNameValidator.java:10 | `[a-z]*` accepts exactly the strings of ASCII lower-case letters |
| `AuthorNameValidator.WordExactly` | src/main/java/org/test_task/validation/book/author/AuthorNameValidator.java:10 | `[A-Z][a-z]*` accepts exactly a capital followed by lower-case letters |
| `AuthorNameValidator.LowersThenSecondWordExactly` | src/main/java/org/test_task/validation/book/author/AuthorNameValidator.java:10 | `[a-z]* [A-Z][a-z]*` holds exactly when the string splits at a space into lower-case letters and a word |
| `AuthorNameValidator.AuthorAcceptedExactly` | src/main/java/org/test_task/validation/book/author/AuthorNameValidator.java:10-14 | the author predicate accepts exactly two words of the form `[A-Z][a-z]*` separated by one space |
| `AuthorNameValidator.AcceptedAuthorShape` | src/main/java/org/test_task/validation/book/author/AuthorNameValidator.java:10-14 | an accepted name holds exactly one space, has at least three characters, starts with a capital, has a capital after the space, and holds no digit |
| `AuthorNameValidator.NullAuthorRejected` | src/main/java/org/test_task/validation/book/author/AuthorNameValidator.java:14 | a null name is rejected |
| `AuthorNameValidator.AuthorRejections` | src/main/java/org/test_task/validation/book/author/AuthorNameValidator.java:10-14 | a digit, a lower-case initial of either word, or a second space makes a name invalid |
| `AuthorNameValidator.ExampleAuthorRejected` | src/main/java/org/test_task/validation/book/author/AuthorNameValidator.java:10 | "An author" is rejected |
| `AuthorNameValidator.ExampleAuthorAccepted` | src/main/java/org/test_task/validation/book/author/AuthorNameValidator.java:10 | "Frank Herbert" is accepted |
| `AuthorNameValidator.NoAuthorNameIsATitle` | src/main/java/org/test_task/validation/book/title/TitleValidator.java:10 | no name the author pattern accepts passes the title pattern |
| `FieldValidation.ValidateAuthorField` | src/main/java/org/test_task/validation/book/author/AuthorName.java:12 | the author field as wired: `@AuthorName` names TitleValidator, so the field is checked with the title predicate |
| `FieldValidation.ValidateAuthorFieldIntended` | src/main/java/org/test_task/validation/book/author/AuthorNameValidator.java:13-15 | the author field checked by AuthorNameValidator |
| `FieldValidation.IsValidBookRequest` | src/main/java/org/test_task/dto/book/CreateBookRequestDto.java:6-9 | a CreateBookRequestDto passes validation when `@Title` accepts the title and `@AuthorName`, as wired, accepts the author |
| `FieldValidation.AuthorFieldRefusesEveryName` | src/main/java/org/test_task/validation/book/author/AuthorName.java:12 | with `@AuthorName` validated by TitleValidator, every well-formed author name is refused by the author field, while the validator written for it accepts it |
| `FieldValidation.BookRequestExamples` | src/main/java/org/test_task/dto/book/CreateBookRequestDto.java:6-9 | as wired, no book request whose author is a well-formed name is valid; with the intended title pattern and the author validator, ("Dune", "Frank Herbert") is valid |

## Left out

- The HTTP controllers, status codes and the `@Valid`/`@Positive` processing are not modelled. They are framework glue.
- SQL is not modelled.
  - `LIKE` in the lookups is read as exact equality, so a `%` or `_` in a title or author is not treated as a wildcard.
  - Pagination and `Page` are not modelled. getDistinctBookTitlesAndAmount takes the fetched page of borrowed rows as its input sequence. `Store.BorrowedRowsOnePerLoan` describes the whole, unpaged join.
- getAll (both services), findDistinctBorrowedBookTitle and getAllBooksByMemberName are left out. They are pass-throughs from a paged query to a mapper, with no logic of the services' own.
- The MapStruct mappers and the DTO records are not modelled. Plain datatypes stand for them. Only their effect on update is modelled: the entity is fresh, so its fields are unset.
- The clock and the configuration are parameters. `LocalDate.now()` becomes `today`. `Environment.getProperty` plus `Integer.parseInt` become `defaultQuota`.
- `MemberService.Save`: does not model a missing or unparsable `book.amount` property, nor a negative configured value. The quota is taken as a natural number.
- Amounts and quotas are unbounded integers. Java's 32-bit `int` and `Integer` overflow, and `Long.intValue()` on the counts, are not modelled. Reaching them would take 2^31 copies or rows.
- A null `Book.amount` is not modelled. The corrected model never produces one; only `BookService.UpdateByIdAsWritten` writes it.
- Each service call is treated as atomic. Left out:
  - the non-transactional pair of writes in borrowBook and returnBook;
  - the race between concurrent borrows of the last copy;
  - persistence failures between the two writes.
- The exception message strings are left out. Only the error kind is kept: NotFound, DataProcessing, or the store's refusal of a single-result query that finds several rows. Spring reports that refusal as `IncorrectResultSizeDataAccessException`.
- The store's refusal of a null NOT NULL column is modelled for updateById of a member only (`MemberService.UpdateByIdStepAsWritten`). It is reported as the error kind ConstraintViolation. Whether Hibernate or the database raises it, and the exception type, are not modelled.
- `FieldValidation.ValidateAuthorField`: the model assumes the framework applies the validator `@AuthorName` declares. TitleValidator implements `ConstraintValidator<Title, String>` (TitleValidator.java:9), so Hibernate Validator may refuse the constraint definition instead of checking the author with the title pattern. That framework check is not modelled.
- Entity identity is modelled by book id. `List.remove` removes by identity, which for the entities of one session is the first entry with that id.

## Findings

| source | as written | input that shows it | evidently intended | confidence | as-written member | corrected member |
|---|---|---|---|---|---|---|
| src/main/java/org/test_task/validation/book/title/TitleValidator.java:10 | the title pattern ends in `$\n`, so a title is accepted only with a trailing newline | "A book" is rejected, "A book\n" is accepted | `^[A-Z].{2,}$`: a capital and at least two more characters | not executed | `TitleValidator.WrittenIsIntendedPlusNewline` | `TitleValidator.IsValidIntended` |
| src/main/java/org/test_task/validation/book/author/AuthorName.java:12 | `@AuthorName` is validated by TitleValidator, so the author field gets the title pattern | "Frank Herbert" is refused as an author | validation by AuthorNameValidator | not executed | `FieldValidation.ValidateAuthorField` | `FieldValidation.ValidateAuthorFieldIntended` |
| src/main/java/org/test_task/service/impl/BookServiceImpl.java:62-64 | updateById saves a fresh entity from the request under the stored id, so the amount becomes null | updating a book with amount 3 writes a row with no amount | keep the stored amount, change title and author | not executed | `BookService.UpdateAsWrittenLosesAmount` | `BookService.UpdateByIdStep` |
| src/main/java/org/test_task/service/impl/MemberServiceImpl.java:75-77 | updateById asks save to overwrite the member with a fresh entity from the request: null date, quota 0, no books; the NOT NULL date column refuses that write, so a stored member is never renamed | updating any stored member, for example one with quota 9 holding one book, fails and changes nothing | rename the member, keep everything else | not executed | `MemberService.UpdateAsWrittenNeverRenames` | `MemberService.UpdateByIdStep` |

For each finding:

- The corrected definition is what the rest of the model uses. The Database methods follow the corrected update steps. `FieldValidation.IsValidBookRequestIntended` uses the corrected validators.
- The properties of the corrected definitions are proved:
  - `TitleValidator.ExampleTitlesIntended` and `TitleValidator.WrittenIsIntendedPlusNewline`;
  - `FieldValidation.AuthorFieldRefusesEveryName` and `FieldValidation.BookRequestExamples`;
  - `BookService.UpdateKeepsAmount` and `BookService.UpdateByIdRules`;
  - `MemberService.UpdateByIdRules`.
