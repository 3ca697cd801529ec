/** The persisted entities (model/Book.java, model/Member.java) and the request and reply shapes. */
module Entities {

  /** Surrogate keys, generated by the store (IDENTITY columns). */
  type BookId = nat
  type MemberId = nat

  /** A calendar day (LocalDate) as a day number; the service reads it from the clock. */
  type Date = int

  /** A row of the books table: title, author and the copies currently available. */
  datatype Book = Book(title: string, author: string, amount: int)

  /**
    A row of the members table with its loans: the join table member_books gives, per member,
    the list of ids of the books it holds, one entry per loan.
   */
  datatype Member = Member(
    name: string,
    membershipDate: Date,
    availableBookAmount: int,
    books: seq<BookId>)

  /** CreateBookRequestDto: the (title, author) pair a request names a book by. */
  datatype BookRequest = BookRequest(title: string, author: string)

  /** CreateMemberRequestDto. */
  datatype MemberRequest = MemberRequest(name: string)

  /** ShowBookInfoResponseDto: a title and how many borrowed rows carry it. */
  datatype ShowBookInfo = ShowBookInfo(title: string, amount: int)

  /**
    The failures a service call ends with: EntityNotFoundException, DataProcessingException, and
    the store's refusal of a single-result query that finds several rows
    (IncorrectResultSizeDataAccessException), and the store's refusal of a row that leaves a
    NOT NULL column empty (DataIntegrityViolationException).
   */
  datatype Error = NotFound | DataProcessing | NonUniqueResult | ConstraintViolation

  datatype Result<T> = Ok(value: T) | Err(error: Error)
}
