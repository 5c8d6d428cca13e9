/** The three entities of the library: books, borrowers and loan transactions. */
module Model {

  /** A catalogue entry. Books are never edited once created. */
  datatype Book = Book(
    title: string,
    author: string,
    isbn: string,
    category: string,
    year: int,
    publisher: string,
    shelfLocation: string)

  /**
   * A patron. `fines` is the running balance, kept as a whole number of
   * cents; the only code that reads it compares two balances.
   */
  datatype Borrower = Borrower(name: string, id: string, contact: string, fines: int)

  /** A new borrower owes nothing. */
  function NewBorrower(name: string, id: string, contact: string): (b: Borrower)
    ensures b.name == name && b.id == id && b.contact == contact && b.fines == 0
  {
    Borrower(name, id, contact, 0)
  }

  /**
   * One loan. The same object is held by the lending ledger and by the
   * overdue queue, so a return recorded in the ledger is seen by the queue.
   * Dates are day numbers; `returnDate` is the date the book is due back.
   * Only `returned` ever changes after construction.
   */
  class Transaction {
    const isbn: string
    const borrowerId: string
    const borrowDate: int
    const returnDate: int
    var returned: bool

    constructor (isbn: string, borrowerId: string, borrowDate: int, returnDate: int)
      ensures this.isbn == isbn && this.borrowerId == borrowerId
      ensures this.borrowDate == borrowDate && this.returnDate == returnDate
      ensures !returned
    {
      this.isbn := isbn;
      this.borrowerId := borrowerId;
      this.borrowDate := borrowDate;
      this.returnDate := returnDate;
      this.returned := false;
    }
  }
}
