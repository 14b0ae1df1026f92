/** Rows of the tables that the Goodreads preparation scripts pass from step to step. */
module Tables {

  datatype Option<+T> = None | Some(value: T)

  datatype Result<+R, +E> = Success(value: R) | Failure(error: E)

  /** One line of a Goodreads interactions file, with the columns the scripts read.
      User and book ids are modelled by integers that keep their order. */
  datatype Record = Record(
    user: int,
    book: int,
    rating: int,
    isRead: bool,
    readAt: string,
    dateAdded: string)

  /** A cleaned interaction: the `datetime_read` column still holds the date text. */
  datatype Dated = Dated(user: int, book: int, rating: int, dateRead: string)

  /** An interaction once `datetime_read` has been parsed to a point in time. */
  datatype Row = Row(user: int, book: int, rating: int, time: int)

  /** A row with the columns the splitter adds: its rank among the user's rows,
      the user's row count, and the test flag (`perc` is rank / count). */
  datatype Ranked = Ranked(row: Row, rank: nat, count: nat, test: bool)

  /** A row of book_ratings_train.csv / book_ratings_test.csv. */
  datatype OutRow = OutRow(
    book: int,
    user: int,
    encBook: nat,
    encUser: nat,
    rating: int,
    time: int)

  /** An encoded row that still carries its test flag. */
  datatype Labelled = Labelled(out: OutRow, test: bool)
}
