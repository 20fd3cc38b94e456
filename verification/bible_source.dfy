/**
 The rows the export scripts read, and the three parameterised queries they
 run. A query stands for the rows the database returns for its parameters,
 in the order its `ORDER BY` gives them.
 */
module BibleSource {
  import opened Optional

  /** A `Book` row: `commonName` may be `NULL`. */
  datatype BookRow = BookRow(id: string, name: string, commonName: Option<string>, order: int)

  /** A `Chapter` row; only its number is read. */
  datatype ChapterRow = ChapterRow(number: int)

  /** A `ChapterVerse` row: `text` may be `NULL`. */
  datatype VerseRow = VerseRow(number: int, text: Option<string>)

  /** The three queries, as functions of their parameters:
      `books(translationId)` is `Book WHERE translationId = ? ORDER BY "order"`,
      `chapters(translationId, bookId)` is `Chapter WHERE ... ORDER BY number`,
      `verses(translationId, bookId, chapterNumber)` is
      `ChapterVerse WHERE ... ORDER BY number`. */
  datatype Source = Source(
    books: string -> seq<BookRow>,
    chapters: (string, string) -> seq<ChapterRow>,
    verses: (string, string, int) -> seq<VerseRow>)

  /** JavaScript truthiness of a nullable string: neither `null` nor `""`. */
  predicate Truthy(s: Option<string>) {
    s.Some? && s.value != ""
  }

  /** The two sources return the same rows for every query about `tid`. */
  ghost predicate SameTranslation(a: Source, b: Source, tid: string) {
    && a.books(tid) == b.books(tid)
    && (forall bookId :: a.chapters(tid, bookId) == b.chapters(tid, bookId))
    && (forall bookId, n :: a.verses(tid, bookId, n) == b.verses(tid, bookId, n))
  }
}
