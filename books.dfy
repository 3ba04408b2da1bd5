/** The records the resolver reads, fetches, caches and renders. */
module Books {
  import opened Wrappers

  /**
   * Where a record's data came from on this row. `Unset` is the enum's
   * default value 0, which a failed lookup leaves in place.
   */
  datatype RetrievalType = Unset | Server | Cache

  /**
   * One bibliographic record. `authors` is `None` where the source leaves the
   * list null (a failed lookup); the other text fields of such a record are
   * null in the source and render as empty text, so they are "" here.
   */
  datatype BookData = BookData(
    rowNumber: int,
    retrievalType: RetrievalType,
    isbn: string,
    title: string,
    subtitle: string,
    authors: Option<seq<string>>,
    numberOfPages: string,
    publishDate: string)

  /** A freshly allocated record: every property at its default value. */
  const Blank: BookData := BookData(0, Unset, "", "", "", None, "", "")

  /** An entry of the remote record's `authors` array. */
  datatype RawAuthor = RawAuthor(name: string)

  /** The remote record for one ISBN as the lookup service returns it. */
  datatype RawBook = RawBook(
    title: string,
    subtitle: Option<string>,
    authors: seq<RawAuthor>,
    numberOfPages: Option<string>,
    publishDate: string)

  /** One parsed input identifier with the 1-based number of the line it came from. */
  datatype Entry = Entry(rowNumber: int, isbn: string)

  /** Two records carry the same bibliographic data, whatever their row and origin. */
  predicate SameData(a: BookData, b: BookData) {
    a.isbn == b.isbn && a.title == b.title && a.subtitle == b.subtitle
    && a.authors == b.authors && a.numberOfPages == b.numberOfPages
    && a.publishDate == b.publishDate
  }
}
