/** The book record as the catalog API returns it, reduced to the fields
    the pages read. */
module Catalog {
  import opened Basics

  /** One catalog entry. `authors` holds the authors' names; `formats`
      holds the entries of the format object (MIME type to URL) in their
      enumeration order; `copyright` is None for a JSON null. */
  datatype Book = Book(
    id: int,
    title: string,
    authors: seq<string>,
    bookshelves: seq<string>,
    languages: seq<string>,
    formats: seq<(string, string)>,
    downloadCount: int,
    copyright: Option<bool>
  )
}
