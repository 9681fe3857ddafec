/**
 * The corpus the reader shows: an ordered list of books, each with an
 * ordered list of chapters, each chapter an ordered list of verses.
 * The concrete books are static data and are not part of this model;
 * everything below works for any corpus.
 */
module Corpus {

  /** A chapter's verses; the reader numbers them from 1 (index + 1). */
  datatype Chapter = Chapter(content: seq<string>)

  datatype Book = Book(id: string, title: string, category: string, chapters: seq<Chapter>)

  /** Every book of the corpus has at least one chapter to display. */
  predicate WellFormed(books: seq<Book>)
  {
    forall b :: b in books ==> |b.chapters| > 0
  }

  /** The six category tags the sidebar has a section for. */
  const OldTestament: string := "old-testament"
  const NewTestament: string := "new-testament"
  const MarcionGospel: string := "marcion-gospel"
  const Apostolikon: string := "apostolikon"
  const NagHammadi: string := "nag-hammadi"
  const OtherTexts: string := "other"

  /** The sections in the order the sidebar lists them. */
  const Sections: seq<string> := [OldTestament, NewTestament, MarcionGospel, Apostolikon, NagHammadi, OtherTexts]

  predicate Distinct(tags: seq<string>)
  {
    forall i, j :: 0 <= i < j < |tags| ==> tags[i] != tags[j]
  }

  /** No two sidebar sections share a tag. */
  lemma SectionsDistinct()
    ensures Distinct(Sections)
  {
  }
}
