/** The book tree the ingestion produces: a book holds chapters, a chapter holds
    paragraphs, and both are numbered from 1 by position. Database identities (`Id`,
    `BookId`) belong to persistence and are not part of this model. */
module Domain {
  import opened Wrappers

  /** One byte of an image file. */
  newtype byte = b: int | 0 <= b < 256

  /** A paragraph: its number within the chapter and its text. */
  datatype Paragraph = Paragraph(paragraphNumber: int, text: string)

  /** A chapter: its number within the book, its title and its paragraphs. */
  datatype Chapter = Chapter(chapterNumber: int, title: string, paragraphs: seq<Paragraph>)

  /** A book. Title, author and language may be null (`None`): the parser copies title
      and author from the EPUB metadata and never sets the language. */
  datatype Book = Book(
    title: Option<string>,
    author: Option<string>,
    languageId: Option<string>,
    coverImagePath: Option<string>,
    chapters: seq<Chapter>)

  /** Paragraph j (0-based) has number `first + j`. */
  predicate ParagraphsNumberedFrom(ps: seq<Paragraph>, first: int) {
    forall j | 0 <= j < |ps| :: ps[j].paragraphNumber == first + j
  }

  /** Chapter i (0-based) has number `first + i`, and its paragraphs are numbered 1..M. */
  predicate ChaptersNumberedFrom(cs: seq<Chapter>, first: int) {
    forall i | 0 <= i < |cs| ::
      cs[i].chapterNumber == first + i && ParagraphsNumberedFrom(cs[i].paragraphs, 1)
  }

  /** Chapters numbered 1..K, paragraphs 1..M within each chapter. */
  predicate WellNumbered(b: Book) {
    ChaptersNumberedFrom(b.chapters, 1)
  }

  /** The texts of a chapter's paragraphs, in order. */
  function ParagraphTexts(ps: seq<Paragraph>): (r: seq<string>)
    ensures |r| == |ps|
  {
    seq(|ps|, j requires 0 <= j < |ps| => ps[j].text)
  }
}
