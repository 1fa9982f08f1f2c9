/** `BookService.UploadBook`: parse the uploaded EPUB, let the caller's title and author
    stand in for blank metadata and the caller's language replace the parsed one, number
    chapters and paragraphs by position, store the book, and store the cover when there
    are cover bytes. The repository is modelled by what it is handed: the book to add and
    the cover image to save, if any. */
module BookService {
  import opened Wrappers
  import opened Text
  import opened Domain
  import opened Parser

  /** The title and author overrides and the language override. */
  function ApplyOverrides(b: Book, title: Option<string>, author: Option<string>, languageId: Option<string>): (r: Book)
    ensures IsNullOrWhiteSpace(b.title) ==> r.title == title
    ensures !IsNullOrWhiteSpace(b.title) ==> r.title == b.title
    ensures IsNullOrWhiteSpace(b.author) ==> r.author == author
    ensures !IsNullOrWhiteSpace(b.author) ==> r.author == b.author
    ensures !IsNullOrWhiteSpace(languageId) ==> r.languageId == languageId
    ensures IsNullOrWhiteSpace(languageId) ==> r.languageId == b.languageId
    ensures r.coverImagePath == b.coverImagePath && r.chapters == b.chapters
  {
    var b1 := if IsNullOrWhiteSpace(b.title) then b.(title := title) else b;
    var b2 := if IsNullOrWhiteSpace(b1.author) then b1.(author := author) else b1;
    if !IsNullOrWhiteSpace(languageId) then b2.(languageId := languageId) else b2
  }

  /** Applying the overrides a second time with the same arguments changes nothing. */
  lemma ApplyOverridesIdempotent(b: Book, title: Option<string>, author: Option<string>, languageId: Option<string>)
    ensures var once := ApplyOverrides(b, title, author, languageId);
      ApplyOverrides(once, title, author, languageId) == once
  {
  }

  /** The book has a title that is not blank exactly when the EPUB had one or the caller
      supplied one; the same holds for the author. */
  lemma ApplyOverridesFillsBlanks(b: Book, title: Option<string>, author: Option<string>, languageId: Option<string>)
    ensures var r := ApplyOverrides(b, title, author, languageId);
      && (!IsNullOrWhiteSpace(r.title) <==> !IsNullOrWhiteSpace(b.title) || !IsNullOrWhiteSpace(title))
      && (!IsNullOrWhiteSpace(r.author) <==> !IsNullOrWhiteSpace(b.author) || !IsNullOrWhiteSpace(author))
  {
  }

  /** The inner renumbering loop: paragraph j gets number j + 1. */
  function RenumberParagraphs(ps: seq<Paragraph>): (r: seq<Paragraph>)
    ensures |r| == |ps|
    ensures ParagraphsNumberedFrom(r, 1)
    ensures ParagraphTexts(r) == ParagraphTexts(ps)
  {
    seq(|ps|, j requires 0 <= j < |ps| => ps[j].(paragraphNumber := j + 1))
  }

  /** The outer renumbering loop: chapter i gets number i + 1, and its paragraphs are
      renumbered. */
  function Renumber(cs: seq<Chapter>): (r: seq<Chapter>)
    ensures ChaptersNumberedFrom(r, 1)
    ensures SameShape(r, cs)
  {
    seq(|cs|, i requires 0 <= i < |cs| =>
      cs[i].(chapterNumber := i + 1, paragraphs := RenumberParagraphs(cs[i].paragraphs)))
  }

  /** Two chapter lists that differ at most in their numbers: the same chapters in the same
      order, with the same titles and the same paragraph texts in the same order. */
  predicate SameShape(cs: seq<Chapter>, ds: seq<Chapter>) {
    && |cs| == |ds|
    && forall i | 0 <= i < |cs| ::
      cs[i].title == ds[i].title && ParagraphTexts(cs[i].paragraphs) == ParagraphTexts(ds[i].paragraphs)
  }

  /** Paragraph lists with the same texts and the same numbers are equal. */
  lemma ParagraphsEqual(ps: seq<Paragraph>, qs: seq<Paragraph>, first: int)
    requires ParagraphTexts(ps) == ParagraphTexts(qs)
    requires ParagraphsNumberedFrom(ps, first) && ParagraphsNumberedFrom(qs, first)
    ensures ps == qs
  {
    assert |ps| == |ParagraphTexts(ps)| == |qs|;
    forall j | 0 <= j < |ps| ensures ps[j] == qs[j] {
      assert ps[j].text == ParagraphTexts(ps)[j] == ParagraphTexts(qs)[j] == qs[j].text;
    }
  }

  /** Renumbering gives the only correctly numbered list of that shape: a numbered list
      with the same shape is the renumbered one. */
  lemma RenumberUnique(cs: seq<Chapter>, ds: seq<Chapter>)
    requires SameShape(cs, ds) && ChaptersNumberedFrom(ds, 1)
    ensures Renumber(cs) == ds
  {
    var r := Renumber(cs);
    forall i | 0 <= i < |r| ensures r[i] == ds[i] {
      ParagraphsEqual(r[i].paragraphs, ds[i].paragraphs, 1);
    }
  }

  /** A list that is already numbered is left as it is, so renumbering twice is
      renumbering once. */
  lemma RenumberFixpoint(cs: seq<Chapter>)
    requires ChaptersNumberedFrom(cs, 1)
    ensures Renumber(cs) == cs
  {
    RenumberUnique(cs, cs);
  }

  lemma RenumberIdempotent(cs: seq<Chapter>)
    ensures Renumber(Renumber(cs)) == Renumber(cs)
  {
    RenumberFixpoint(Renumber(cs));
  }

  /** The renumbering pass as the code runs it: two nested loops that overwrite the
      numbers one chapter and one paragraph at a time. */
  method RenumberLoop(cs: seq<Chapter>) returns (r: seq<Chapter>)
    ensures r == Renumber(cs)
  {
    r := cs;
    var i := 0;
    while i < |r|
      invariant 0 <= i <= |r| == |cs|
      invariant r[..i] == Renumber(cs)[..i]
      invariant r[i..] == cs[i..]
    {
      var chapter := r[i];
      var ps := chapter.paragraphs;
      var j := 0;
      while j < |ps|
        invariant 0 <= j <= |ps| == |chapter.paragraphs|
        invariant ps[..j] == RenumberParagraphs(chapter.paragraphs)[..j]
        invariant ps[j..] == chapter.paragraphs[j..]
      {
        ps := ps[j := ps[j].(paragraphNumber := j + 1)];
        j := j + 1;
      }
      assert ps == RenumberParagraphs(chapter.paragraphs);
      r := r[i := chapter.(chapterNumber := i + 1, paragraphs := ps)];
      i := i + 1;
    }
    assert r == r[..i];
  }

  /** The cover is saved only when there are cover bytes and they are not empty. */
  function StoredCover(cover: Option<seq<byte>>): (r: Option<seq<byte>>)
    ensures r.Some? <==> cover.Some? && |cover.value| > 0
    ensures r.Some? ==> r == cover
  {
    if cover.Some? && |cover.value| > 0 then cover else None
  }

  /** What the upload hands to the repository: the book to add, and the cover image to
      save for it, if any. */
  datatype Upload = Upload(saved: Book, storedCover: Option<seq<byte>>)

  /** `UploadBook`: a parse failure is passed on to the caller; otherwise the overridden,
      renumbered book is added and its cover saved when there are cover bytes. */
  function UploadBook(stream: Option<Stream>, title: Option<string>, author: Option<string>, languageId: Option<string>): (r: Result<Upload, ParseError>)
    ensures ParseAsync(stream).Failure? ==> r == Failure(ParseAsync(stream).error)
    ensures r.Success? <==> ParseAsync(stream).Success?
    ensures r.Success? ==>
      var (parsed, cover) := ParseAsync(stream).value;
      var saved := r.value.saved;
      && saved == ApplyOverrides(parsed, title, author, languageId).(chapters := saved.chapters)
      && WellNumbered(saved)
      && SameShape(saved.chapters, parsed.chapters)
      && (r.value.storedCover.Some? <==> cover.Some? && |cover.value| > 0)
      && (r.value.storedCover.Some? ==> r.value.storedCover == cover)
  {
    var (parsed, cover) :- ParseAsync(stream);
    var b := ApplyOverrides(parsed, title, author, languageId);
    var saved := b.(chapters := Renumber(b.chapters));
    Success(Upload(saved, StoredCover(cover)))
  }

  /** The parser already numbers chapters and paragraphs from 1, so the renumbering pass
      leaves the parsed chapters exactly as they were. */
  lemma UploadKeepsParsedChapters(stream: Option<Stream>, title: Option<string>, author: Option<string>, languageId: Option<string>)
    requires ParseAsync(stream).Success?
    ensures UploadBook(stream, title, author, languageId).value.saved.chapters == ParseAsync(stream).value.0.chapters
  {
    RenumberFixpoint(ParseAsync(stream).value.0.chapters);
  }
}
