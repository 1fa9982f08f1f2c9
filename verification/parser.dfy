/** `Parser.ParseAsync` and its helpers: the chapters of a book come from the navigation
    (table of contents) when it has entries, otherwise from the reading order. A chapter
    that ends up without paragraphs is dropped, and numbers count only the chapters and
    paragraphs that survive. The EPUB reader itself is not modelled: its result is the
    input. */
module Parser {
  import opened Wrappers
  import opened Text
  import opened Extractor
  import opened Domain

  /** An HTML file of the EPUB; its content may be null. */
  datatype ContentFile = ContentFile(content: Option<string>)

  /** A navigation entry: its title, its link (null when the entry links nowhere), and the
      content file the reader resolved the link to (null when it resolved none). Nested
      entries are not read by the parser. */
  datatype NavItem = NavItem(title: string, link: Option<string>, htmlContentFile: Option<ContentFile>)

  /** What the EPUB reader returns: metadata, the navigation (null or a list), the reading
      order and the cover image bytes (null when there is no cover). */
  datatype EpubBook = EpubBook(
    title: Option<string>,
    author: Option<string>,
    navigation: Option<seq<NavItem>>,
    readingOrder: seq<ContentFile>,
    coverImage: Option<seq<byte>>)

  /** The file stream as the EPUB reader sees it: a readable EPUB, or one the reader
      rejects. */
  datatype Stream = Readable(epub: EpubBook) | Unreadable(reason: string)

  /** Why parsing fails: a null stream, a stream the reader rejects, or a navigation entry
      with a link but no content file, which the code dereferences. */
  datatype ParseError = ArgumentNull | InvalidFormat(reason: string) | NullReference

  /** The paragraph loop: every text that is not blank becomes a paragraph with its
      trimmed text, numbered on from `first`. */
  function NumberParagraphs(texts: seq<string>, first: int): (r: seq<Paragraph>)
    ensures |r| <= |texts|
    ensures ParagraphsNumberedFrom(r, first)
  {
    if texts == [] then []
    else if IsBlank(texts[0]) then NumberParagraphs(texts[1..], first)
    else [Paragraph(first, Trim(texts[0]))] + NumberParagraphs(texts[1..], first + 1)
  }

  /** A text that is already trimmed and not blank becomes the next paragraph as it is. */
  lemma NumberParagraphsStep(t: string, rest: seq<string>, first: int)
    requires Normalized(t) && t != []
    ensures NumberParagraphs([t] + rest, first) == [Paragraph(first, t)] + NumberParagraphs(rest, first + 1)
  {
    assert !IsWhiteSpace(t[0]);
    TrimFixpoint(t);
    assert ([t] + rest)[1..] == rest;
  }

  /** The texts of a paragraph in front of others. */
  lemma ParagraphTextsCons(p: Paragraph, ps: seq<Paragraph>)
    ensures ParagraphTexts([p] + ps) == [p.text] + ParagraphTexts(ps)
  {
  }

  /** Numbering keeps every extracted paragraph verbatim and in order: the extractor's
      texts are already trimmed and not blank. */
  lemma {:induction false} NumberParagraphsKeepsTexts(texts: seq<string>, first: int)
    requires forall j | 0 <= j < |texts| :: Normalized(texts[j]) && texts[j] != []
    ensures ParagraphTexts(NumberParagraphs(texts, first)) == texts
    decreases |texts|
  {
    if texts != [] {
      var t := texts[0];
      NumberParagraphsStep(t, texts[1..], first);
      assert texts == [t] + texts[1..];
      NumberParagraphsKeepsTexts(texts[1..], first + 1);
      ParagraphTextsCons(Paragraph(first, t), NumberParagraphs(texts[1..], first + 1));
    }
  }

  /** The paragraphs of one content file, numbered 1..M. */
  function FileParagraphs(content: Option<string>): (r: seq<Paragraph>)
    ensures ParagraphsNumberedFrom(r, 1)
  {
    NumberParagraphs(ExtractParagraphsFromHtml(content), 1)
  }

  /** A file's paragraphs hold exactly the extracted texts, in order. */
  lemma FileParagraphsTexts(content: Option<string>)
    ensures ParagraphTexts(FileParagraphs(content)) == ExtractParagraphsFromHtml(content)
  {
    NumberParagraphsKeepsTexts(ExtractParagraphsFromHtml(content), 1);
  }

  /** Every paragraph text of a file is trimmed, with runs of whitespace collapsed, and
      not empty. */
  lemma FileParagraphsNormalized(content: Option<string>)
    ensures forall j | 0 <= j < |FileParagraphs(content)| ::
      Normalized(FileParagraphs(content)[j].text) && FileParagraphs(content)[j].text != []
  {
    FileParagraphsTexts(content);
    var ps := FileParagraphs(content);
    var texts := ExtractParagraphsFromHtml(content);
    forall j | 0 <= j < |ps| ensures Normalized(ps[j].text) && ps[j].text != [] {
      assert ps[j].text == ParagraphTexts(ps)[j] == texts[j];
    }
  }

  /** A navigation entry that makes the parse fail: it has a link but no content file,
      which the code dereferences. */
  predicate Broken(item: NavItem) {
    item.link.Some? && item.htmlContentFile.None?
  }

  /** A navigation entry that gives a chapter: it links to a content file with paragraphs. */
  predicate Survives(item: NavItem) {
    item.link.Some? && item.htmlContentFile.Some?
      && FileParagraphs(item.htmlContentFile.value.content) != []
  }

  /** What one navigation entry yields: no paragraphs when it has no link, an error when it
      links to no content file, otherwise the paragraphs of its file. */
  function EntryParagraphs(item: NavItem): (r: Result<seq<Paragraph>, ParseError>)
    ensures r.Failure? <==> Broken(item)
    ensures r.Failure? ==> r.error == NullReference
    ensures r.Success? ==> ParagraphsNumberedFrom(r.value, 1)
    ensures r.Success? && r.value != [] <==> Survives(item)
    ensures item.link.None? ==> r == Success([])
  {
    if item.link.None? then Success([])
    else match item.htmlContentFile
      case None => Failure(NullReference)
      case Some(file) => Success(FileParagraphs(file.content))
  }

  /** The chapter numbered `n` made of what an entry titled `title` yielded: none when it
      yielded no paragraphs. */
  function EntryChapter(title: string, found: Result<seq<Paragraph>, ParseError>, n: int): (r: Result<Option<Chapter>, ParseError>)
    ensures r.Failure? <==> found.Failure?
    ensures r.Failure? ==> r.error == found.error
    ensures r.Success? ==> (r.value.None? <==> found.value == [])
    ensures r.Success? && r.value.Some? ==> r.value.value == Chapter(n, title, found.value)
  {
    match found
    case Failure(e) => Failure(e)
    case Success(ps) => if ps == [] then Success(None) else Success(Some(Chapter(n, title, ps)))
  }

  /** `ParseNavigationItem`: an entry without a link gives no chapter; an entry with a
      link reads its content file and gives a chapter with the entry's title and number
      `chapterNumber` when the file has paragraphs. */
  function ParseNavigationItem(item: NavItem, chapterNumber: int): (r: Result<Option<Chapter>, ParseError>)
    ensures r.Failure? <==> item.link.Some? && item.htmlContentFile.None?
    ensures r.Failure? ==> r.error == NullReference
    ensures item.link.None? ==> r == Success(None)
    ensures r.Success? && item.link.Some? ==>
      (r.value.None? <==> FileParagraphs(item.htmlContentFile.value.content) == [])
    ensures r.Success? && r.value.Some? ==>
      var c := r.value.value;
      && c.chapterNumber == chapterNumber
      && c.title == item.title
      && c.paragraphs == FileParagraphs(item.htmlContentFile.value.content)
      && c.paragraphs != []
  {
    EntryChapter(item.title, EntryParagraphs(item), chapterNumber)
  }

  /** A navigation entry's title together with what it yielded. */
  datatype Entry = Entry(title: string, found: Result<seq<Paragraph>, ParseError>)

  /** Paragraph lists as a file's paragraphs are: numbered 1..M. */
  predicate WellFound(es: seq<Entry>) {
    forall k | 0 <= k < |es| :: es[k].found.Success? ==> ParagraphsNumberedFrom(es[k].found.value, 1)
  }

  /** The navigation entries with what each yields, in order. */
  function Entries(items: seq<NavItem>): (r: seq<Entry>)
    ensures |r| == |items|
    ensures forall k | 0 <= k < |r| :: r[k] == Entry(items[k].title, EntryParagraphs(items[k]))
    ensures WellFound(r)
  {
    seq(|items|, k requires 0 <= k < |items| => Entry(items[k].title, EntryParagraphs(items[k])))
  }

  /** The navigation loop over what the entries yield: the entries that give a chapter,
      numbered on from `next`. The first entry that fails ends the parse. */
  function NavigationLoop(es: seq<Entry>, next: int): (r: Result<seq<Chapter>, ParseError>)
    requires WellFound(es)
    ensures r.Success? ==> ChaptersNumberedFrom(r.value, next)
    ensures r.Success? ==> forall i | 0 <= i < |r.value| :: r.value[i].paragraphs != []
  {
    if es == [] then Success([])
    else match EntryChapter(es[0].title, es[0].found, next)
      case Failure(e) => Failure(e)
      case Success(None) => NavigationLoop(es[1..], next)
      case Success(Some(c)) =>
        match NavigationLoop(es[1..], next + 1)
        case Failure(e) => Failure(e)
        case Success(cs) => Success([c] + cs)
  }

  /** The navigation loop of `ParseAsync`: each entry through `ParseNavigationItem`, the
      ones that give a chapter numbered on from `next`. */
  function ParseNavigation(items: seq<NavItem>, next: int): (r: Result<seq<Chapter>, ParseError>)
    ensures r.Success? ==> ChaptersNumberedFrom(r.value, next)
    ensures r.Success? ==> forall i | 0 <= i < |r.value| :: r.value[i].paragraphs != []
  {
    NavigationLoop(Entries(items), next)
  }

  /** The loop fails exactly when some entry failed, with that entry's error. */
  lemma {:induction false} NavigationLoopFails(es: seq<Entry>, next: int)
    requires WellFound(es)
    ensures NavigationLoop(es, next).Failure? <==> exists k | 0 <= k < |es| :: es[k].found.Failure?
    ensures NavigationLoop(es, next).Failure? ==>
      exists k | 0 <= k < |es| :: es[k].found == Failure(NavigationLoop(es, next).error)
  {
    if es != [] {
      NavigationLoopFails(es[1..], next);
      NavigationLoopFails(es[1..], next + 1);
      assert forall k | 1 <= k < |es| :: es[1..][k - 1] == es[k];
    }
  }

  /** The navigation path fails exactly when some entry has a link but no content file. */
  lemma ParseNavigationFails(items: seq<NavItem>, next: int)
    ensures ParseNavigation(items, next).Failure? <==> exists i | 0 <= i < |items| :: Broken(items[i])
    ensures ParseNavigation(items, next).Failure? ==> ParseNavigation(items, next).error == NullReference
  {
    var es := Entries(items);
    NavigationLoopFails(es, next);
    if exists i | 0 <= i < |items| :: Broken(items[i]) {
      var i :| 0 <= i < |items| && Broken(items[i]);
      assert es[i].found.Failure?;
    }
  }

  /** The entries that yielded paragraphs, in order: an entry is kept exactly when it
      yielded paragraphs. */
  function Yielding(es: seq<Entry>): (r: seq<Entry>)
    ensures forall i | 0 <= i < |r| :: r[i].found.Success? && r[i].found.value != []
    ensures forall e :: e in r <==> e in es && e.found.Success? && e.found.value != []
  {
    if es == [] then []
    else if es[0].found.Success? && es[0].found.value != [] then [es[0]] + Yielding(es[1..])
    else Yielding(es[1..])
  }

  /** When the loop succeeds, its chapters are the entries that yielded paragraphs, in
      order, each with its entry's title and exactly those paragraphs. */
  lemma {:induction false} NavigationLoopChapters(es: seq<Entry>, next: int)
    requires WellFound(es)
    requires NavigationLoop(es, next).Success?
    ensures var cs := NavigationLoop(es, next).value;
      var kept := Yielding(es);
      && |cs| == |kept|
      && forall i | 0 <= i < |cs| :: cs[i].title == kept[i].title && cs[i].paragraphs == kept[i].found.value
  {
    if es != [] {
      if es[0].found.Success? && es[0].found.value != [] {
        NavigationLoopChapters(es[1..], next + 1);
      } else {
        NavigationLoopChapters(es[1..], next);
      }
    }
  }

  /** When the navigation path succeeds, its chapters are the entries that link to a
      content file with paragraphs, in order: each has its entry's title and exactly the
      paragraphs of its file. */
  lemma ParseNavigationChapters(items: seq<NavItem>, next: int)
    requires ParseNavigation(items, next).Success?
    ensures var cs := ParseNavigation(items, next).value;
      var kept := Yielding(Entries(items));
      && |cs| == |kept|
      && forall i | 0 <= i < |cs| :: cs[i].title == kept[i].title && cs[i].paragraphs == kept[i].found.value
  {
    NavigationLoopChapters(Entries(items), next);
  }

  /** An entry yields paragraphs exactly when it survives; then they are its file's. */
  lemma EntryYields(items: seq<NavItem>, k: nat)
    requires k < |items|
    ensures var e := Entries(items)[k];
      && (e.found.Success? && e.found.value != [] <==> Survives(items[k]))
      && (Survives(items[k]) ==> e.found.value == FileParagraphs(items[k].htmlContentFile.value.content))
  {
  }

  /** Decimal digits, as `{chapterNumber}` renders a number in an interpolated string. */
  function DecimalString(n: nat): (r: string)
    ensures r != []
    ensures forall k | 0 <= k < |r| :: '0' <= r[k] <= '9'
    ensures |r| > 1 ==> r[0] != '0'
  {
    if n < 10 then [('0' as int + n) as char]
    else DecimalString(n / 10) + [('0' as int + n % 10) as char]
  }

  /** The value of a string of decimal digits. */
  function DecimalValue(s: string): (r: nat)
    requires forall k | 0 <= k < |s| :: '0' <= s[k] <= '9'
  {
    if s == [] then 0
    else DecimalValue(s[..|s| - 1]) * 10 + (s[|s| - 1] as int - '0' as int)
  }

  /** Reading the digits back gives the number. */
  lemma {:induction false} DecimalRoundTrip(n: nat)
    ensures DecimalValue(DecimalString(n)) == n
  {
    if n >= 10 {
      var s := DecimalString(n);
      assert s[..|s| - 1] == DecimalString(n / 10);
      DecimalRoundTrip(n / 10);
    }
  }

  /** Different numbers render differently. */
  lemma DecimalStringInjective(m: nat, n: nat)
    requires DecimalString(m) == DecimalString(n)
    ensures m == n
  {
    DecimalRoundTrip(m);
    DecimalRoundTrip(n);
  }

  /** The title `ParseFromReadingOrder` gives chapter `n`. */
  function ReadingOrderTitle(n: nat): string {
    "Chapter " + DecimalString(n)
  }

  /** Different chapter numbers give different titles. */
  lemma ReadingOrderTitleInjective(m: nat, n: nat)
    requires ReadingOrderTitle(m) == ReadingOrderTitle(n)
    ensures m == n
  {
    var p := "Chapter ";
    assert DecimalString(m) == ReadingOrderTitle(m)[|p|..];
    assert DecimalString(n) == ReadingOrderTitle(n)[|p|..];
    DecimalStringInjective(m, n);
  }

  /** The chapter loop of `ParseFromReadingOrder`, over the paragraphs of each file in
      turn: a file with paragraphs becomes chapter `next`, titled after its number. */
  function NumberChapters(lists: seq<seq<Paragraph>>, next: nat): (r: seq<Chapter>)
    requires forall k | 0 <= k < |lists| :: ParagraphsNumberedFrom(lists[k], 1)
    ensures ChaptersNumberedFrom(r, next)
    ensures forall i | 0 <= i < |r| :: r[i].title == ReadingOrderTitle(next + i) && r[i].paragraphs != []
    ensures |r| <= |lists|
  {
    if lists == [] then []
    else if lists[0] == [] then NumberChapters(lists[1..], next)
    else [Chapter(next, ReadingOrderTitle(next), lists[0])] + NumberChapters(lists[1..], next + 1)
  }

  /** The paragraphs of every file of the reading order, in order: one list per file,
      numbered 1..M and holding exactly the texts extracted from that file. */
  function AllFileParagraphs(files: seq<ContentFile>): (r: seq<seq<Paragraph>>)
    ensures |r| == |files|
    ensures forall k | 0 <= k < |r| ::
      ParagraphsNumberedFrom(r[k], 1) && ParagraphTexts(r[k]) == ExtractParagraphsFromHtml(files[k].content)
  {
    var r := seq(|files|, k requires 0 <= k < |files| => FileParagraphs(files[k].content));
    assert forall k | 0 <= k < |r| :: ParagraphTexts(r[k]) == ExtractParagraphsFromHtml(files[k].content) by {
      forall k | 0 <= k < |r| ensures ParagraphTexts(r[k]) == ExtractParagraphsFromHtml(files[k].content) {
        FileParagraphsTexts(files[k].content);
      }
    }
    r
  }

  /** `ParseFromReadingOrder`: every file of the reading order with paragraphs becomes a
      chapter, numbered and titled `"Chapter n"` on from `next`. */
  function ParseFromReadingOrder(files: seq<ContentFile>, next: nat): (r: seq<Chapter>)
    ensures ChaptersNumberedFrom(r, next)
    ensures forall i | 0 <= i < |r| :: r[i].title == ReadingOrderTitle(next + i) && r[i].paragraphs != []
    ensures |r| <= |files|
  {
    NumberChapters(AllFileParagraphs(files), next)
  }

  /** The paragraph lists that are not empty, in order: a list is kept exactly when it is
      not empty. */
  function NonEmpty(lists: seq<seq<Paragraph>>): (r: seq<seq<Paragraph>>)
    ensures forall i | 0 <= i < |r| :: r[i] != []
    ensures forall l :: l in r <==> l in lists && l != []
  {
    if lists == [] then []
    else if lists[0] != [] then [lists[0]] + NonEmpty(lists[1..])
    else NonEmpty(lists[1..])
  }

  /** The chapters of the loop are the non-empty lists, in order. */
  lemma {:induction false} NumberChaptersKeepsLists(lists: seq<seq<Paragraph>>, next: nat)
    requires forall k | 0 <= k < |lists| :: ParagraphsNumberedFrom(lists[k], 1)
    ensures var cs := NumberChapters(lists, next);
      var kept := NonEmpty(lists);
      && |cs| == |kept|
      && forall i | 0 <= i < |cs| :: cs[i].paragraphs == kept[i]
  {
    if lists != [] {
      if lists[0] == [] {
        NumberChaptersKeepsLists(lists[1..], next);
      } else {
        NumberChaptersKeepsLists(lists[1..], next + 1);
      }
    }
  }

  /** The reading-order chapters are the files with paragraphs, in order, each with
      exactly the paragraphs of its file. */
  lemma ParseFromReadingOrderChapters(files: seq<ContentFile>, next: nat)
    ensures var cs := ParseFromReadingOrder(files, next);
      var kept := NonEmpty(AllFileParagraphs(files));
      && |cs| == |kept|
      && forall i | 0 <= i < |cs| :: cs[i].paragraphs == kept[i]
  {
    NumberChaptersKeepsLists(AllFileParagraphs(files), next);
  }

  /** No two reading-order chapters share a title. */
  lemma ReadingOrderTitlesDistinct(files: seq<ContentFile>, next: nat)
    ensures var cs := ParseFromReadingOrder(files, next);
      forall i, j | 0 <= i < j < |cs| :: cs[i].title != cs[j].title
  {
    TitlesFollowCounterDistinct(ParseFromReadingOrder(files, next), next);
  }

  /** Chapters titled `Chapter n` with `n` counting up from `next` have distinct titles. */
  lemma TitlesFollowCounterDistinct(cs: seq<Chapter>, next: nat)
    requires forall i | 0 <= i < |cs| :: cs[i].title == ReadingOrderTitle(next + i)
    ensures forall i, j | 0 <= i < j < |cs| :: cs[i].title != cs[j].title
  {
    forall i, j | 0 <= i < j < |cs| ensures cs[i].title != cs[j].title {
      if cs[i].title == cs[j].title {
        ReadingOrderTitleInjective(next + i, next + j);
      }
    }
  }

  /** The navigation is used when it is not null and has entries. */
  predicate UsesNavigation(e: EpubBook) {
    e.navigation.Some? && |e.navigation.value| > 0
  }

  /** The chapters of an EPUB: from the navigation when it has entries, otherwise from the
      reading order. */
  function Chapters(e: EpubBook): (r: Result<seq<Chapter>, ParseError>)
    ensures r.Success? ==> ChaptersNumberedFrom(r.value, 1)
    ensures r.Success? ==> forall i | 0 <= i < |r.value| :: r.value[i].paragraphs != []
    ensures !UsesNavigation(e) ==> r.Success?
  {
    if UsesNavigation(e) then ParseNavigation(e.navigation.value, 1)
    else Success(ParseFromReadingOrder(e.readingOrder, 1))
  }

  /** `ParseAsync`: `None` is a null stream. The result is the book, with the EPUB's title
      and author and no language or cover path, and the cover image bytes. */
  function ParseAsync(stream: Option<Stream>): (r: Result<(Book, Option<seq<byte>>), ParseError>)
    ensures stream.None? ==> r == Failure(ArgumentNull)
    ensures stream.Some? && stream.value.Unreadable? ==> r == Failure(InvalidFormat(stream.value.reason))
    ensures r.Success? ==>
      var (book, cover) := r.value;
      var e := stream.value.epub;
      && stream.value.Readable?
      && book.title == e.title && book.author == e.author
      && book.languageId.None? && book.coverImagePath.None?
      && cover == e.coverImage
      && WellNumbered(book)
      && forall i | 0 <= i < |book.chapters| :: book.chapters[i].paragraphs != []
    ensures stream.Some? && stream.value.Readable? && !UsesNavigation(stream.value.epub) ==> r.Success?
  {
    match stream
    case None => Failure(ArgumentNull)
    case Some(Unreadable(reason)) => Failure(InvalidFormat(reason))
    case Some(Readable(e)) =>
      match Chapters(e)
      case Failure(err) => Failure(err)
      case Success(cs) => Success((Book(e.title, e.author, None, None, cs), e.coverImage))
  }

  /** There is no fallback: once the navigation has entries, the reading order does not
      matter, even when every entry is dropped. */
  lemma ParseAsyncIgnoresReadingOrder(e: EpubBook, files: seq<ContentFile>)
    requires UsesNavigation(e)
    ensures ParseAsync(Some(Readable(e))) == ParseAsync(Some(Readable(e.(readingOrder := files))))
  {
  }

  /** Entries that all yielded no paragraphs give no chapters. */
  lemma {:induction false} NavigationLoopEmpty(es: seq<Entry>, next: int)
    requires WellFound(es)
    requires forall k | 0 <= k < |es| :: es[k].found == Success([])
    ensures NavigationLoop(es, next) == Success([])
  {
    if es != [] {
      NavigationLoopEmpty(es[1..], next);
    }
  }

  /** Navigation entries that all lack a link give no chapters, and the parse does not
      turn to the reading order. */
  lemma UnlinkedNavigationGivesNoChapters(items: seq<NavItem>, next: int)
    requires forall i | 0 <= i < |items| :: items[i].link.None?
    ensures ParseNavigation(items, next) == Success([])
  {
    var es := Entries(items);
    assert forall k | 0 <= k < |es| :: es[k].found == Success([]);
    NavigationLoopEmpty(es, next);
  }

  /** With navigation entries the chapters are the navigation chapters: a failing entry
      fails the parse, and otherwise the book holds the chapters of the navigation loop. */
  lemma ParseAsyncUsesNavigation(e: EpubBook)
    requires UsesNavigation(e)
    ensures var nav := ParseNavigation(e.navigation.value, 1);
      && (nav.Failure? ==> ParseAsync(Some(Readable(e))) == Failure(nav.error))
      && (nav.Success? ==>
            ParseAsync(Some(Readable(e))) ==
              Success((Book(e.title, e.author, None, None, nav.value), e.coverImage)))
  {
  }

  /** Without navigation entries the chapters are the reading-order chapters. */
  lemma ParseAsyncUsesReadingOrder(e: EpubBook)
    requires !UsesNavigation(e)
    ensures ParseAsync(Some(Readable(e))) ==
      Success((Book(e.title, e.author, None, None, ParseFromReadingOrder(e.readingOrder, 1)), e.coverImage))
  {
  }
}
