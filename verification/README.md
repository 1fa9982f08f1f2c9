# ReadAloud e-book ingestion, in Dafny

This project models the part of ReadAloud that turns an EPUB into the
`Book → Chapter → Paragraph` tree the reader plays aloud. It also models two small
client-side pieces: the book store and the registration form check.

- **Sequences** (`sequences.dfy`): two facts about splitting and cancelling the head of a
  sequence, used by the string scanners.
- **Text** (`text.dfy`): `char.IsWhiteSpace`, `string.IsNullOrWhiteSpace`, `Trim`, and
  `Regex.Replace(s, @"\s+", " ")` over strings of Unicode scalar values.
- **Html** (`html.dfy`): the tag pass `<[^>]+>`, `WebUtility.HtmlDecode` with a small
  table of named references, and `CleanHtmlText`.
- **Markup** (`markup.dfy`): the case-insensitive patterns of the extractor, written as
  scanners over the text:
  - the one-pass deletion of `<script…>…</script>` and `<style…>…</style>`;
  - the captures of `<p…>(…)</p>` and `<div…>(…)</div>`;
  - the split on `</?(p|div|br|h1…h6)…>`.
- **Extractor** (`extractor.dfy`): `ExtractParagraphsFromHtml` with its three tiers:
  - `<p>` texts;
  - `<div>` texts longer than 20;
  - block pieces longer than 20.
- **ExtractorExamples** (`extractor_examples.dfy`): worked inputs of the extractor and the
  cleaner, proved for whole families of inputs.
- **Domain** (`domain.dfy`): books, chapters and paragraphs, and what "numbered 1..K" means.
- **Parser** (`parser.dfy`):
  - `ParseAsync`, over an EPUB reader's output given as a datatype;
  - `ParseNavigationItem` and the navigation loop;
  - `ParseFromReadingOrder`.
- **BookService** (`bookservice.dfy`): `UploadBook`, which covers:
  - the title, author and language overrides;
  - the renumbering pass;
  - the cover-save condition;
  - what is handed to the repository.
- **BookStore** (`bookstore.dfy`): the client store's actions as pure state transitions.
- **Registration** (`registration.dfy`):
  - `validateForm`, with the email pattern `\S+@\S+\.\S+` as a predicate and as a
    scanning method;
  - the guard of `handleSubmit`.

Failures are values: `Result` for the parser and the upload (a null stream, a stream the
reader rejects, a navigation entry whose content file is missing), `Option` for null
strings and null covers.

## Where the code departs from what one might assume

The model follows the code in each of these cases.

- The `<div>` tier and the split tier keep a text only when it is strictly longer than 20
  characters (`Extractor.MinimumBlockLength`, `Extractor.ExtractParagraphsTiers`).
- When the navigation has entries but every entry is dropped, the book has no chapters:
  there is no fallback to the reading order (`Parser.ParseAsyncIgnoresReadingOrder`,
  `Parser.UnlinkedNavigationGivesNoChapters`).
- Reading-order chapters are titled after the counter of surviving chapters, not after
  their position in the reading order (`Parser.NumberChapters`,
  `Parser.ReadingOrderTitlesDistinct`).
- `CleanHtmlText` is not idempotent:
  - `&amp;lt;w` cleans to `&lt;w` and then to `<w`
    (`Html.CleanHtmlTextNotIdempotent`);
  - cleaning twice equals cleaning once whenever the first result has no `<` and no `&`
    left to act on (`Html.CleanHtmlTextIdempotentOnPlainText`).
- Script content can reach a paragraph. One pass of the script removal can build a new
  script element out of the text around the one it deletes:
  - `<scr<script></script>ipt>x</script>` becomes `<script>x</script>`
    (`Markup.RemovalCanRebuildElement`);
  - for a long word `x`, the chapter's one paragraph is `x`
    (`ExtractorExamples.RebuiltScriptBecomesParagraph`).
- Style content can reach a paragraph too. The script pass runs first and can delete the
  only closing style tag, so the style pass finds no match afterwards:
  - `<style>x<script></style></script>` becomes `<style>x`, and the style pass leaves it
    as it is (`Markup.RemovalCanSwallowCloseTag`);
  - for a long word `x`, the chapter's one paragraph is `x`
    (`ExtractorExamples.UnclosedStyleBecomesParagraph`).
- `<p[^>]*>` also matches `<pre>`, `<param>` and any other tag whose name starts with `p`
  (`Markup.ElementAtIs` takes any text up to the first `>`). `<div[^>]*>` likewise
  matches any tag whose name starts with `div`.
- The parser already numbers chapters and paragraphs from 1, so the renumbering pass of
  `UploadBook` leaves the parsed chapters exactly as they were
  (`BookService.UploadKeepsParsedChapters`).
- A navigation entry with a link but no resolved content file makes the parse fail,
  since the code dereferences the missing file (`Parser.ParseNavigationFails`).

## Model

| member | source | states |
|---|---|---|
| Text.LeadingWhiteSpace | ReadAloud.Application/Books/Parsing/Parser.cs:165 | the count of leading characters that `Trim` drops: all of them are whitespace and the next character is not |
| Text.TrailingWhiteSpace | ReadAloud.Application/Books/Parsing/Parser.cs:165 | the count of trailing characters that `Trim` drops: all of them are whitespace and the one before them is not |
| Text.TrimProperties | ReadAloud.Application/Books/Parsing/Parser.cs:165 | `Trim` leaves no whitespace at either end, is empty exactly when its input is blank, keeps every non-whitespace character in order, and keeps a collapsed input collapsed |
| Text.CollapseWhiteSpace | ReadAloud.Application/Books/Parsing/Parser.cs:163 | replacing whitespace runs gives the empty string only for the empty string |
| Text.CollapseWhiteSpaceContent | ReadAloud.Application/Books/Parsing/Parser.cs:163 | replacing every `\s+` run by one space keeps every non-whitespace character, in order |
| Text.CollapseWhiteSpaceCollapsed | ReadAloud.Application/Books/Parsing/Parser.cs:163 | after the replacement every whitespace character is a plain space followed by a non-whitespace character or by the end |
| Text.CollapseWhiteSpaceEnds | ReadAloud.Application/Books/Parsing/Parser.cs:163 | the replacement starts (ends) with whitespace exactly when its input does |
| Text.NormalizeWhiteSpace | ReadAloud.Application/Books/Parsing/Parser.cs:163-165 | collapse then trim gives a normalized string with the input's non-whitespace content, empty exactly when the input is blank |
| Text.CollapseFixpoint | ReadAloud.Application/Books/Parsing/Parser.cs:163 | a string already collapsed is left unchanged by the replacement |
| Text.TrimFixpoint | ReadAloud.Application/Books/Parsing/Parser.cs:165 | a string without whitespace at its ends is left unchanged by `Trim` |
| Text.NormalizeWhiteSpaceFixpoint | ReadAloud.Application/Books/Parsing/Parser.cs:163-165 | a normalized string is left unchanged by collapse and trim |
| Text.NormalizeWhiteSpaceJoins | ReadAloud.Application/Books/Parsing/Parser.cs:163-165 | for any texts `a` and `b` with content and any non-empty run `w` of whitespace, `a + w + b` normalizes to `a` and `b`, each normalized, joined by exactly one space |
| Text.CollapseAppend | ReadAloud.Application/Books/Parsing/Parser.cs:163 | a run of whitespace never crosses the end of a text that ends with content: the replacement works on each side separately |
| Text.NormalizeWhiteSpaceIdempotent | ReadAloud.Application/Books/Parsing/Parser.cs:163-165 | whitespace normalisation applied twice equals applying it once |
| Text.BlankIffNoContent | ReadAloud.Application/Books/Parsing/Parser.cs:152 | a string is null-or-whitespace exactly when it has no non-whitespace character |
| Html.TagLength | ReadAloud.Application/Books/Parsing/Parser.cs:157 | the match of `<[^>]+>` at the start of the text is a tag; when there is none, no prefix of the text is a tag |
| Html.TagLengthOfTag | ReadAloud.Application/Books/Parsing/Parser.cs:157 | a tag at the front of the text is exactly the match found there |
| Html.StripTags | ReadAloud.Application/Books/Parsing/Parser.cs:157 | deleting the tags never lengthens the text |
| Html.StripTagsTagFree | ReadAloud.Application/Books/Parsing/Parser.cs:157 | after the pass no substring of the text matches `<[^>]+>` |
| Html.StripTagsKeepsCharacters | ReadAloud.Application/Books/Parsing/Parser.cs:157 | every character of its result occurs in its input |
| Html.StripTagsFixpoint | ReadAloud.Application/Books/Parsing/Parser.cs:157 | a text with no tag in it passes through unchanged, so a second tag pass changes nothing |
| Html.StripTagsPlain | ReadAloud.Application/Books/Parsing/Parser.cs:157 | a text without '<' passes through unchanged |
| Html.StripTagsPlainPrefix | ReadAloud.Application/Books/Parsing/Parser.cs:157 | text without '<' in front of the rest is copied, and the rest is stripped on its own |
| Html.StripTagsBetweenTags | ReadAloud.Application/Books/Parsing/Parser.cs:157 | text without '<' between an opening and a closing tag is exactly what survives |
| Html.ReferenceAt | ReadAloud.Application/Books/Parsing/Parser.cs:160 | a character reference consumes at least two characters and decodes to no more characters than it consumes |
| Html.HtmlDecode | ReadAloud.Application/Books/Parsing/Parser.cs:160 | decoding never lengthens the text |
| Html.HtmlDecodePlainPrefix | ReadAloud.Application/Books/Parsing/Parser.cs:160 | text without '&' in front of the rest is copied, and the rest is decoded on its own |
| Html.HtmlDecodeNamed | ReadAloud.Application/Books/Parsing/Parser.cs:160 | a known named reference decodes to its character, and decoding carries on after its ';' |
| Html.HtmlDecodeEscape | ReadAloud.Application/Books/Parsing/Parser.cs:160 | decoding inverts escaping: escape then decode gives back every string |
| Html.HtmlDecodeAmpersand | ReadAloud.Application/Books/Parsing/Parser.cs:160 | `&amp;` between two texts without '&' decodes to a single '&' |
| Html.CleanHtmlText | ReadAloud.Application/Books/Parsing/Parser.cs:151-166 | the cleaned text has no whitespace at its ends and no whitespace but single spaces between non-whitespace characters; it keeps every non-whitespace character of the decoded text; it is empty exactly when the decoded text is blank, so blank input gives "" |
| Html.PlainDecodesToItself | ReadAloud.Application/Books/Parsing/Parser.cs:157-160 | text without '<' and '&' is left as it is by the tag pass and the decoder |
| Html.CleanHtmlTextFixpoint | ReadAloud.Application/Books/Parsing/Parser.cs:151-166 | normalized text without '<' and '&' cleans to itself |
| Html.CleanHtmlTextIdempotentOnPlainText | ReadAloud.Application/Books/Parsing/Parser.cs:151-166 | cleaning twice equals cleaning once whenever the first result holds no '<' and no '&' |
| Html.CleanHtmlTextWord | ReadAloud.Application/Books/Parsing/Parser.cs:151-166 | a single word cleans to itself |
| Html.NormalizeBetweenWords | ReadAloud.Application/Books/Parsing/Parser.cs:163-165 | a text made of two words and the run of whitespace between them normalizes to the two words joined by one space |
| Html.CleanHtmlTextJoins | ReadAloud.Application/Books/Parsing/Parser.cs:151-166 | when the decoded text is `a`, a non-empty run of whitespace and `b`, with content in both, the cleaned text is `a` and `b`, each normalized, joined by one space |
| Html.CleanHtmlTextJoinsWords | ReadAloud.Application/Books/Parsing/Parser.cs:151-166 | two words separated by any whitespace, line breaks included, clean to the words joined by one space |
| Html.CleanHtmlTextNotIdempotent | ReadAloud.Application/Books/Parsing/Parser.cs:157-160 | `&amp;lt;w` cleans to `&lt;w`, which cleans to `<w`: a second cleaning can change the text |
| Html.CleanWithoutTags | ReadAloud.Application/Books/Parsing/Parser.cs:151-166 | text without '<' whose decoding holds no whitespace cleans to that decoding |
| Markup.FindFromFound | ReadAloud.Application/Books/Parsing/Parser.cs:114-118 | the case-insensitive search finds the first occurrence of the pattern at or after the start position, and finds none only when there is none |
| Markup.FindFromFirst | ReadAloud.Application/Books/Parsing/Parser.cs:114-118 | an occurrence with none before it is the one the search finds |
| Markup.ElementAt | ReadAloud.Application/Books/Parsing/Parser.cs:114-118 | a match's inner text starts after `<name` and its '>', and the match ends with the closing tag inside the text |
| Markup.ElementAtMatch | ReadAloud.Application/Books/Parsing/Parser.cs:114-118 | a match is `<name` (any case), anything up to the first '>', an inner text holding no closing tag, and the first closing tag after it |
| Markup.ElementAtIs | ReadAloud.Application/Books/Parsing/Parser.cs:114-118 | conversely, `<name` with its first '>' and the first closing tag after that is the match at that position |
| Markup.RemoveElements | ReadAloud.Application/Books/Parsing/Parser.cs:114-115 | deleting the elements never lengthens the text |
| Markup.RemoveFromUnchanged | ReadAloud.Application/Books/Parsing/Parser.cs:114-115 | the deletion pass from a position changes the text exactly when some element match starts there or later |
| Markup.RemoveFromCopies | ReadAloud.Application/Books/Parsing/Parser.cs:114-115 | a stretch where no match starts is copied verbatim |
| Markup.RemoveElementsUnchanged | ReadAloud.Application/Books/Parsing/Parser.cs:114-115 | removing script or style elements changes the markup exactly when it holds such an element |
| Markup.ElementContentsEmpty | ReadAloud.Application/Books/Parsing/Parser.cs:118-128 | the `<p>` or `<div>` captures are empty exactly when nothing matches |
| Markup.ElementContentsNoCloseTag | ReadAloud.Application/Books/Parsing/Parser.cs:118-128 | the lazy capture never contains its own closing tag |
| Markup.ElementStart | ReadAloud.Application/Books/Parsing/Parser.cs:118-128 | every match starts with '<' and the first letter of the element name |
| Markup.BlockTagEnd | ReadAloud.Application/Books/Parsing/Parser.cs:139 | a block-tag match starts with '<' and is at least three characters long |
| Markup.BlockTagStart | ReadAloud.Application/Books/Parsing/Parser.cs:139 | a block tag is '<', an optional '/', and a p, d, b or h in any case |
| Markup.SplitOnBlockTags | ReadAloud.Application/Books/Parsing/Parser.cs:139 | the split always returns at least one piece |
| Markup.SplitOnBlockTagsWhole | ReadAloud.Application/Books/Parsing/Parser.cs:139 | the split returns the whole text as its only piece exactly when the text holds no block tag |
| Markup.SplitOnBlockTagsRebuilds | ReadAloud.Application/Books/Parsing/Parser.cs:139 | the split loses nothing: it returns one piece more than the block tags it removes, and the pieces with those tags put back between them, in order, rebuild the text |
| Markup.SplitFromRebuilds | ReadAloud.Application/Books/Parsing/Parser.cs:139 | from any position, the pieces of the rest of the text with the removed block tags between them rebuild that rest |
| Markup.RemovalCanSwallowCloseTag | ReadAloud.Application/Books/Parsing/Parser.cs:114 | the script pass over `<style>x<script></style></script>` leaves `<style>x`, and the style pass then removes nothing |
| Markup.RemovalCanRebuildElement | ReadAloud.Application/Books/Parsing/Parser.cs:114 | one removal pass over `<scr<script></script>ipt>x</script>` leaves `<script>x</script>`, itself a script element |
| Extractor.KeepWithoutLength | ReadAloud.Application/Books/Parsing/Parser.cs:121 | the `<p>` tier keeps exactly the texts that are not blank |
| Extractor.Kept | ReadAloud.Application/Books/Parsing/Parser.cs:121-143 | every kept text passes the filter and is one of the given texts, and no more texts are kept than given |
| Extractor.KeptMembers | ReadAloud.Application/Books/Parsing/Parser.cs:121-143 | a text is kept exactly when it is one of the texts and passes the filter |
| Extractor.KeptEmpty | ReadAloud.Application/Books/Parsing/Parser.cs:121-143 | nothing is kept exactly when no text passes the filter |
| Extractor.KeptAppend | ReadAloud.Application/Books/Parsing/Parser.cs:119-124 | the filter works text by text: it keeps order across a concatenation |
| Extractor.Harvest | ReadAloud.Application/Books/Parsing/Parser.cs:119-124 | every text a tier's loop adds is normalized and passes the tier's filter |
| Extractor.HarvestMembers | ReadAloud.Application/Books/Parsing/Parser.cs:119-124 | a text is in a tier's output exactly when it is the cleaned text of one of its blocks and passes the filter |
| Extractor.HarvestEmpty | ReadAloud.Application/Books/Parsing/Parser.cs:119-124 | a tier is empty exactly when no block's cleaned text passes its filter |
| Extractor.StripScriptsAndStyles | ReadAloud.Application/Books/Parsing/Parser.cs:114-115 | the two deletion passes never lengthen the markup |
| Extractor.ParagraphTier | ReadAloud.Application/Books/Parsing/Parser.cs:118-124 | every `<p>` paragraph is a normalized, non-empty text |
| Extractor.DivisionTier | ReadAloud.Application/Books/Parsing/Parser.cs:127-135 | every `<div>` paragraph is normalized and longer than 20 characters |
| Extractor.SplitTier | ReadAloud.Application/Books/Parsing/Parser.cs:138-146 | every block-piece paragraph is normalized and longer than 20 characters |
| Extractor.ExtractParagraphsFromHtml | ReadAloud.Application/Books/Parsing/Parser.cs:106-149 | null, empty or whitespace-only markup yields no paragraph; every paragraph is a normalized, non-empty text |
| Extractor.ExtractParagraphsTiers | ReadAloud.Application/Books/Parsing/Parser.cs:118-146 | a non-empty `<p>` tier is the result; otherwise a non-empty `<div>` tier is the result; otherwise the split tier is; past the `<p>` tier every paragraph is longer than 20 |
| Extractor.ExtractedParagraphOrigin | ReadAloud.Application/Books/Parsing/Parser.cs:118-146 | each paragraph is the cleaned text of a `<p>` element, or of a `<div>` element or block piece and longer than 20 |
| Extractor.ParagraphTierEmpty | ReadAloud.Application/Books/Parsing/Parser.cs:118-124 | the `<p>` tier is empty exactly when every `<p>` element cleans to blank text |
| Extractor.LongTierEmpty | ReadAloud.Application/Books/Parsing/Parser.cs:131-142 | a length-filtered tier is empty exactly when no block cleans to more than 20 characters |
| Extractor.ExtractParagraphsEmpty | ReadAloud.Application/Books/Parsing/Parser.cs:106-149 | the extractor yields nothing exactly when the markup is blank or every tier is empty |
| ExtractorExamples.ParagraphContents | ReadAloud.Application/Books/Parsing/Parser.cs:118 | `<p>x</p>`, with `x` free of '<', captures exactly `x` |
| ExtractorExamples.ScriptThenParagraphRemoved | ReadAloud.Application/Books/Parsing/Parser.cs:114 | a script element in front of a paragraph is deleted and the paragraph is left as it is |
| ExtractorExamples.HarvestSingle | ReadAloud.Application/Books/Parsing/Parser.cs:119-124 | a single block whose cleaned text passes the filter is harvested as that text |
| ExtractorExamples.ScriptBeforeParagraph | ReadAloud.Application/Books/Parsing/Parser.cs:114-124 | a script element in front of `<p>x</p>` leaves no trace: the only paragraph is the cleaned `x` |
| ExtractorExamples.ScriptBeforeHelloWorld | ReadAloud.Application/Books/Parsing/Parser.cs:114-124 | `<script>alert(1)</script><p>Hello world</p>` yields exactly `["Hello world"]` |
| ExtractorExamples.CleanHelloNewlinesWorld | ReadAloud.Application/Books/Parsing/Parser.cs:151-166 | `Hello`, two line breaks, three spaces and `world` clean to `Hello world` |
| ExtractorExamples.UnclosedStyleBecomesParagraph | ReadAloud.Application/Books/Parsing/Parser.cs:114-146 | for `<style>x<script></style></script>` with a word `x` longer than 20, the split tier returns `x` as the one paragraph: style content reaches the book |
| ExtractorExamples.RebuiltScriptBecomesParagraph | ReadAloud.Application/Books/Parsing/Parser.cs:114-146 | for `<scr<script></script>ipt>x</script>` with a word `x` longer than 20, the split tier returns `x` as the one paragraph: script content reaches the book |
| Parser.NumberParagraphs | ReadAloud.Application/Books/Parsing/Parser.cs:60-69 | the surviving paragraphs are numbered 1..M with no gap, and there are no more than there were texts |
| Parser.NumberParagraphsKeepsTexts | ReadAloud.Application/Books/Parsing/Parser.cs:60-69 | texts that are already trimmed and non-blank all survive, verbatim and in extraction order |
| Parser.FileParagraphs | ReadAloud.Application/Books/Parsing/Parser.cs:57-69 | a content file's paragraphs are numbered 1..M |
| Parser.FileParagraphsTexts | ReadAloud.Application/Books/Parsing/Parser.cs:57-69 | a content file's paragraphs hold exactly the extracted texts, in order |
| Parser.FileParagraphsNormalized | ReadAloud.Application/Books/Parsing/Parser.cs:58-69 | every paragraph text is trimmed, collapsed and non-empty |
| Parser.EntryParagraphs | ReadAloud.Application/Books/Parsing/Parser.cs:54-58 | an entry fails exactly when it links to no content file; an entry without a link yields nothing; it yields paragraphs exactly when it survives |
| Parser.ParseNavigationItem | ReadAloud.Application/Books/Parsing/Parser.cs:46-72 | no link gives no chapter; a link without a content file fails; otherwise the chapter has the entry's title, the given number and the file's paragraphs, and is dropped when those are empty |
| Parser.NavigationLoop | ReadAloud.Application/Books/Parsing/Parser.cs:30-37 | the loop's chapters are numbered on from the counter with no gap, and none is empty |
| Parser.ParseNavigation | ReadAloud.Application/Books/Parsing/Parser.cs:29-37 | navigation chapters are numbered 1..K in navigation order, paragraphs 1..M, and none is empty |
| Parser.NavigationLoopFails | ReadAloud.Application/Books/Parsing/Parser.cs:30-37 | the loop fails exactly when some entry failed, with that entry's error |
| Parser.ParseNavigationFails | ReadAloud.Application/Books/Parsing/Parser.cs:54-57 | the navigation path fails exactly when some entry has a link but no content file |
| Parser.Yielding | ReadAloud.Application/Books/Parsing/Parser.cs:33 | an entry is kept exactly when it parsed and yielded a chapter with paragraphs |
| Parser.NavigationLoopChapters | ReadAloud.Application/Books/Parsing/Parser.cs:30-37 | on success the loop's chapters are the entries that yielded paragraphs, in order, each with its entry's title and exactly those paragraphs |
| Parser.ParseNavigationChapters | ReadAloud.Application/Books/Parsing/Parser.cs:30-37 | on success the navigation chapters are the surviving entries, in navigation order, with their titles and their files' paragraphs |
| Parser.EntryYields | ReadAloud.Application/Books/Parsing/Parser.cs:33-71 | an entry yields paragraphs exactly when it links to a content file with paragraphs, and then they are that file's |
| Parser.UnlinkedNavigationGivesNoChapters | ReadAloud.Application/Books/Parsing/Parser.cs:29-54 | navigation entries that all lack a link give no chapters at all |
| Parser.DecimalString | ReadAloud.Application/Books/Parsing/Parser.cs:81 | `{chapterNumber}` renders as a non-empty string of decimal digits with no leading zero |
| Parser.DecimalRoundTrip | ReadAloud.Application/Books/Parsing/Parser.cs:81 | reading the rendered digits back gives the number |
| Parser.DecimalStringInjective | ReadAloud.Application/Books/Parsing/Parser.cs:81 | different numbers render differently |
| Parser.ReadingOrderTitleInjective | ReadAloud.Application/Books/Parsing/Parser.cs:81 | different chapter numbers give different `Chapter n` titles |
| Parser.NumberChapters | ReadAloud.Application/Books/Parsing/Parser.cs:76-102 | chapter i is numbered and titled after the surviving counter (`Chapter n`, n on from the start), is never empty, and there are no more chapters than files |
| Parser.AllFileParagraphs | ReadAloud.Application/Books/Parsing/Parser.cs:85-97 | each reading-order file gives one list, in order, numbered 1..M and holding exactly the texts extracted from that file |
| Parser.ParseFromReadingOrder | ReadAloud.Application/Books/Parsing/Parser.cs:74-104 | reading-order chapters are numbered 1..K with titles `Chapter 1`..`Chapter K`, none is empty, and there are no more than files |
| Parser.NonEmpty | ReadAloud.Application/Books/Parsing/Parser.cs:99 | a list is kept exactly when it is one of the given lists and not empty |
| Parser.NumberChaptersKeepsLists | ReadAloud.Application/Books/Parsing/Parser.cs:89-102 | the chapters hold exactly the non-empty paragraph lists, in order |
| Parser.ParseFromReadingOrderChapters | ReadAloud.Application/Books/Parsing/Parser.cs:78-102 | the reading-order chapters are the files with paragraphs, in reading order, each with exactly its file's paragraphs |
| Parser.ReadingOrderTitlesDistinct | ReadAloud.Application/Books/Parsing/Parser.cs:76-102 | no two reading-order chapters share a title |
| Parser.Chapters | ReadAloud.Application/Books/Parsing/Parser.cs:28-41 | the chapters are numbered 1..K and none is empty; without navigation entries the parse cannot fail |
| Parser.ParseAsync | ReadAloud.Application/Books/Parsing/Parser.cs:8-44 | a null stream fails with an argument-null error and an unreadable one with the reader's error; on success the book has the EPUB's title and author, no language, contiguous numbering and no empty chapter, and the cover bytes are the EPUB's |
| Parser.ParseAsyncIgnoresReadingOrder | ReadAloud.Application/Books/Parsing/Parser.cs:28-41 | once the navigation has entries the reading order does not affect the result |
| Parser.ParseAsyncUsesNavigation | ReadAloud.Application/Books/Parsing/Parser.cs:28-37 | with navigation entries a failing entry fails the parse, and otherwise the chapters are those of the navigation loop |
| Parser.ParseAsyncUsesReadingOrder | ReadAloud.Application/Books/Parsing/Parser.cs:38-41 | without navigation entries the chapters are the reading-order chapters |
| BookService.ApplyOverrides | ReadAloud.Application/Books/BookService.cs:26-34 | a blank parsed title (author) is replaced by the caller's, whatever it is, and a non-blank one is kept; the caller's language replaces the parsed one exactly when it is not blank; nothing else changes |
| BookService.ApplyOverridesIdempotent | ReadAloud.Application/Books/BookService.cs:26-34 | applying the overrides again with the same arguments changes nothing |
| BookService.ApplyOverridesFillsBlanks | ReadAloud.Application/Books/BookService.cs:26-31 | the title (author) is non-blank exactly when the EPUB's or the caller's is |
| BookService.RenumberParagraphs | ReadAloud.Application/Books/BookService.cs:41-46 | paragraph j gets number j+1, and the texts stay the same and in order |
| BookService.Renumber | ReadAloud.Application/Books/BookService.cs:36-48 | chapter i gets number i+1 and its paragraphs 1..M, while the count, order, titles and paragraph texts stay the same |
| BookService.ParagraphsEqual | ReadAloud.Application/Books/BookService.cs:41-46 | paragraph lists with the same texts and the same numbering are equal |
| BookService.RenumberUnique | ReadAloud.Application/Books/BookService.cs:36-48 | any correctly numbered list of the same shape is the renumbered one |
| BookService.RenumberFixpoint | ReadAloud.Application/Books/BookService.cs:36-48 | an already numbered list is left unchanged |
| BookService.RenumberIdempotent | ReadAloud.Application/Books/BookService.cs:36-48 | renumbering twice equals renumbering once |
| BookService.RenumberLoop | ReadAloud.Application/Books/BookService.cs:36-48 | the nested loops that overwrite numbers in place compute the renumbering |
| BookService.StoredCover | ReadAloud.Application/Books/BookService.cs:53-56 | the cover is stored exactly when the bytes are non-null and non-empty, and then unchanged |
| BookService.UploadBook | ReadAloud.Application/Books/BookService.cs:20-67 | a parse failure is passed on; otherwise the saved book is the parsed one with the overrides, numbered 1..K and 1..M, with the parsed chapters' shape, and the cover is stored exactly when its bytes are non-empty |
| BookService.UploadKeepsParsedChapters | ReadAloud.Application/Books/BookService.cs:36-48 | the renumbering leaves the parser's chapters exactly as they were |
| BookStore.Initial | ReadAloud.Web/src/store/book.store.ts:13-15 | the store starts with no books and no current book |
| BookStore.SetBooks | ReadAloud.Web/src/store/book.store.ts:17 | `setBooks` replaces the books and leaves the current book |
| BookStore.SetCurrentBook | ReadAloud.Web/src/store/book.store.ts:19 | `setCurrentBook` replaces the current book and leaves the books |
| BookStore.SettersCommute | ReadAloud.Web/src/store/book.store.ts:17-19 | the two setters commute, and together they set the whole state |
| BookStore.AddBook | ReadAloud.Web/src/store/book.store.ts:21 | the new length is one more, the old books are the prefix, the new book is last, and the current book is unchanged |
| BookStore.Without | ReadAloud.Web/src/store/book.store.ts:25 | the filter keeps exactly the books whose id differs |
| BookStore.RemoveBook | ReadAloud.Web/src/store/book.store.ts:23-27 | no book with the id remains, every other book is kept, and the current book is cleared exactly when it has the id and is otherwise unchanged |
| BookStore.WithoutAppend | ReadAloud.Web/src/store/book.store.ts:25 | filtering a concatenation concatenates the filtered pieces |
| BookStore.RemoveBookKeepsOrder | ReadAloud.Web/src/store/book.store.ts:25 | a book with another id stays between what is left of the books before it and after it |
| BookStore.WithoutAbsent | ReadAloud.Web/src/store/book.store.ts:25 | filtering out an id that no book has keeps the list |
| BookStore.RemoveAbsentBook | ReadAloud.Web/src/store/book.store.ts:23-27 | removing an absent id leaves the books unchanged |
| BookStore.RemoveBookIdempotent | ReadAloud.Web/src/store/book.store.ts:23-27 | removing the same id twice is removing it once |
| BookStore.RemoveUndoesAdd | ReadAloud.Web/src/store/book.store.ts:21-27 | removing a freshly added book with a new id gives back the old books |
| Registration.EmailLikeIffMatchAt | ReadAloud.Web/src/pages/RegisterPage.tsx:29 | the pattern matches exactly when some '@' has a non-space character before it and a later '.' has only non-space characters, at least one, between them and a non-space character after it |
| Registration.EmailPatternTest | ReadAloud.Web/src/pages/RegisterPage.tsx:29 | the scan returns true exactly when the unanchored pattern matches somewhere in the text |
| Registration.EmailLikeUnanchored | ReadAloud.Web/src/pages/RegisterPage.tsx:29 | text around a passing address does not make it fail |
| Registration.EmailExamples | ReadAloud.Web/src/pages/RegisterPage.tsx:29 | `a@b.c` and `a@..c` pass; `a@b` and `a@.c` do not |
| Registration.ValidateForm | ReadAloud.Web/src/pages/RegisterPage.tsx:22-43 | each field has an error exactly when its check fails (username under 3, email not matching, password under 6, confirmation differing), with that check's message |
| Registration.FormValidIff | ReadAloud.Web/src/pages/RegisterPage.tsx:41-42 | the form is valid exactly when all four checks pass |
| Registration.SubmitRegistration | ReadAloud.Web/src/pages/RegisterPage.tsx:45-58 | a request is made exactly when the form is valid; it carries the form's fields, and the phone number is absent exactly when it was empty |
| Registration.SubmittedFormPassesChecks | ReadAloud.Web/src/pages/RegisterPage.tsx:48 | a request is never made for a form that fails a check |

## Left out

- The EPUB container reader is an input, not a model. The reader's output is the
  `EpubBook` datatype: title, author, navigation, reading order and cover bytes. A
  stream it rejects is the `Unreadable` case, carrying the reader's message.
- Only the top level of the navigation is read, as in the code. Nested navigation
  entries are not modelled.
- The .NET regular-expression engine is replaced by scanners for the patterns used.
  `IgnoreCase` is modelled as ASCII case folding only; the patterns hold only ASCII
  letters, and culture-dependent case folding of other letters is left out.
- Html.HtmlDecode: decodes only the named references `amp`, `lt`, `gt`, `quot`, `apos`
  and `nbsp`. `WebUtility.HtmlDecode` knows the 252 named references of HTML 4.0
  plus `apos`, 253 in all; the other names are copied as written here. Numeric references (`&#…;` and
  `&#x…;`) are not decoded: the model copies them verbatim, while the library parses
  the number, checks its range and emits the character. The number parsing belongs to
  the .NET runtime, not to this repository, and is not part of this model.
- Html.CleanHtmlText: because numeric references stay undecoded, results differ on
  them. `<p>&#160;</p>` decodes to U+00A0 in the code, which is whitespace, so that
  paragraph is dropped. The model keeps a paragraph `&#160;`, and that paragraph can
  keep a chapter the code drops. `don&#8217;t` stays `don&#8217;t` here.
- Text.NormalizeWhiteSpace: its own contract does not fix the spacing between words.
  A text with all whitespace deleted would also meet it. The one space per run of
  whitespace between content is stated by `Text.NormalizeWhiteSpaceJoins`, and for the
  cleaner by `Html.CleanHtmlTextJoins`.
- Html.CleanHtmlText: its own contract, like that of `Text.NormalizeWhiteSpace`, does
  not fix the one space between words; `Html.CleanHtmlTextJoins` states it for every
  decoded text.
- A character is a Unicode scalar value. `string.Length` and JavaScript's `length`
  count UTF-16 code units, so a character outside the Basic Multilingual Plane counts 1
  here and 2 there. Lengths agree for text inside that plane.
- Extractor.DivisionTier: the `text.Length > 20` filter (Parser.cs lines 131 and 142)
  counts characters, not UTF-16 code units; text outside the Basic Multilingual Plane
  can pass the filter in the code and fail it here. The same holds for
  `Extractor.SplitTier`.
- Registration.ValidateForm: the `length < 3` and `length < 6` checks (RegisterPage.tsx
  lines 25 and 33) count characters, not UTF-16 code units; a name or password with
  characters outside the Basic Multilingual Plane can fail them here and pass them in
  the code.
- Chapter and paragraph counters are unbounded integers. The 32-bit `int` of the code
  could only overflow past two billion chapters.
- Database identities (`Id`, `BookId`), `AddAsync`, `AddCoverImage` and persistence
  are left out. `BookService.UploadBook` returns what it hands to the repository instead
  of the saved entity with its id.
- The other members of `BookService` are not part of this model: `GetAllBooksAsync`,
  `GetBookByIdAsync`, `DeleteBookAsync` and `GetCoverImageAsync`. Each only forwards
  to the repository or to the EPUB reader.
- Logging is left out. Exceptions other than the parser's failures are left out; the
  upload passes a parse failure on unchanged, which models the rethrow.
- Null `Chapters` or `Paragraphs` lists on a parsed book are left out: the parser always
  creates them, so the null guards in the renumbering pass never fire on its output.
- The book's language is `Option<string>`, since the parser never sets it (null).
- The paragraph entity file (`Paragraph.cs`) is not part of this model. A paragraph is
  its number and its text, as the parser fills them.
- The book store's client `Book` record carries chapters that the store never inspects.
  Its numeric `id` is modelled as an unbounded integer.
- The register page's `setErrors` is left out; `ValidateForm` returns the error record.
  After the register call, `handleSubmit` also does the response handling, `setAuth`,
  navigation and the loading flag. These are UI effects and are left out.
- Authentication, text-to-speech, the API controllers and the rest of the React UI are
  outside the ingestion core.
- The property "script and style content never appears in a paragraph" is not stated,
  because it is false for the code as written.
  `ExtractorExamples.RebuiltScriptBecomesParagraph` and
  `ExtractorExamples.UnclosedStyleBecomesParagraph` give two counterexamples. The
  examples prove it only for one family of inputs, a script element in front of a
  paragraph (`ExtractorExamples.ScriptBeforeParagraph`).
- Full idempotence of `CleanHtmlText` is not stated, because it is false
  (`Html.CleanHtmlTextNotIdempotent`). The model proves idempotence of whitespace
  normalisation and of cleaning text without '<' and '&'.
