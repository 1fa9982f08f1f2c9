/** Worked inputs of `ExtractParagraphsFromHtml` and `CleanHtmlText`: a script element in
    front of a paragraph disappears, a run of line breaks and spaces between two words
    becomes one space, and a script element that the single removal pass rebuilds
    reaches the paragraphs. */
module ExtractorExamples {
  import opened Wrappers
  import opened Text
  import opened Html
  import opened Markup
  import opened Extractor

  /** No '<' followed by the first letter of `name` from `from` on, so no element of that
      name starts there. */
  lemma NoOpeningFrom(s: string, name: string, from: nat)
    requires name != [] && from <= |s|
    requires forall k | from <= k < |s| - 1 :: !(s[k] == '<' && AsciiLower(s[k + 1]) == name[0])
    ensures forall k | from <= k < |s| :: ElementAt(s, k, name).None?
    ensures !HasElementFrom(s, name, from)
  {
    forall k | from <= k < |s| ensures ElementAt(s, k, name).None? {
      if ElementAt(s, k, name).Some? {
        ElementStart(s, k, name);
      }
    }
    NoElementFrom(s, name, from);
  }

  /** The markup of one paragraph: `<p>`, a text `x` without '<', and `</p>`. */
  predicate ParagraphMarkup(t: string, x: string) {
    t == "<p>" + x + "</p>" && '<' !in x
  }

  /** In a paragraph's markup '<' appears only at its two tags. */
  lemma ParagraphShape(t: string, x: string)
    requires ParagraphMarkup(t, x)
    ensures |t| == |x| + 7
    ensures forall k | 0 <= k < |t| && t[k] == '<' :: k == 0 || k == 3 + |x|
    ensures t[0] == '<' && t[1] == 'p' && t[2] == '>' && t[3 + |x|] == '<' && t[4 + |x|] == '/'
    ensures t[3..3 + |x|] == x && t[3 + |x|..] == "</p>"
  {
    assert forall k | 3 <= k < 3 + |x| :: t[k] == x[k - 3];
  }

  /** The paragraph's one `<p>` element holds `x`. */
  lemma ParagraphContents(t: string, x: string)
    requires ParagraphMarkup(t, x)
    ensures ElementContents(t, "p") == [x]
  {
    ParagraphShape(t, x);
    var close := 3 + |x|;
    assert "<" + "p" == "<p" && CloseTag("p") == "</p>";
    forall i | 0 <= i < 2 ensures AsciiLower(t[i]) == "<p"[i] {
    }
    assert OccursAt(t, 2, ">") by {
      assert AsciiLower(t[2 + 0]) == ">"[0];
    }
    forall k | 3 <= k < close ensures !OccursAt(t, k, CloseTag("p")) {
      assert t[k] == x[k - 3];
      NotAt(t, k, CloseTag("p"), 0);
    }
    forall i | 0 <= i < 4 ensures AsciiLower(t[close + i]) == CloseTag("p")[i] {
      assert t[close + i] == t[close..][i];
    }
    ElementAtIs(t, 0, "p", 2, close);
    assert ContentsFrom(t, "p", 0) == [t[3..close]] + ContentsFrom(t, "p", |t|);
  }

  /** A paragraph's markup holds no style element. */
  lemma ParagraphHasNoStyle(t: string, x: string)
    requires ParagraphMarkup(t, x)
    ensures RemoveElements(t, "style") == t
  {
    ParagraphShape(t, x);
    NoOpeningFrom(t, "style", 0);
    RemoveElementsUnchanged(t, "style");
  }

  /** A single block whose cleaned text passes the filter is harvested as that text. */
  lemma HarvestSingle(h: string, longerThan: nat)
    requires Keep(CleanHtmlText(h), longerThan)
    ensures Harvest([h], longerThan) == [CleanHtmlText(h)]
  {
    assert CleanAll([h]) == [CleanHtmlText(h)];
  }

  /** Markup with a script element around `code` in front of a paragraph's markup `t`. */
  predicate ScriptThenParagraph(s: string, code: string, t: string, x: string) {
    s == "<script>" + code + "</script>" + t && '<' !in code && ParagraphMarkup(t, x)
  }

  /** Removing scripts leaves the paragraph's markup. */
  lemma ScriptThenParagraphRemoved(s: string, code: string, t: string, x: string)
    requires ScriptThenParagraph(s, code, t, x)
    ensures RemoveElements(s, "script") == t
  {
    ScriptElementAt(s, code, t);
    var n := 17 + |code|;
    assert RemoveFrom(s, "script", 0) == RemoveFrom(s, "script", n);
    assert s[n..] == t;
    ParagraphShape(t, x);
    forall k | n <= k < |s| - 1 ensures !(s[k] == '<' && AsciiLower(s[k + 1]) == "script"[0]) {
      assert s[k] == t[k - n] && s[k + 1] == t[k + 1 - n];
    }
    NoOpeningFrom(s, "script", n);
    RemoveFromUnchanged(s, "script", n);
  }

  /** A script element in front of a paragraph leaves no trace: the result is exactly
      the paragraph's cleaned text. */
  lemma ScriptBeforeParagraph(s: string, code: string, t: string, x: string)
    requires ScriptThenParagraph(s, code, t, x) && !IsBlank(CleanHtmlText(x))
    ensures ExtractParagraphsFromHtml(Some(s)) == [CleanHtmlText(x)]
  {
    assert s[0] == '<';
    assert !IsWhiteSpace(s[0]);
    ScriptThenParagraphRemoved(s, code, t, x);
    ParagraphHasNoStyle(t, x);
    assert StripScriptsAndStyles(s) == t;
    ParagraphContents(t, x);
    KeepWithoutLength(CleanHtmlText(x));
    HarvestSingle(x, 0);
  }

  /** `<script>alert(1)</script><p>Hello world</p>` yields the one paragraph
      `Hello world`; `code`, `a` and `b` name the script's code and the paragraph's two
      words. */
  lemma ScriptBeforeHelloWorld(s: string, code: string, a: string, b: string)
    requires s == "<script>alert(1)</script><p>Hello world</p>"
    requires code == "alert(1)" && a == "Hello" && b == "world"
    ensures ExtractParagraphsFromHtml(Some(s)) == ["Hello world"]
  {
    HelloWorldWords(a, b);
    var x := a + " " + b;
    CleanHtmlTextJoinsWords(a, " ", b);
    var t := "<p>" + x + "</p>";
    HelloWorldMarkup(s, code, t, x);
    assert x[0] == a[0];
    ScriptBeforeParagraph(s, code, t, x);
  }

  /** The example's markup is a script element around `code` in front of a paragraph
      around `x`, and neither holds a '<'. */
  lemma HelloWorldMarkup(s: string, code: string, t: string, x: string)
    requires s == "<script>alert(1)</script><p>Hello world</p>"
    requires code == "alert(1)" && x == "Hello world" && t == "<p>" + x + "</p>"
    ensures ScriptThenParagraph(s, code, t, x)
  {
    HelloWorldPieces(s, code, t, x);
    assert '<' !in code && '<' !in x;
  }

  lemma HelloWorldPieces(s: string, code: string, t: string, x: string)
    requires s == "<script>alert(1)</script><p>Hello world</p>"
    requires code == "alert(1)" && x == "Hello world" && t == "<p>" + x + "</p>"
    ensures s == "<script>" + code + "</script>" + t
  {
  }

  /** `Hello` and `world` are words, and with a space between them they make the
      paragraph's text. */
  lemma HelloWorldWords(a: string, b: string)
    requires a == "Hello" && b == "world"
    ensures IsWord(a) && IsWord(b) && a + " " + b == "Hello world"
  {
  }

  /** `Hello`, two line breaks, three spaces and `world` clean to `Hello world`. */
  lemma CleanHelloNewlinesWorld(s: string, a: string, w: string, b: string)
    requires a == "Hello" && w == "\n\n   " && b == "world" && s == a + w + b
    ensures CleanHtmlText(s) == "Hello world"
  {
    HelloWorldWords(a, b);
    assert IsBlank(w);
    CleanHtmlTextJoinsWords(a, w, b);
  }

  /** The script element that the removal pass rebuilds around `x`. */
  predicate RebuiltScript(r: string, x: string) {
    r == "<script>" + x + "</script>" && '<' !in x
  }

  /** Inside the rebuilt element, '<' appears only at its two tags. */
  lemma RebuiltScriptShape(r: string, x: string)
    requires RebuiltScript(r, x)
    ensures forall k | 0 <= k < |r| && r[k] == '<' :: k == 0 || k == 8 + |x|
    ensures r[1] == 's' && r[2] == 'c' && r[8 + |x| + 1] == '/' && r[8 + |x| + 2] == 's'
  {
    assert forall k | 8 <= k < 8 + |x| :: r[k] == x[k - 8];
  }

  /** The rebuilt element holds no style element. */
  lemma RebuiltScriptHasNoStyle(r: string, x: string)
    requires RebuiltScript(r, x)
    ensures RemoveElements(r, "style") == r
  {
    RebuiltScriptShape(r, x);
    assert "<" + "style" == "<style";
    assert !OccursAt(r, 0, "<style") by {
      assert r[0 + 2] == 'c' && "<style"[2] == 't';
    }
    forall k | 0 <= k < |r| ensures ElementAt(r, k, "style").None? {
      if ElementAt(r, k, "style").Some? {
        ElementStart(r, k, "style");
      }
    }
    NoElementFrom(r, "style", 0);
    RemoveElementsUnchanged(r, "style");
  }

  /** The rebuilt element holds no `<p>` and no `<div>` element. */
  lemma RebuiltScriptHasNoBlocks(r: string, x: string)
    requires RebuiltScript(r, x)
    ensures ElementContents(r, "p") == [] && ElementContents(r, "div") == []
  {
    RebuiltScriptShape(r, x);
    NoOpeningFrom(r, "p", 0);
    NoOpeningFrom(r, "div", 0);
    ElementContentsEmpty(r, "p");
    ElementContentsEmpty(r, "div");
  }

  /** The rebuilt element holds no block tag, so the split leaves it whole. */
  lemma RebuiltScriptUnsplit(r: string, x: string)
    requires RebuiltScript(r, x)
    ensures SplitOnBlockTags(r) == [r]
  {
    RebuiltScriptShape(r, x);
    forall k | 0 <= k < |r| ensures BlockTagEnd(r, k).None? {
      if BlockTagEnd(r, k).Some? {
        BlockTagStart(r, k);
      }
    }
    NoBlockTagFrom(r, 0);
    SplitOnBlockTagsWhole(r);
  }

  /** Cleaning the rebuilt element leaves the word inside it. */
  lemma RebuiltScriptCleans(r: string, x: string)
    requires RebuiltScript(r, x) && IsWord(x)
    ensures CleanHtmlText(r) == x
  {
    StripTagsBetweenTags("<script>", x, "</script>");
    HtmlDecodePlain(x);
    assert Decoded(r) == x;
    PlainDecodesToItself(x);
    assert !IsWhiteSpace(r[0]) && !IsWhiteSpace(x[0]);
    CleanHtmlTextWord(x);
  }

  /** Script content can reach the paragraphs. When the markup is `<scr`, an empty script
      element, `ipt>`, a word `x` longer than 20 characters and `</script>`, the removal
      pass rebuilds a script element around `x`, no `<p>` or `<div>` element and no block
      tag is left, and the split tier returns `x` as the chapter's one paragraph. */
  lemma RebuiltScriptBecomesParagraph(s: string, x: string)
    requires RebuildInput(s, x) && IsWord(x) && |x| > MinimumBlockLength
    ensures ExtractParagraphsFromHtml(Some(s)) == [x]
  {
    assert '<' !in x by {
      forall k | 0 <= k < |x| ensures x[k] != '<' {
      }
    }
    assert !IsWhiteSpace(s[0]);
    RemovalCanRebuildElement(s, x);
    var r := RemoveElements(s, "script");
    assert RebuiltScript(r, x);
    RebuiltScriptHasNoStyle(r, x);
    assert StripScriptsAndStyles(s) == r;
    RebuiltScriptHasNoBlocks(r, x);
    RebuiltScriptUnsplit(r, x);
    RebuiltScriptCleans(r, x);
    assert !IsBlank(x) by {
      assert !IsWhiteSpace(x[0]);
    }
    HarvestSingle(r, MinimumBlockLength);
  }

  /** What the removal passes leave of `SwallowInput`: an opening style tag that is never
      closed, followed by `x`. */
  predicate UnclosedStyle(b: string, x: string) {
    b == "<style>" + x && '<' !in x
  }

  /** In an unclosed style tag followed by `x`, '<' appears only at the start. */
  lemma UnclosedStyleShape(b: string, x: string)
    requires UnclosedStyle(b, x)
    ensures forall k | 0 <= k < |b| && b[k] == '<' :: k == 0
    ensures b[1] == 's'
  {
    assert forall k | 7 <= k < 7 + |x| :: b[k] == x[k - 7];
  }

  /** The unclosed style tag holds no `<p>` and no `<div>` element. */
  lemma UnclosedStyleHasNoBlocks(b: string, x: string)
    requires UnclosedStyle(b, x)
    ensures ElementContents(b, "p") == [] && ElementContents(b, "div") == []
  {
    UnclosedStyleShape(b, x);
    NoOpeningFrom(b, "p", 0);
    NoOpeningFrom(b, "div", 0);
    ElementContentsEmpty(b, "p");
    ElementContentsEmpty(b, "div");
  }

  /** The unclosed style tag is no block tag, so the split leaves the text whole. */
  lemma UnclosedStyleUnsplit(b: string, x: string)
    requires UnclosedStyle(b, x)
    ensures SplitOnBlockTags(b) == [b]
  {
    UnclosedStyleShape(b, x);
    forall k | 0 <= k < |b| ensures BlockTagEnd(b, k).None? {
      if BlockTagEnd(b, k).Some? {
        BlockTagStart(b, k);
      }
    }
    NoBlockTagFrom(b, 0);
    SplitOnBlockTagsWhole(b);
  }

  /** Cleaning drops the style tag as an ordinary tag and leaves the word after it. */
  lemma UnclosedStyleCleans(b: string, x: string)
    requires UnclosedStyle(b, x) && IsWord(x)
    ensures CleanHtmlText(b) == x
  {
    TagLengthOfTag("<style>", x);
    assert b[7..] == x;
    StripTagsPlain(x);
    HtmlDecodePlain(x);
    assert Decoded(b) == x;
    PlainDecodesToItself(x);
    assert !IsWhiteSpace(b[0]) && !IsWhiteSpace(x[0]);
    CleanHtmlTextWord(x);
  }

  /** Style content can reach the paragraphs. When the markup is `<style>`, a word `x`
      longer than 20 characters and a script element whose inner text is `</style>`, the
      script pass deletes the only closing style tag, the style pass then finds no match,
      and the split tier returns `x` as the chapter's one paragraph. */
  lemma UnclosedStyleBecomesParagraph(s: string, x: string)
    requires SwallowInput(s, x) && IsWord(x) && |x| > MinimumBlockLength
    ensures ExtractParagraphsFromHtml(Some(s)) == [x]
  {
    assert '<' !in x by {
      forall k | 0 <= k < |x| ensures x[k] != '<' {
      }
    }
    assert !IsWhiteSpace(s[0]);
    RemovalCanSwallowCloseTag(s, x);
    var b := "<style>" + x;
    assert StripScriptsAndStyles(s) == b;
    UnclosedStyleHasNoBlocks(b, x);
    UnclosedStyleUnsplit(b, x);
    UnclosedStyleCleans(b, x);
    assert !IsBlank(x) by {
      assert !IsWhiteSpace(x[0]);
    }
    HarvestSingle(b, MinimumBlockLength);
  }
}
