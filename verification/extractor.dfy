/** `ExtractParagraphsFromHtml`: the paragraph texts of one chapter's markup. Script and
    style elements are removed first; then three tiers are tried in order and the first
    one that yields anything is the result: the `<p>` elements, the `<div>` elements
    whose cleaned text is longer than 20 characters, and the pieces between block tags
    with the same length filter. */
module Extractor {
  import opened Wrappers
  import opened Text
  import opened Html
  import opened Markup

  /** The `<div>` tier and the split tier keep a text only when it is longer than this. */
  const MinimumBlockLength: nat := 20

  /** A tier's filter on a cleaned text: not blank, and longer than `longerThan`. The `<p>`
      tier has no length filter, which is `longerThan` 0 (see `KeepWithoutLength`). */
  predicate Keep(text: string, longerThan: nat) {
    !IsBlank(text) && |text| > longerThan
  }

  /** With no length filter, keeping a text means only that it is not blank. */
  lemma KeepWithoutLength(text: string)
    ensures Keep(text, 0) <==> !IsBlank(text)
  {
    if !IsBlank(text) {
      assert text != [];
    }
  }

  /** The texts that pass the filter, in their original order. */
  function Kept(texts: seq<string>, longerThan: nat): (r: seq<string>)
    ensures forall i | 0 <= i < |r| :: Keep(r[i], longerThan)
    ensures forall t | t in r :: t in texts
    ensures |r| <= |texts|
  {
    if texts == [] then []
    else
      var rest := Kept(texts[1..], longerThan);
      assert forall t | t in rest :: t in texts by {
        assert texts == [texts[0]] + texts[1..];
      }
      if Keep(texts[0], longerThan) then [texts[0]] + rest else rest
  }

  /** A text is kept exactly when it is one of the texts and passes the filter. */
  lemma {:induction false} KeptMembers(texts: seq<string>, longerThan: nat, t: string)
    ensures t in Kept(texts, longerThan) <==> t in texts && Keep(t, longerThan)
    decreases |texts|
  {
    if texts != [] {
      KeptMembers(texts[1..], longerThan, t);
      assert texts == [texts[0]] + texts[1..];
    }
  }

  /** Nothing is kept exactly when no text passes the filter. */
  lemma {:induction false} KeptEmpty(texts: seq<string>, longerThan: nat)
    ensures Kept(texts, longerThan) == [] <==>
      forall i | 0 <= i < |texts| :: !Keep(texts[i], longerThan)
    decreases |texts|
  {
    if texts != [] {
      KeptEmpty(texts[1..], longerThan);
      assert forall i | 1 <= i < |texts| :: texts[1..][i - 1] == texts[i];
    }
  }

  /** Filtering works text by text: a concatenation keeps the concatenation of what each
      part keeps. */
  lemma {:induction false} KeptAppend(a: seq<string>, b: seq<string>, longerThan: nat)
    ensures Kept(a + b, longerThan) == Kept(a, longerThan) + Kept(b, longerThan)
    decreases |a|
  {
    if a == [] {
      assert a + b == b;
    } else {
      assert (a + b)[1..] == a[1..] + b;
      KeptAppend(a[1..], b, longerThan);
    }
  }

  /** Every block passed through `CleanHtmlText`. */
  function CleanAll(blocks: seq<string>): (r: seq<string>)
    ensures |r| == |blocks|
    ensures forall i | 0 <= i < |r| :: r[i] == CleanHtmlText(blocks[i]) && Normalized(r[i])
  {
    seq(|blocks|, i requires 0 <= i < |blocks| => CleanHtmlText(blocks[i]))
  }

  /** One tier's loop: clean each matched block and keep the texts that pass the filter,
      in order. */
  function Harvest(blocks: seq<string>, longerThan: nat): (r: seq<string>)
    ensures forall i | 0 <= i < |r| :: Normalized(r[i]) && Keep(r[i], longerThan)
  {
    var texts := CleanAll(blocks);
    var r := Kept(texts, longerThan);
    assert forall i | 0 <= i < |r| :: Normalized(r[i]) by {
      forall i | 0 <= i < |r| ensures Normalized(r[i]) {
        KeptMembers(texts, longerThan, r[i]);
      }
    }
    r
  }

  /** A text is harvested exactly when it is the cleaned text of some block and passes the
      filter. */
  lemma HarvestMembers(blocks: seq<string>, longerThan: nat, t: string)
    ensures t in Harvest(blocks, longerThan) <==>
      exists i | 0 <= i < |blocks| :: CleanHtmlText(blocks[i]) == t && Keep(t, longerThan)
  {
    var texts := CleanAll(blocks);
    assert Harvest(blocks, longerThan) == Kept(texts, longerThan);
    KeptMembers(texts, longerThan, t);
    if t in texts {
      var i :| 0 <= i < |texts| && texts[i] == t;
      assert CleanHtmlText(blocks[i]) == t;
    }
    if exists i | 0 <= i < |blocks| :: CleanHtmlText(blocks[i]) == t && Keep(t, longerThan) {
      var i :| 0 <= i < |blocks| && CleanHtmlText(blocks[i]) == t && Keep(t, longerThan);
      assert texts[i] == t;
    }
  }

  /** A tier is empty exactly when no block's cleaned text passes its filter. */
  lemma HarvestEmpty(blocks: seq<string>, longerThan: nat)
    ensures Harvest(blocks, longerThan) == [] <==>
      forall i | 0 <= i < |blocks| :: !Keep(CleanHtmlText(blocks[i]), longerThan)
  {
    KeptEmpty(CleanAll(blocks), longerThan);
  }

  /** The two `Regex.Replace` passes that delete script and style elements. */
  function StripScriptsAndStyles(html: string): (r: string)
    ensures |r| <= |html|
  {
    RemoveElements(RemoveElements(html, "script"), "style")
  }

  /** The first tier: the cleaned, non-blank texts of the `<p>` elements. */
  function ParagraphTier(body: string): (r: seq<string>)
    ensures forall i | 0 <= i < |r| :: Normalized(r[i]) && r[i] != []
  {
    Harvest(ElementContents(body, "p"), 0)
  }

  /** The second tier: the cleaned texts of the `<div>` elements longer than 20. */
  function DivisionTier(body: string): (r: seq<string>)
    ensures forall i | 0 <= i < |r| :: Normalized(r[i]) && |r[i]| > MinimumBlockLength
  {
    Harvest(ElementContents(body, "div"), MinimumBlockLength)
  }

  /** The last tier: the cleaned pieces between block tags longer than 20. */
  function SplitTier(body: string): (r: seq<string>)
    ensures forall i | 0 <= i < |r| :: Normalized(r[i]) && |r[i]| > MinimumBlockLength
  {
    Harvest(SplitOnBlockTags(body), MinimumBlockLength)
  }

  /** `ExtractParagraphsFromHtml`; `None` stands for a null content string. Every
      paragraph is a cleaned, non-empty text. */
  function ExtractParagraphsFromHtml(html: Option<string>): (r: seq<string>)
    ensures IsNullOrWhiteSpace(html) ==> r == []
    ensures forall i | 0 <= i < |r| :: Normalized(r[i]) && r[i] != []
  {
    if IsNullOrWhiteSpace(html) then []
    else
      var body := StripScriptsAndStyles(html.value);
      var paragraphs := ParagraphTier(body);
      if paragraphs != [] then paragraphs
      else
        var divisions := DivisionTier(body);
        if divisions != [] then divisions
        else SplitTier(body)
  }

  /** The tiers short-circuit: the `<p>` tier's result whenever it has one; otherwise the
      `<div>` tier's, whenever that has one; otherwise the split tier's. Past the `<p>` tier
      every paragraph is longer than 20 characters. */
  lemma ExtractParagraphsTiers(html: string)
    requires !IsBlank(html)
    ensures var r := ExtractParagraphsFromHtml(Some(html));
      var body := StripScriptsAndStyles(html);
      && (ParagraphTier(body) != [] ==> r == ParagraphTier(body))
      && (ParagraphTier(body) == [] ==> forall i | 0 <= i < |r| :: |r[i]| > MinimumBlockLength)
      && (ParagraphTier(body) == [] && DivisionTier(body) != [] ==> r == DivisionTier(body))
      && (ParagraphTier(body) == [] && DivisionTier(body) == [] ==> r == SplitTier(body))
  {
  }

  /** Where a paragraph comes from: the cleaned text of a `<p>` element, or, when there is
      none, of a `<div>` element or a piece between block tags, longer than 20. */
  lemma ExtractedParagraphOrigin(html: string, t: string)
    requires t in ExtractParagraphsFromHtml(Some(html))
    ensures var body := StripScriptsAndStyles(html);
      var ps := ElementContents(body, "p");
      var ds := ElementContents(body, "div");
      var bs := SplitOnBlockTags(body);
      || (exists i | 0 <= i < |ps| :: CleanHtmlText(ps[i]) == t)
      || (exists i | 0 <= i < |ds| :: CleanHtmlText(ds[i]) == t && |t| > MinimumBlockLength)
      || (exists i | 0 <= i < |bs| :: CleanHtmlText(bs[i]) == t && |t| > MinimumBlockLength)
  {
    var body := StripScriptsAndStyles(html);
    HarvestMembers(ElementContents(body, "p"), 0, t);
    HarvestMembers(ElementContents(body, "div"), MinimumBlockLength, t);
    HarvestMembers(SplitOnBlockTags(body), MinimumBlockLength, t);
  }

  /** The `<p>` tier is empty exactly when every `<p>` element cleans to blank text. */
  lemma ParagraphTierEmpty(body: string)
    ensures var ps := ElementContents(body, "p");
      ParagraphTier(body) == [] <==> forall i | 0 <= i < |ps| :: IsBlank(CleanHtmlText(ps[i]))
  {
    var ps := ElementContents(body, "p");
    HarvestEmpty(ps, 0);
    forall i | 0 <= i < |ps| ensures !Keep(CleanHtmlText(ps[i]), 0) <==> IsBlank(CleanHtmlText(ps[i])) {
      KeepWithoutLength(CleanHtmlText(ps[i]));
    }
  }

  /** A length-filtered tier is empty exactly when no block cleans to more than 20
      characters. */
  lemma LongTierEmpty(blocks: seq<string>)
    ensures Harvest(blocks, MinimumBlockLength) == [] <==>
      forall i | 0 <= i < |blocks| :: |CleanHtmlText(blocks[i])| <= MinimumBlockLength
  {
    HarvestEmpty(blocks, MinimumBlockLength);
    forall i | 0 <= i < |blocks|
      ensures !Keep(CleanHtmlText(blocks[i]), MinimumBlockLength) <==> |CleanHtmlText(blocks[i])| <= MinimumBlockLength
    {
      LongTextNotBlank(CleanHtmlText(blocks[i]));
    }
  }

  /** A chapter yields no paragraph exactly when its markup is blank or no tier finds a
      text: every `<p>` element cleans to blank text, and no `<div>` element or block
      piece cleans to more than 20 characters. */
  lemma ExtractParagraphsEmpty(html: Option<string>)
    ensures ExtractParagraphsFromHtml(html) == [] <==>
      || IsNullOrWhiteSpace(html)
      || (var body := StripScriptsAndStyles(html.value);
          var ps := ElementContents(body, "p");
          var ds := ElementContents(body, "div");
          var bs := SplitOnBlockTags(body);
          && (forall i | 0 <= i < |ps| :: IsBlank(CleanHtmlText(ps[i])))
          && (forall i | 0 <= i < |ds| :: |CleanHtmlText(ds[i])| <= MinimumBlockLength)
          && (forall i | 0 <= i < |bs| :: |CleanHtmlText(bs[i])| <= MinimumBlockLength))
  {
    if !IsNullOrWhiteSpace(html) {
      var body := StripScriptsAndStyles(html.value);
      ParagraphTierEmpty(body);
      LongTierEmpty(ElementContents(body, "div"));
      LongTierEmpty(SplitOnBlockTags(body));
    }
  }

  /** A cleaned text that is not empty is not blank. */
  lemma LongTextNotBlank(t: string)
    requires Normalized(t)
    ensures t != [] ==> !IsBlank(t)
  {
    if t != [] {
      assert !IsWhiteSpace(t[0]);
    }
  }
}
