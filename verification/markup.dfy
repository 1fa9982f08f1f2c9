/** The regular expressions that the paragraph extractor applies to a chapter's markup,
    as left-to-right scanners over positions of the text: removal of `<script>` and
    `<style>` elements, the matches of `<p[^>]*>(.*?)</p>` and `<div[^>]*>(.*?)</div>`,
    and the split on block tags. Every pattern is matched ignoring case; the model folds
    ASCII letters only. */
module Markup {
  import opened Wrappers
  import opened Sequences
  import opened Text

  /** ASCII case folding, the part of `RegexOptions.IgnoreCase` the patterns rely on. */
  function AsciiLower(c: char): char {
    if 'A' <= c <= 'Z' then (c as int + 32) as char else c
  }

  /** `p` (written in lower case) occurs in `s` at position `k`, ignoring case. */
  predicate OccursAt(s: string, k: nat, p: string) {
    k + |p| <= |s| && forall i | 0 <= i < |p| :: AsciiLower(s[k + i]) == p[i]
  }

  /** A one-character pattern that is not a letter occurs exactly where that character is. */
  lemma OccursAtSymbol(s: string, k: nat, c: char)
    requires !('a' <= c <= 'z') && OccursAt(s, k, [c])
    ensures k < |s| && s[k] == c
  {
    assert AsciiLower(s[k + 0]) == [c][0];
  }

  /** The first position at or after `from` where `p` occurs in `s`, ignoring case. */
  function FindFrom(s: string, p: string, from: nat): (r: Option<nat>)
    requires from <= |s|
    ensures r.Some? ==> from <= r.value && r.value + |p| <= |s|
    decreases |s| - from
  {
    if OccursAt(s, from, p) then Some(from)
    else if from == |s| then None
    else FindFrom(s, p, from + 1)
  }

  /** The search finds the first occurrence at or after `from`, and finds none when there
      is none. */
  lemma {:induction false} FindFromFound(s: string, p: string, from: nat)
    requires from <= |s|
    ensures var r := FindFrom(s, p, from);
      && (r.Some? ==> OccursAt(s, r.value, p) && forall k | from <= k < r.value :: !OccursAt(s, k, p))
      && (r.None? ==> forall k | from <= k <= |s| :: !OccursAt(s, k, p))
    decreases |s| - from
  {
    if !OccursAt(s, from, p) && from < |s| {
      FindFromFound(s, p, from + 1);
    }
  }

  /** `p` occurs at `to` and nowhere in `[from, to)`, so the search from `from` finds `to`. */
  lemma {:induction false} FindFromFirst(s: string, p: string, from: nat, to: nat)
    requires from <= to <= |s|
    requires forall k | from <= k < to :: !OccursAt(s, k, p)
    requires OccursAt(s, to, p)
    ensures FindFrom(s, p, from) == Some(to)
    decreases (to as int) - (from as int)
  {
    if from < to {
      assert !OccursAt(s, from, p);
      FindFromFirst(s, p, from + 1, to);
    }
  }

  /** A pattern does not occur where one of its characters is missing. */
  lemma NotAt(s: string, k: nat, p: string, i: nat)
    requires i < |p| && (k + i < |s| ==> AsciiLower(s[k + i]) != p[i])
    ensures !OccursAt(s, k, p)
  {
  }

  /** One match of `<name[^>]*>(.*?)</name>`: the inner text is `s[contentStart..contentEnd]`
      and the match ends before `end`. */
  datatype Element = Element(contentStart: nat, contentEnd: nat, end: nat)

  /** The closing tag `</name>`. */
  function CloseTag(name: string): string {
    "</" + name + ">"
  }

  /** The match of `<name[^>]*>(.*?)</name>` that starts at position `at`, if any.
      `[^>]*` cannot cross a '>', so the opening tag ends at the first '>' after `<name`;
      the lazy `.*?` stops at the first closing tag after that. Without a closing tag
      there is no match. */
  function ElementAt(s: string, at: nat, name: string): (r: Option<Element>)
    requires at <= |s|
    ensures r.Some? ==>
      && at + |name| + 2 <= r.value.contentStart <= r.value.contentEnd
      && r.value.end == r.value.contentEnd + |CloseTag(name)| <= |s|
  {
    if !OccursAt(s, at, "<" + name) then None
    else match FindFrom(s, ">", at + |name| + 1)
      case None => None
      case Some(gt) =>
        match FindFrom(s, CloseTag(name), gt + 1)
        case None => None
        case Some(c) => Some(Element(gt + 1, c, c + |CloseTag(name)|))
  }

  /** A match is `<name`, anything up to the first '>', the inner text, and the first
      closing tag after it: the inner text holds no closing tag. */
  lemma ElementAtMatch(s: string, at: nat, name: string)
    requires at <= |s| && ElementAt(s, at, name).Some?
    ensures var e := ElementAt(s, at, name).value;
      && OccursAt(s, at, "<" + name)
      && s[e.contentStart - 1] == '>'
      && OccursAt(s, e.contentEnd, CloseTag(name))
      && forall k | e.contentStart <= k < e.contentEnd :: !OccursAt(s, k, CloseTag(name))
  {
    var gt := FindFrom(s, ">", at + |name| + 1).value;
    FindFromFound(s, ">", at + |name| + 1);
    FindFromFound(s, CloseTag(name), gt + 1);
    OccursAtSymbol(s, gt, '>');
  }

  /** The match at `at`, given `<name` there, the first '>' after it at `gt`, and the
      first closing tag after that at `close`. */
  lemma ElementAtIs(s: string, at: nat, name: string, gt: nat, close: nat)
    requires OccursAt(s, at, "<" + name)
    requires at + |name| + 1 <= gt && OccursAt(s, gt, ">")
    requires forall k | at + |name| + 1 <= k < gt :: !OccursAt(s, k, ">")
    requires gt + 1 <= close && OccursAt(s, close, CloseTag(name))
    requires forall k | gt + 1 <= k < close :: !OccursAt(s, k, CloseTag(name))
    ensures ElementAt(s, at, name) == Some(Element(gt + 1, close, close + |CloseTag(name)|))
  {
    FindFromFirst(s, ">", at + |name| + 1, gt);
    FindFromFirst(s, CloseTag(name), gt + 1, close);
  }

  /** The text from position `from` on, with every match of `<name[^>]*>.*?</name>`
      deleted in one left-to-right pass. */
  function RemoveFrom(s: string, name: string, from: nat): (r: string)
    requires from <= |s|
    ensures |r| <= |s| - from
    decreases |s| - from
  {
    if from == |s| then []
    else match ElementAt(s, from, name)
      case Some(e) => RemoveFrom(s, name, e.end)
      case None => [s[from]] + RemoveFrom(s, name, from + 1)
  }

  /** `Regex.Replace(s, "<name[^>]*>.*?</name>", "", Singleline | IgnoreCase)`. */
  function RemoveElements(s: string, name: string): (r: string)
    ensures |r| <= |s|
  {
    RemoveFrom(s, name, 0)
  }

  /** The inner texts of the matches of `<name[^>]*>(.*?)</name>` from position `from`
      on, in document order. */
  function ContentsFrom(s: string, name: string, from: nat): (r: seq<string>)
    requires from <= |s|
    decreases |s| - from
  {
    if from == |s| then []
    else match ElementAt(s, from, name)
      case Some(e) => [s[e.contentStart..e.contentEnd]] + ContentsFrom(s, name, e.end)
      case None => ContentsFrom(s, name, from + 1)
  }

  /** The captured groups of `Regex.Matches(s, "<name[^>]*>(.*?)</name>", Singleline |
      IgnoreCase)`. */
  function ElementContents(s: string, name: string): (r: seq<string>)
  {
    ContentsFrom(s, name, 0)
  }

  /** The length of the `(?:p|div|br|h[1-6])` alternative matching at position `k`, or 0. */
  function BlockNameLength(s: string, k: nat): (r: nat)
    requires k <= |s|
    ensures k + r <= |s|
  {
    if OccursAt(s, k, "p") then 1
    else if OccursAt(s, k, "div") then 3
    else if OccursAt(s, k, "br") then 2
    else if k + 2 <= |s| && AsciiLower(s[k]) == 'h' && '1' <= s[k + 1] <= '6' then 2
    else 0
  }

  /** The end of the match of `</?(?:p|div|br|h[1-6])[^>]*>` that starts at position `at`,
      if any: after '<' and an optional '/', a block name, then everything up to and
      including the first '>'. */
  function BlockTagEnd(s: string, at: nat): (r: Option<nat>)
    requires at <= |s|
    ensures r.Some? ==> at + 3 <= r.value <= |s| && s[at] == '<'
  {
    if at == |s| || s[at] != '<' then None
    else
      var name := if at + 1 < |s| && s[at + 1] == '/' then at + 2 else at + 1;
      var len := BlockNameLength(s, name);
      if len == 0 then None
      else match FindFrom(s, ">", name + len)
        case None => None
        case Some(gt) => Some(gt + 1)
  }

  /** The pieces of `s[from..]` between block tags; there is always at least one. */
  function SplitFrom(s: string, from: nat): (r: seq<string>)
    requires from <= |s|
    ensures |r| >= 1
    decreases |s| - from
  {
    if from == |s| then [""]
    else match BlockTagEnd(s, from)
      case Some(e) => [""] + SplitFrom(s, e)
      case None =>
        var rest := SplitFrom(s, from + 1);
        [[s[from]] + rest[0]] + rest[1..]
  }

  /** `Regex.Split(s, "</?(?:p|div|br|h[1-6])[^>]*>", IgnoreCase)`: the texts between the
      block tags, including the empty ones before, between and after adjacent tags. */
  function SplitOnBlockTags(s: string): (r: seq<string>)
    ensures |r| >= 1
  {
    SplitFrom(s, 0)
  }

  /** A match of `<name...>...</name>` starts somewhere at or after `from`. */
  predicate HasElementFrom(s: string, name: string, from: nat)
    requires from <= |s|
    decreases |s| - from
  {
    from < |s| && (ElementAt(s, from, name).Some? || HasElementFrom(s, name, from + 1))
  }

  /** No match starts at any position from `from` on. */
  lemma {:induction false} NoElementFrom(s: string, name: string, from: nat)
    requires from <= |s|
    requires forall k | from <= k < |s| :: ElementAt(s, k, name).None?
    ensures !HasElementFrom(s, name, from)
    decreases |s| - from
  {
    if from < |s| {
      NoElementFrom(s, name, from + 1);
    }
  }

  /** The replacement changes the text exactly when the text holds a match. */
  lemma {:induction false} RemoveFromUnchanged(s: string, name: string, from: nat)
    requires from <= |s|
    ensures RemoveFrom(s, name, from) == s[from..] <==> !HasElementFrom(s, name, from)
    decreases |s| - from
  {
    if from < |s| {
      var r := RemoveFrom(s, name, from);
      match ElementAt(s, from, name)
      case Some(e) =>
        assert |r| < |s[from..]|;
      case None =>
        var rest := RemoveFrom(s, name, from + 1);
        assert r == [s[from]] + rest;
        RemoveFromUnchanged(s, name, from + 1);
        ConsEqual(s[from], rest, s[from + 1..]);
        assert s[from..] == [s[from]] + s[from + 1..];
    }
  }

  /** A stretch where no match starts is copied as it is. */
  lemma {:induction false} RemoveFromCopies(s: string, name: string, from: nat, to: nat)
    requires from <= to <= |s|
    requires forall k | from <= k < to :: ElementAt(s, k, name).None?
    ensures RemoveFrom(s, name, from) == s[from..to] + RemoveFrom(s, name, to)
    decreases (to as int) - (from as int)
  {
    if from < to {
      var tail := RemoveFrom(s, name, to);
      assert ElementAt(s, from, name).None?;
      assert RemoveFrom(s, name, from) == [s[from]] + RemoveFrom(s, name, from + 1);
      RemoveFromCopies(s, name, from + 1, to);
      var a := s[from..to];
      assert a[0] == s[from] && a[1..] == s[from + 1..to];
      ConsAppend(a, tail);
    }
  }

  /** `Regex.Replace` with the element pattern changes the text exactly when it matches. */
  lemma RemoveElementsUnchanged(s: string, name: string)
    ensures RemoveElements(s, name) == s <==> !HasElementFrom(s, name, 0)
  {
    RemoveFromUnchanged(s, name, 0);
  }

  /** There are no captures exactly when nothing matches. */
  lemma {:induction false} ContentsFromEmpty(s: string, name: string, from: nat)
    requires from <= |s|
    ensures ContentsFrom(s, name, from) == [] <==> !HasElementFrom(s, name, from)
    decreases |s| - from
  {
    if from < |s| {
      match ElementAt(s, from, name)
      case Some(e) =>
      case None =>
        ContentsFromEmpty(s, name, from + 1);
    }
  }

  /** `Regex.Matches` with the element pattern is empty exactly when nothing matches. */
  lemma ElementContentsEmpty(s: string, name: string)
    ensures ElementContents(s, name) == [] <==> !HasElementFrom(s, name, 0)
  {
    ContentsFromEmpty(s, name, 0);
  }

  /** An occurrence inside a slice is an occurrence in the whole text. */
  lemma OccursInSlice(s: string, lo: nat, hi: nat, k: nat, p: string)
    requires lo <= hi <= |s| && OccursAt(s[lo..hi], k, p)
    ensures OccursAt(s, lo + k, p)
  {
    forall i | 0 <= i < |p| ensures AsciiLower(s[lo + k + i]) == p[i] {
      assert s[lo..hi][k + i] == s[lo + k + i];
    }
  }

  /** The lazy `(.*?)` never captures the closing tag. */
  lemma {:induction false} ContentsFromNoCloseTag(s: string, name: string, from: nat)
    requires from <= |s|
    ensures forall c, k | c in ContentsFrom(s, name, from) :: !OccursAt(c, k, CloseTag(name))
    decreases |s| - from
  {
    if from < |s| {
      match ElementAt(s, from, name)
      case Some(e) =>
        ContentsFromNoCloseTag(s, name, e.end);
        ElementAtMatch(s, from, name);
        forall k ensures !OccursAt(s[e.contentStart..e.contentEnd], k, CloseTag(name)) {
          if OccursAt(s[e.contentStart..e.contentEnd], k, CloseTag(name)) {
            OccursInSlice(s, e.contentStart, e.contentEnd, k, CloseTag(name));
          }
        }
      case None =>
        ContentsFromNoCloseTag(s, name, from + 1);
    }
  }

  /** No captured paragraph or division text contains its own closing tag. */
  lemma ElementContentsNoCloseTag(s: string, name: string)
    ensures forall c, k | c in ElementContents(s, name) :: !OccursAt(c, k, CloseTag(name))
  {
    ContentsFromNoCloseTag(s, name, 0);
  }

  /** A block tag starts somewhere at or after `from`. */
  predicate HasBlockTagFrom(s: string, from: nat)
    requires from <= |s|
    decreases |s| - from
  {
    from < |s| && (BlockTagEnd(s, from).Some? || HasBlockTagFrom(s, from + 1))
  }

  /** No block tag starts at any position from `from` on. */
  lemma {:induction false} NoBlockTagFrom(s: string, from: nat)
    requires from <= |s|
    requires forall k | from <= k < |s| :: BlockTagEnd(s, k).None?
    ensures !HasBlockTagFrom(s, from)
    decreases |s| - from
  {
    if from < |s| {
      NoBlockTagFrom(s, from + 1);
    }
  }

  /** A block tag starts with '<', an optional '/', and a letter p, d, b or h. */
  lemma BlockTagStart(s: string, k: nat)
    requires k <= |s| && BlockTagEnd(s, k).Some?
    ensures s[k] == '<' && k + 1 < |s|
    ensures var j := if s[k + 1] == '/' then k + 2 else k + 1;
      j < |s| && AsciiLower(s[j]) in {'p', 'd', 'b', 'h'}
  {
    var j := if k + 1 < |s| && s[k + 1] == '/' then k + 2 else k + 1;
    assert BlockNameLength(s, j) > 0;
    if OccursAt(s, j, "p") {
      assert AsciiLower(s[j + 0]) == "p"[0];
    } else if OccursAt(s, j, "div") {
      assert AsciiLower(s[j + 0]) == "div"[0];
    } else if OccursAt(s, j, "br") {
      assert AsciiLower(s[j + 0]) == "br"[0];
    }
  }

  /** The split leaves the text in one piece exactly when it holds no block tag. */
  lemma {:induction false} SplitFromWhole(s: string, from: nat)
    requires from <= |s|
    ensures SplitFrom(s, from) == [s[from..]] <==> !HasBlockTagFrom(s, from)
    decreases |s| - from
  {
    if from < |s| {
      var r := SplitFrom(s, from);
      match BlockTagEnd(s, from)
      case Some(e) =>
        assert r == [""] + SplitFrom(s, e);
        assert |r| >= 2;

      case None =>
        var rest := SplitFrom(s, from + 1);
        assert r == [[s[from]] + rest[0]] + rest[1..];
        SplitFromWhole(s, from + 1);
        SplitStep(s[from], rest, s[from + 1..]);
        assert s[from..] == [s[from]] + s[from + 1..];
        assert HasBlockTagFrom(s, from) == HasBlockTagFrom(s, from + 1);
    } else {
      assert s[from..] == "";
    }
  }

  /** Prepending a character to the first piece keeps a split whole exactly when it was. */
  lemma SplitStep(c: char, rest: seq<string>, t: string)
    requires |rest| >= 1
    ensures [[c] + rest[0]] + rest[1..] == [[c] + t] <==> rest == [t]
  {
    if [[c] + rest[0]] + rest[1..] == [[c] + t] {
      var whole := [[c] + rest[0]] + rest[1..];
      assert whole[0] == [c] + rest[0];
      assert |whole| == 1;
      ConsEqual(c, rest[0], t);
      assert rest == [rest[0]] + rest[1..];
    }
  }

  /** `Regex.Split` on the block tags returns the whole text exactly when it holds none. */
  lemma SplitOnBlockTagsWhole(s: string)
    ensures SplitOnBlockTags(s) == [s] <==> !HasBlockTagFrom(s, 0)
  {
    SplitFromWhole(s, 0);
  }

  /** The block tags that the split removes from `s[from..]`, in order. */
  function BlockTagsFrom(s: string, from: nat): (r: seq<string>)
    requires from <= |s|
    ensures forall i | 0 <= i < |r| :: |r[i]| >= 3 && r[i][0] == '<'
    decreases |s| - from
  {
    if from == |s| then []
    else match BlockTagEnd(s, from)
      case Some(e) => [s[from..e]] + BlockTagsFrom(s, e)
      case None => BlockTagsFrom(s, from + 1)
  }

  /** The pieces with the tags put back between them: `p[0] + t[0] + p[1] + … + p[|t|]`. */
  function Interleave(pieces: seq<string>, tags: seq<string>): string
    requires |pieces| == |tags| + 1
    decreases |tags|
  {
    if tags == [] then pieces[0]
    else pieces[0] + tags[0] + Interleave(pieces[1..], tags[1..])
  }

  /** A character in front of the first piece is a character in front of the whole. */
  lemma InterleaveCons(c: char, pieces: seq<string>, tags: seq<string>)
    requires |pieces| == |tags| + 1
    ensures Interleave([[c] + pieces[0]] + pieces[1..], tags) == [c] + Interleave(pieces, tags)
  {
    var q := [[c] + pieces[0]] + pieces[1..];
    assert q[0] == [c] + pieces[0] && q[1..] == pieces[1..];
    if tags != [] {
      var rest := Interleave(pieces[1..], tags[1..]);
      var tail := tags[0] + rest;
      assert Interleave(q, tags) == ([c] + pieces[0]) + tail by {
        assert Interleave(q, tags) == q[0] + tags[0] + rest;
      }
      assert Interleave(pieces, tags) == pieces[0] + tail;
    }
  }

  /** The split loses nothing: its pieces with the removed tags between them give back
      the text. */
  lemma {:induction false} SplitFromRebuilds(s: string, from: nat)
    requires from <= |s|
    ensures |SplitFrom(s, from)| == |BlockTagsFrom(s, from)| + 1
    ensures Interleave(SplitFrom(s, from), BlockTagsFrom(s, from)) == s[from..]
    decreases |s| - from
  {
    if from < |s| {
      match BlockTagEnd(s, from)
      case Some(e) =>
        SplitFromRebuilds(s, e);
        var p, t := SplitFrom(s, e), BlockTagsFrom(s, e);
        assert ([""] + p)[1..] == p && ([s[from..e]] + t)[1..] == t;
        assert s[from..] == "" + s[from..e] + s[e..];
      case None =>
        SplitFromRebuilds(s, from + 1);
        InterleaveCons(s[from], SplitFrom(s, from + 1), BlockTagsFrom(s, from + 1));
        assert s[from..] == [s[from]] + s[from + 1..];
    }
  }

  /** `Regex.Split` on the block tags gives one piece more than there are tags, and the
      pieces with the tags between them rebuild the text. */
  lemma SplitOnBlockTagsRebuilds(s: string)
    ensures var pieces, tags := SplitOnBlockTags(s), BlockTagsFrom(s, 0);
      |pieces| == |tags| + 1 && Interleave(pieces, tags) == s
  {
    SplitFromRebuilds(s, 0);
  }

  /** A match starts with '<' followed by the first letter of the element name. */
  lemma ElementStart(s: string, k: nat, name: string)
    requires k <= |s| && name != [] && ElementAt(s, k, name).Some?
    ensures k + 1 < |s| && s[k] == '<' && AsciiLower(s[k + 1]) == name[0]
  {
    var open := "<" + name;
    ElementAtMatch(s, k, name);
    assert AsciiLower(s[k + 0]) == open[0] && AsciiLower(s[k + 1]) == open[1];
  }

  /** The input of `RemovalCanRebuildElement`: `<scr`, an empty script element, `ipt>`, the
      text `x` and a closing script tag. */
  predicate RebuildInput(s: string, x: string) {
    s == "<scr<script></script>ipt>" + x + "</script>"
  }

  /** The characters of the input around the text `x`. */
  lemma RebuildLayout(s: string, x: string)
    requires RebuildInput(s, x)
    ensures s[..25] == "<scr<script></script>ipt>"
    ensures forall k | 25 <= k < 25 + |x| :: s[k] == x[k - 25]
    ensures s[25 + |x|..] == "</script>"
  {
  }

  /** No match starts before position 4: the first four characters `<scr` are copied. */
  lemma RebuildHeadKept(s: string, x: string)
    requires RebuildInput(s, x)
    ensures RemoveFrom(s, "script", 0) == s[..4] + RemoveFrom(s, "script", 4)
  {
    RebuildLayout(s, x);
    var name := "script";
    assert "<" + name == "<script";
    forall k | 0 <= k < 4 ensures ElementAt(s, k, name).None? {
      if k == 0 {
        NotAt(s, k, "<script", 4);
      } else {
        NotAt(s, k, "<script", 0);
      }
    }
    RemoveFromCopies(s, name, 0, 4);
  }

  /** After the rebuilt tail begins, nothing in the input matches. */
  lemma RebuildTailUntouched(s: string, x: string)
    requires RebuildInput(s, x) && '<' !in x
    ensures RemoveFrom(s, "script", 21) == s[21..]
  {
    RebuildLayout(s, x);
    forall k | 21 <= k < |s| ensures ElementAt(s, k, "script").None? {
      if ElementAt(s, k, "script").Some? {
        ElementStart(s, k, "script");
      }
    }
    RemoveFromCopies(s, "script", 21, |s|);
  }

  /** The inner `<script></script>` is the match at position 4. */
  lemma RebuildInnerMatch(s: string, x: string)
    requires RebuildInput(s, x)
    ensures ElementAt(s, 4, "script") == Some(Element(12, 12, 21))
  {
    RebuildInnerTags(s, x);
    assert "<" + "script" == "<script";
    ElementAtIs(s, 4, "script", 11, 12);
  }

  /** The tags of the inner element: `<script` at 4, its '>' at 11, `</script>` at 12. */
  lemma RebuildInnerTags(s: string, x: string)
    requires RebuildInput(s, x)
    ensures OccursAt(s, 4, "<script") && OccursAt(s, 11, ">") && OccursAt(s, 12, CloseTag("script"))
  {
    RebuildInnerOpen(s, x);
    RebuildInnerClose(s, x);
  }

  lemma RebuildInnerOpen(s: string, x: string)
    requires RebuildInput(s, x)
    ensures OccursAt(s, 4, "<script") && OccursAt(s, 11, ">")
  {
    RebuildLayout(s, x);
    var head := "<scr<script></script>ipt>";
    forall i | 0 <= i < 7 ensures AsciiLower(s[4 + i]) == "<script"[i] {
      assert s[4 + i] == head[4 + i];
    }
    assert s[11] == head[11];
  }

  lemma RebuildInnerClose(s: string, x: string)
    requires RebuildInput(s, x)
    ensures OccursAt(s, 12, CloseTag("script"))
  {
    RebuildLayout(s, x);
    var head := "<scr<script></script>ipt>";
    forall i | 0 <= i < 9 ensures AsciiLower(s[12 + i]) == CloseTag("script")[i] {
      assert s[12 + i] == head[12 + i];
    }
  }

  /** What survives of the input: `<script>`, the text and the closing tag. */
  lemma RebuildPieces(s: string, x: string)
    requires RebuildInput(s, x)
    ensures s[..4] + s[21..] == "<script>" + x + "</script>"
  {
  }

  /** A script element around a text without '<' is the match at the start, whatever
      follows it. */
  lemma ScriptElementAt(r: string, x: string, y: string)
    requires r == "<script>" + x + "</script>" + y && '<' !in x
    ensures ElementAt(r, 0, "script") == Some(Element(8, 8 + |x|, 17 + |x|))
  {
    assert "<" + "script" == "<script" && CloseTag("script") == "</script>";
    assert r[..8] == "<script>";
    forall i | 0 <= i < 7 ensures AsciiLower(r[i]) == "<script"[i] {
      assert r[i] == r[..8][i];
    }
    assert OccursAt(r, 0, "<script");
    assert r[7] == r[..8][7];
    forall k | 8 <= k < 8 + |x| ensures !OccursAt(r, k, CloseTag("script")) {
      assert r[k] == x[k - 8];
      NotAt(r, k, CloseTag("script"), 0);
    }
    assert r[8 + |x|..17 + |x|] == "</script>";
    forall i | 0 <= i < 9 ensures AsciiLower(r[8 + |x| + i]) == CloseTag("script")[i] {
      assert r[8 + |x| + i] == r[8 + |x|..17 + |x|][i];
    }
    ElementAtIs(r, 0, "script", 7, 8 + |x|);
  }

  /** One pass of the removal can assemble a new element out of the pieces around the one
      it deletes: `<scr` and `ipt>` close up once `<script></script>` between them is
      gone, so the result is a script element around `x`. */
  lemma RemovalCanRebuildElement(s: string, x: string)
    requires RebuildInput(s, x) && '<' !in x
    ensures RemoveElements(s, "script") == "<script>" + x + "</script>"
    ensures ElementAt(RemoveElements(s, "script"), 0, "script") ==
      Some(Element(8, 8 + |x|, 17 + |x|))
  {
    RebuildHeadKept(s, x);
    RebuildInnerMatch(s, x);
    RebuildTailUntouched(s, x);
    assert RemoveFrom(s, "script", 4) == RemoveFrom(s, "script", 21);
    RebuildPieces(s, x);
    ScriptElementAt(s[..4] + s[21..], x, "");
  }

  /** A match ends with its closing tag, so a '<' stands at the end of its inner text. */
  lemma ElementCloseStart(s: string, k: nat, name: string)
    requires k <= |s| && ElementAt(s, k, name).Some?
    ensures var e := ElementAt(s, k, name).value;
      k + |name| + 2 <= e.contentEnd < |s| && s[e.contentEnd] == '<'
  {
    var e := ElementAt(s, k, name).value;
    ElementAtMatch(s, k, name);
    assert AsciiLower(s[e.contentEnd + 0]) == CloseTag(name)[0];
  }

  /** The input of `RemovalCanSwallowCloseTag`: an opening style tag, the text `x`, and a
      script element whose inner text is the closing style tag. */
  predicate SwallowInput(s: string, x: string) {
    s == "<style>" + x + "<script></style></script>"
  }

  /** The characters of the input around the text `x`. */
  lemma SwallowLayout(s: string, x: string)
    requires SwallowInput(s, x)
    ensures |s| == 32 + |x|
    ensures s[..7] == "<style>"
    ensures forall k | 7 <= k < 7 + |x| :: s[k] == x[k - 7]
    ensures s[7 + |x|..] == "<script></style></script>"
  {
  }

  /** No script match starts before the script element: the style tag and `x` are copied. */
  lemma SwallowHeadKept(s: string, x: string)
    requires SwallowInput(s, x) && '<' !in x
    ensures RemoveFrom(s, "script", 0) == s[..7 + |x|] + RemoveFrom(s, "script", 7 + |x|)
  {
    SwallowLayout(s, x);
    var name := "script";
    assert "<" + name == "<script";
    forall k | 0 <= k < 7 + |x| ensures ElementAt(s, k, name).None? {
      if k == 0 {
        assert s[2] == s[..7][2];
        NotAt(s, k, "<script", 2);
      } else if k < 7 {
        assert s[k] == s[..7][k];
        NotAt(s, k, "<script", 0);
      } else {
        NotAt(s, k, "<script", 0);
      }
    }
    RemoveFromCopies(s, name, 0, 7 + |x|);
  }

  /** The script element is the match at `7 + |x|`: its inner text is `</style>` and it
      reaches the end of the input. */
  lemma SwallowInnerMatch(s: string, x: string)
    requires SwallowInput(s, x)
    ensures ElementAt(s, 7 + |x|, "script") == Some(Element(15 + |x|, 23 + |x|, |s|))
  {
    SwallowLayout(s, x);
    SwallowInnerOpen(s, x);
    SwallowInnerClose(s, x);
    SwallowInnerText(s, x);
    assert "<" + "script" == "<script";
    ElementAtIs(s, 7 + |x|, "script", 14 + |x|, 23 + |x|);
  }

  lemma SwallowInnerOpen(s: string, x: string)
    requires SwallowInput(s, x)
    ensures OccursAt(s, 7 + |x|, "<script") && OccursAt(s, 14 + |x|, ">")
  {
    SwallowLayout(s, x);
    var n := |x|;
    forall i | 0 <= i < 7 ensures AsciiLower(s[7 + n + i]) == "<script"[i] {
      assert s[7 + n + i] == s[7 + n..][i];
    }
    assert s[14 + n] == s[7 + n..][7];
  }

  lemma SwallowInnerClose(s: string, x: string)
    requires SwallowInput(s, x)
    ensures OccursAt(s, 23 + |x|, CloseTag("script"))
  {
    SwallowLayout(s, x);
    var n := |x|;
    assert CloseTag("script") == "</script>";
    forall i | 0 <= i < 9 ensures AsciiLower(s[23 + n + i]) == "</script>"[i] {
      assert s[23 + n + i] == s[7 + n..][16 + i];
    }
  }

  /** The inner text `</style>` holds no closing script tag. */
  lemma SwallowInnerText(s: string, x: string)
    requires SwallowInput(s, x)
    ensures forall k | 15 + |x| <= k < 23 + |x| :: !OccursAt(s, k, CloseTag("script"))
  {
    assert CloseTag("script") == "</script>";
    SwallowInnerStyleTag(s, x);
    forall k | 16 + |x| <= k < 23 + |x| ensures !OccursAt(s, k, "</script>") {
      SwallowInnerRest(s, x, k);
    }
  }

  /** `</style>` is not `</script>`: they differ at their fourth character. */
  lemma SwallowInnerStyleTag(s: string, x: string)
    requires SwallowInput(s, x)
    ensures !OccursAt(s, 15 + |x|, "</script>")
  {
    SwallowLayout(s, x);
    var n := |x|;
    assert s[15 + n + 3] == s[7 + n..][11];
    NotAt(s, 15 + n, "</script>", 3);
  }

  /** Past the start of `</style>` there is no '<' before the closing script tag. */
  lemma SwallowInnerRest(s: string, x: string, k: nat)
    requires SwallowInput(s, x) && 16 + |x| <= k < 23 + |x|
    ensures !OccursAt(s, k, "</script>")
  {
    SwallowLayout(s, x);
    var n := |x|;
    assert s[k] == s[7 + n..][k - 7 - n];
    NotAt(s, k, "</script>", 0);
  }

  /** One pass of the removal can swallow the closing tag of another element: the script
      element after `<style>` and `x` holds `</style>` as its inner text, so once it is
      gone the style element has no closing tag and the style pass leaves `<style>` and
      `x` in place. */
  lemma RemovalCanSwallowCloseTag(s: string, x: string)
    requires SwallowInput(s, x) && '<' !in x
    ensures RemoveElements(s, "script") == "<style>" + x
    ensures RemoveElements(RemoveElements(s, "script"), "style") == "<style>" + x
  {
    SwallowHeadKept(s, x);
    SwallowInnerMatch(s, x);
    assert RemoveFrom(s, "script", 7 + |x|) == RemoveFrom(s, "script", |s|);
    SwallowLayout(s, x);
    var b := "<style>" + x;
    assert s[..7 + |x|] == b;
    assert forall k | 7 <= k < |b| :: b[k] == x[k - 7];
    forall k | 0 <= k < |b| ensures ElementAt(b, k, "style").None? {
      if ElementAt(b, k, "style").Some? {
        ElementCloseStart(b, k, "style");
      }
    }
    NoElementFrom(b, "style", 0);
    RemoveElementsUnchanged(b, "style");
  }
}
