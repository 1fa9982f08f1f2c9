/** The text cleaner of the parser, `CleanHtmlText`: remove every tag, decode character
    entities, collapse whitespace and trim. */
module Html {
  import opened Wrappers
  import opened Sequences
  import opened Text

  /** A whole match of the pattern `<[^>]+>`. */
  predicate IsTag(t: string) {
    && |t| >= 3
    && t[0] == '<'
    && t[|t| - 1] == '>'
    && forall k | 1 <= k < |t| - 1 :: t[k] != '>'
  }

  /** No substring of `t` matches `<[^>]+>`. */
  predicate TagFree(t: string) {
    forall i, n | 0 <= i <= n <= |t| :: !IsTag(t[i..n])
  }

  /** The length of the match of `<[^>]+>` that starts at the beginning of `s`, if any.
      `[^>]+` is greedy and cannot cross a '>', so the match ends at the first '>'. */
  function TagLength(s: string): (r: Option<nat>)
    ensures r.Some? ==> r.value <= |s| && IsTag(s[..r.value])
    ensures r.None? ==> forall n | 0 <= n <= |s| :: !IsTag(s[..n])
  {
    if s != [] && s[0] == '<' then
      match IndexOfAny(s[1..], {'>'})
      case Some(k) =>
        if k >= 1 then
          assert forall j | 1 <= j < k + 1 :: s[j] == s[1..][j - 1];
          Some(k + 2)
        else
          assert s[1] == '>';
          None
      case None =>
        assert forall j | 1 <= j < |s| :: s[j] == s[1..][j - 1];
        None
    else None
  }

  /** `Regex.Replace(s, "<[^>]+>", "")`: one left-to-right pass that deletes every match. */
  function StripTags(s: string): (r: string)
    ensures |r| <= |s|
    decreases |s|
  {
    if s == [] then []
    else match TagLength(s)
      case Some(n) => StripTags(s[n..])
      case None => [s[0]] + StripTags(s[1..])
  }

  /** A tag at the front of the text is the match there. */
  lemma TagLengthOfTag(t: string, rest: string)
    requires IsTag(t)
    ensures TagLength(t + rest) == Some(|t|)
  {
    var p := t[1..|t| - 1];
    assert (t + rest)[1..] == p + ['>'] + rest;
    IndexOfAnyAfter(p, '>', rest, {'>'});
    assert t == (t + rest)[..|t|];
  }

  /** The tag pass copies text without '<' in front of the rest. */
  lemma {:induction false} StripTagsPlainPrefix(a: string, b: string)
    requires '<' !in a
    ensures StripTags(a + b) == a + StripTags(b)
    decreases |a|
  {
    if a == [] {
      assert a + b == b;
    } else {
      var t := a[1..] + b;
      StripTagsPlainPrefix(a[1..], b);
      StripTagsPlainCons(a[0], t);
      ConsAppend(a, b);
      ConsAppend(a, StripTags(b));
    }
  }

  /** The tag pass copies a character other than '<' in front of the rest. */
  lemma StripTagsPlainCons(c: char, t: string)
    requires c != '<'
    ensures StripTags([c] + t) == [c] + StripTags(t)
  {
    assert ([c] + t)[1..] == t;
  }

  /** Text without '<' between two tags is what the tag pass leaves. */
  lemma StripTagsBetweenTags(open: string, c: string, close: string)
    requires IsTag(open) && IsTag(close) && '<' !in c
    ensures StripTags(open + c + close) == c
  {
    TagLengthOfTag(open, c + close);
    assert (open + c + close)[|open|..] == c + close;
    assert open + c + close == open + (c + close);
    StripTagsPlainPrefix(c, close);
    TagLengthOfTag(close, []);
    assert close + [] == close;
    assert close[|close|..] == [];
  }

  /** The tag pass only deletes: every character it keeps comes from its input. */
  lemma {:induction false} StripTagsKeepsCharacters(s: string)
    ensures forall i | 0 <= i < |StripTags(s)| :: StripTags(s)[i] in s
    decreases |s|
  {
    if s != [] {
      match TagLength(s)
      case Some(n) =>
        StripTagsKeepsCharacters(s[n..]);
        assert forall c | c in s[n..] :: c in s;
      case None =>
        StripTagsKeepsCharacters(s[1..]);
        assert forall c | c in s[1..] :: c in s;
    }
  }

  /** Text without '<' holds no tag and passes through unchanged. */
  lemma {:induction false} StripTagsPlain(s: string)
    requires '<' !in s
    ensures StripTags(s) == s
    decreases |s|
  {
    if s != [] {
      assert TagLength(s).None?;
      StripTagsPlain(s[1..]);
    }
  }

  /** Substrings of `[c] + t` that start after `c` are substrings of `t`. */
  lemma TagFreeCons(c: char, t: string)
    requires TagFree(t)
    requires forall n | 0 <= n <= |t| + 1 :: !IsTag(([c] + t)[..n])
    ensures TagFree([c] + t)
  {
    var u := [c] + t;
    forall i, n | 0 <= i <= n <= |u|
      ensures !IsTag(u[i..n])
    {
      if i == 0 {
        assert u[i..n] == u[..n];
      } else {
        assert u[i..n] == t[i - 1..n - 1];
      }
    }
  }

  /** The tag pass keeps a first character that does not open a tag. */
  lemma StripTagsKeepsHead(s: string)
    requires s != [] && TagLength(s).None?
    ensures StripTags(s) == [s[0]] + StripTags(s[1..])
  {
  }

  /** A '<' that opens no tag is followed in the output by '>' at once, or by no '>'. */
  lemma KeptOpenerStartsNoTag(s: string, n: nat)
    requires s != [] && s[0] == '<' && TagLength(s).None?
    requires n <= |StripTags(s[1..])| + 1
    ensures !IsTag(([s[0]] + StripTags(s[1..]))[..n])
  {
    var rest := StripTags(s[1..]);
    var u := [s[0]] + rest;
    if n >= 3 {
      match IndexOfAny(s[1..], {'>'})
      case Some(k) =>
        assert k == 0;
        assert s[1] == '>';
        StripTagsKeepsHead(s[1..]);
        assert u[1] == '>';
      case None =>
        StripTagsKeepsCharacters(s[1..]);
        assert u[n - 1] == rest[n - 2];
        assert rest[n - 2] in s[1..];
    }
  }

  /** What the tag pass leaves contains no tag: a '<' it keeps is followed either by no
      '>' at all or directly by '>'. */
  lemma {:induction false} StripTagsTagFree(s: string)
    ensures TagFree(StripTags(s))
    decreases |s|
  {
    if s != [] {
      match TagLength(s)
      case Some(n) =>
        StripTagsTagFree(s[n..]);
      case None =>
        var rest := StripTags(s[1..]);
        StripTagsTagFree(s[1..]);
        forall n | 0 <= n <= |rest| + 1
          ensures !IsTag(([s[0]] + rest)[..n])
        {
          if s[0] == '<' {
            KeptOpenerStartsNoTag(s, n);
          }
        }
        TagFreeCons(s[0], rest);
    }
  }

  /** A tag-free string opens no tag at its first character. */
  lemma TagFreeHead(t: string)
    requires TagFree(t)
    ensures TagLength(t).None?
  {
    forall n | 0 <= n <= |t|
      ensures !IsTag(t[..n])
    {
      assert t[..n] == t[0..n];
    }
  }

  lemma TagFreeTail(t: string)
    requires TagFree(t) && t != []
    ensures TagFree(t[1..])
  {
    forall i, n | 0 <= i <= n <= |t| - 1
      ensures !IsTag(t[1..][i..n])
    {
      assert t[1..][i..n] == t[i + 1..n + 1];
    }
  }

  /** A tag-free string passes through the tag pass unchanged. */
  lemma {:induction false} StripTagsFixpoint(t: string)
    requires TagFree(t)
    ensures StripTags(t) == t
    decreases |t|
  {
    if t != [] {
      TagFreeHead(t);
      TagFreeTail(t);
      StripTagsFixpoint(t[1..]);
    }
  }

  /** The named character references the model decodes, a subset of the table used by
      `WebUtility.HtmlDecode`; the name is matched case-sensitively. */
  function NamedEntity(name: string): Option<char> {
    if name == "amp" then Some('&')
    else if name == "lt" then Some('<')
    else if name == "gt" then Some('>')
    else if name == "quot" then Some('"')
    else if name == "apos" then Some('\'')
    else if name == "nbsp" then Some('\U{A0}')
    else None
  }

  /** The reading of a character reference by `WebUtility.HtmlDecode`, at a '&' that
      starts `s`: the decoder looks for the first ';' or '&' after it. If a ';' comes
      first, the text between is the reference: a known name gives its character, and an
      unknown name is copied as it stands. A second '&', or no ';' at all, means there is
      no reference here. Text that starts with '#' and is longer than one character is a
      numeric reference; the model reads every numeric reference as one that does not
      parse, which the decoder also treats as no reference. The result is the decoded text
      and the number of characters consumed. */
  function ReferenceAt(s: string): (r: Option<(string, nat)>)
    requires s != [] && s[0] == '&'
    ensures r.Some? ==> 2 <= r.value.1 <= |s| && |r.value.0| <= r.value.1
  {
    match IndexOfAny(s[1..], {';', '&'})
    case Some(k) =>
      if s[1 + k] == ';' && !(k > 1 && s[1] == '#') then
        match NamedEntity(s[1..1 + k])
        case Some(c) => Some(([c], k + 2))
        case None => Some((s[..k + 2], k + 2))
      else None
    case None => None
  }

  /** `WebUtility.HtmlDecode`: character references are replaced, everything else is
      copied. */
  function HtmlDecode(s: string): (r: string)
    ensures |r| <= |s|
    decreases |s|
  {
    if s == [] then []
    else if s[0] != '&' then [s[0]] + HtmlDecode(s[1..])
    else match ReferenceAt(s)
      case Some((text, n)) => text + HtmlDecode(s[n..])
      case None => ['&'] + HtmlDecode(s[1..])
  }

  /** Text without '&' decodes to itself, whatever follows it. */
  lemma {:induction false} HtmlDecodePlainPrefix(a: string, b: string)
    requires '&' !in a
    ensures HtmlDecode(a + b) == a + HtmlDecode(b)
    decreases |a|
  {
    if a == [] {
      assert a + b == b;
    } else {
      HtmlDecodePlainPrefix(a[1..], b);
      HtmlDecodePlainCons(a[0], a[1..] + b);
      ConsAppend(a, b);
      ConsAppend(a, HtmlDecode(b));
    }
  }

  lemma HtmlDecodePlainCons(c: char, t: string)
    requires c != '&'
    ensures HtmlDecode([c] + t) == [c] + HtmlDecode(t)
  {
    assert ([c] + t)[1..] == t;
  }

  /** The first delimiter of `p + [c] + rest` is `c` when `p` holds none. */
  lemma IndexOfAnyAfter(p: string, c: char, rest: string, cs: set<char>)
    requires forall k | 0 <= k < |p| :: p[k] !in cs
    requires c in cs
    ensures IndexOfAny(p + [c] + rest, cs) == Some(|p|)
  {
    var x := p + [c] + rest;
    assert x[|p|] == c;
    assert forall k | 0 <= k < |p| :: x[k] == p[k];
  }

  /** The names of the table hold no delimiter and do not start with '#'. */
  lemma EntityNamesPlain(name: string)
    requires NamedEntity(name).Some?
    ensures name != [] && name[0] != '#'
    ensures forall k | 0 <= k < |name| :: name[k] !in {';', '&'}
  {
  }

  /** A known named reference decodes to its character. */
  lemma HtmlDecodeNamed(name: string, rest: string)
    requires NamedEntity(name).Some?
    ensures HtmlDecode("&" + name + ";" + rest) == [NamedEntity(name).value] + HtmlDecode(rest)
  {
    var s := "&" + name + ";" + rest;
    EntityNamesPlain(name);
    assert s[1..] == name + [';'] + rest;
    IndexOfAnyAfter(name, ';', rest, {';', '&'});
    assert s[1..1 + |name|] == name;
    assert ReferenceAt(s) == Some(([NamedEntity(name).value], |name| + 2));
    assert s[|name| + 2..] == rest;
  }

  /** The escaping that undoes the decoder: the characters the table can produce are
      written as named references. */
  function EscapeChar(c: char): string {
    if c == '&' then "&amp;"
    else if c == '<' then "&lt;"
    else if c == '>' then "&gt;"
    else if c == '"' then "&quot;"
    else [c]
  }

  function HtmlEscape(s: string): string
    decreases |s|
  {
    if s == [] then [] else EscapeChar(s[0]) + HtmlEscape(s[1..])
  }

  lemma HtmlDecodeEscapeChar(c: char, rest: string)
    ensures HtmlDecode(EscapeChar(c) + rest) == [c] + HtmlDecode(rest)
  {
    if c == '&' {
      assert EscapeChar(c) + rest == "&" + "amp" + ";" + rest;
      HtmlDecodeNamed("amp", rest);
    } else if c == '<' {
      assert EscapeChar(c) + rest == "&" + "lt" + ";" + rest;
      HtmlDecodeNamed("lt", rest);
    } else if c == '>' {
      assert EscapeChar(c) + rest == "&" + "gt" + ";" + rest;
      HtmlDecodeNamed("gt", rest);
    } else if c == '"' {
      assert EscapeChar(c) + rest == "&" + "quot" + ";" + rest;
      HtmlDecodeNamed("quot", rest);
    } else {
      HtmlDecodePlainCons(c, rest);
    }
  }

  /** Decoding inverts escaping, for every string. */
  lemma {:induction false} HtmlDecodeEscape(s: string)
    ensures HtmlDecode(HtmlEscape(s)) == s
    decreases |s|
  {
    if s != [] {
      HtmlDecodeEscape(s[1..]);
      HtmlDecodeEscapeChar(s[0], HtmlEscape(s[1..]));
      assert s == [s[0]] + s[1..];
    }
  }

  /** The text that the whitespace step of the cleaner receives. */
  function Decoded(html: string): string {
    HtmlDecode(StripTags(html))
  }

  /** `CleanHtmlText`: blank input gives the empty string; otherwise the tag pass, the
      entity decoder and the whitespace normalisation, in that order. The result is
      normalized, keeps every non-whitespace character of the decoded text, and is empty
      exactly when the decoded text is blank. */
  function CleanHtmlText(html: string): (r: string)
    ensures Normalized(r)
    ensures NonWhiteSpace(r) == NonWhiteSpace(Decoded(html))
    ensures r == [] <==> IsBlank(Decoded(html))
  {
    if IsBlank(html) then
      BlankDecodesToItself(html);
      BlankIffNoContent(html);
      ""
    else NormalizeWhiteSpace(Decoded(html))
  }

  lemma BlankDecodesToItself(s: string)
    requires IsBlank(s)
    ensures Decoded(s) == s
  {
    PlainDecodesToItself(s);
  }

  /** Text without '<' and '&' is left as it is by the tag pass and the decoder. */
  lemma PlainDecodesToItself(s: string)
    requires '<' !in s && '&' !in s
    ensures Decoded(s) == s
  {
    StripTagsPlain(s);
    HtmlDecodePlain(s);
  }

  lemma HtmlDecodePlain(s: string)
    requires '&' !in s
    ensures HtmlDecode(s) == s
  {
    HtmlDecodePlainPrefix(s, "");
    assert s + "" == s;
  }

  /** Cleaning text that is already clean and holds no '<' and no '&' changes nothing. */
  lemma CleanHtmlTextFixpoint(t: string)
    requires Normalized(t) && '<' !in t && '&' !in t
    ensures CleanHtmlText(t) == t
  {
    PlainDecodesToItself(t);
    NormalizeWhiteSpaceFixpoint(t);
  }

  /** Cleaning twice equals cleaning once whenever the first result holds no '<' and no
      '&'; those two characters are what a second pass can still act on. */
  lemma CleanHtmlTextIdempotentOnPlainText(html: string)
    requires '<' !in CleanHtmlText(html) && '&' !in CleanHtmlText(html)
    ensures CleanHtmlText(CleanHtmlText(html)) == CleanHtmlText(html)
  {
    CleanHtmlTextFixpoint(CleanHtmlText(html));
  }

  /** A word: non-empty, with no whitespace, no '<' and no '&'. */
  predicate IsWord(t: string) {
    t != [] && forall k | 0 <= k < |t| :: !IsWhiteSpace(t[k]) && t[k] != '<' && t[k] != '&'
  }

  /** A word is its own cleaned text. */
  lemma CleanHtmlTextWord(t: string)
    requires IsWord(t)
    ensures CleanHtmlText(t) == t
  {
    assert !IsWhiteSpace(t[0]);
    CleanHtmlTextFixpoint(t);
  }

  /** Collapsing leaves a leading run of non-whitespace alone. */
  lemma {:induction false} CollapseAfterWord(a: string, x: string)
    requires forall k | 0 <= k < |a| :: !IsWhiteSpace(a[k])
    ensures CollapseWhiteSpace(a + x) == a + CollapseWhiteSpace(x)
    decreases |a|
  {
    if a == [] {
      assert a + x == x;
    } else {
      assert (a + x)[1..] == a[1..] + x;
      CollapseAfterWord(a[1..], x);
      assert a + CollapseWhiteSpace(x) == [a[0]] + (a[1..] + CollapseWhiteSpace(x));
    }
  }

  /** Trimming the start of blank text followed by a word leaves the word. */
  lemma {:induction false} TrimStartBeforeWord(w: string, b: string)
    requires IsBlank(w) && IsWord(b)
    ensures TrimStart(w + b) == b
    decreases |w|
  {
    if w == [] {
      assert w + b == b;
    } else {
      assert (w + b)[1..] == w[1..] + b;
      TrimStartBeforeWord(w[1..], b);
    }
  }

  /** Two words joined by one space are normalized. */
  lemma NormalizedWords(a: string, b: string)
    requires IsWord(a) && IsWord(b)
    ensures Normalized(a + " " + b)
  {
    var r := a + " " + b;
    forall i | 0 <= i < |r| && IsWhiteSpace(r[i])
      ensures r[i] == ' ' && (i + 1 == |r| || !IsWhiteSpace(r[i + 1]))
    {
      if i == |a| {
        assert r[i + 1] == b[0];
      }
    }
    assert r[|r| - 1] == b[|b| - 1];
  }

  /** Collapsing blank text followed by a word gives one space and the word. */
  lemma CollapseBeforeWord(w: string, b: string)
    requires w != [] && IsBlank(w) && IsWord(b)
    ensures CollapseWhiteSpace(w + b) == " " + b
  {
    assert (w + b)[0] == w[0];
    TrimStartBeforeWord(w, b);
    assert Collapsed(b);
    CollapseFixpoint(b);
  }

  /** A run of whitespace between two words collapses to one space. */
  lemma CollapseBetweenWords(a: string, w: string, b: string)
    requires IsWord(a) && IsWord(b) && w != [] && IsBlank(w)
    ensures CollapseWhiteSpace(a + w + b) == a + " " + b
  {
    assert a + w + b == a + (w + b);
    CollapseAfterWord(a, w + b);
    CollapseBeforeWord(w, b);
  }

  /** Between two words, whitespace normalisation leaves exactly one space. */
  lemma NormalizeBetweenWords(a: string, w: string, b: string)
    requires IsWord(a) && IsWord(b) && w != [] && IsBlank(w)
    ensures NormalizeWhiteSpace(a + w + b) == a + " " + b
  {
    CollapseBetweenWords(a, w, b);
    NormalizedWords(a, b);
    TrimFixpoint(a + " " + b);
  }

  /** The cleaner keeps one space for every run of whitespace between content: when the
      decoded text is `a`, a non-empty run `w` of whitespace and `b`, with content in `a`
      and in `b`, the cleaned text is `a` and `b`, each normalized, joined by one space. */
  lemma CleanHtmlTextJoins(html: string, a: string, w: string, b: string)
    requires Decoded(html) == a + w + b
    requires !IsBlank(a) && !IsBlank(b) && w != [] && IsBlank(w)
    ensures CleanHtmlText(html) == NormalizeWhiteSpace(a) + " " + NormalizeWhiteSpace(b)
  {
    BlankAppend(a, w);
    BlankAppend(a + w, b);
    if IsBlank(html) {
      BlankDecodesToItself(html);
      assert false;
    }
    NormalizeWhiteSpaceJoins(a, w, b);
  }

  /** Whitespace between two words, line breaks included, cleans to one space:
      `Hello` + newlines and spaces + `world` gives `Hello world`. */
  lemma CleanHtmlTextJoinsWords(a: string, w: string, b: string)
    requires IsWord(a) && IsWord(b) && w != [] && IsBlank(w)
    ensures CleanHtmlText(a + w + b) == a + " " + b
  {
    var s := a + w + b;
    assert !IsWhiteSpace(s[0]);
    assert '<' !in s && '&' !in s by {
      forall k | 0 <= k < |s|
        ensures s[k] != '<' && s[k] != '&'
      {
        if k < |a| {
          assert s[k] == a[k];
        } else if k < |a| + |w| {
          assert s[k] == w[k - |a|];
        } else {
          assert s[k] == b[k - |a| - |w|];
        }
      }
    }
    PlainDecodesToItself(s);
    NormalizeBetweenWords(a, w, b);
  }

  /** `&amp;` between two strings without '&' decodes to a single '&'. */
  lemma HtmlDecodeAmpersand(a: string, b: string)
    requires '&' !in a && '&' !in b
    ensures HtmlDecode(a + "&amp;" + b) == a + "&" + b
  {
    var e := "&" + "amp" + ";" + b;
    assert a + "&amp;" + b == a + e;
    HtmlDecodePlainPrefix(a, e);
    HtmlDecodeNamed("amp", b);
    HtmlDecodePlain(b);
  }

  /** The escaped form of `<` followed by a word cleans to the entity `&lt;` on the first
      pass and to `<` itself on the second, so the cleaner is not idempotent. */
  lemma CleanHtmlTextNotIdempotent(w: string)
    requires IsWord(w)
    ensures CleanHtmlText("&amp;lt;" + w) == "&lt;" + w
    ensures CleanHtmlText("&lt;" + w) == "<" + w
    ensures CleanHtmlText(CleanHtmlText("&amp;lt;" + w)) != CleanHtmlText("&amp;lt;" + w)
  {
    CleanEscapedLessThan(w);
    CleanLessThanEntity(w);
  }

  /** The first pass: the tag pass leaves the text alone, and `&amp;` decodes to '&'. */
  lemma CleanEscapedLessThan(w: string)
    requires IsWord(w)
    ensures CleanHtmlText("&amp;lt;" + w) == "&lt;" + w
  {
    PrefixedWord("&amp;lt;", w);
    DecodeEscapedLessThan(w);
    PrefixedWord("&lt;", w);
    CleanWithoutTags("&amp;lt;" + w, "&lt;" + w);
  }

  lemma DecodeEscapedLessThan(w: string)
    requires IsWord(w)
    ensures HtmlDecode("&amp;lt;" + w) == "&lt;" + w
  {
    DecodeEntityThenPlain("&amp;", "amp", "lt;" + w);
    assert "&amp;lt;" + w == "&amp;" + ("lt;" + w);
    assert ['&'] + ("lt;" + w) == "&lt;" + w;
  }

  /** A known named reference followed by text without '&' decodes to its character
      followed by that text. */
  lemma DecodeEntityThenPlain(e: string, name: string, rest: string)
    requires NamedEntity(name).Some? && e == "&" + name + ";" && '&' !in rest
    ensures HtmlDecode(e + rest) == [NamedEntity(name).value] + rest
  {
    assert e + rest == "&" + name + ";" + rest;
    HtmlDecodeNamed(name, rest);
    HtmlDecodePlain(rest);
  }

  /** The second pass: `&lt;` decodes to '<'. */
  lemma CleanLessThanEntity(w: string)
    requires IsWord(w)
    ensures CleanHtmlText("&lt;" + w) == "<" + w
  {
    PrefixedWord("&lt;", w);
    DecodeEntityThenPlain("&lt;", "lt", w);
    var d := "<" + w;
    assert forall k | 1 <= k < |d| :: d[k] == w[k - 1];
    CleanWithoutTags("&lt;" + w, d);
  }

  /** Text without '<' that starts with a non-whitespace character, and whose decoding
      holds no whitespace, cleans to its decoding. */
  lemma CleanWithoutTags(s: string, d: string)
    requires s != [] && !IsWhiteSpace(s[0]) && '<' !in s && HtmlDecode(s) == d
    requires d != [] && forall k | 0 <= k < |d| :: !IsWhiteSpace(d[k])
    ensures CleanHtmlText(s) == d
  {
    StripTagsPlain(s);
    NormalizedWithoutWhiteSpace(d);
  }

  /** A word behind a prefix without whitespace and without '<' keeps both properties. */
  lemma PrefixedWord(p: string, w: string)
    requires IsWord(w)
    requires forall k | 0 <= k < |p| :: !IsWhiteSpace(p[k]) && p[k] != '<'
    ensures '<' !in p + w
    ensures forall k | 0 <= k < |p + w| :: !IsWhiteSpace((p + w)[k])
  {
    var s := p + w;
    forall k | 0 <= k < |s| ensures !IsWhiteSpace(s[k]) && s[k] != '<' {
      if k < |p| {
        assert s[k] == p[k];
      } else {
        assert s[k] == w[k - |p|];
      }
    }
  }

  /** A non-empty string without whitespace is its own whitespace normal form. */
  lemma NormalizedWithoutWhiteSpace(t: string)
    requires t != [] && !IsWhiteSpace(t[0])
    requires forall k | 1 <= k < |t| :: !IsWhiteSpace(t[k])
    ensures NormalizeWhiteSpace(t) == t
  {
    NormalizeWhiteSpaceFixpoint(t);
  }
}
