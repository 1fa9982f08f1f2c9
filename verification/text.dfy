/** Whitespace handling of the .NET string library: `char.IsWhiteSpace`,
    `string.IsNullOrWhiteSpace`, `Trim`, and the whitespace collapse
    `Regex.Replace(text, @"\s+", " ")`. A character is a Unicode scalar value, which
    stands for one UTF-16 code unit of the source's strings only within the Basic
    Multilingual Plane. */
module Text {
  import opened Wrappers

  /** `char.IsWhiteSpace`. The class `\s` of .NET regular expressions is the same set:
      U+0009..U+000D, U+0085 and the Unicode separators (Zs, Zl, Zp). */
  predicate IsWhiteSpace(c: char) {
    || c == ' '
    || ('\t' <= c <= '\r')
    || c == '\U{85}'
    || c == '\U{A0}'
    || c == '\U{1680}'
    || ('\U{2000}' <= c <= '\U{200A}')
    || c == '\U{2028}'
    || c == '\U{2029}'
    || c == '\U{202F}'
    || c == '\U{205F}'
    || c == '\U{3000}'
  }

  /** `IndexOfAny`: the position of the first character of `s` that is in `cs`. */
  function IndexOfAny(s: string, cs: set<char>): (r: Option<nat>)
    ensures r.Some? ==> r.value < |s| && s[r.value] in cs
    ensures r.Some? ==> forall k | 0 <= k < r.value :: s[k] !in cs
    ensures r.None? ==> forall k | 0 <= k < |s| :: s[k] !in cs
    decreases |s|
  {
    if s == [] then None
    else if s[0] in cs then Some(0)
    else match IndexOfAny(s[1..], cs)
      case None => None
      case Some(k) => Some(k + 1)
  }

  /** A search that stops inside `p` is not affected by what follows `p`. */
  lemma IndexOfAnyPrefix(p: string, rest: string, cs: set<char>)
    requires IndexOfAny(p, cs).Some?
    ensures IndexOfAny(p + rest, cs) == IndexOfAny(p, cs)
  {
    var k := IndexOfAny(p, cs).value;
    assert (p + rest)[k] == p[k];
    assert forall j | 0 <= j < k :: (p + rest)[j] == p[j];
  }

  /** Empty, or whitespace only. */
  predicate IsBlank(s: string) {
    forall i | 0 <= i < |s| :: IsWhiteSpace(s[i])
  }

  /** `string.IsNullOrWhiteSpace`. */
  predicate IsNullOrWhiteSpace(s: Option<string>) {
    s.None? || IsBlank(s.value)
  }

  /** The non-whitespace characters of `s`, in order: the content that whitespace
      normalisation must keep. */
  function NonWhiteSpace(s: string): seq<char>
    decreases |s|
  {
    if s == [] then []
    else (if IsWhiteSpace(s[0]) then [] else [s[0]]) + NonWhiteSpace(s[1..])
  }

  /** Every whitespace character is a plain space and is followed by a non-whitespace
      character or by the end: what `\s+` replaced by `" "` leaves behind. */
  predicate Collapsed(t: string) {
    forall i | 0 <= i < |t| && IsWhiteSpace(t[i]) ::
      t[i] == ' ' && (i + 1 == |t| || !IsWhiteSpace(t[i + 1]))
  }

  /** Collapsed, with no leading or trailing whitespace. */
  predicate Normalized(t: string) {
    Collapsed(t) && (t != [] ==> !IsWhiteSpace(t[0]) && !IsWhiteSpace(t[|t| - 1]))
  }

  lemma NonWhiteSpaceAppend(a: string, b: string)
    ensures NonWhiteSpace(a + b) == NonWhiteSpace(a) + NonWhiteSpace(b)
    decreases |a|
  {
    if a == [] {
      assert a + b == b;
    } else {
      assert (a + b)[1..] == a[1..] + b;
      NonWhiteSpaceAppend(a[1..], b);
    }
  }

  lemma BlankAppend(a: string, b: string)
    ensures IsBlank(a + b) <==> IsBlank(a) && IsBlank(b)
  {
    if IsBlank(a) && IsBlank(b) {
      forall i | 0 <= i < |a + b|
        ensures IsWhiteSpace((a + b)[i])
      {
        if i >= |a| {
          assert (a + b)[i] == b[i - |a|];
        }
      }
    }
    if IsBlank(a + b) {
      forall i | 0 <= i < |a|
        ensures IsWhiteSpace(a[i])
      {
        assert (a + b)[i] == a[i];
      }
      forall i | 0 <= i < |b|
        ensures IsWhiteSpace(b[i])
      {
        assert (a + b)[|a| + i] == b[i];
      }
    }
  }

  lemma CollapsedSlice(t: string, lo: nat, hi: nat)
    requires Collapsed(t) && lo <= hi <= |t|
    ensures Collapsed(t[lo..hi])
  {
    var u := t[lo..hi];
    forall i | 0 <= i < |u| && IsWhiteSpace(u[i])
      ensures u[i] == ' ' && (i + 1 == |u| || !IsWhiteSpace(u[i + 1]))
    {
      assert u[i] == t[lo + i];
      if i + 1 < |u| {
        assert u[i + 1] == t[lo + i + 1];
      }
    }
  }

  /** The number of whitespace characters `s` starts with. */
  function LeadingWhiteSpace(s: string): (n: nat)
    ensures n <= |s|
    ensures forall k | 0 <= k < n :: IsWhiteSpace(s[k])
    ensures n < |s| ==> !IsWhiteSpace(s[n])
    decreases |s|
  {
    if |s| > 0 && IsWhiteSpace(s[0]) then
      var n := 1 + LeadingWhiteSpace(s[1..]);
      assert forall k | 1 <= k < n :: s[k] == s[1..][k - 1];
      n
    else 0
  }

  /** The number of whitespace characters `s` ends with. */
  function TrailingWhiteSpace(s: string): (n: nat)
    ensures n <= |s|
    ensures forall k | |s| - n <= k < |s| :: IsWhiteSpace(s[k])
    ensures n < |s| ==> !IsWhiteSpace(s[|s| - n - 1])
    decreases |s|
  {
    if |s| > 0 && IsWhiteSpace(s[|s| - 1]) then 1 + TrailingWhiteSpace(s[..|s| - 1]) else 0
  }

  /** A count of leading whitespace is the only one: the whitespace prefix ends at the
      first character that is not whitespace. */
  lemma {:induction false} LeadingWhiteSpaceIs(s: string, n: nat)
    requires n <= |s|
    requires forall k | 0 <= k < n :: IsWhiteSpace(s[k])
    requires n < |s| ==> !IsWhiteSpace(s[n])
    ensures LeadingWhiteSpace(s) == n
    decreases n
  {
    if n > 0 {
      assert forall k | 0 <= k < n - 1 :: s[1..][k] == s[k + 1];
      LeadingWhiteSpaceIs(s[1..], n - 1);
    }
  }

  /** `TrimStart()`: drops the leading whitespace. */
  function TrimStart(s: string): string {
    s[LeadingWhiteSpace(s)..]
  }

  /** `TrimEnd()`: drops the trailing whitespace. */
  function TrimEnd(s: string): string {
    s[..|s| - TrailingWhiteSpace(s)]
  }

  /** `Trim()`: both ends. */
  function Trim(s: string): string {
    TrimEnd(TrimStart(s))
  }

  /** Dropping whitespace keeps the content. */
  lemma NonWhiteSpaceBlank(s: string)
    requires IsBlank(s)
    ensures NonWhiteSpace(s) == []
  {
    BlankIffNoContent(s);
  }

  lemma TrimStartContent(s: string)
    ensures NonWhiteSpace(TrimStart(s)) == NonWhiteSpace(s)
  {
    var n := LeadingWhiteSpace(s);
    assert s == s[..n] + s[n..];
    NonWhiteSpaceAppend(s[..n], s[n..]);
    NonWhiteSpaceBlank(s[..n]);
  }

  lemma TrimEndContent(s: string)
    ensures NonWhiteSpace(TrimEnd(s)) == NonWhiteSpace(s)
  {
    var m := |s| - TrailingWhiteSpace(s);
    assert s == s[..m] + s[m..];
    NonWhiteSpaceAppend(s[..m], s[m..]);
    NonWhiteSpaceBlank(s[m..]);
  }

  lemma TrimmedAwayIsBlank(s: string, n: nat, t: string)
    requires n <= |s| && t == s[n..] && IsBlank(s[..n]) && IsBlank(t)
    ensures IsBlank(s)
  {
    assert s == s[..n] + t;
    BlankAppend(s[..n], t);
  }

  /** The trimmed string has no whitespace at its ends, is empty exactly when the input
      is blank, keeps every non-whitespace character, and keeps a collapsed input
      collapsed. */
  lemma TrimProperties(s: string)
    ensures var r := Trim(s);
      && (r == [] || (!IsWhiteSpace(r[0]) && !IsWhiteSpace(r[|r| - 1])))
      && (r == [] <==> IsBlank(s))
      && NonWhiteSpace(r) == NonWhiteSpace(s)
      && (Collapsed(s) ==> Normalized(r))
  {
    var n := LeadingWhiteSpace(s);
    var t := TrimStart(s);
    var m := |t| - TrailingWhiteSpace(t);
    var r := Trim(s);
    assert r == s[n..n + m];
    if r != [] {
      assert r[0] == s[n];
    }
    if IsBlank(s) {
      assert n == |s|;
    }
    if r == [] {
      TrimmedAwayIsBlank(s, n, t);
    }
    TrimStartContent(s);
    TrimEndContent(t);
    if Collapsed(s) {
      CollapsedSlice(s, n, n + m);
    }
  }

  /** `Regex.Replace(s, @"\s+", " ")`: every maximal run of whitespace becomes one space. */
  function CollapseWhiteSpace(s: string): (r: string)
    ensures r == [] <==> s == []
    decreases |s|
  {
    if s == [] then []
    else if IsWhiteSpace(s[0]) then " " + CollapseWhiteSpace(TrimStart(s))
    else [s[0]] + CollapseWhiteSpace(s[1..])
  }

  /** The collapse keeps every non-whitespace character, in order. */
  lemma {:induction false} CollapseWhiteSpaceContent(s: string)
    ensures NonWhiteSpace(CollapseWhiteSpace(s)) == NonWhiteSpace(s)
    decreases |s|
  {
    if s == [] {
    } else if IsWhiteSpace(s[0]) {
      var t := TrimStart(s);
      CollapseWhiteSpaceContent(t);
      TrimStartContent(s);
      NonWhiteSpaceAppend(" ", CollapseWhiteSpace(t));
    } else {
      CollapseWhiteSpaceContent(s[1..]);
      NonWhiteSpaceAppend([s[0]], CollapseWhiteSpace(s[1..]));
    }
  }

  /** The collapse has whitespace at either end exactly where its input has. */
  lemma {:induction false} CollapseWhiteSpaceEnds(s: string)
    requires s != []
    ensures IsWhiteSpace(CollapseWhiteSpace(s)[0]) <==> IsWhiteSpace(s[0])
    ensures IsWhiteSpace(Last(CollapseWhiteSpace(s))) <==> IsWhiteSpace(Last(s))
    decreases |s|
  {
    var r := CollapseWhiteSpace(s);
    if IsWhiteSpace(s[0]) {
      var t := TrimStart(s);
      var c := CollapseWhiteSpace(t);
      if t == [] {
        assert IsBlank(s[..|s|]);
        assert IsWhiteSpace(s[|s| - 1]);
      } else {
        CollapseWhiteSpaceEnds(t);
        assert Last(t) == Last(s);
        assert Last(r) == Last(c);
      }
    } else {
      var c := CollapseWhiteSpace(s[1..]);
      if s[1..] != [] {
        CollapseWhiteSpaceEnds(s[1..]);
        assert Last(r) == Last(c);
        assert Last(s) == Last(s[1..]);
      }
    }
  }

  /** The collapse leaves no run of whitespace and no whitespace but the space. */
  lemma {:induction false} CollapseWhiteSpaceCollapsed(s: string)
    ensures Collapsed(CollapseWhiteSpace(s))
    decreases |s|
  {
    var r := CollapseWhiteSpace(s);
    if s == [] {
    } else if IsWhiteSpace(s[0]) {
      var t := TrimStart(s);
      var c := CollapseWhiteSpace(t);
      CollapseWhiteSpaceCollapsed(t);
      if t != [] {
        CollapseWhiteSpaceEnds(t);
      }
      forall i | 0 <= i < |r| && IsWhiteSpace(r[i])
        ensures r[i] == ' ' && (i + 1 == |r| || !IsWhiteSpace(r[i + 1]))
      {
        if i > 0 {
          assert r[i] == c[i - 1];
          if i + 1 < |r| {
            assert r[i + 1] == c[i];
          }
        } else if 1 < |r| {
          assert r[1] == c[0];
        }
      }
    } else {
      var c := CollapseWhiteSpace(s[1..]);
      CollapseWhiteSpaceCollapsed(s[1..]);
      forall i | 0 <= i < |r| && IsWhiteSpace(r[i])
        ensures r[i] == ' ' && (i + 1 == |r| || !IsWhiteSpace(r[i + 1]))
      {
        assert r[i] == c[i - 1];
        if i + 1 < |r| {
          assert r[i + 1] == c[i];
        }
      }
    }
  }

  function Last(s: string): char
    requires s != []
  {
    s[|s| - 1]
  }

  /** The whitespace half of the cleaner: collapse, then trim. */
  function NormalizeWhiteSpace(s: string): (r: string)
    ensures Normalized(r)
    ensures NonWhiteSpace(r) == NonWhiteSpace(s)
    ensures r == [] <==> IsBlank(s)
  {
    var c := CollapseWhiteSpace(s);
    CollapseWhiteSpaceContent(s);
    CollapseWhiteSpaceCollapsed(s);
    BlankIffNoContent(s);
    BlankIffNoContent(c);
    TrimProperties(c);
    Trim(c)
  }

  /** A string is blank exactly when it has no non-whitespace content. */
  lemma BlankIffNoContent(s: string)
    ensures IsBlank(s) <==> NonWhiteSpace(s) == []
    decreases |s|
  {
    if s != [] {
      BlankIffNoContent(s[1..]);
      if !IsWhiteSpace(s[0]) {
        assert !IsBlank(s);
      }
    }
  }

  /** Collapsing an already collapsed string changes nothing. */
  lemma {:induction false} CollapseFixpoint(t: string)
    requires Collapsed(t)
    ensures CollapseWhiteSpace(t) == t
    decreases |t|
  {
    if t != [] {
      assert Collapsed(t[1..]);
      CollapseFixpoint(t[1..]);
      if IsWhiteSpace(t[0]) {
        assert TrimStart(t) == t[1..] by {
          assert t[1..] == [] || !IsWhiteSpace(t[1]);
        }
      }
    }
  }

  /** Trimming a string without whitespace at its ends changes nothing. */
  lemma TrimFixpoint(t: string)
    requires t == [] || (!IsWhiteSpace(t[0]) && !IsWhiteSpace(t[|t| - 1]))
    ensures Trim(t) == t
  {
    if t != [] {
      LeadingWhiteSpaceIs(t, 0);
    }
  }

  /** Whitespace normalisation is idempotent; it leaves a normalized string as it is. */
  lemma {:induction false} NormalizeWhiteSpaceFixpoint(t: string)
    requires Normalized(t)
    ensures NormalizeWhiteSpace(t) == t
  {
    CollapseFixpoint(t);
    TrimFixpoint(t);
  }

  lemma NormalizeWhiteSpaceIdempotent(s: string)
    ensures NormalizeWhiteSpace(NormalizeWhiteSpace(s)) == NormalizeWhiteSpace(s)
  {
    NormalizeWhiteSpaceFixpoint(NormalizeWhiteSpace(s));
  }

  /** A count of trailing whitespace is the only one: the whitespace suffix starts after
      the last character that is not whitespace. */
  lemma {:induction false} TrailingWhiteSpaceIs(s: string, n: nat)
    requires n <= |s|
    requires forall k | |s| - n <= k < |s| :: IsWhiteSpace(s[k])
    requires n < |s| ==> !IsWhiteSpace(s[|s| - n - 1])
    ensures TrailingWhiteSpace(s) == n
    decreases n
  {
    if n > 0 {
      var t := s[..|s| - 1];
      assert forall k | 0 <= k < |t| :: t[k] == s[k];
      TrailingWhiteSpaceIs(t, n - 1);
    }
  }

  /** Text with content shields what follows it from `TrimStart`. */
  lemma TrimStartAppend(x: string, y: string)
    requires !IsBlank(x)
    ensures TrimStart(x + y) == TrimStart(x) + y
  {
    var n := LeadingWhiteSpace(x);
    assert n < |x|;
    LeadingWhiteSpaceIs(x + y, n);
    assert (x + y)[n..] == x[n..] + y;
  }

  /** Text with content shields what precedes it from `TrimEnd`. */
  lemma TrimEndAppend(x: string, y: string)
    requires !IsBlank(y)
    ensures TrimEnd(x + y) == x + TrimEnd(y)
  {
    var n := TrailingWhiteSpace(y);
    assert n < |y|;
    TrailingWhiteSpaceIs(x + y, n);
    assert (x + y)[..|x + y| - n] == x + y[..|y| - n];
  }

  /** `TrimStart` drops exactly a blank text in front of text that does not start with
      whitespace. */
  lemma TrimStartBlank(w: string, y: string)
    requires IsBlank(w) && (y == [] || !IsWhiteSpace(y[0]))
    ensures TrimStart(w + y) == y
  {
    LeadingWhiteSpaceIs(w + y, |w|);
    assert (w + y)[|w|..] == y;
  }

  /** `TrimEnd` drops exactly a blank text after text that does not end with whitespace. */
  lemma TrimEndBlank(x: string, w: string)
    requires IsBlank(w) && (x == [] || !IsWhiteSpace(Last(x)))
    ensures TrimEnd(x + w) == x
  {
    TrailingWhiteSpaceIs(x + w, |w|);
    assert (x + w)[..|x|] == x;
  }

  /** A run of whitespace cannot cross the end of a text that ends with content: the
      collapse of the concatenation is the concatenation of the collapses. */
  lemma {:induction false} CollapseAppend(x: string, y: string)
    requires x == [] || !IsWhiteSpace(Last(x))
    ensures CollapseWhiteSpace(x + y) == CollapseWhiteSpace(x) + CollapseWhiteSpace(y)
    decreases |x|
  {
    if x == [] {
      assert x + y == y;
    } else if IsWhiteSpace(x[0]) {
      CollapseRunShape(x);
      CollapseAppend(TrimStart(x), y);
      CollapseAppendRun(x, y);
    } else {
      CollapseCharacterShape(x);
      CollapseAppend(x[1..], y);
      CollapseAppendCharacter(x, y);
    }
  }

  /** Dropping the leading run of a text that ends with content leaves a shorter text
      that still ends with it. */
  lemma CollapseRunShape(x: string)
    requires x != [] && IsWhiteSpace(x[0]) && !IsWhiteSpace(Last(x))
    ensures var t := TrimStart(x); t != [] && |t| < |x| && !IsWhiteSpace(Last(t))
  {
    assert !IsBlank(x) by {
      assert !IsWhiteSpace(x[|x| - 1]);
    }
  }

  /** Dropping the first character of a text that ends with content leaves a text that is
      empty or still ends with it. */
  lemma CollapseCharacterShape(x: string)
    requires x != [] && !IsWhiteSpace(Last(x))
    ensures x[1..] == [] || !IsWhiteSpace(Last(x[1..]))
  {
    if x[1..] != [] {
      assert Last(x[1..]) == Last(x);
    }
  }

  /** The step of `CollapseAppend` at a leading run of whitespace. */
  lemma CollapseAppendRun(x: string, y: string)
    requires x != [] && IsWhiteSpace(x[0]) && !IsWhiteSpace(Last(x))
    requires CollapseWhiteSpace(TrimStart(x) + y) ==
      CollapseWhiteSpace(TrimStart(x)) + CollapseWhiteSpace(y)
    ensures CollapseWhiteSpace(x + y) == CollapseWhiteSpace(x) + CollapseWhiteSpace(y)
  {
    assert !IsBlank(x) by {
      assert !IsWhiteSpace(x[|x| - 1]);
    }
    TrimStartAppend(x, y);
    assert (x + y)[0] == x[0];
    var t := TrimStart(x);
    assert CollapseWhiteSpace(x + y) == " " + CollapseWhiteSpace(t + y);
    Regroup(" ", CollapseWhiteSpace(t), CollapseWhiteSpace(y));
  }

  /** The step of `CollapseAppend` at a leading character that is not whitespace. */
  lemma CollapseAppendCharacter(x: string, y: string)
    requires x != [] && !IsWhiteSpace(x[0])
    requires CollapseWhiteSpace(x[1..] + y) == CollapseWhiteSpace(x[1..]) + CollapseWhiteSpace(y)
    ensures CollapseWhiteSpace(x + y) == CollapseWhiteSpace(x) + CollapseWhiteSpace(y)
  {
    assert (x + y)[1..] == x[1..] + y;
    assert (x + y)[0] == x[0];
    assert CollapseWhiteSpace(x + y) == [x[0]] + CollapseWhiteSpace(x[1..] + y);
    Regroup([x[0]], CollapseWhiteSpace(x[1..]), CollapseWhiteSpace(y));
  }

  /** Concatenation is associative. */
  lemma Regroup(a: string, b: string, c: string)
    ensures a + (b + c) == (a + b) + c
  {
  }

  /** A non-empty run of whitespace in front of text that does not start with whitespace
      collapses to one space. */
  lemma CollapseBlankBefore(w: string, y: string)
    requires w != [] && IsBlank(w) && (y == [] || !IsWhiteSpace(y[0]))
    ensures CollapseWhiteSpace(w + y) == " " + CollapseWhiteSpace(y)
  {
    assert (w + y)[0] == w[0];
    TrimStartBlank(w, y);
  }

  /** Normalizing text that ends with content followed by blank text: the blank tail goes. */
  lemma NormalizeContentThenBlank(a: string, w: string)
    requires a != [] && !IsWhiteSpace(Last(a)) && IsBlank(w)
    ensures NormalizeWhiteSpace(a + w) == TrimStart(CollapseWhiteSpace(a))
  {
    var c := CollapseWhiteSpace(a);
    CollapseAppend(a, w);
    CollapseWhiteSpaceEnds(a);
    var cw := CollapseWhiteSpace(w);
    if w != [] {
      CollapseBlankBefore(w, []);
      assert w + [] == w;
    }
    assert IsBlank(cw);
    assert !IsBlank(c) by {
      assert !IsWhiteSpace(c[|c| - 1]);
    }
    TrimStartAppend(c, cw);
    var t := TrimStart(c);
    assert t != [] && Last(t) == Last(c);
    TrimEndBlank(t, cw);
  }

  /** Normalizing blank text followed by text that starts with content: the blank head
      goes. */
  lemma NormalizeBlankThenContent(w: string, b: string)
    requires IsBlank(w) && b != [] && !IsWhiteSpace(b[0])
    ensures NormalizeWhiteSpace(w + b) == TrimEnd(CollapseWhiteSpace(b))
  {
    CollapseBlankThenContent(w, b);
    NormalizeIsTrimmedCollapse(w + b);
  }

  /** The whitespace normalisation is the trim of the collapse. */
  lemma NormalizeIsTrimmedCollapse(s: string)
    ensures NormalizeWhiteSpace(s) == TrimEnd(TrimStart(CollapseWhiteSpace(s)))
  {
  }

  /** Blank text in front of text that starts with content leaves no whitespace at the
      front of the collapse once `TrimStart` has run. */
  lemma CollapseBlankThenContent(w: string, b: string)
    requires IsBlank(w) && b != [] && !IsWhiteSpace(b[0])
    ensures TrimStart(CollapseWhiteSpace(w + b)) == CollapseWhiteSpace(b)
  {
    var c := CollapseWhiteSpace(b);
    CollapseWhiteSpaceEnds(b);
    if w == [] {
      assert w + b == b;
      TrimStartBlank([], c);
      assert [] + c == c;
    } else {
      CollapseBlankBefore(w, b);
      TrimStartBlank(" ", c);
    }
  }

  /** Between text ending with content and text starting with content, a run of
      whitespace collapses to one space. */
  lemma CollapseJoins(a: string, w: string, b: string)
    requires a != [] && !IsWhiteSpace(Last(a)) && b != [] && !IsWhiteSpace(b[0])
    requires w != [] && IsBlank(w)
    ensures CollapseWhiteSpace(a + w + b) ==
      CollapseWhiteSpace(a) + " " + CollapseWhiteSpace(b)
  {
    Regroup(a, w, b);
    CollapseAppend(a, w + b);
    CollapseBlankBefore(w, b);
    Regroup(CollapseWhiteSpace(a), " ", CollapseWhiteSpace(b));
  }

  /** Trimming two texts with content joined by one space trims only the outer ends. */
  lemma TrimJoined(x: string, y: string)
    requires !IsBlank(x) && !IsBlank(y)
    ensures Trim(x + " " + y) == TrimStart(x) + " " + TrimEnd(y)
  {
    assert x + " " + y == x + (" " + y);
    TrimStartAppend(x, " " + y);
    assert TrimStart(x) + (" " + y) == (TrimStart(x) + " ") + y;
    TrimEndAppend(TrimStart(x) + " ", y);
  }

  /** Text with content ends with its last non-whitespace character at `m - 1`, followed
      only by whitespace. */
  lemma {:induction false} ContentEnd(a: string) returns (m: nat)
    requires !IsBlank(a)
    ensures 0 < m <= |a| && !IsWhiteSpace(a[m - 1])
    ensures forall k | m <= k < |a| :: IsWhiteSpace(a[k])
    decreases |a|
  {
    if !IsWhiteSpace(a[|a| - 1]) {
      m := |a|;
    } else {
      var p := a[..|a| - 1];
      assert !IsBlank(p) by {
        var k :| 0 <= k < |a| && !IsWhiteSpace(a[k]);
        assert p[k] == a[k];
      }
      m := ContentEnd(p);
      assert forall k | m <= k < |p| :: a[k] == p[k];
    }
  }

  /** Text with content starts with whitespace only, up to its first non-whitespace
      character at `n`. */
  lemma ContentStart(b: string) returns (n: nat)
    requires !IsBlank(b)
    ensures n < |b| && !IsWhiteSpace(b[n])
    ensures forall k | 0 <= k < n :: IsWhiteSpace(b[k])
  {
    n := LeadingWhiteSpace(b);
    if n == |b| {
      assert false;
    }
  }

  /** A tail whose characters are all whitespace is blank. */
  lemma BlankTail(a: string, m: nat)
    requires m <= |a| && forall k | m <= k < |a| :: IsWhiteSpace(a[k])
    ensures IsBlank(a[m..])
  {
    forall k | 0 <= k < |a| - m ensures IsWhiteSpace(a[m..][k]) {
      assert a[m..][k] == a[m + k];
    }
  }

  /** A head whose characters are all whitespace is blank. */
  lemma BlankHead(b: string, n: nat)
    requires n <= |b| && forall k | 0 <= k < n :: IsWhiteSpace(b[k])
    ensures IsBlank(b[..n])
  {
    forall k | 0 <= k < n ensures IsWhiteSpace(b[..n][k]) {
      assert b[..n][k] == b[k];
    }
  }

  /** Regrouping the pieces around a run of whitespace. */
  lemma JoinPieces(a1: string, a2: string, w: string, b1: string, b2: string)
    requires IsBlank(a2) && IsBlank(w) && IsBlank(b1) && w != []
    ensures (a1 + a2) + w + (b1 + b2) == a1 + (a2 + w + b1) + b2
    ensures a2 + w + b1 != [] && IsBlank(a2 + w + b1)
  {
    BlankAppend(a2, w);
    BlankAppend(a2 + w, b1);
  }

  /** Whitespace normalisation keeps one space for every run of whitespace between
      content: for texts `a` and `b` that are not blank and a non-empty run `w` of
      whitespace, normalizing `a + w + b` gives `a` and `b`, each normalized, joined by
      one space. */
  lemma NormalizeWhiteSpaceJoins(a: string, w: string, b: string)
    requires !IsBlank(a) && !IsBlank(b) && w != [] && IsBlank(w)
    ensures NormalizeWhiteSpace(a + w + b) ==
      NormalizeWhiteSpace(a) + " " + NormalizeWhiteSpace(b)
  {
    var m := ContentEnd(a);
    var n := ContentStart(b);
    var a1, a2 := a[..m], a[m..];
    var b1, b2 := b[..n], b[n..];
    assert a == a1 + a2 && b == b1 + b2;
    assert Last(a1) == a[m - 1] && b2[0] == b[n];
    BlankTail(a, m);
    BlankHead(b, n);
    JoinPieces(a1, a2, w, b1, b2);
    CollapseJoins(a1, a2 + w + b1, b2);
    NormalizeContentThenBlank(a1, a2);
    NormalizeBlankThenContent(b1, b2);
    JoinedPartsHaveContent(a1, b2);
    TrimJoined(CollapseWhiteSpace(a1), CollapseWhiteSpace(b2));
  }

  /** The collapses of a text ending with content and of a text starting with content
      both have content. */
  lemma JoinedPartsHaveContent(a: string, b: string)
    requires a != [] && !IsWhiteSpace(Last(a)) && b != [] && !IsWhiteSpace(b[0])
    ensures !IsBlank(CollapseWhiteSpace(a)) && !IsBlank(CollapseWhiteSpace(b))
  {
    var x, y := CollapseWhiteSpace(a), CollapseWhiteSpace(b);
    CollapseWhiteSpaceEnds(a);
    CollapseWhiteSpaceEnds(b);
    assert !IsWhiteSpace(x[|x| - 1]);
    assert !IsWhiteSpace(y[0]);
  }
}
