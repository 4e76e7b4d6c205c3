/** The link pattern the crawler runs over the sitemap page, matched the way
    a JavaScript regular expression with the global flag matches it:

        \[.*?\]\((https?:\/\/[^\s\)]+)\)

    Matching is tried at every position from left to right; after a match
    the search resumes right after it. The lazy `.*?` takes the fewest
    characters (never a line terminator) after which the rest of the pattern
    matches; the greedy URL class takes the longest run of characters that
    are neither white space nor `)`. */
module LinkScanner {
  import opened Wrappers
  import opened JsText

  /** One match: the bracketed text and the captured URL. */
  datatype Link = Link(text: string, url: string)

  /** The matched substring of a link, as `String.prototype.match` returns it. */
  function Whole(m: Link): string {
    "[" + m.text + "](" + m.url + ")"
  }

  /** A character of the class `[^\s\)]`. */
  predicate IsUrlChar(c: char) {
    !IsSpace(c) && c != ')'
  }

  /** What the capture group accepts: a scheme and at least one URL character. */
  predicate IsHttpUrl(url: string) {
    (if StartsWith(url, "https://") then |url| > 8 else StartsWith(url, "http://") && |url| > 7)
    && forall k | 0 <= k < |url| :: IsUrlChar(url[k])
  }

  /** What the whole pattern accepts. */
  predicate WellFormed(m: Link) {
    (forall k | 0 <= k < |m.text| :: !IsLineTerminator(m.text[k])) && IsHttpUrl(m.url)
  }

  // Each matcher below looks at the text from the current position on, so it
  // takes that suffix and answers with positions relative to it.

  /** `[^\s\)]+`, greedy: the length of the longest run of URL characters. */
  function UrlRun(r: string): (n: nat)
    ensures n <= |r|
    ensures forall k | 0 <= k < n :: IsUrlChar(r[k])
    ensures n < |r| ==> !IsUrlChar(r[n])
  {
    if r != [] && IsUrlChar(r[0]) then 1 + UrlRun(r[1..]) else 0
  }

  /** `https?:\/\/`: its length. The optional `s` is tried first. */
  function SchemeLen(r: string): (h: Option<nat>)
    ensures h.Some? ==> (h.value == 8 && StartsWith(r, "https://"))
                        || (h.value == 7 && StartsWith(r, "http://"))
  {
    if StartsWith(r, "https://") then Some(8)
    else if StartsWith(r, "http://") then Some(7)
    else None
  }

  /** What follows the lazy `.*?`: `](`, the URL group and `)`. The result
      is the position of that closing `)`. Backtracking into the greedy run
      cannot help, since every character it gives back is not a `)`. */
  function TailAt(r: string): (c: Option<nat>)
    ensures c.Some? ==> 2 < c.value < |r|
  {
    if |r| >= 2 && r[0] == ']' && r[1] == '(' then
      match SchemeLen(r[2..])
      case None => None
      case Some(h) =>
        var n := UrlRun(r[2 + h..]);
        if n > 0 && 2 + h + n < |r| && r[2 + h + n] == ')' then Some(2 + h + n) else None
    else None
  }

  /** The lazy `.*?`: the first stop `j` at which the tail matches, found
      without crossing a line terminator, with the position of the tail's
      closing `)`. */
  function LazyScan(r: string): (jc: Option<(nat, nat)>)
    ensures jc.Some? ==> jc.value.0 + 2 < jc.value.1 < |r|
  {
    match TailAt(r)
    case Some(c) => Some((0, c))
    case None =>
      if r != [] && !IsLineTerminator(r[0]) then
        match LazyScan(r[1..])
        case None => None
        case Some((j, c)) => Some((j + 1, c + 1))
      else None
  }

  /** The lazy scan stops where the tail matches, after no line terminator. */
  lemma {:induction false} LazyScanShape(r: string)
    requires LazyScan(r).Some?
    ensures var j, c := LazyScan(r).value.0, LazyScan(r).value.1;
      TailAt(r[j..]).Some? && TailAt(r[j..]).value == c - j
    ensures forall k | 0 <= k < LazyScan(r).value.0 :: !IsLineTerminator(r[k])
  {
    if TailAt(r).None? {
      var rest := r[1..];
      assert r != [] && !IsLineTerminator(r[0]);
      LazyScanStep(r);
      LazyScanShape(rest);
      var j := LazyScan(rest).value.0;
      assert r[j + 1..] == rest[j..];
      NoBreakShift(r, j);
    } else {
      assert LazyScan(r).value.0 == 0;
      assert r[0..] == r;
    }
  }

  /** The lazy scan stops at the first possible place: wherever a tail
      matches with no line terminator before it, the scan has stopped there
      or earlier. So a scan that finds nothing means no such place exists. */
  lemma {:induction false} LazyScanFirst(r: string, j: nat)
    requires j <= |r| && (forall k | 0 <= k < j :: !IsLineTerminator(r[k]))
    requires TailAt(r[j..]).Some?
    decreases j
    ensures LazyScan(r).Some? && LazyScan(r).value.0 <= j
  {
    if TailAt(r).None? {
      assert !IsLineTerminator(r[0]);
      LazyScanStep(r);
      var rest := r[1..];
      forall k | 0 <= k < j - 1 ensures !IsLineTerminator(rest[k]) {
        assert rest[k] == r[k + 1];
      }
      assert rest[j - 1..] == r[j..];
      LazyScanFirst(rest, j - 1);
    }
  }

  /** A scan that does not stop at the first character moves on by one. */
  lemma LazyScanStep(r: string)
    requires r != [] && TailAt(r).None? && !IsLineTerminator(r[0])
    ensures LazyScan(r).Some? == LazyScan(r[1..]).Some?
    ensures LazyScan(r).Some? ==> && LazyScan(r).value.0 == LazyScan(r[1..]).value.0 + 1
                                  && LazyScan(r).value.1 == LazyScan(r[1..]).value.1 + 1
  {
  }

  /** No line terminator in the first `j` characters after the first one,
      nor in the first one, means none in the first `j + 1`. */
  lemma NoBreakShift(r: string, j: nat)
    requires j < |r| && !IsLineTerminator(r[0])
    requires forall k | 0 <= k < j :: !IsLineTerminator(r[1..][k])
    ensures forall k | 0 <= k < j + 1 :: !IsLineTerminator(r[k])
  {
    forall k | 1 <= k < j + 1 ensures !IsLineTerminator(r[k]) {
      assert r[k] == r[1..][k - 1];
    }
  }

  /** The match that starts at the first character of `r`, with its length. */
  function MatchAt(r: string): (mn: Option<(Link, nat)>)
    requires r != []
    ensures mn.Some? ==> 0 < mn.value.1 <= |r|
  {
    if r[0] != '[' then None
    else
      var q := r[1..];
      match LazyScan(q)
      case None => None
      case Some((j, c)) => Some((Link(q[..j], q[j + 2..c]), c + 2))
  }

  /** The global search: every match, left to right, resuming after each one. */
  function MatchAll(r: string): (ms: seq<Link>)
    decreases |r|
    ensures forall k | 0 <= k < |ms| :: WellFormed(ms[k])
  {
    if r == [] then []
    else
      match MatchAt(r)
      case Some((m, n)) => MatchAtShape(r); [m] + MatchAll(r[n..])
      case None => MatchAll(r[1..])
  }

  /** `text.match(urlRegex) || []`: the matched substrings, in order. */
  function AllLinks(text: string): (links: seq<string>)
    ensures |links| == |MatchAll(text)|
    ensures forall k | 0 <= k < |links| :: links[k] == Whole(MatchAll(text)[k])
  {
    var ms := MatchAll(text);
    seq(|ms|, k requires 0 <= k < |ms| => Whole(ms[k]))
  }

  /** A prefix test on a longer text carries over to any long enough slice of it. */
  lemma PrefixOfSlice(r: string, a: nat, b: nat, p: string)
    requires a + |p| <= b <= |r| && StartsWith(r[a..], p)
    ensures StartsWith(r[a..b], p)
  {
    assert r[a..b][..|p|] == r[a..][..|p|];
  }

  /** The tail accepts `](`, a URL the group accepts, and `)`. */
  lemma TailShape(r: string)
    requires TailAt(r).Some?
    ensures r[0] == ']' && r[1] == '(' && r[TailAt(r).value] == ')'
    ensures IsHttpUrl(r[2..TailAt(r).value])
  {
    var q := r[2..];
    var h := SchemeLen(q).value;
    var n := UrlRun(r[2 + h..]);
    assert TailAt(r).value == 2 + h + n;
    assert q[h..] == r[2 + h..];
    HttpUrlOfParts(q, h, n);
    assert r[2..2 + h + n] == q[..h + n];
  }

  /** A scheme followed by a non-empty run of URL characters is a URL the
      group accepts. */
  lemma HttpUrlOfParts(q: string, h: nat, n: nat)
    requires SchemeLen(q).Some? && SchemeLen(q).value == h
    requires 0 < n && h + n <= |q|
    requires forall k | 0 <= k < n :: IsUrlChar(q[h..][k])
    ensures IsHttpUrl(q[..h + n])
  {
    var url := q[..h + n];
    var scheme := if h == 8 then "https://" else "http://";
    assert url[..h] == q[..h] == scheme;
    if h == 7 && |url| >= 8 {
      assert url[..8] == q[..8];
    }
    forall k | 0 <= k < |url| ensures IsUrlChar(url[k]) {
      if k < h {
        assert url[k] == scheme[k];
      } else {
        assert url[k] == q[h..][k - h];
      }
    }
  }

  /** Every match is a well-formed link and is the prefix of the text it was found in. */
  lemma MatchAtShape(r: string)
    requires r != [] && MatchAt(r).Some?
    ensures r[..MatchAt(r).value.1] == Whole(MatchAt(r).value.0)
    ensures WellFormed(MatchAt(r).value.0)
  {
    var q := r[1..];
    var j, c := LazyScan(q).value.0, LazyScan(q).value.1;
    MatchAtOfScan(r, j, c);
    ScanFacts(q, j, c);
    WholeOfMatch(r, j, c);
    NoBreakPrefix(q, j);
  }

  /** Where a successful lazy scan stopped: at `](`, a URL the group accepts
      and `)`, after no line terminator. */
  lemma ScanFacts(q: string, j: nat, c: nat)
    requires LazyScan(q).Some? && LazyScan(q).value.0 == j && LazyScan(q).value.1 == c
    ensures j + 2 < c < |q| && q[j] == ']' && q[j + 1] == '(' && q[c] == ')'
    ensures IsHttpUrl(q[j + 2..c])
    ensures forall k | 0 <= k < j :: !IsLineTerminator(q[k])
  {
    LazyScanShape(q);
    TailShape(q[j..]);
    SuffixFacts(q, j, c);
  }

  /** The tail's facts, read on the suffix, restated on the whole text. */
  lemma SuffixFacts(q: string, j: nat, c: nat)
    requires j + 2 < c < |q|
    requires q[j..][0] == ']' && q[j..][1] == '(' && q[j..][c - j] == ')'
    requires IsHttpUrl(q[j..][2..c - j])
    ensures q[j] == ']' && q[j + 1] == '(' && q[c] == ')'
    ensures IsHttpUrl(q[j + 2..c])
  {
    SliceOfSuffix(q, j, 2, c - j);
    HttpUrlOfSlice(q[j..][2..c - j], q[j + 2..c]);
  }

  lemma NoBreakPrefix(q: string, j: nat)
    requires j <= |q| && forall k | 0 <= k < j :: !IsLineTerminator(q[k])
    ensures forall k | 0 <= k < |q[..j]| :: !IsLineTerminator(q[..j][k])
  {
  }

  lemma HttpUrlOfSlice(a: string, b: string)
    requires a == b && IsHttpUrl(a)
    ensures IsHttpUrl(b)
  {
  }

  /** A slice of a suffix is a slice of the whole. */
  lemma SliceOfSuffix(s: string, a: nat, b: nat, c: nat)
    requires a + b <= a + c <= |s|
    ensures s[a..][b..c] == s[a + b..a + c]
    ensures b < c ==> s[a..][b] == s[a + b]
  {
  }

  /** The text at a match is the written form of the link made of its parts. */
  lemma WholeOfMatch(r: string, j: nat, c: nat)
    requires r != [] && r[0] == '[' && j + 2 < c < |r| - 1
    requires r[1..][j] == ']' && r[1..][j + 1] == '(' && r[1..][c] == ')'
    ensures r[..c + 2] == Whole(Link(r[1..][..j], r[1..][j + 2..c]))
  {
    var q := r[1..];
    var w := Whole(Link(q[..j], q[j + 2..c]));
    assert |w| == c + 2;
    forall k | 0 <= k < c + 2 ensures r[..c + 2][k] == w[k] {
      if 1 <= k <= j {
        assert w[k] == q[..j][k - 1];
      } else if j + 3 <= k < c + 1 {
        assert w[k] == q[j + 2..c][k - j - 3];
      }
    }
  }

  /** The lazy scan passes over text that holds neither `]` nor a line terminator. */
  lemma {:induction false} LazyScanSkips(x: string, y: string)
    requires forall k | 0 <= k < |x| :: x[k] != ']' && !IsLineTerminator(x[k])
    ensures LazyScan(x + y).Some? == LazyScan(y).Some?
    ensures LazyScan(y).Some? ==> && LazyScan(x + y).value.0 == LazyScan(y).value.0 + |x|
                                  && LazyScan(x + y).value.1 == LazyScan(y).value.1 + |x|
  {
    if x != [] {
      assert (x + y)[0] == x[0];
      assert TailAt(x + y) == None;
      assert (x + y)[1..] == x[1..] + y;
      LazyScanSkips(x[1..], y);
      LazyScanStep(x + y);
    } else {
      assert x + y == y;
    }
  }

  /** The run of URL characters stops at the `)` after them. */
  lemma {:induction false} UrlRunStopsAtParen(u: string, rest: string)
    requires forall k | 0 <= k < |u| :: IsUrlChar(u[k])
    ensures UrlRun(u + [')'] + rest) == |u|
  {
    if u != [] {
      assert (u + [')'] + rest)[1..] == u[1..] + [')'] + rest;
      UrlRunStopsAtParen(u[1..], rest);
    }
  }

  /** The scheme of a URL the group accepts is found at the start of it. */
  lemma SchemeOfUrl(url: string, rest: string)
    requires IsHttpUrl(url)
    ensures SchemeLen(url + rest) == Some(if StartsWith(url, "https://") then 8 else 7)
  {
    assert (url + rest)[..7] == url[..7];
    assert (url + rest)[..8] == url[..8];
  }

  /** The tail matches a written URL up to its closing `)`. */
  lemma TailOfWritten(url: string, rest: string)
    requires IsHttpUrl(url)
    ensures TailAt("](" + url + ")" + rest).Some? && TailAt("](" + url + ")" + rest).value == 2 + |url|
  {
    var h := if StartsWith(url, "https://") then 8 else 7;
    TailLayout(url, rest, h);
    SchemeOfUrl(url, ")" + rest);
    assert forall k | 0 <= k < |url[h..]| :: IsUrlChar(url[h..][k]) by {
      forall k | 0 <= k < |url[h..]| ensures IsUrlChar(url[h..][k]) {
        assert url[h..][k] == url[h + k];
      }
    }
    UrlRunStopsAtParen(url[h..], rest);
  }

  /** Where the parts of `](url)rest` sit. */
  lemma TailLayout(url: string, rest: string, h: nat)
    requires h < |url|
    ensures var t := "](" + url + ")" + rest;
      && t[0] == ']' && t[1] == '(' && t[2 + |url|] == ')'
      && t[2..] == url + (")" + rest)
      && t[2 + h..] == url[h..] + [')'] + rest
  {
    var t := "](" + url + ")" + rest;
    assert t[2..] == url + (")" + rest);
    assert t[2 + h..] == url[h..] + [')'] + rest;
  }

  /** A well-formed link whose text holds no `]`, at the start of the text, is
      the match found there. */
  lemma MatchAtLink(m: Link, rest: string)
    requires WellFormed(m) && forall k | 0 <= k < |m.text| :: m.text[k] != ']'
    ensures MatchAt(Whole(m) + rest).Some?
    ensures MatchAt(Whole(m) + rest).value.0 == m && MatchAt(Whole(m) + rest).value.1 == |Whole(m)|
  {
    var r := Whole(m) + rest;
    var q := r[1..];
    var j, c := |m.text|, |m.text| + 2 + |m.url|;
    WrittenParts(m, rest);
    LazyScanOfWritten(m, rest);
    assert q == m.text + ("](" + m.url + ")" + rest);
    assert LazyScan(q).Some? && LazyScan(q).value.0 == j && LazyScan(q).value.1 == c;
    MatchAtOfScan(r, j, c);
    assert Link(q[..j], q[j + 2..c]) == m;
  }

  /** The match at a `[` is read off the lazy scan of what follows it. */
  lemma MatchAtOfScan(r: string, j: nat, c: nat)
    requires r != [] && r[0] == '['
    requires LazyScan(r[1..]).Some? && LazyScan(r[1..]).value.0 == j && LazyScan(r[1..]).value.1 == c
    ensures MatchAt(r).Some?
    ensures MatchAt(r).value.0 == Link(r[1..][..j], r[1..][j + 2..c]) && MatchAt(r).value.1 == c + 2
  {
  }

  /** Where the parts of a written link sit in the text after its `[`. */
  lemma WrittenParts(m: Link, rest: string)
    ensures (Whole(m) + rest)[0] == '['
    ensures (Whole(m) + rest)[1..] == m.text + ("](" + m.url + ")" + rest)
    ensures (Whole(m) + rest)[1..][..|m.text|] == m.text
    ensures (Whole(m) + rest)[1..][|m.text| + 2..|m.text| + 2 + |m.url|] == m.url
  {
    var q := (Whole(m) + rest)[1..];
    assert q == m.text + ("](" + m.url + ")" + rest);
    assert q[..|m.text|] == m.text;
    assert q[|m.text| + 2..|m.text| + 2 + |m.url|] == m.url;
  }

  /** The lazy scan over a written link's text stops at its `](`. */
  lemma LazyScanOfWritten(m: Link, rest: string)
    requires WellFormed(m) && forall k | 0 <= k < |m.text| :: m.text[k] != ']'
    ensures var scan := LazyScan(m.text + ("](" + m.url + ")" + rest));
      scan.Some? && scan.value.0 == |m.text| && scan.value.1 == |m.text| + 2 + |m.url|
  {
    var tail := "](" + m.url + ")" + rest;
    TailOfWritten(m.url, rest);
    assert LazyScan(tail).Some? && LazyScan(tail).value.0 == 0 && LazyScan(tail).value.1 == 2 + |m.url|;
    LazyScanSkips(m.text, tail);
  }

  /** The links written one per line, as a sitemap page lists them. */
  function Render(ms: seq<Link>): string {
    if ms == [] then "" else Whole(ms[0]) + "\n" + Render(ms[1..])
  }

  /** Scanning a page rendered from well-formed links finds exactly those
      links, in order, when no link text holds a `]`. */
  lemma MatchAllRender(ms: seq<Link>)
    requires forall k | 0 <= k < |ms| :: WellFormed(ms[k])
    requires forall k, t | 0 <= k < |ms| && 0 <= t < |ms[k].text| :: ms[k].text[t] != ']'
    ensures MatchAll(Render(ms)) == ms
  {
    RenderAfter([], ms);
    assert [] + Render(ms) == Render(ms);
  }

  lemma {:induction false} RenderAfter(p: string, ms: seq<Link>)
    requires forall k | 0 <= k < |ms| :: WellFormed(ms[k])
    requires forall k, t | 0 <= k < |ms| && 0 <= t < |ms[k].text| :: ms[k].text[t] != ']'
    requires forall k | 0 <= k < |p| :: p[k] != '['
    decreases |ms|, |p|
    ensures MatchAll(p + Render(ms)) == ms
  {
    var r := p + Render(ms);
    if p != [] {
      assert r[0] == p[0];
      assert r[1..] == p[1..] + Render(ms);
      RenderAfter(p[1..], ms);
    } else if ms != [] {
      var w := Whole(ms[0]);
      assert r == w + ("\n" + Render(ms[1..]));
      MatchAtLink(ms[0], "\n" + Render(ms[1..]));
      assert r[|w|..] == "\n" + Render(ms[1..]);
      RenderAfter("\n", ms[1..]);
    }
  }
}
