/** `slugify`: the file name under which a page is saved.  A non-empty URL
    is parsed, and its pathname is taken through a fixed chain of
    replacements; an empty URL or one the parser rejects gets a fallback
    name with a random suffix.  The parser and the random suffix are inputs. */
module Slug {
  import opened JsText

  /** What `new URL(url)` gives: its pathname, or an exception. */
  datatype UrlParse = Pathname(path: string) | Malformed

  /** A character that may appear in a slug: `[a-z0-9_-]`. */
  predicate IsSlugChar(c: char) {
    'a' <= c <= 'z' || '0' <= c <= '9' || c == '_' || c == '-'
  }

  predicate NoDoubleHyphen(s: string) {
    forall k | 0 <= k < |s| - 1 :: !(s[k] == '-' && s[k + 1] == '-')
  }

  /** What every name derived from a pathname looks like: lower-case letters,
      digits, `_` and `-`, never empty, no `--`, no `-` at either end. */
  predicate IsSlug(s: string) {
    && s != []
    && (forall k | 0 <= k < |s| :: IsSlugChar(s[k]))
    && NoDoubleHyphen(s)
    && s[0] != '-'
    && s[|s| - 1] != '-'
  }

  // The steps of the chain, in order.

  /** `.toLowerCase()`, on the ASCII letters a pathname is made of. */
  function Lower(s: string): (r: string)
    ensures |r| == |s|
    ensures forall k | 0 <= k < |s| :: !('A' <= r[k] <= 'Z')
    ensures forall k | 0 <= k < |s| :: !('A' <= s[k] <= 'Z') ==> r[k] == s[k]
    ensures forall k | 0 <= k < |s| :: 'A' <= s[k] <= 'Z' ==> r[k] as int == s[k] as int + 32
  {
    seq(|s|, k requires 0 <= k < |s| => LowerChar(s[k]))
  }

  /** `.replace(/^\//, "")`: at most one leading slash goes. */
  function StripLeadingSlash(s: string): (r: string)
    ensures s == (if |s| > 0 && s[0] == '/' then "/" else "") + r
  {
    if |s| > 0 && s[0] == '/' then s[1..] else s
  }

  /** `.replace(/\//g, "-")`. */
  function SlashesToHyphens(s: string): (r: string)
    ensures |r| == |s| && '/' !in r
    ensures forall k | 0 <= k < |s| :: s[k] != '/' ==> r[k] == s[k]
    ensures forall k | 0 <= k < |s| :: s[k] == '/' ==> r[k] == '-'
  {
    seq(|s|, k requires 0 <= k < |s| => if s[k] == '/' then '-' else s[k])
  }

  /** `.replace(/\.html$/, "")`: only at the very end of the string. */
  function StripHtml(s: string): (r: string)
    ensures s == r + (if EndsWith(s, ".html") then ".html" else "")
  {
    if EndsWith(s, ".html") then s[..|s| - 5] else s
  }

  /** `.replace(/[^\w\-]+/g, "")`: every character outside `[A-Za-z0-9_-]` goes. */
  function KeepWordChars(s: string): (r: string)
    ensures forall c :: c in r <==> c in s && (IsWordChar(c) || c == '-')
    ensures forall c | IsWordChar(c) || c == '-' :: multiset(r)[c] == multiset(s)[c]
  {
    if s == [] then []
    else
      assert s == [s[0]] + s[1..];
      if IsWordChar(s[0]) || s[0] == '-' then [s[0]] + KeepWordChars(s[1..])
      else KeepWordChars(s[1..])
  }

  /** The length of the run of hyphens that `s` starts with. */
  function LeadingHyphens(s: string): (n: nat)
    ensures n <= |s|
    ensures forall k | 0 <= k < n :: s[k] == '-'
    ensures n == |s| || s[n] != '-'
  {
    if s != [] && s[0] == '-' then 1 + LeadingHyphens(s[1..]) else 0
  }

  /** The length of the run of hyphens that `s` ends with. */
  function TrailingHyphens(s: string): (n: nat)
    ensures n <= |s|
    ensures forall k | |s| - n <= k < |s| :: s[k] == '-'
    ensures n == |s| || s[|s| - n - 1] != '-'
  {
    if s != [] && s[|s| - 1] == '-' then 1 + TrailingHyphens(s[..|s| - 1]) else 0
  }

  /** The collapse described character by character: a hyphen that the next
      character repeats is dropped, so every run of hyphens keeps exactly
      one, and every other character stays where it is. */
  function SqueezeHyphens(s: string): (r: string)
    decreases |s|
  {
    if |s| < 2 then s
    else if s[0] == '-' && s[1] == '-' then SqueezeHyphens(s[1..])
    else [s[0]] + SqueezeHyphens(s[1..])
  }

  /** `.replace(/\-\-+/g, "-")`, scanned as the regular expression engine
      does: where two hyphens start, the whole run becomes one hyphen;
      anywhere else one character is kept and the scan moves on. */
  function CollapseHyphens(s: string): (r: string)
    decreases |s|
    ensures r == SqueezeHyphens(s)
    ensures NoDoubleHyphen(r)
    ensures |r| == 0 <==> |s| == 0
    ensures s != [] ==> r[0] == s[0]
    ensures forall c :: c in r <==> c in s
  {
    if |s| >= 2 && s[0] == '-' && s[1] == '-' then
      var rest := s[LeadingHyphens(s)..];
      var r := CollapseHyphens(rest);
      assert forall c :: c in s <==> c == '-' || c in rest by {
        assert s == s[..LeadingHyphens(s)] + rest;
      }
      SqueezeRun(s);
      "-" + r
    else if s == [] then []
    else
      var r := CollapseHyphens(s[1..]);
      assert s == [s[0]] + s[1..];
      [s[0]] + r
  }

  /** A string that starts with a run of hyphens squeezes to one hyphen
      followed by what comes after the run. */
  lemma {:induction false} SqueezeRun(s: string)
    requires s != [] && s[0] == '-'
    decreases |s|
    ensures SqueezeHyphens(s) == "-" + SqueezeHyphens(s[LeadingHyphens(s)..])
  {
    if |s| >= 2 && s[1] == '-' {
      SqueezeRun(s[1..]);
      assert s[1..][LeadingHyphens(s[1..])..] == s[LeadingHyphens(s)..];
    } else if |s| >= 2 {
      assert LeadingHyphens(s) == 1;
    }
  }

  /** The characters other than `-`, in order. */
  function WithoutHyphens(s: string): (r: string)
    ensures '-' !in r
    ensures |r| <= |s|
  {
    if s == [] then [] else (if s[0] == '-' then [] else [s[0]]) + WithoutHyphens(s[1..])
  }

  /** Collapsing touches nothing but hyphens: every other character stays,
      in its order. */
  lemma {:induction false} CollapseKeepsLetters(s: string)
    decreases |s|
    ensures WithoutHyphens(CollapseHyphens(s)) == WithoutHyphens(s)
  {
    if |s| >= 2 {
      CollapseKeepsLetters(s[1..]);
      if !(s[0] == '-' && s[1] == '-') {
        var t := SqueezeHyphens(s[1..]);
        assert ([s[0]] + t)[0] == s[0] && ([s[0]] + t)[1..] == t;
      }
    }
  }

  /** Deleting characters works piece by piece: the kept characters of a
      concatenation are those of each part, in order. */
  lemma {:induction false} KeepWordCharsAppend(x: string, y: string)
    decreases |x|
    ensures KeepWordChars(x + y) == KeepWordChars(x) + KeepWordChars(y)
  {
    if x != [] {
      var head := if IsWordChar(x[0]) || x[0] == '-' then [x[0]] else [];
      assert (x + y)[0] == x[0] && (x + y)[1..] == x[1..] + y;
      assert KeepWordChars(x + y) == head + KeepWordChars(x[1..] + y);
      assert KeepWordChars(x) == head + KeepWordChars(x[1..]);
      KeepWordCharsAppend(x[1..], y);
      var kx, ky := KeepWordChars(x[1..]), KeepWordChars(y);
      ConcatAssoc(head, kx, ky);
    } else {
      assert x + y == y;
    }
  }

  lemma ConcatAssoc(a: string, b: string, c: string)
    ensures a + (b + c) == (a + b) + c
  {
  }

  /** One character is kept exactly when it is a word character or `-`. */
  lemma KeepWordCharsOne(c: char)
    ensures KeepWordChars([c]) == if IsWordChar(c) || c == '-' then [c] else []
  {
    assert [c][1..] == [];
  }

  /** `.replace(/^-+/, "")`: the whole leading run of hyphens goes. */
  function TrimLeadingHyphens(s: string): (r: string)
    ensures |r| <= |s| && r == s[|s| - |r|..]
    ensures forall k | 0 <= k < |s| - |r| :: s[k] == '-'
    ensures r == [] || r[0] != '-'
  {
    s[LeadingHyphens(s)..]
  }

  /** `.replace(/-+$/, "")`: the whole trailing run of hyphens goes. */
  function TrimTrailingHyphens(s: string): (r: string)
    ensures |r| <= |s| && r == s[..|r|]
    ensures forall k | |r| <= k < |s| :: s[k] == '-'
    ensures r == [] || r[|r| - 1] != '-'
  {
    s[..|s| - TrailingHyphens(s)]
  }

  /** Steps one to five: what is left once the pathname is lower-cased,
      its slashes turned into hyphens, `.html` dropped and other characters
      deleted. */
  function WordsOf(pathname: string): string {
    KeepWordChars(StripHtml(SlashesToHyphens(StripLeadingSlash(Lower(pathname)))))
  }

  /** The whole chain of replacements. */
  function Chain(pathname: string): string {
    TrimTrailingHyphens(TrimLeadingHyphens(CollapseHyphens(WordsOf(pathname))))
  }

  /** The chain with `|| "index"` at the end. */
  function SlugOfPath(pathname: string): (slug: string)
    ensures IsSlug(slug)
  {
    var trimmed := Chain(pathname);
    if trimmed == [] then
      IndexIsSlug();
      "index"
    else
      ChainShape(pathname);
      trimmed
  }

  /** `slugify(url)`: an empty URL and a URL the parser rejects get a name made
      of a fixed prefix and the random `suffix`; otherwise the pathname's slug. */
  function Slugify(url: string, parse: UrlParse, suffix: string): (name: string)
    ensures url == "" ==> StartsWith(name, "invalid-url-") && name[12..] == suffix
    ensures url != "" && parse.Malformed? ==> StartsWith(name, "malformed-url-") && name[14..] == suffix
    ensures url != "" && parse.Pathname? ==> IsSlug(name)
  {
    if url == "" then "invalid-url-" + suffix
    else match parse
      case Malformed => "malformed-url-" + suffix
      case Pathname(p) => SlugOfPath(p)
  }

  // Lemmas

  /** Lower-casing comes first, so no upper-case letter survives the
      character filter. */
  lemma WordsOfShape(pathname: string)
    ensures forall c | c in WordsOf(pathname) :: IsSlugChar(c)
  {
    var lowered := Lower(pathname);
    var sl := StripLeadingSlash(lowered);
    var stripped := StripHtml(SlashesToHyphens(sl));
    forall c | c in stripped ensures !('A' <= c <= 'Z') {
      assert c in SlashesToHyphens(sl);
      assert c == '-' || c in sl;
      assert c == '-' || c in lowered;
    }
  }

  lemma IndexIsSlug()
    ensures IsSlug("index")
  {
  }

  /** The chain leaves slug characters with no `--` and no `-` at either end,
      or nothing at all. */
  lemma ChainShape(pathname: string)
    ensures Chain(pathname) == [] || IsSlug(Chain(pathname))
  {
    WordsOfShape(pathname);
    var collapsed := CollapseHyphens(WordsOf(pathname));
    assert forall c | c in collapsed :: IsSlugChar(c) by {
      assert forall c | c in collapsed :: c in WordsOf(pathname);
    }
    TrimmedShape(collapsed);
  }

  lemma TrimmedShape(collapsed: string)
    requires forall c | c in collapsed :: IsSlugChar(c)
    requires NoDoubleHyphen(collapsed)
    ensures var t := TrimTrailingHyphens(TrimLeadingHyphens(collapsed)); t == [] || IsSlug(t)
  {
    var front := TrimLeadingHyphens(collapsed);
    SliceShape(collapsed, |collapsed| - |front|, |collapsed|);
    var trimmed := TrimTrailingHyphens(front);
    SliceShape(front, 0, |trimmed|);
  }

  /** A slice of a string of slug characters with no `--` is one too. */
  lemma SliceShape(s: string, i: nat, j: nat)
    requires i <= j <= |s|
    requires forall c | c in s :: IsSlugChar(c)
    requires NoDoubleHyphen(s)
    ensures forall c | c in s[i..j] :: IsSlugChar(c)
    ensures NoDoubleHyphen(s[i..j])
  {
    forall k | 0 <= k < j - i - 1 ensures !(s[i..j][k] == '-' && s[i..j][k + 1] == '-') {
      assert s[i..j][k] == s[i + k] && s[i..j][k + 1] == s[i + k + 1];
    }
  }

  /** Each step leaves a slug alone ... */
  lemma {:induction false} KeepWordCharsOfSlug(s: string)
    requires forall k | 0 <= k < |s| :: IsSlugChar(s[k])
    ensures KeepWordChars(s) == s
  {
    if s != [] {
      assert IsSlugChar(s[0]);
      KeepWordCharsOfSlug(s[1..]);
    }
  }

  lemma {:induction false} CollapseOfSingleHyphens(s: string)
    requires NoDoubleHyphen(s)
    ensures CollapseHyphens(s) == s
  {
    if s != [] {
      assert !(|s| >= 2 && s[0] == '-' && s[1] == '-');
      assert NoDoubleHyphen(s[1..]) by {
        forall k | 0 <= k < |s[1..]| - 1 ensures !(s[1..][k] == '-' && s[1..][k + 1] == '-') {
          assert s[1..][k] == s[k + 1] && s[1..][k + 1] == s[k + 2];
        }
      }
      CollapseOfSingleHyphens(s[1..]);
    }
  }

  /** A path that lower-cases to a slug, with or without one leading slash,
      has that slug as its name. */
  lemma SlugAfterSlash(pathname: string, s: string)
    requires StripLeadingSlash(Lower(pathname)) == s
    requires IsSlug(s)
    ensures SlugOfPath(pathname) == s
  {
    WordsOfSlug(pathname, s);
    SlugOfSlugWords(pathname, s);
  }

  /** Once the character steps leave a slug, the rest of the chain keeps it. */
  lemma SlugOfSlugWords(pathname: string, s: string)
    requires WordsOf(pathname) == s
    requires IsSlug(s)
    ensures SlugOfPath(pathname) == s
  {
    CollapseOfSingleHyphens(s);
    assert LeadingHyphens(s) == 0;
    assert TrailingHyphens(s) == 0;
    assert Chain(pathname) == s;
  }

  lemma WordsOfSlug(pathname: string, s: string)
    requires StripLeadingSlash(Lower(pathname)) == s
    requires IsSlug(s)
    ensures WordsOf(pathname) == s
  {
    CharacterStepsOfSlug(s);
  }

  /** The steps after the leading slash leave a slug alone. */
  lemma CharacterStepsOfSlug(s: string)
    requires IsSlug(s)
    ensures KeepWordChars(StripHtml(SlashesToHyphens(s))) == s
  {
    assert SlashesToHyphens(s) == s;
    assert !EndsWith(s, ".html") by {
      if |s| >= 5 {
        assert IsSlugChar(s[|s| - 5]) && s[|s| - 5..][0] == s[|s| - 5];
      }
    }
    KeepWordCharsOfSlug(s);
  }

  /** ... so a slug is its own slug: `slugify` is idempotent on the names it makes. */
  lemma SlugOfSlug(s: string)
    requires IsSlug(s)
    ensures SlugOfPath(s) == s
  {
    assert Lower(s) == s;
    SlugAfterSlash(s, s);
  }

  /** The slug of a one-segment path `/s` is `s` itself. */
  lemma SlugOfSegment(s: string)
    requires IsSlug(s)
    ensures SlugOfPath("/" + s) == s
  {
    var p := "/" + s;
    assert Lower(p) == p by {
      forall k | 0 <= k < |p| ensures Lower(p)[k] == p[k] {
        if k > 0 {
          assert p[k] == s[k - 1];
        }
      }
    }
    SlugAfterSlash(p, s);
  }

  /** Taking the slug of a slug changes nothing. */
  lemma SlugIdempotent(pathname: string)
    ensures SlugOfPath(SlugOfPath(pathname)) == SlugOfPath(pathname)
  {
    SlugOfSlug(SlugOfPath(pathname));
  }

  /** The random suffix is made of base-36 digits. */
  predicate IsBase36(s: string) {
    forall k | 0 <= k < |s| :: 'a' <= s[k] <= 'z' || '0' <= s[k] <= '9'
  }

  /** Whatever branch is taken, the name uses only `[a-z0-9_-]`, so it is a
      safe file name. */
  lemma SlugifySafe(url: string, parse: UrlParse, suffix: string)
    requires IsBase36(suffix)
    ensures forall k | 0 <= k < |Slugify(url, parse, suffix)| :: IsSlugChar(Slugify(url, parse, suffix)[k])
  {
    var name := Slugify(url, parse, suffix);
    if url == "" {
      assert name == "invalid-url-" + suffix;
      forall k | 0 <= k < |name| ensures IsSlugChar(name[k]) {
        if k >= 12 {
          assert name[k] == suffix[k - 12];
        }
      }
    } else if parse.Malformed? {
      assert name == "malformed-url-" + suffix;
      forall k | 0 <= k < |name| ensures IsSlugChar(name[k]) {
        if k >= 14 {
          assert name[k] == suffix[k - 14];
        }
      }
    }
  }

  /** The worked example: `/a/B/Page.html` is saved as `a-b-page`. */
  lemma SlugExample()
    ensures SlugOfPath("/a/B/Page.html") == "a-b-page"
  {
    ExampleWords();
    ExampleIsSlug();
    SlugOfSlugWords("/a/B/Page.html", "a-b-page");
  }

  /** The root path has an empty chain, so it is saved as `index`. */
  lemma RootIsIndex()
    ensures SlugOfPath("/") == "index"
  {
    assert Lower("/") == "/";
    assert WordsOf("/") == "";
  }

  lemma ExampleWords()
    ensures WordsOf("/a/B/Page.html") == "a-b-page"
  {
    ExampleLower();
    ExampleSlash();
    ExampleHyphens();
    ExampleHtml();
    ExampleIsSlug();
    KeepWordCharsOfSlug("a-b-page");
  }

  lemma ExampleSlash()
    ensures StripLeadingSlash("/a/b/page.html") == "a/b/page.html"
  {
    assert "/a/b/page.html"[1..] == "a/b/page.html";
  }

  lemma ExampleHtml()
    ensures StripHtml("a-b-page.html") == "a-b-page"
  {
    assert "a-b-page.html"[8..] == ".html";
    assert "a-b-page.html"[..8] == "a-b-page";
  }

  lemma ExampleIsSlug()
    ensures IsSlug("a-b-page")
  {
  }

  lemma ExampleLower()
    ensures Lower("/a/B/Page.html") == "/a/b/page.html"
  {
    var p, lowered := "/a/B/Page.html", "/a/b/page.html";
    forall k | 0 <= k < |p| ensures Lower(p)[k] == lowered[k] {
    }
  }

  lemma ExampleHyphens()
    ensures SlashesToHyphens("a/b/page.html") == "a-b-page.html"
  {
    var p, hyphenated := "a/b/page.html", "a-b-page.html";
    forall k | 0 <= k < |p| ensures SlashesToHyphens(p)[k] == hyphenated[k] {
    }
  }
}
