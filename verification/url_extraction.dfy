/** Phase 1 of the crawl: every matched link is cut down to the text between
    its first `(` and its final character, links outside the base URL are
    dropped, and the rest are collected in a JavaScript `Set`, which keeps
    the order in which values were first added. */
module UrlExtraction {
  import opened JsText
  import opened LinkScanner

  /** `link.substring(link.indexOf("(") + 1, link.length - 1)`: what lies
      after the first `(`, without the last character; with no `(` at all,
      everything but the last character. */
  function LinkUrl(link: string): (url: string)
    ensures forall p | 0 <= p < |link| - 1 && link[p] == '(' && '(' !in link[..p] :: url == link[p + 1..|link| - 1]
    ensures '(' !in link && link != [] ==> url == link[..|link| - 1]
  {
    Substring(link, IndexOf(link, '(') + 1, |link| - 1)
  }

  /** The URL cut from each link, before filtering. */
  function Candidates(links: seq<string>): (urls: seq<string>)
    ensures |urls| == |links|
    ensures forall k | 0 <= k < |links| :: urls[k] == LinkUrl(links[k])
  {
    seq(|links|, k requires 0 <= k < |links| => LinkUrl(links[k]))
  }

  predicate NoDuplicates<T(==)>(s: seq<T>) {
    forall i, j | 0 <= i < j < |s| :: s[i] != s[j]
  }

  /** The position of the first occurrence of `x` in `s`. */
  function FirstIndex<T(==)>(s: seq<T>, x: T): (i: nat)
    requires x in s
    ensures i < |s| && s[i] == x && x !in s[..i]
  {
    if s[0] == x then 0
    else
      var i := FirstIndex(s[1..], x);
      assert s[1..][..i] == s[1..i + 1];
      i + 1
  }

  /** `Array.from(uniqueUrls)` after the extraction loop over `links`: the
      URLs under `baseUrl`, each once, in the order of their first occurrence. */
  function UniqueInternalUrls(links: seq<string>, baseUrl: string): (urls: seq<string>)
    decreases |links|
    ensures NoDuplicates(urls)
    ensures forall u :: u in urls <==> u in Candidates(links) && StartsWith(u, baseUrl)
  {
    if links == [] then []
    else
      var prefix := links[..|links| - 1];
      var urls := UniqueInternalUrls(prefix, baseUrl);
      var url := LinkUrl(links[|links| - 1]);
      CandidatesSnoc(links);
      if StartsWith(url, baseUrl) && url !in urls then urls + [url] else urls
  }

  /** The extraction loop, with the `Set` kept as the sequence of its values
      in insertion order. */
  method CollectUniqueUrls(allLinks: seq<string>, baseUrl: string) returns (urlsToProcess: seq<string>)
    ensures urlsToProcess == UniqueInternalUrls(allLinks, baseUrl)
  {
    var uniqueUrls: seq<string> := [];
    for i := 0 to |allLinks|
      invariant uniqueUrls == UniqueInternalUrls(allLinks[..i], baseUrl)
    {
      var link := allLinks[i];
      var url := LinkUrl(link);
      UniqueStep(allLinks, i, baseUrl);
      if StartsWith(url, baseUrl) {
        if url !in uniqueUrls {
          uniqueUrls := uniqueUrls + [url];
        }
      }
    }
    assert allLinks[..|allLinks|] == allLinks;
    urlsToProcess := uniqueUrls;
  }

  /** One step of the extraction loop: the link at `i` adds its URL when it
      is under `baseUrl` and not yet collected. */
  lemma UniqueStep(links: seq<string>, i: nat, baseUrl: string)
    requires i < |links|
    ensures var urls, url := UniqueInternalUrls(links[..i], baseUrl), LinkUrl(links[i]);
      UniqueInternalUrls(links[..i + 1], baseUrl)
      == if StartsWith(url, baseUrl) && url !in urls then urls + [url] else urls
  {
    assert links[..i + 1][..i] == links[..i];
  }

  /** Each URL of `urls` occurs among `cands`, and they come in the order of
      their first occurrences there. */
  predicate InFirstOccurrenceOrder(urls: seq<string>, cands: seq<string>) {
    forall i, j | 0 <= i < j < |urls| ::
      urls[i] in cands && urls[j] in cands && FirstIndex(cands, urls[i]) < FirstIndex(cands, urls[j])
  }

  /** The work list keeps the order in which its URLs first occur among the links. */
  lemma {:induction false} FirstOccurrenceOrder(links: seq<string>, baseUrl: string)
    decreases |links|
    ensures InFirstOccurrenceOrder(UniqueInternalUrls(links, baseUrl), Candidates(links))
  {
    if links != [] {
      var prefix := links[..|links| - 1];
      var url := LinkUrl(links[|links| - 1]);
      var pcands := Candidates(prefix);
      CandidatesSnoc(links);
      FirstOccurrenceOrder(prefix, baseUrl);
      var urls, purls := UniqueInternalUrls(links, baseUrl), UniqueInternalUrls(prefix, baseUrl);
      assert urls == purls || (urls == purls + [url] && url !in pcands);
      OrderStep(pcands, url, purls, urls);
    }
  }

  lemma CandidatesSnoc(links: seq<string>)
    requires links != []
    ensures Candidates(links) == Candidates(links[..|links| - 1]) + [LinkUrl(links[|links| - 1])]
  {
    var prefix, last := links[..|links| - 1], links[|links| - 1];
    var c, p := Candidates(links), Candidates(prefix) + [LinkUrl(last)];
    assert |c| == |p|;
    forall k | 0 <= k < |c| ensures c[k] == p[k] {
      if k < |prefix| {
        assert p[k] == Candidates(prefix)[k] == LinkUrl(prefix[k]);
        assert prefix[k] == links[k];
      } else {
        assert k == |prefix| && links[k] == last;
      }
    }
  }

  lemma OrderStep(cands: seq<string>, url: string, prev: seq<string>, urls: seq<string>)
    requires InFirstOccurrenceOrder(prev, cands)
    requires forall u | u in prev :: u in cands
    requires urls == prev || (urls == prev + [url] && url !in cands)
    ensures InFirstOccurrenceOrder(urls, cands + [url])
  {
    forall i, j | 0 <= i < j < |urls|
      ensures urls[i] in cands + [url] && urls[j] in cands + [url]
      ensures FirstIndex(cands + [url], urls[i]) < FirstIndex(cands + [url], urls[j])
    {
      assert urls[i] == prev[i];
      FirstIndexOfPrefix(cands, [url], urls[i]);
      if j < |prev| {
        assert urls[j] == prev[j];
        FirstIndexOfPrefix(cands, [url], urls[j]);
      } else {
        FirstIndexPast(cands, url);
      }
    }
  }

  lemma FirstIndexPast<T>(s: seq<T>, x: T)
    requires x !in s
    ensures FirstIndex(s + [x], x) == |s|
  {
    assert forall k | 0 <= k < |s| :: (s + [x])[k] != x by {
      forall k | 0 <= k < |s| ensures (s + [x])[k] != x {
        assert (s + [x])[k] == s[k];
      }
    }
  }

  lemma FirstIndexOfPrefix<T>(s: seq<T>, t: seq<T>, x: T)
    requires x in s
    ensures FirstIndex(s + t, x) == FirstIndex(s, x)
  {
    var i, k := FirstIndex(s, x), FirstIndex(s + t, x);
    assert (s + t)[..i] == s[..i];
    assert (s + t)[i] == x;
    assert forall m | 0 <= m < k :: (s + t)[m] != x by {
      forall m | 0 <= m < k ensures (s + t)[m] != x {
        assert (s + t)[m] == (s + t)[..k][m];
      }
    }
    assert forall m | 0 <= m < i :: s[m] != x by {
      forall m | 0 <= m < i ensures s[m] != x {
        assert s[m] == s[..i][m];
      }
    }
    assert forall m | 0 <= m < i :: (s + t)[m] == s[m];
  }

  /** The URL cut from a match is its captured URL exactly when the link text
      holds no `(`: `indexOf` finds the first `(` of the whole match. */
  lemma LinkUrlOfMatch(m: Link)
    requires WellFormed(m)
    ensures LinkUrl(Whole(m)) == m.url <==> '(' !in m.text
  {
    var w := Whole(m);
    var t := |m.text|;
    if '(' in m.text {
      var p := IndexOf(m.text, '(');
      TextLayout(m, p);
      IndexOfAt(w, '(', 1 + p);
      assert |LinkUrl(w)| > |m.url|;
    } else {
      UrlLayout(m);
      IndexOfAt(w, '(', t + 2);
    }
  }

  /** The written link up to a position `p` of its text. */
  lemma TextLayout(m: Link, p: nat)
    requires p < |m.text| && m.text[p] == '(' && '(' !in m.text[..p]
    ensures var w := Whole(m);
      && 1 + p < |w| && w[1 + p] == '(' && '(' !in w[..1 + p]
      && |w| == |m.text| + |m.url| + 4
  {
    var w := Whole(m);
    assert w == "[" + m.text + "](" + m.url + ")";
    assert w[..1 + p] == "[" + m.text[..p];
    assert w[1 + p] == m.text[p];
  }

  /** The written link around its `(`: bracketed text, then the URL. */
  lemma UrlLayout(m: Link)
    requires '(' !in m.text
    ensures var w, t := Whole(m), |m.text|;
      && t + 3 <= |w| - 1 && w[t + 2] == '(' && '(' !in w[..t + 2]
      && w[t + 3..|w| - 1] == m.url
  {
    var w, t := Whole(m), |m.text|;
    assert w == "[" + m.text + "](" + m.url + ")";
    assert w[..t + 2] == "[" + m.text + "]";
    assert w[t + 3..|w| - 1] == m.url;
  }

  /** `IndexOf` answers the first position of the character. */
  lemma IndexOfAt(s: string, c: char, p: nat)
    requires p < |s| && s[p] == c && c !in s[..p]
    ensures IndexOf(s, c) == p
  {
    var i := IndexOf(s, c);
    assert i != -1 by {
      assert c in s;
    }
    assert forall k | 0 <= k < p :: s[k] != c by {
      forall k | 0 <= k < p ensures s[k] != c {
        assert s[k] == s[..p][k];
      }
    }
    assert forall k | 0 <= k < i :: s[k] != c by {
      forall k | 0 <= k < i ensures s[k] != c {
        assert s[k] == s[..i][k];
      }
    }
  }
}
