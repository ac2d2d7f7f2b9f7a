/**
 * crawler.py: choosing the hot article links of the portal's home page
 * (`fetch_home_hot_links`, `_normalize_url`) and extracting an article's title
 * and body text from a fetched page (`fetch_news`).
 *
 * The HTTP fetch and the HTML parser are outside the model: a home page is
 * given as its anchors, an article page as the strings the parser would
 * return for it (`Page`).
 */
module Crawler {
  import opened Wrappers
  import opened Text

  // ---------------------------------------------------------------------------
  // Hot-link selection
  // ---------------------------------------------------------------------------

  /** An `<a href=...>` of the home page: the raw `href` attribute and the anchor's visible text. */
  datatype Anchor = Anchor(href: string, text: string)

  /** A selected hot link: its normalised URL and the anchor text it was found with. */
  datatype HotLink = HotLink(url: string, text: string)

  /** ASCII lower-casing, the case folding of the case-insensitive URL pattern. */
  function LowerAscii(c: char): char {
    if 'A' <= c <= 'Z' then (c as int + 32) as char else c
  }

  /** `s` starts with the lower-case literal `p`, ignoring the letter case of `s`. */
  predicate CiHasPrefix(s: string, p: string) {
    |p| <= |s| && forall i :: 0 <= i < |p| ==> LowerAscii(s[i]) == p[i]
  }

  /** What follows `https?://` at the start of `href`. */
  function AfterScheme(href: string): Option<string> {
    if CiHasPrefix(href, "https://") then Some(href[8..])
    else if CiHasPrefix(href, "http://") then Some(href[7..])
    else None
  }

  /** What follows `(www\.)?163\.com/dy/article/` at the start of `rest`. */
  function AfterArticlePath(rest: string): Option<string> {
    if CiHasPrefix(rest, "www.163.com/dy/article/") then Some(rest[23..])
    else if CiHasPrefix(rest, "163.com/dy/article/") then Some(rest[19..])
    else None
  }

  /** `.html` starts at index `i` of `t` and no newline comes before it. */
  predicate HtmlAt(t: string, i: int) {
    0 <= i <= |t| && '\n' !in t[..i] && CiHasPrefix(t[i..], ".html")
  }

  /**
   * The tail `.*\.html` of the pattern matches a prefix of `t`: without DOTALL,
   * `.` stops at a newline.
   */
  predicate HtmlBeforeNewline(t: string)
    decreases |t|
  {
    if CiHasPrefix(t, ".html") then true
    else if |t| == 0 || t[0] == '\n' then false
    else HtmlBeforeNewline(t[1..])
  }

  /** `HtmlBeforeNewline` scans for the first `.html`: it holds exactly when one starts before any newline. */
  lemma {:induction false} HtmlBeforeNewlineMeans(t: string)
    ensures HtmlBeforeNewline(t) <==> exists i :: HtmlAt(t, i)
    decreases |t|
  {
    if CiHasPrefix(t, ".html") {
      assert t[..0] == [] && t[0..] == t && HtmlAt(t, 0);
    } else if |t| == 0 {
    } else if t[0] == '\n' {
      forall i | HtmlAt(t, i) ensures false {
      }
    } else {
      HtmlBeforeNewlineMeans(t[1..]);
      forall i | HtmlAt(t, i) ensures HtmlAt(t[1..], i - 1) {
        assert i != 0;
        assert t[1..][..i - 1] == t[..i][1..] && t[1..][i - 1..] == t[i..];
      }
      if HtmlBeforeNewline(t[1..]) {
        var j :| HtmlAt(t[1..], j);
        assert t[..j + 1] == [t[0]] + t[1..][..j] && t[j + 1..] == t[1..][j..];
        assert HtmlAt(t, j + 1);
      }
    }
  }

  /** What follows `https?://(www\.)?163\.com/dy/article/` at the start of `href`. */
  function ArticleTail(href: string): Option<string> {
    match AfterScheme(href)
    case None => None
    case Some(rest) => AfterArticlePath(rest)
  }

  /**
   * `re.match(r"^https?://(?:www\.)?163\.com/dy/article/.*\.html", href, re.I)`:
   * anchored at the start only, so anything may follow the `.html`.
   */
  predicate MatchesArticlePattern(href: string) {
    ArticleTail(href).Some? && HtmlBeforeNewline(ArticleTail(href).value)
  }

  lemma CiHasPrefixExtend(s: string, x: string, p: string)
    requires |p| <= |s|
    ensures CiHasPrefix(s + x, p) == CiHasPrefix(s, p)
  {
    assert forall i :: 0 <= i < |p| ==> (s + x)[i] == s[i];
  }

  lemma AfterSchemeExtend(href: string, x: string)
    requires AfterScheme(href).Some?
    ensures AfterScheme(href + x) == Some(AfterScheme(href).value + x)
  {
    if CiHasPrefix(href, "https://") {
      CiHasPrefixExtend(href, x, "https://");
      assert (href + x)[8..] == href[8..] + x;
    } else {
      CiHasPrefixExtend(href, x, "http://");
      assert (href + x)[7..] == href[7..] + x;
      assert LowerAscii((href + x)[4]) == ':';
    }
  }

  lemma AfterArticlePathExtend(rest: string, x: string)
    requires AfterArticlePath(rest).Some?
    ensures AfterArticlePath(rest + x) == Some(AfterArticlePath(rest).value + x)
  {
    if CiHasPrefix(rest, "www.163.com/dy/article/") {
      CiHasPrefixExtend(rest, x, "www.163.com/dy/article/");
      assert (rest + x)[23..] == rest[23..] + x;
    } else {
      CiHasPrefixExtend(rest, x, "163.com/dy/article/");
      assert (rest + x)[19..] == rest[19..] + x;
      assert LowerAscii((rest + x)[0]) == '1';
    }
  }

  /** Text after the URL's article prefix is carried along unchanged. */
  lemma ArticleTailExtend(href: string, x: string)
    requires ArticleTail(href).Some?
    ensures ArticleTail(href + x) == Some(ArticleTail(href).value + x)
  {
    AfterSchemeExtend(href, x);
    AfterArticlePathExtend(AfterScheme(href).value, x);
  }

  /** Text after a string with `.html` before any newline leaves that `.html` in place. */
  lemma {:induction false} HtmlBeforeNewlineExtend(t: string, x: string)
    requires HtmlBeforeNewline(t)
    ensures HtmlBeforeNewline(t + x)
    decreases |t|
  {
    if CiHasPrefix(t, ".html") {
      CiHasPrefixExtend(t, x, ".html");
    } else {
      HtmlBeforeNewlineExtend(t[1..], x);
      assert (t + x)[1..] == t[1..] + x;
      assert (t + x)[0] == t[0];
    }
  }

  /** The pattern has no end anchor: whatever follows a matching URL, it still matches. */
  lemma MatchIgnoresSuffix(href: string, x: string)
    requires MatchesArticlePattern(href)
    ensures MatchesArticlePattern(href + x)
  {
    ArticleTailExtend(href, x);
    HtmlBeforeNewlineExtend(ArticleTail(href).value, x);
  }

  /**
   * `_normalize_url`: `urlunsplit` of the scheme, host and path of `urlsplit(url)`,
   * that is, the URL cut at the first `?` (query) or `#` (fragment).
   */
  function NormalizeUrl(url: string): (r: string)
    ensures HasPrefix(url, r)
    ensures '?' !in r && '#' !in r
    ensures |r| < |url| ==> url[|r|] == '?' || url[|r|] == '#'
  {
    if |url| == 0 || url[0] == '?' || url[0] == '#' then []
    else [url[0]] + NormalizeUrl(url[1..])
  }

  /** The three properties in the contract of `NormalizeUrl` determine its result. */
  lemma NormalizeUnique(url: string, r: string)
    requires HasPrefix(url, r) && '?' !in r && '#' !in r
    requires |r| < |url| ==> url[|r|] == '?' || url[|r|] == '#'
    ensures NormalizeUrl(url) == r
  {
  }

  /** Normalising a normalised URL changes nothing. */
  lemma NormalizeIdempotent(url: string)
    ensures NormalizeUrl(NormalizeUrl(url)) == NormalizeUrl(url)
  {
    var r := NormalizeUrl(url);
    NormalizeUnique(r, r);
  }

  /** A part without `?` and `#` in front of a URL passes through normalisation. */
  lemma NormalizeAppend(p: string, t: string)
    requires '?' !in p && '#' !in p
    ensures NormalizeUrl(p + t) == p + NormalizeUrl(t)
  {
    var nt := NormalizeUrl(t);
    assert (p + t)[..|p + nt|] == p + nt;
    if |nt| < |t| {
      assert (p + t)[|p + nt|] == t[|nt|];
    }
    NormalizeUnique(p + t, p + nt);
  }

  lemma CiPrefixHasNoQuery(s: string, p: string)
    requires CiHasPrefix(s, p) && '?' !in p && '#' !in p
    ensures '?' !in s[..|p|] && '#' !in s[..|p|]
  {
    forall i | 0 <= i < |p| ensures s[i] != '?' && s[i] != '#' {
      assert LowerAscii(s[i]) == p[i];
    }
  }

  /** The scheme in front of `AfterScheme`'s result holds no `?` or `#`, and is a full scheme on its own. */
  lemma SchemeHead(href: string)
    requires AfterScheme(href).Some?
    ensures var n := |href| - |AfterScheme(href).value|;
      0 <= n <= |href| && href == href[..n] + AfterScheme(href).value
      && '?' !in href[..n] && '#' !in href[..n] && AfterScheme(href[..n]) == Some([])
  {
    if CiHasPrefix(href, "https://") {
      CiPrefixHasNoQuery(href, "https://");
      CiHasPrefixExtend(href[..8], [], "https://");
      assert href[..8] + [] == href[..8];
    } else {
      CiPrefixHasNoQuery(href, "http://");
      CiHasPrefixExtend(href[..7], [], "http://");
      assert href[..7] + [] == href[..7];
      assert LowerAscii(href[4]) == ':';
    }
  }

  /** The host and path in front of `AfterArticlePath`'s result hold no `?` or `#`, and are a full article path on their own. */
  lemma PathHead(rest: string)
    requires AfterArticlePath(rest).Some?
    ensures var m := |rest| - |AfterArticlePath(rest).value|;
      0 <= m <= |rest| && rest == rest[..m] + AfterArticlePath(rest).value
      && '?' !in rest[..m] && '#' !in rest[..m] && AfterArticlePath(rest[..m]) == Some([])
  {
    if CiHasPrefix(rest, "www.163.com/dy/article/") {
      CiPrefixHasNoQuery(rest, "www.163.com/dy/article/");
      var h := rest[..23];
      assert CiHasPrefix(h, "www.163.com/dy/article/");
      assert h[23..] == [];
    } else {
      CiPrefixHasNoQuery(rest, "163.com/dy/article/");
      var h := rest[..19];
      assert CiHasPrefix(h, "163.com/dy/article/");
      assert !CiHasPrefix(h, "www.163.com/dy/article/");
      assert h[19..] == [];
    }
  }

  /** The part of a URL in front of its article tail holds no `?` or `#`. */
  lemma ArticleHeadHasNoQuery(href: string)
    requires ArticleTail(href).Some?
    ensures var head := href[..|href| - |ArticleTail(href).value|];
      '?' !in head && '#' !in head && href == head + ArticleTail(href).value && ArticleTail(head) == Some([])
  {
    var rest := AfterScheme(href).value;
    var tail := ArticleTail(href).value;
    SchemeHead(href);
    PathHead(rest);
    var n := |href| - |rest|;
    var m := |rest| - |tail|;
    var head := href[..n] + rest[..m];
    assert href == head + tail;
    assert href[..|href| - |tail|] == head;
    AfterSchemeExtend(href[..n], rest[..m]);
    assert [] + rest[..m] == rest[..m];
  }

  /**
   * Normalisation keeps scheme, host and path and drops query and fragment: the
   * normalised URL has the same article prefix, followed by the normalised tail.
   */
  lemma NormalizeKeepsArticlePrefix(href: string)
    requires ArticleTail(href).Some?
    ensures ArticleTail(NormalizeUrl(href)) == Some(NormalizeUrl(ArticleTail(href).value))
  {
    var tail := ArticleTail(href).value;
    var head := href[..|href| - |tail|];
    ArticleHeadHasNoQuery(href);
    assert href == head + tail && ArticleTail(head) == Some([]);
    NormalizeAppend(head, tail);
    ArticleTailExtend(head, NormalizeUrl(tail));
    assert [] + NormalizeUrl(tail) == NormalizeUrl(tail);
  }

  lemma ArticleTailOfLiteral(t: string)
    ensures ArticleTail("https://163.com/dy/article/" + t) == Some(t)
  {
    var u := "https://163.com/dy/article/" + t;
    assert CiHasPrefix(u, "https://");
    assert u[8..] == "163.com/dy/article/" + t;
    assert CiHasPrefix(u[8..], "163.com/dy/article/");
    assert !CiHasPrefix(u[8..], "www.163.com/dy/article/") by {
      assert LowerAscii(u[8..][0]) == '1';
    }
    assert AfterScheme(u) == Some(u[8..]);
    assert u[8..][19..] == t;
  }

  /**
   * The normalised URL need not match the pattern any more: the pattern may have
   * found its `.html` in the query string, which normalisation drops.
   */
  lemma NormalizedUrlMayNotMatch()
    ensures MatchesArticlePattern("https://163.com/dy/article/a?b.html")
    ensures !MatchesArticlePattern(NormalizeUrl("https://163.com/dy/article/a?b.html"))
  {
    QueryHtmlMatches();
    QueryHtmlNormalized();
    ShortArticleNoMatch();
  }

  /** A tail ending in `.html` with no newline before it matches the tail of the pattern. */
  lemma {:induction false} HtmlAtEnd(p: string)
    requires '\n' !in p
    ensures HtmlBeforeNewline(p + ".html")
    decreases |p|
  {
    if p == [] {
      assert p + ".html" == ".html";
    } else {
      HtmlAtEnd(p[1..]);
      assert (p + ".html")[1..] == p[1..] + ".html";
    }
  }

  lemma QueryHtmlMatches()
    ensures MatchesArticlePattern("https://163.com/dy/article/a?b.html")
  {
    var t := "a?b.html";
    assert "https://163.com/dy/article/a?b.html" == "https://163.com/dy/article/" + t;
    ArticleTailOfLiteral(t);
    HtmlAtEnd("a?b");
    assert "a?b" + ".html" == t;
  }

  lemma ShortArticleNoMatch()
    ensures !MatchesArticlePattern("https://163.com/dy/article/a")
  {
    assert "https://163.com/dy/article/a" == "https://163.com/dy/article/" + "a";
    ArticleTailOfLiteral("a");
    assert !HtmlBeforeNewline("a") by { assert "a"[1..] == []; }
  }

  /** A URL with a query loses the `?` and everything after it. */
  lemma NormalizeDropsQuery(p: string, q: string)
    requires '?' !in p && '#' !in p
    ensures NormalizeUrl(p + "?" + q) == p
  {
    var u := p + "?" + q;
    assert u[..|p|] == p && u[|p|] == '?';
    NormalizeUnique(u, p);
  }

  lemma QueryHtmlNormalized()
    ensures NormalizeUrl("https://163.com/dy/article/a?b.html") == "https://163.com/dy/article/a"
  {
    var p := "https://163.com/dy/article/a";
    assert "https://163.com/dy/article/a?b.html" == p + "?" + "b.html";
    NormalizeDropsQuery(p, "b.html");
  }

  /** The largest number of links the selection loop returns: it checks `len(results) >= limit` only after an append. */
  function MaxLinks(limit: int): nat {
    if limit < 1 then 1 else limit
  }

  /**
   * The link an anchor adds when its URL has not been seen: `None` when the
   * stripped `href` is empty or does not match the pattern, or the text is
   * empty. The loop tests `seen` before the text; as `seen` only ever holds the
   * URLs of links already added, the order of those two tests changes nothing.
   */
  function Candidate(a: Anchor): (r: Option<HotLink>)
    ensures r.Some? ==> r.value.text != [] && '?' !in r.value.url && '#' !in r.value.url
  {
    var href := Strip(a.href);
    if href == [] || !MatchesArticlePattern(href) || a.text == [] then None
    else Some(HotLink(NormalizeUrl(href), a.text))
  }

  function Candidates(anchors: seq<Anchor>): (r: seq<Option<HotLink>>)
    ensures |r| == |anchors| && forall i :: 0 <= i < |anchors| ==> r[i] == Candidate(anchors[i])
  {
    seq(|anchors|, i requires 0 <= i < |anchors| => Candidate(anchors[i]))
  }

  /** The `seen` set: the URLs of the links added so far. */
  function UrlsOf(links: seq<HotLink>): (r: set<string>)
    ensures forall k :: 0 <= k < |links| ==> links[k].url in r
    ensures forall u :: u in r ==> exists k :: 0 <= k < |links| && links[k].url == u
  {
    if links == [] then {} else UrlsOf(links[..|links| - 1]) + {links[|links| - 1].url}
  }

  /** One iteration of the anchor loop before the limit is reached. */
  function AddLink(prev: seq<HotLink>, c: Option<HotLink>): seq<HotLink> {
    match c
    case None => prev
    case Some(link) => if link.url in UrlsOf(prev) then prev else prev + [link]
  }

  /** The links the anchor loop keeps from a sequence of candidates, stopping once `MaxLinks(limit)` are kept. */
  function SelectFrom(cands: seq<Option<HotLink>>, limit: int): (r: seq<HotLink>)
    ensures |r| <= MaxLinks(limit) && |r| <= |cands|
  {
    if cands == [] then []
    else
      var prev := SelectFrom(cands[..|cands| - 1], limit);
      if |prev| >= MaxLinks(limit) then prev else AddLink(prev, cands[|cands| - 1])
  }

  /** The links `fetch_home_hot_links(limit)` returns for a home page with these anchors. */
  function Selected(anchors: seq<Anchor>, limit: int): seq<HotLink> {
    SelectFrom(Candidates(anchors), limit)
  }

  lemma CandidatesPrefix(anchors: seq<Anchor>, n: nat)
    requires n <= |anchors|
    ensures Candidates(anchors[..n]) == Candidates(anchors)[..n]
  {
  }

  lemma CandidatesAppend(a: seq<Anchor>, b: seq<Anchor>)
    ensures Candidates(a + b) == Candidates(a) + Candidates(b)
  {
  }

  /** One more candidate: the loop's step. */
  lemma SelectFromStep(cands: seq<Option<HotLink>>, c: Option<HotLink>, limit: int)
    ensures var prev := SelectFrom(cands, limit);
      SelectFrom(cands + [c], limit) == if |prev| >= MaxLinks(limit) then prev else AddLink(prev, c)
  {
    assert (cands + [c])[..|cands|] == cands;
  }

  lemma UrlsOfAppend(links: seq<HotLink>, link: HotLink)
    ensures UrlsOf(links + [link]) == UrlsOf(links) + {link.url}
  {
    assert (links + [link])[..|links|] == links;
  }

  /** No two links of `links` share a URL. */
  predicate DistinctUrls(links: seq<HotLink>) {
    forall i, j :: 0 <= i < j < |links| ==> links[i].url != links[j].url
  }

  /** No two kept links share a URL. */
  lemma {:induction false} SelectFromUrlsDistinct(cands: seq<Option<HotLink>>, limit: int)
    ensures DistinctUrls(SelectFrom(cands, limit))
  {
    if cands != [] {
      var prev := SelectFrom(cands[..|cands| - 1], limit);
      SelectFromUrlsDistinct(cands[..|cands| - 1], limit);
      var r := SelectFrom(cands, limit);
      if r != prev {
        var link := cands[|cands| - 1].value;
        assert r == prev + [link] && link.url !in UrlsOf(prev);
        forall i, j | 0 <= i < j < |r| ensures r[i].url != r[j].url {
          if j < |prev| {
            assert r[i] == prev[i] && r[j] == prev[j];
          } else {
            assert r[j] == link && r[i] == prev[i];
            assert prev[i].url in UrlsOf(prev);
          }
        }
      }
    }
  }

  /** The positions of the candidates that were kept. */
  ghost function KeptPositions(cands: seq<Option<HotLink>>, limit: int): seq<nat> {
    if cands == [] then []
    else
      var init := cands[..|cands| - 1];
      var prev := SelectFrom(init, limit);
      var pos := KeptPositions(init, limit);
      if |prev| >= MaxLinks(limit) || AddLink(prev, cands[|cands| - 1]) == prev then pos
      else pos + [|cands| - 1]
  }

  /** `links` are the candidates at the increasing positions `pos`. */
  ghost predicate TakenInOrder(cands: seq<Option<HotLink>>, links: seq<HotLink>, pos: seq<nat>) {
    && |pos| == |links|
    && (forall k :: 0 <= k < |pos| ==> pos[k] < |cands| && cands[pos[k]] == Some(links[k]))
    && (forall k, l :: 0 <= k < l < |pos| ==> pos[k] < pos[l])
  }

  lemma TakenInOrderExtend(init: seq<Option<HotLink>>, c: Option<HotLink>, links: seq<HotLink>, pos: seq<nat>)
    requires TakenInOrder(init, links, pos)
    ensures TakenInOrder(init + [c], links, pos)
    ensures c.Some? ==> TakenInOrder(init + [c], links + [c.value], pos + [|init|])
  {
    var cands := init + [c];
    assert forall k :: 0 <= k < |pos| ==> cands[pos[k]] == init[pos[k]];
  }

  /** The kept links are candidates taken in order: the k-th comes from a strictly later position than the one before. */
  lemma {:induction false} SelectFromInOrder(cands: seq<Option<HotLink>>, limit: int)
    ensures TakenInOrder(cands, SelectFrom(cands, limit), KeptPositions(cands, limit))
  {
    if cands != [] {
      var init, c := cands[..|cands| - 1], cands[|cands| - 1];
      SelectFromInOrder(init, limit);
      var prev, pos := SelectFrom(init, limit), KeptPositions(init, limit);
      assert cands == init + [c];
      TakenInOrderExtend(init, c, prev, pos);
      if |prev| < MaxLinks(limit) && AddLink(prev, c) != prev {
        assert SelectFrom(cands, limit) == prev + [c.value];
        assert KeptPositions(cands, limit) == pos + [|init|];
      } else {
        assert SelectFrom(cands, limit) == prev;
        assert KeptPositions(cands, limit) == pos;
      }
    }
  }

  /** Kept links over a prefix of the candidates are a prefix of those over all of them. */
  lemma {:induction false} SelectFromGrows(cands: seq<Option<HotLink>>, n: nat, limit: int)
    requires n <= |cands|
    ensures SelectFrom(cands[..n], limit) <= SelectFrom(cands, limit)
    decreases |cands|
  {
    if n < |cands| {
      var init := cands[..|cands| - 1];
      assert cands[..n] == init[..n];
      SelectFromGrows(init, n, limit);
    } else {
      assert cands[..n] == cands;
    }
  }

  /** Once the limit is reached, later candidates change nothing: the loop has stopped. */
  lemma {:induction false} SelectFromStopsAtLimit(cands: seq<Option<HotLink>>, n: nat, limit: int)
    requires n <= |cands| && |SelectFrom(cands[..n], limit)| >= MaxLinks(limit)
    ensures SelectFrom(cands, limit) == SelectFrom(cands[..n], limit)
    decreases |cands|
  {
    if n < |cands| {
      var init := cands[..|cands| - 1];
      assert cands[..n] == init[..n];
      SelectFromStopsAtLimit(init, n, limit);
    } else {
      assert cands[..n] == cands;
    }
  }

  /**
   * Nothing is missed: a candidate met before the limit was reached has its URL
   * among the kept links (its own link, or an earlier one with the same URL).
   */
  lemma SelectFromComplete(cands: seq<Option<HotLink>>, j: nat, limit: int)
    requires j < |cands| && |SelectFrom(cands[..j], limit)| < MaxLinks(limit) && cands[j].Some?
    ensures cands[j].value.url in UrlsOf(SelectFrom(cands, limit))
  {
    assert cands[..j + 1] == cands[..j] + [cands[j]];
    CandidateRecorded(cands[..j], cands[j], limit);
    SelectFromGrows(cands, j + 1, limit);
    UrlsOfPrefix(SelectFrom(cands[..j + 1], limit), SelectFrom(cands, limit));
  }

  /** A candidate examined before the limit has its URL among the links kept so far. */
  lemma CandidateRecorded(prefix: seq<Option<HotLink>>, c: Option<HotLink>, limit: int)
    requires |SelectFrom(prefix, limit)| < MaxLinks(limit) && c.Some?
    ensures c.value.url in UrlsOf(SelectFrom(prefix + [c], limit))
  {
    var prev := SelectFrom(prefix, limit);
    SelectFromStep(prefix, c, limit);
    if c.value.url !in UrlsOf(prev) {
      UrlsOfAppend(prev, c.value);
    }
  }

  lemma UrlsOfPrefix(a: seq<HotLink>, b: seq<HotLink>)
    requires a <= b
    ensures UrlsOf(a) <= UrlsOf(b)
  {
    forall u | u in UrlsOf(a) ensures u in UrlsOf(b) {
      var k :| 0 <= k < |a| && a[k].url == u;
      assert b[k] == a[k];
    }
  }


  /**
   * Every selected link comes from an anchor, in anchor order, whose stripped
   * `href` is non-empty and matches the pattern, whose text is non-empty, and
   * whose normalised `href` is the link's URL.
   */
  lemma SelectedFromAnchors(anchors: seq<Anchor>, limit: int)
    ensures var r, pos := Selected(anchors, limit), KeptPositions(Candidates(anchors), limit);
      && |pos| == |r|
      && (forall k :: 0 <= k < |pos| ==>
            && pos[k] < |anchors|
            && Strip(anchors[pos[k]].href) != []
            && MatchesArticlePattern(Strip(anchors[pos[k]].href))
            && r[k] == HotLink(NormalizeUrl(Strip(anchors[pos[k]].href)), anchors[pos[k]].text)
            && r[k].text != [])
      && (forall k, l :: 0 <= k < l < |pos| ==> pos[k] < pos[l])
  {
    SelectFromInOrder(Candidates(anchors), limit);
  }

  /**
   * `seen` is updated only after the text check: an anchor dropped for its empty
   * text does not block a later anchor with the same normalised URL.
   */
  lemma EmptyTextDoesNotMarkSeen(prefix: seq<Anchor>, blank: Anchor, named: Anchor, limit: int)
    requires |Selected(prefix, limit)| < MaxLinks(limit)
    requires blank.text == [] && Candidate(named).Some?
    requires NormalizeUrl(Strip(blank.href)) == Candidate(named).value.url
    requires Candidate(named).value.url !in UrlsOf(Selected(prefix, limit))
    ensures Selected(prefix + [blank, named], limit) == Selected(prefix, limit) + [Candidate(named).value]
  {
    CandidatesAppend(prefix, [blank, named]);
    var c := Candidates(prefix);
    assert Candidates([blank, named]) == [None, Candidate(named)];
    assert c + [None, Candidate(named)] == (c + [None]) + [Candidate(named)];
    SelectFromStep(c, None, limit);
    SelectFromStep(c + [None], Candidate(named), limit);
  }

  /**
   * The filters one anchor goes through in the loop of `fetch_home_hot_links`,
   * in the source's order: the link to add, or `None` to skip the anchor.
   */
  method ExamineAnchor(a: Anchor, seen: set<string>) returns (link: Option<HotLink>)
    ensures link == (if Candidate(a).Some? && Candidate(a).value.url !in seen then Candidate(a) else None)
  {
    var href := Strip(a.href);
    if href == [] {
      return None;
    }
    if !MatchesArticlePattern(href) {
      return None;
    }
    var url := NormalizeUrl(href);
    if url in seen {
      return None;
    }
    if a.text == [] {
      return None;
    }
    return Some(HotLink(url, a.text));
  }

  /** One pass of the anchor loop before the limit: the link `ExamineAnchor` returns is the one the selection adds. */
  lemma SelectStep(anchors: seq<Anchor>, n: nat, limit: int, seen: set<string>, link: Option<HotLink>)
    requires n < |anchors|
    requires seen == UrlsOf(Selected(anchors[..n], limit)) && |Selected(anchors[..n], limit)| < MaxLinks(limit)
    requires link == (if Candidate(anchors[n]).Some? && Candidate(anchors[n]).value.url !in seen then Candidate(anchors[n]) else None)
    ensures link.None? ==> Selected(anchors[..n + 1], limit) == Selected(anchors[..n], limit)
    ensures link.Some? ==> Selected(anchors[..n + 1], limit) == Selected(anchors[..n], limit) + [link.value]
    ensures link.Some? ==> UrlsOf(Selected(anchors[..n + 1], limit)) == seen + {link.value.url}
  {
    var prefix := Candidates(anchors[..n]);
    var c := Candidate(anchors[n]);
    assert anchors[..n + 1] == anchors[..n] + [anchors[n]];
    CandidatesAppend(anchors[..n], [anchors[n]]);
    SelectFromStep(prefix, c, limit);
    if link.Some? {
      UrlsOfAppend(SelectFrom(prefix, limit), link.value);
    }
  }

  /** When the anchor loop stops at the limit, later anchors would change nothing. */
  lemma SelectionStopped(anchors: seq<Anchor>, n: nat, limit: int)
    requires n <= |anchors| && |Selected(anchors[..n], limit)| >= MaxLinks(limit)
    ensures Selected(anchors, limit) == Selected(anchors[..n], limit)
  {
    CandidatesPrefix(anchors, n);
    SelectFromStopsAtLimit(Candidates(anchors), n, limit);
  }

  /** The selection loop of `fetch_home_hot_links`; `examined` counts the anchors it looked at. */
  method FetchHomeHotLinks(anchors: seq<Anchor>, limit: int) returns (results: seq<HotLink>, examined: nat)
    ensures results == Selected(anchors, limit)
    ensures examined <= |anchors| && results == Selected(anchors[..examined], limit)
    ensures examined < |anchors| ==> |results| == MaxLinks(limit) && |Selected(anchors[..examined - 1], limit)| < MaxLinks(limit)
  {
    results := [];
    var seen: set<string> := {};
    examined := 0;
    while examined < |anchors|
      invariant examined <= |anchors|
      invariant results == Selected(anchors[..examined], limit)
      invariant seen == UrlsOf(results)
      invariant |results| < MaxLinks(limit)
    {
      var link := ExamineAnchor(anchors[examined], seen);
      SelectStep(anchors, examined, limit, seen, link);
      examined := examined + 1;
      if link.Some? {
        seen := seen + {link.value.url};
        results := results + [link.value];
        if |results| >= limit {
          SelectionStopped(anchors, examined, limit);
          return;
        }
      }
    }
    assert anchors[..examined] == anchors;
  }


  // ---------------------------------------------------------------------------
  // Article extraction
  // ---------------------------------------------------------------------------

  /** The body-container selectors `fetch_news` tries. */
  datatype Selector = ContentId | EndTextId | PostBodyClass | ArticleBodyClass | ArticleTag

  /** `#content`, `#endText`, `.post_body`, `.article-body`, `article`, in this order. */
  const CandidateSelectors: seq<Selector> := [ContentId, EndTextId, PostBodyClass, ArticleBodyClass, ArticleTag]

  /**
   * What the HTML parser yields for an article page: the text of the first
   * `<h1>` and of `<title>` (`None` when there is no such element), for every
   * selector that matches an element the stripped texts of the `<p>` elements
   * in the first such element, and the stripped texts of all `<p>` elements of
   * the document, all after scripts, styles and noscripts are removed.
   */
  datatype Page = Page(
    h1: Option<string>,
    titleTag: Option<string>,
    containers: map<Selector, seq<string>>,
    documentParagraphs: seq<string>)

  datatype ArticleRecord = ArticleRecord(url: string, title: string, content: string)

  const TitlePlaceholder: string := "（未找到标题）"
  const ContentPlaceholder: string := "（未提取到正文：可能页面结构变化/异步加载/反爬限制）"
  /** Paragraphs shorter than this are noise. */
  const MinParagraphLength: nat := 5

  predicate HasText(o: Option<string>) {
    o.Some? && o.value != []
  }

  /** The title rule: the `<h1>` text, else the `<title>` text, else the placeholder. */
  function ResolveTitle(h1: Option<string>, titleTag: Option<string>): (r: string)
    ensures r != []
    ensures HasText(h1) ==> r == h1.value
    ensures !HasText(h1) && HasText(titleTag) ==> r == titleTag.value
    ensures !HasText(h1) && !HasText(titleTag) ==> r == TitlePlaceholder
  {
    if HasText(h1) then h1.value
    else if HasText(titleTag) then titleTag.value
    else TitlePlaceholder
  }

  /** The position of the first selector that matches; `|selectors|` when none does. */
  function FirstMatch(selectors: seq<Selector>, containers: map<Selector, seq<string>>): (k: nat)
    ensures k <= |selectors|
    ensures forall j :: 0 <= j < k ==> selectors[j] !in containers
    ensures k < |selectors| ==> selectors[k] in containers
  {
    if selectors == [] then 0
    else if selectors[0] in containers then 0
    else 1 + FirstMatch(selectors[1..], containers)
  }

  /** The paragraph texts of the chosen container: the first matching selector's element, else the whole document. */
  function ContainerParagraphs(page: Page): seq<string> {
    var k := FirstMatch(CandidateSelectors, page.containers);
    if k < |CandidateSelectors| then page.containers[CandidateSelectors[k]] else page.documentParagraphs
  }

  /** The selector loop of `fetch_news`: `chosen` is the position of the selector used, 5 for the whole document. */
  method ChooseContainer(page: Page) returns (chosen: nat, paragraphs: seq<string>)
    ensures chosen <= |CandidateSelectors|
    ensures forall j :: 0 <= j < chosen ==> CandidateSelectors[j] !in page.containers
    ensures chosen < |CandidateSelectors| ==>
      CandidateSelectors[chosen] in page.containers && paragraphs == page.containers[CandidateSelectors[chosen]]
    ensures chosen == |CandidateSelectors| ==> paragraphs == page.documentParagraphs
  {
    var container: Option<seq<string>> := None;
    chosen := 0;
    while chosen < |CandidateSelectors|
      invariant chosen <= |CandidateSelectors|
      invariant forall j :: 0 <= j < chosen ==> CandidateSelectors[j] !in page.containers
      invariant container.None?
    {
      var css := CandidateSelectors[chosen];
      container := if css in page.containers then Some(page.containers[css]) else None;
      if container.Some? {
        break;
      }
      chosen := chosen + 1;
    }
    if container.None? {
      paragraphs := page.documentParagraphs;
    } else {
      paragraphs := container.value;
    }
  }

  /** The paragraphs kept for the body: non-empty and at least `MinParagraphLength` long, in document order. */
  function KeptParagraphs(paragraphs: seq<string>): (r: seq<string>)
    ensures |r| <= |paragraphs|
    ensures forall k :: 0 <= k < |r| ==> |r[k]| >= MinParagraphLength
  {
    if paragraphs == [] then []
    else
      var last := paragraphs[|paragraphs| - 1];
      KeptParagraphs(paragraphs[..|paragraphs| - 1]) + (if last == [] || |last| < MinParagraphLength then [] else [last])
  }

  /** The filter works paragraph by paragraph: it distributes over concatenation. */
  lemma {:induction false} KeptParagraphsAppend(a: seq<string>, b: seq<string>)
    ensures KeptParagraphs(a + b) == KeptParagraphs(a) + KeptParagraphs(b)
    decreases |b|
  {
    if b == [] {
      assert a + b == a;
    } else {
      assert (a + b)[..|a + b| - 1] == a + b[..|b| - 1];
      KeptParagraphsAppend(a, b[..|b| - 1]);
    }
  }

  /** No long paragraph is dropped. */
  lemma {:induction false} KeptParagraphsKeepsLong(paragraphs: seq<string>)
    ensures forall p :: p in paragraphs && |p| >= MinParagraphLength ==> p in KeptParagraphs(paragraphs)
  {
    if paragraphs != [] {
      var init := paragraphs[..|paragraphs| - 1];
      KeptParagraphsKeepsLong(init);
      forall p | p in paragraphs && |p| >= MinParagraphLength ensures p in KeptParagraphs(paragraphs) {
        if p in init { } else { assert p == paragraphs[|paragraphs| - 1]; }
      }
    }
  }

  /** The paragraph loop of `fetch_news`. */
  method CollectLines(paragraphs: seq<string>) returns (lines: seq<string>)
    ensures lines == KeptParagraphs(paragraphs)
  {
    lines := [];
    for i := 0 to |paragraphs|
      invariant lines == KeptParagraphs(paragraphs[..i])
    {
      assert paragraphs[..i + 1][..i] == paragraphs[..i];
      var text := paragraphs[i];
      if text == [] {
        continue;
      }
      if |text| < MinParagraphLength {
        continue;
      }
      lines := lines + [text];
    }
    assert paragraphs[..|paragraphs|] == paragraphs;
  }

  /** The body text: kept paragraphs joined by newlines and stripped, or the placeholder when that is empty. */
  function BodyText(lines: seq<string>): (r: string)
    ensures r != []
    ensures Strip(Join(lines, "\n")) != [] ==> r == Strip(Join(lines, "\n"))
    ensures Strip(Join(lines, "\n")) == [] ==> r == ContentPlaceholder
  {
    var content := Strip(Join(lines, "\n"));
    if content == [] then ContentPlaceholder else content
  }

  /** The record `fetch_news(url)` returns for a page the parser turned into `page`. */
  function ArticleOf(url: string, page: Page): (r: ArticleRecord)
    ensures r.url == url && r.title != [] && r.content != []
  {
    ArticleRecord(url, ResolveTitle(page.h1, page.titleTag), BodyText(KeptParagraphs(ContainerParagraphs(page))))
  }

  /** The body of `fetch_news` once the page has been fetched and parsed. */
  method FetchNews(url: string, page: Page) returns (news: ArticleRecord)
    ensures news == ArticleOf(url, page)
  {
    var title := if page.h1.Some? then page.h1.value else [];
    if title == [] && page.titleTag.Some? {
      title := page.titleTag.value;
    }
    if title == [] {
      title := TitlePlaceholder;
    }
    var chosen, paragraphs := ChooseContainer(page);
    assert chosen == FirstMatch(CandidateSelectors, page.containers);
    var lines := CollectLines(paragraphs);
    var content := Strip(Join(lines, "\n"));
    if content == [] {
      content := ContentPlaceholder;
    }
    news := ArticleRecord(url, title, content);
  }

  /** Without a paragraph of at least `MinParagraphLength` characters nothing is kept. */
  lemma {:induction false} KeptParagraphsNoneLong(paragraphs: seq<string>)
    requires forall k :: 0 <= k < |paragraphs| ==> |paragraphs[k]| < MinParagraphLength
    ensures KeptParagraphs(paragraphs) == []
  {
    if paragraphs != [] {
      KeptParagraphsNoneLong(paragraphs[..|paragraphs| - 1]);
    }
  }

  /** A page whose chosen container has no paragraph of at least five characters gets the content placeholder. */
  lemma NoLongParagraphGivesPlaceholder(url: string, page: Page)
    requires forall k :: 0 <= k < |ContainerParagraphs(page)| ==> |ContainerParagraphs(page)[k]| < MinParagraphLength
    ensures ArticleOf(url, page).content == ContentPlaceholder
  {
    KeptParagraphsNoneLong(ContainerParagraphs(page));
  }

  /**
   * A page with `<h1>Storm Warning</h1>`, no body container and paragraphs of
   * 2, 10 and 20 characters: the title is the heading and the body is the two
   * longer paragraphs on two lines.
   */
  lemma StormWarningPage(url: string, p2: string, p10: string, p20: string)
    requires |p2| == 2 && |p10| == 10 && |p20| == 20
    requires !IsSpace(p10[0]) && !IsSpace(p20[19])
    ensures var news := ArticleOf(url, Page(Some("Storm Warning"), None, map[], [p2, p10, p20]));
      news.title == "Storm Warning" && news.content == p10 + "\n" + p20
  {
    var page := Page(Some("Storm Warning"), None, map[], [p2, p10, p20]);
    NoContainerUsesDocument(page);
    StormWarningKept(p2, p10, p20);
    TwoParagraphBody(p10, p20);
  }

  /** Without any matching selector the paragraphs of the whole document are used. */
  lemma NoContainerUsesDocument(page: Page)
    requires page.containers == map[]
    ensures ContainerParagraphs(page) == page.documentParagraphs
  {
    assert FirstMatch(CandidateSelectors, page.containers) == |CandidateSelectors|;
  }

  lemma TwoParagraphBody(a: string, b: string)
    requires a != [] && b != [] && !IsSpace(a[0]) && !IsSpace(b[|b| - 1])
    ensures BodyText([a, b]) == a + "\n" + b
  {
    var body := a + "\n" + b;
    assert Join([a, b], "\n") == body by { assert [a, b][..1] == [a]; }
    assert body[0] == a[0] && body[|body| - 1] == b[|b| - 1];
    StripSpec(body);
  }

  lemma StormWarningKept(p2: string, p10: string, p20: string)
    requires |p2| == 2 && |p10| == 10 && |p20| == 20
    ensures KeptParagraphs([p2, p10, p20]) == [p10, p20]
  {
    assert [p2, p10, p20][..2] == [p2, p10] && [p2, p10][..1] == [p2];
    assert KeptParagraphs([p2]) == [];
  }

}
