/** `get_articles_by_creator`: after the creator's article index has been
    scrolled to its end, every link into the creator's notes is cut to its
    path, collected in a set, and each collected link is scraped. */
module Creator {

  import opened Wrappers
  import opened Text
  import opened Distinct
  import opened Extraction

  /** The start of a link to one of the creator's notes, as the selector
      `a[href^="https://note.com/<creator>/n/"]` requires. */
  function NotePrefix(creator: string): string {
    "https://note.com/" + creator + "/n/"
  }

  /** A link without its query and fragment: cut at the first '?', then at
      the first '#'. The result is the longest prefix of the link holding
      neither character. */
  function NormalizeHref(href: string): (r: string)
    ensures r <= href && '?' !in r && '#' !in r
    ensures |r| < |href| ==> href[|r|] == '?' || href[|r|] == '#'
  {
    PrefixBefore(PrefixBefore(href, '?'), '#')
  }

  /** Normalising a normalised link changes nothing. */
  lemma {:induction false} NormalizeIdempotent(href: string)
    ensures NormalizeHref(NormalizeHref(href)) == NormalizeHref(href)
  {
    var r := NormalizeHref(href);
    PrefixBeforeFixes(r, '?');
    PrefixBeforeFixes(r, '#');
  }

  /** A link the selector `a[href^="https://note.com/<creator>/n/"]` picks. */
  predicate IsNoteLink(creator: string, href: string) {
    NotePrefix(creator) <= href
  }

  /** The set `article_links`: the normalised form of every link that
      starts with the creator's note prefix. */
  function CreatorLinks(creator: string, hrefs: seq<string>): (links: set<string>)
    ensures forall h :: h in hrefs && IsNoteLink(creator, h) ==> NormalizeHref(h) in links
    ensures forall u :: u in links ==> exists h :: h in hrefs && IsNoteLink(creator, h) && NormalizeHref(h) == u
    ensures |links| <= |hrefs|
  {
    if hrefs == [] then {}
    else
      var rest := CreatorLinks(creator, hrefs[1..]);
      assert forall h :: h in hrefs[1..] ==> h in hrefs;
      if IsNoteLink(creator, hrefs[0]) then {NormalizeHref(hrefs[0])} + rest else rest
  }

  /** The note prefix of a creator id without '?' or '#' holds neither. */
  lemma NotePrefixIsBare(creator: string)
    requires '?' !in creator && '#' !in creator
    ensures '?' !in NotePrefix(creator) && '#' !in NotePrefix(creator)
  {
    var p := NotePrefix(creator);
    var a, b := "https://note.com/", "/n/";
    assert p == a + creator + b;
    assert forall x :: x in p ==> x in a || x in creator || x in b;
  }

  /** Every collected link is a bare note link of the creator, provided the
      creator id itself holds neither '?' nor '#'. */
  lemma CollectedLinksAreBare(creator: string, hrefs: seq<string>, u: string)
    requires '?' !in creator && '#' !in creator
    requires u in CreatorLinks(creator, hrefs)
    ensures IsNoteLink(creator, u)
    ensures '?' !in u && '#' !in u
  {
    var h :| h in hrefs && IsNoteLink(creator, h) && NormalizeHref(h) == u;
    var p := NotePrefix(creator);
    NotePrefixIsBare(creator);
    assert p <= h;
    assert forall k :: 0 <= k < |p| ==> h[k] == p[k] && h[k] != '?' && h[k] != '#';
    assert u == h[..|u|];
    assert |u| >= |p|;
    assert p == u[..|p|];
  }

  /** The records of the pages that loaded, in the given order. */
  function ScrapeEach(urls: seq<string>, extract: string -> Option<Article>): (r: seq<Article>)
    requires KeepsUrl(extract)
    ensures |r| <= |urls|
    ensures forall u :: u in Urls(r) <==> u in urls && extract(u).Some?
    ensures forall i :: 0 <= i < |r| ==> r[i].url in urls && extract(r[i].url) == Some(r[i])
  {
    if urls == [] then []
    else
      var rest := ScrapeEach(urls[1..], extract);
      assert urls == [urls[0]] + urls[1..];
      assert forall i :: 0 <= i < |rest| ==> rest[i].url in urls;
      match extract(urls[0])
      case None => rest
      case Some(a) =>
        var r := [a] + rest;
        assert Urls(r) == [urls[0]] + Urls(rest);
        assert forall i :: 0 < i < |r| ==> r[i] == rest[i - 1];
        r
  }

  /** Scraping two runs of links gives the records of the first run, then
      those of the second: records keep the order of their links. */
  lemma {:induction false} ScrapeEachJoin(a: seq<string>, b: seq<string>, extract: string -> Option<Article>)
    requires KeepsUrl(extract)
    ensures ScrapeEach(a + b, extract) == ScrapeEach(a, extract) + ScrapeEach(b, extract)
  {
    if a == [] {
      assert a + b == b;
    } else {
      assert (a + b)[0] == a[0] && (a + b)[1..] == a[1..] + b;
      ScrapeEachJoin(a[1..], b, extract);
    }
  }

  /** One link gives the record extracted for it, or nothing when its page
      did not load. */
  lemma ScrapeEachOfOne(u: string, extract: string -> Option<Article>)
    requires KeepsUrl(extract)
    ensures ScrapeEach([u], extract) == if extract(u).Some? then [extract(u).value] else []
  {
    assert [u][1..] == [];
  }

  /** The records' urls are links of `order`, and the records come in the
      order of the first occurrences of their urls there. */
  predicate FollowsOrder(order: seq<string>, r: seq<Article>) {
    && (forall i :: 0 <= i < |r| ==> r[i].url in order)
    && (forall i, j :: 0 <= i < j < |r| ==> IndexOf(order, r[i].url) < IndexOf(order, r[j].url))
  }

  /** Records that follow the tail of `order`, none of them for its head,
      follow `order` itself. */
  lemma FollowsOrderTail(order: seq<string>, rest: seq<Article>)
    requires order != [] && FollowsOrder(order[1..], rest)
    requires forall i :: 0 <= i < |rest| ==> rest[i].url != order[0]
    ensures FollowsOrder(order, rest)
  {
    forall i | 0 <= i < |rest| ensures IndexOf(order, rest[i].url) == 1 + IndexOf(order[1..], rest[i].url) {
      IndexOfTail(order, rest[i].url);
    }
  }

  /** A record for the head of `order`, put before records that follow the
      tail and none of which is for the head, follows `order`. */
  lemma FollowsOrderHead(order: seq<string>, a: Article, rest: seq<Article>)
    requires order != [] && a.url == order[0] && FollowsOrder(order[1..], rest)
    requires forall i :: 0 <= i < |rest| ==> rest[i].url != order[0]
    ensures FollowsOrder(order, [a] + rest)
  {
    FollowsOrderTail(order, rest);
    var r := [a] + rest;
    forall i, j | 0 <= i < j < |r| ensures IndexOf(order, r[i].url) < IndexOf(order, r[j].url) {
      assert r[j] == rest[j - 1];
      if i > 0 {
        assert r[i] == rest[i - 1];
      }
    }
  }

  /** Over distinct links, the records come in the order of their links. */
  lemma {:induction false} ScrapeEachFollowsOrder(urls: seq<string>, extract: string -> Option<Article>)
    requires KeepsUrl(extract) && NoDup(urls)
    ensures FollowsOrder(urls, ScrapeEach(urls, extract))
  {
    if urls != [] {
      var rest := ScrapeEach(urls[1..], extract);
      assert NoDup(urls[1..]);
      ScrapeEachFollowsOrder(urls[1..], extract);
      assert urls[0] !in urls[1..];
      match extract(urls[0])
      case None =>
        FollowsOrderTail(urls, rest);
      case Some(a) =>
        FollowsOrderHead(urls, a, rest);
    }
  }

  /** Distinct links give records with distinct urls. */
  lemma {:induction false} ScrapeEachKeepsDistinct(urls: seq<string>, extract: string -> Option<Article>)
    requires KeepsUrl(extract) && NoDup(urls)
    ensures NoDup(Urls(ScrapeEach(urls, extract)))
  {
    if urls != [] {
      var rest := ScrapeEach(urls[1..], extract);
      assert NoDup(urls[1..]);
      ScrapeEachKeepsDistinct(urls[1..], extract);
      if extract(urls[0]).Some? {
        var r := ScrapeEach(urls, extract);
        assert Urls(r) == [urls[0]] + Urls(rest);
        assert urls[0] !in urls[1..];
        NoDupJoin([urls[0]], Urls(rest));
      }
    }
  }

  /** `get_articles_by_creator`: one record per collected link whose page
      loaded, each link once. Python iterates the set in an order of its own;
      `order` is that enumeration of the set. */
  function ArticlesByCreator(creator: string, hrefs: seq<string>, order: seq<string>,
                             extract: string -> Option<Article>): (r: seq<Article>)
    requires KeepsUrl(extract)
    requires NoDup(order) && Elems(order) == CreatorLinks(creator, hrefs)
    ensures forall u :: u in Urls(r) <==> u in CreatorLinks(creator, hrefs) && extract(u).Some?
    ensures forall i :: 0 <= i < |r| ==> extract(r[i].url) == Some(r[i])
    ensures NoDup(Urls(r))
    ensures FollowsOrder(order, r)
  {
    ScrapeEachKeepsDistinct(order, extract);
    ScrapeEachFollowsOrder(order, extract);
    ScrapeEach(order, extract)
  }
}
