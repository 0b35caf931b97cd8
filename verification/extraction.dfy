/** `scrape_article_details`: how one article page becomes a record. The
    browser is replaced by `Page`, the values its queries return; a page that
    failed to load is a `None` page and yields no record. */
module Extraction {

  import opened Wrappers
  import opened Text
  import opened Distinct

  /** The separator before the author suffix of note titles. */
  const TitleBar: char := '｜'

  /** The like button found by `button[aria-label^="スキ"]`. */
  datatype LikeButton = LikeButton(ariaLabel: string, innerText: string)

  /** What the browser reports about an article page. */
  datatype Page = Page(
    title: string,                 // page.title()
    ogTitle: Option<string>,       // content of meta[property="og:title"], when that tag exists
    heading: Option<string>,       // inner text of the first h1, when one exists
    bodies: seq<Option<string>>,   // inner text of each content candidate, in selector order
    time: Option<string>,          // datetime attribute of the first time element
    likeButton: Option<LikeButton>,
    tagTexts: seq<string>,         // inner text of each '.m-tagList__item a'
    paywalled: bool)               // the paywall marker text or element was found

  /** The record kept for one article. */
  datatype Article = Article(
    url: string,
    title: string,
    date: string,
    likes: nat,
    tags: seq<string>,
    isPaid: bool,
    content: string)

  /** The url of every record, in order. */
  function Urls(articles: seq<Article>): (r: seq<string>)
    ensures |r| == |articles| && forall i :: 0 <= i < |r| ==> r[i] == articles[i].url
  {
    seq(|articles|, i requires 0 <= i < |articles| => articles[i].url)
  }

  /** A title cut before its first full-width bar. */
  function TrimTitle(s: string): (r: string)
    ensures r <= s && TitleBar !in r
    ensures |r| < |s| ==> s[|r|] == TitleBar
  {
    PrefixBefore(s, TitleBar)
  }

  /** The title rule: the og:title content cut at the bar; without og:title,
      the stripped h1 text when it is not blank (left uncut); else the page
      title cut at the bar. */
  function Title(p: Page): (r: string)
    ensures p.ogTitle.Some? ==>
              && r <= p.ogTitle.value && TitleBar !in r
              && (|r| < |p.ogTitle.value| ==> p.ogTitle.value[|r|] == TitleBar)
    ensures p.ogTitle.None? && p.heading.Some? && Strip(p.heading.value) != [] ==> r == Strip(p.heading.value)
    ensures p.ogTitle.None? && (p.heading.None? || Strip(p.heading.value) == []) ==>
              && r <= p.title && TitleBar !in r
              && (|r| < |p.title| ==> p.title[|r|] == TitleBar)
  {
    match p.ogTitle
    case Some(t) => TrimTitle(t)
    case None =>
      if p.heading.Some? && Strip(p.heading.value) != [] then Strip(p.heading.value)
      else TrimTitle(p.title)
  }

  /** A title "name｜suffix" becomes "name", from either title source. */
  lemma {:induction false} TitleDropsSuffix(name: string, suffix: string)
    requires TitleBar !in name
    ensures TrimTitle(name + [TitleBar] + suffix) == name
    ensures TrimTitle(name) == name
  {
    PrefixBeforeOfJoin(name, TitleBar, suffix);
    PrefixBeforeFixes(name, TitleBar);
  }

  /** Without og:title, a non-blank h1 is the title as it stands, bar and
      author suffix included; only the og:title and page-title paths cut. */
  lemma HeadingIsNotCut(p: Page, h: string)
    requires p.ogTitle.None? && p.heading == Some(h)
    requires h != [] && !IsSpace(h[0]) && !IsSpace(h[|h| - 1])
    ensures Title(p) == h
    ensures TitleBar in h ==> TitleBar in Title(p)
  {
    StripKeeps(h);
  }

  /** The like count: the first run of digits in the aria-label; failing
      that, the stripped inner text when it is a numeral; else 0. */
  function Likes(button: Option<LikeButton>): (n: nat)
    ensures button.None? ==> n == 0
  {
    match button
    case None => 0
    case Some(b) =>
      match FirstDigitRun(b.ariaLabel)
      case Some(span) => DecimalValue(MatchedDigits(b.ariaLabel, span))
      case None =>
        var t := Strip(b.innerText);
        if IsNumeral(t) then DecimalValue(t) else 0
  }

  /** An aria-label "<words><digits><rest>" yields the value of the digits,
      leading zeros allowed, when the words hold no digit and the rest does
      not start with one. */
  lemma {:induction false} LikesReadsLabel(words: string, digits: string, rest: string, text: string)
    requires forall k :: 0 <= k < |words| ==> !IsDigit(words[k])
    requires IsNumeral(digits)
    requires rest == [] || !IsDigit(rest[0])
    ensures Likes(Some(LikeButton(words + digits + rest, text))) == DecimalValue(digits)
  {
    var d := digits;
    var aria := words + d + rest;
    forall k | 0 <= k < |words| ensures aria[k] == words[k] {
    }
    forall k | |words| <= k < |words| + |d| ensures aria[k] == d[k - |words|] {
    }
    if rest != [] {
      assert aria[|words| + |d|] == rest[0];
    }
    assert IsDigit(aria[|words|]);
    var span := FirstDigitRun(aria).value;
    assert span.start == |words|;
    assert span.end == |words| + |d|;
    assert MatchedDigits(aria, span) == d;
  }

  /** The "スキ 10" button reads as 10 likes. */
  lemma LikesOfSampleLabel()
    ensures Likes(Some(LikeButton("スキ 10", ""))) == 10
  {
    var ten := Decimal(10);
    assert "スキ 10" == "スキ " + ten + "";
    LikesReadsLabel("スキ ", ten, "", "");
    DecimalRoundTrip(10);
  }

  /** Leading zeros are read as `int()` reads them: "スキ 007" is 7 likes. */
  lemma LikesOfPaddedLabel()
    ensures Likes(Some(LikeButton("スキ 007", ""))) == 7
  {
    var digits := "0" + "0" + "7";
    assert "スキ 007" == "スキ " + digits + "";
    LikesReadsLabel("スキ ", digits, "", "");
    var two := digits[..2];
    var one := two[..1];
    assert one[..0] == [] && DecimalValue(one) == 0;
    assert two[..1] == one && DecimalValue(two) == 0;
    assert digits[..2] == two;
  }

  /** With no digit in the aria-label, a numeral inner text (white space around
      it allowed) is the count, and any other inner text gives 0. */
  lemma {:induction false} LikesFallsBackToText(aria: string, text: string)
    requires forall k :: 0 <= k < |aria| ==> !IsDigit(aria[k])
    ensures IsNumeral(Strip(text)) ==> Likes(Some(LikeButton(aria, text))) == DecimalValue(Strip(text))
    ensures !IsNumeral(Strip(text)) ==> Likes(Some(LikeButton(aria, text))) == 0
  {
    assert FirstDigitRun(aria).None?;
  }

  /** One tag link's text as the tag: stripped, then every '#' removed. */
  function CleanTag(text: string): (r: string)
    ensures '#' !in r
    ensures '#' !in Strip(text) ==> r == Strip(text)
  {
    RemoveChar(Strip(text), '#')
  }

  /** The cleaned text of every tag link, in page order. */
  function CleanTags(texts: seq<string>): (r: seq<string>)
    ensures |r| == |texts| && forall k :: 0 <= k < |texts| ==> r[k] == CleanTag(texts[k])
  {
    if texts == [] then [] else [CleanTag(texts[0])] + CleanTags(texts[1..])
  }

  /** Two link texts clean to their two tags. */
  lemma CleanTagsOfPair(a: string, b: string)
    ensures CleanTags([a, b]) == [CleanTag(a), CleanTag(b)]
  {
    assert [a, b][1..] == [b];
    assert [b][1..] == [];
  }

  /** The tag list: each non-empty cleaned text once, at its first
      occurrence. The loop skips a text that is empty or already listed, so
      the empty text behaves as one seen before the first link. */
  function CollectTags(texts: seq<string>): (r: seq<string>)
    ensures NoDup(r)
    ensures forall i :: 0 <= i < |r| ==> r[i] != [] && '#' !in r[i]
    ensures forall t :: t in r <==> t != [] && t in CleanTags(texts)
    ensures forall i, j :: 0 <= i < j < |r| ==> IndexOf(CleanTags(texts), r[i]) < IndexOf(CleanTags(texts), r[j])
  {
    Fresh({[]}, CleanTags(texts))
  }

  /** A tag link repeated gives its tag once. */
  lemma RepeatedTagKeptOnce(text: string)
    requires CleanTag(text) != []
    ensures CollectTags([text, text]) == [CleanTag(text)]
  {
    CleanTagsOfPair(text, text);
    FreshOfPair({[]}, CleanTag(text));
  }

  /** The link text "#name" is the tag "name", for a name without '#' that
      neither starts nor ends with white space. */
  lemma HashRemovedFromTag(name: string)
    requires name != [] && '#' !in name
    requires !IsSpace(name[0]) && !IsSpace(name[|name| - 1])
    ensures CleanTag("#" + name) == name
  {
    var text := "#" + name;
    assert text[|text| - 1] == name[|name| - 1];
    StripKeeps(text);
    RemoveLeading('#', name);
  }

  /** A '#' inside a tag text is removed and the two sides close up:
      "c#sharp" is the tag "csharp". */
  lemma InnerHashRemoved(a: string, b: string)
    requires a != [] && b != [] && '#' !in a && '#' !in b
    requires !IsSpace(a[0]) && !IsSpace(b[|b| - 1])
    ensures CleanTag(a + "#" + b) == a + b
  {
    var text := a + "#" + b;
    assert text[0] == a[0] && text[|text| - 1] == b[|b| - 1];
    StripKeeps(text);
    RemoveCharJoin(a + "#", b, '#');
    RemoveCharJoin(a, "#", '#');
    RemoveCharOfOne('#', '#');
  }

  /** The hash is removed after stripping, so white space behind it stays:
      the link text "# python" is the tag " python". */
  lemma SpaceAfterHashKept(name: string)
    requires name != [] && '#' !in name && !IsSpace(name[|name| - 1])
    ensures CleanTag("#" + " " + name) == " " + name
  {
    var text := "#" + " " + name;
    assert text[0] == '#' && text[|text| - 1] == name[|name| - 1];
    StripKeeps(text);
    RemoveCharJoin("#" + " ", name, '#');
    RemoveCharJoin("#", " ", '#');
    RemoveCharOfOne('#', '#');
    RemoveCharOfOne(' ', '#');
  }

  /** The selector prober: the first candidate that matched. */
  function FirstMatch<T>(candidates: seq<Option<T>>): (r: Option<T>)
    ensures r.None? <==> forall i :: 0 <= i < |candidates| ==> candidates[i].None?
    ensures r.Some? ==> exists i :: 0 <= i < |candidates| && candidates[i] == r
                                    && forall j :: 0 <= j < i ==> candidates[j].None?
  {
    if candidates == [] then None
    else if candidates[0].Some? then candidates[0]
    else
      var r := FirstMatch(candidates[1..]);
      assert forall i :: 1 <= i < |candidates| ==> candidates[i] == candidates[1..][i - 1];
      r
  }

  /** The record of a loaded page. */
  function Scrape(url: string, p: Page): (a: Article)
    ensures a.url == url && a.isPaid == p.paywalled
    ensures a.title == Title(p)
    ensures a.date == p.time.GetOr([])
    ensures a.likes == Likes(p.likeButton)
    ensures a.tags == CollectTags(p.tagTexts)
    ensures NoDup(a.tags) && forall i :: 0 <= i < |a.tags| ==> a.tags[i] != [] && '#' !in a.tags[i]
    ensures FirstMatch(p.bodies).None? ==> a.content == []
    ensures FirstMatch(p.bodies).Some? ==> a.content == FirstMatch(p.bodies).value
  {
    Article(url, Title(p), p.time.GetOr([]), Likes(p.likeButton), CollectTags(p.tagTexts),
            p.paywalled, FirstMatch(p.bodies).GetOr([]))
  }

  /** An extraction whose records carry the url they were extracted from. */
  ghost predicate KeepsUrl(extract: string -> Option<Article>) {
    forall u :: extract(u).Some? ==> extract(u).value.url == u
  }

  /** `scrape_article_details(url)`: the record, or nothing when the page
      did not load. */
  function Details(url: string, load: string -> Option<Page>): (r: Option<Article>)
    ensures r.Some? <==> load(url).Some?
    ensures r.Some? ==> r.value.url == url
    ensures load(url).Some? ==> r == Some(Scrape(url, load(url).value))
  {
    match load(url)
    case None => None
    case Some(p) => Some(Scrape(url, p))
  }

  /** Scraping keeps every record's url. */
  lemma DetailsKeepsUrl(load: string -> Option<Page>)
    ensures KeepsUrl(u => Details(u, load))
  {
  }
}
