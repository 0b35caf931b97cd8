/** `get_articles_by_tag`: walking the newest-first hashtag feed. Each pass of
    the loop reads the feed links now in the page, extracts every link not
    seen before, and either stops for good at the first article older than
    the since-date or scrolls once and goes on while the page grows.

    The browser is replaced by a finite list of passes, each holding the
    links the two list selectors return at that moment and the heights read
    around the scroll step that follows; `extract` stands for
    `scrape_article_details`. */
module TagFeed {

  import opened Wrappers
  import opened Text
  import opened Distinct
  import opened Dates
  import opened Extraction
  import opened Scroll

  const Origin: string := "https://note.com"

  /** A root-relative link made absolute on the note origin. */
  function Absolutize(href: string): (r: string)
    ensures "/" <= href ==> r == Origin + href
    ensures !("/" <= href) ==> r == href
    ensures !("/" <= r)
  {
    if "/" <= href then
      assert (Origin + href)[0] == Origin[0] == 'h';
      Origin + href
    else href
  }

  /** An absolute link stays as it is, so absolutising twice is
      absolutising once. */
  lemma AbsolutizeIdempotent(href: string)
    ensures Absolutize(Absolutize(href)) == Absolutize(href)
  {
  }

  /** One pass of the loop: the hrefs of `.m-largeNoteWrapper__link`, those of
      `.o-noteItem__link`, and the heights around the scroll step after it. */
  datatype Pass = Pass(primary: seq<Option<string>>, fallback: seq<Option<string>>, scroll: Reading)

  /** The elements the pass works on: the first selector's, unless it found
      none. */
  function Listed(p: Pass): seq<Option<string>> {
    if p.primary != [] then p.primary else p.fallback
  }

  /** The absolute form of every present, non-empty href, in page order. */
  function Candidates(hrefs: seq<Option<string>>): (r: seq<string>)
    ensures forall i :: 0 <= i < |hrefs| && hrefs[i].Some? && hrefs[i].value != [] ==>
              Absolutize(hrefs[i].value) in r
    ensures forall u :: u in r ==> exists h :: Some(h) in hrefs && h != [] && Absolutize(h) == u
  {
    if hrefs == [] then []
    else
      var rest := Candidates(hrefs[1..]);
      assert forall i :: 1 <= i < |hrefs| ==> hrefs[i] == hrefs[1..][i - 1];
      assert forall h :: Some(h) in hrefs[1..] ==> Some(h) in hrefs;
      match hrefs[0]
      case Some(h) => if h != [] then [Absolutize(h)] + rest else rest
      case None => rest
  }

  /** The candidates of two runs of elements are those of the first run,
      then those of the second: page order and repetitions are kept. */
  lemma {:induction false} CandidatesJoin(a: seq<Option<string>>, b: seq<Option<string>>)
    ensures Candidates(a + b) == Candidates(a) + Candidates(b)
  {
    if a == [] {
      assert a + b == b;
    } else {
      assert (a + b)[0] == a[0] && (a + b)[1..] == a[1..] + b;
      CandidatesJoin(a[1..], b);
    }
  }

  /** One element gives its absolute href when it has a non-empty one, and
      nothing otherwise. */
  lemma CandidatesOfOne(h: Option<string>)
    ensures Candidates([h]) == if h.Some? && h.value != [] then [Absolutize(h.value)] else []
  {
    assert [h][1..] == [];
  }

  /** `batch_urls`: the listed links not processed before, each once, in page
      order. After the pass `processed_urls` holds exactly the old set and
      the batch, which is the old set and every listed link. */
  function NewLinks(hrefs: seq<Option<string>>, processed: set<string>): (batch: seq<string>)
    ensures NoDup(batch)
    ensures forall i :: 0 <= i < |batch| ==> batch[i] !in processed
    ensures processed + Elems(batch) == processed + Elems(Candidates(hrefs))
    ensures forall i, j :: 0 <= i < j < |batch| ==>
              IndexOf(Candidates(hrefs), batch[i]) < IndexOf(Candidates(hrefs), batch[j])
  {
    Fresh(processed, Candidates(hrefs))
  }

  /** `since_date` parsed once: absent, empty or malformed means no date
      filter. */
  function ParseSince(since: Option<string>): (r: Option<Date>)
    ensures r.Some? ==> since.Some? && ParseDate(since.value) == r
    ensures since.Some? && since.value != [] && ParseDate(since.value).Some? ==> r.Some?
  {
    match since
    case None => None
    case Some(s) => if s == [] then None else ParseDate(s)
  }

  /** The terminal date test: a since-date is set, the article has a date,
      the part before 'T' parses, and that day is before the since-date. */
  predicate PastCutoff(a: Article, since: Option<Date>) {
    && since.Some?
    && a.date != []
    && ParseDate(DatePart(a.date)).Some?
    && Precedes(ParseDate(DatePart(a.date)).value, since.value)
  }

  /** An article is past a since-date exactly when the part of its date
      before 'T' writes, in the `%Y-%m-%d` pattern, a real day earlier than
      the since-date. */
  lemma PastCutoffReadsDate(a: Article, since: Date)
    ensures PastCutoff(a, Some(since)) <==>
              exists d, k :: Valid(d) && WrittenAs(DatePart(a.date), d, k) && Precedes(d, since)
  {
    var day := DatePart(a.date);
    if exists d, k :: Valid(d) && WrittenAs(day, d, k) && Precedes(d, since) {
      var d, k :| Valid(d) && WrittenAs(day, d, k) && Precedes(d, since);
      ParseDateReads(day, d, k);
      assert a.date != [] by {
        assert |day| > 0 && day <= a.date;
      }
    }
  }

  /** The terminal date test as a function of the article, for the
      per-article loop. */
  function Past(since: Option<Date>): (past: Article -> bool)
    ensures forall a :: past(a) == PastCutoff(a, since)
  {
    a => PastCutoff(a, since)
  }

  /** The outcome of running the per-article loop over some urls. */
  datatype Screened = Screened(accepted: seq<Article>, stopped: bool)

  /** The loop over one batch: skip failed extractions, stop at the first
      article past the cutoff (`past`), skip articles with too few likes,
      keep the rest in order. */
  function Screen(urls: seq<string>, extract: string -> Option<Article>, past: Article -> bool,
                  minLikes: int): (r: Screened)
    ensures |r.accepted| <= |urls|
    ensures forall i :: 0 <= i < |r.accepted| ==> r.accepted[i].likes >= minLikes && !past(r.accepted[i])
  {
    if urls == [] then Screened([], false)
    else
      var rest := Screen(urls[1..], extract, past, minLikes);
      match extract(urls[0])
      case None => rest
      case Some(a) =>
        if past(a) then Screened([], true)
        else if a.likes < minLikes then rest
        else
          var kept := [a] + rest.accepted;
          assert forall i :: 1 <= i < |kept| ==> kept[i] == rest.accepted[i - 1];
          Screened(kept, rest.stopped)
  }

  /** The urls after which the walk ends. */
  predicate Stops(u: string, extract: string -> Option<Article>, past: Article -> bool) {
    extract(u).Some? && past(extract(u).value)
  }

  /** The position of the first url that ends the walk, or `|urls|`. */
  function CutoffIndex(urls: seq<string>, extract: string -> Option<Article>, past: Article -> bool): (k: nat)
    ensures k <= |urls|
    ensures forall i :: 0 <= i < k ==> !Stops(urls[i], extract, past)
    ensures k < |urls| ==> Stops(urls[k], extract, past)
  {
    if urls == [] then 0
    else if Stops(urls[0], extract, past) then 0
    else
      var k := CutoffIndex(urls[1..], extract, past);
      assert forall i :: 1 <= i < |urls| ==> urls[i] == urls[1..][i - 1];
      1 + k
  }

  /** The reference filter: the records that were extracted and have at
      least `minLikes` likes, in order. */
  function Kept(urls: seq<string>, extract: string -> Option<Article>, minLikes: int): seq<Article> {
    if urls == [] then []
    else
      var rest := Kept(urls[1..], extract, minLikes);
      match extract(urls[0])
      case None => rest
      case Some(a) => if a.likes < minLikes then rest else [a] + rest
  }

  /** The per-article loop keeps exactly the extracted records with enough
      likes that come before the first article past the cutoff, and stops
      exactly when there is such an article. */
  lemma {:induction false} ScreenIsKeptBeforeCutoff(urls: seq<string>, extract: string -> Option<Article>,
                                                    past: Article -> bool, minLikes: int)
    ensures var k := CutoffIndex(urls, extract, past);
            Screen(urls, extract, past, minLikes) == Screened(Kept(urls[..k], extract, minLikes), k < |urls|)
  {
    if urls != [] {
      ScreenIsKeptBeforeCutoff(urls[1..], extract, past, minLikes);
      var k := CutoffIndex(urls, extract, past);
      if !Stops(urls[0], extract, past) {
        assert urls[..k][1..] == urls[1..][..k - 1];
      }
    }
  }

  /** Running the loop over `a + b` is running it over `a` and, unless that
      stopped, over `b` after it. */
  lemma {:induction false} ScreenJoin(a: seq<string>, b: seq<string>, extract: string -> Option<Article>,
                                      past: Article -> bool, minLikes: int)
    ensures var ra := Screen(a, extract, past, minLikes);
            var rb := Screen(b, extract, past, minLikes);
            Screen(a + b, extract, past, minLikes)
              == if ra.stopped then ra else Screened(ra.accepted + rb.accepted, rb.stopped)
  {
    if a == [] {
      assert a + b == b;
    } else {
      assert (a + b)[0] == a[0] && (a + b)[1..] == a[1..] + b;
      ScreenJoin(a[1..], b, extract, past, minLikes);
    }
  }

  /** Every link the walk extracts, in order, ignoring the date cutoff: each
      pass contributes its batch, and the walk goes on to the next pass only
      when the scroll step after this one grew the page. */
  function Feed(passes: seq<Pass>, processed: set<string>): (r: seq<string>)
    ensures NoDup(r)
    ensures forall i :: 0 <= i < |r| ==> r[i] !in processed
    decreases |passes|
  {
    if passes == [] then []
    else
      var batch := NewLinks(Listed(passes[0]), processed);
      if !Grew(passes[0].scroll) then batch
      else
        var rest := Feed(passes[1..], processed + Elems(batch));
        NoDupJoin(batch, rest);
        batch + rest
  }

  /** The `while not stop_scraping` loop: one pass per element of `passes`
      until the cutoff is met, the page stops growing, or the passes run
      out. */
  function Walk(passes: seq<Pass>, processed: set<string>, extract: string -> Option<Article>,
                since: Option<Date>, minLikes: int): (r: seq<Article>)
    ensures forall i :: 0 <= i < |r| ==> r[i].likes >= minLikes && !PastCutoff(r[i], since)
    decreases |passes|
  {
    if passes == [] then []
    else
      var batch := NewLinks(Listed(passes[0]), processed);
      var o := Screen(batch, extract, Past(since), minLikes);
      if o.stopped || !Grew(passes[0].scroll) then o.accepted
      else
        var rest := Walk(passes[1..], processed + Elems(batch), extract, since, minLikes);
        var r := o.accepted + rest;
        assert forall i :: |o.accepted| <= i < |r| ==> r[i] == rest[i - |o.accepted|];
        r
  }

  /** The walk is the per-article loop run over the whole feed: passes only
      cut the feed into batches. */
  lemma {:induction false} WalkScreensFeed(passes: seq<Pass>, processed: set<string>,
                                           extract: string -> Option<Article>, since: Option<Date>, minLikes: int)
    ensures Walk(passes, processed, extract, since, minLikes)
            == Screen(Feed(passes, processed), extract, Past(since), minLikes).accepted
  {
    if passes != [] {
      var batch := NewLinks(Listed(passes[0]), processed);
      var rest := Feed(passes[1..], processed + Elems(batch));
      if Grew(passes[0].scroll) {
        ScreenJoin(batch, rest, extract, Past(since), minLikes);
        WalkScreensFeed(passes[1..], processed + Elems(batch), extract, since, minLikes);
      }
    }
  }

  /** What the tag walk returns: the extracted records with at least
      `minLikes` likes, in feed order, up to the first article dated before
      the since-date. */
  lemma WalkAccepts(passes: seq<Pass>, processed: set<string>, extract: string -> Option<Article>,
                    since: Option<Date>, minLikes: int)
    ensures var feed := Feed(passes, processed);
            Walk(passes, processed, extract, since, minLikes)
              == Kept(feed[..CutoffIndex(feed, extract, Past(since))], extract, minLikes)
  {
    WalkScreensFeed(passes, processed, extract, since, minLikes);
    ScreenIsKeptBeforeCutoff(Feed(passes, processed), extract, Past(since), minLikes);
  }

  /** The records `Kept` returns come from the given urls. */
  lemma {:induction false} KeptUrls(urls: seq<string>, extract: string -> Option<Article>, minLikes: int)
    requires KeepsUrl(extract)
    ensures forall u :: u in Urls(Kept(urls, extract, minLikes)) ==> u in urls
  {
    if urls != [] {
      KeptUrls(urls[1..], extract, minLikes);
      var rest := Kept(urls[1..], extract, minLikes);
      if extract(urls[0]).Some? && extract(urls[0]).value.likes >= minLikes {
        assert Urls([extract(urls[0]).value] + rest) == [urls[0]] + Urls(rest);
      }
    }
  }

  /** The first article past the cutoff is not kept, and neither is any
      article after it in the feed. */
  lemma NothingKeptFromCutoffOn(passes: seq<Pass>, processed: set<string>,
                                extract: string -> Option<Article>, since: Option<Date>, minLikes: int)
    requires KeepsUrl(extract)
    ensures var feed := Feed(passes, processed);
            var k := CutoffIndex(feed, extract, Past(since));
            forall j :: k <= j < |feed| ==> feed[j] !in Urls(Walk(passes, processed, extract, since, minLikes))
  {
    var feed := Feed(passes, processed);
    var k := CutoffIndex(feed, extract, Past(since));
    WalkAccepts(passes, processed, extract, since, minLikes);
    KeptUrls(feed[..k], extract, minLikes);
    forall j | k <= j < |feed| ensures feed[j] !in feed[..k] {
    }
  }

  /** With no usable since-date nothing ends the walk early: it keeps every
      extracted record of the feed with enough likes. */
  lemma WithoutSinceNothingStops(passes: seq<Pass>, processed: set<string>,
                                 extract: string -> Option<Article>, minLikes: int)
    ensures var feed := Feed(passes, processed);
            Walk(passes, processed, extract, None, minLikes) == Kept(feed, extract, minLikes)
  {
    var feed := Feed(passes, processed);
    WalkAccepts(passes, processed, extract, None, minLikes);
    assert feed[..|feed|] == feed;
  }

  /** An empty or unparseable article date never ends the walk. */
  lemma UndatedNeverStops(a: Article, since: Option<Date>)
    requires a.date == [] || ParseDate(DatePart(a.date)).None?
    ensures !PastCutoff(a, since)
  {
  }

  /** A record with too few likes is passed over and the loop goes on with
      the next url as if the skipped one had not been there. */
  lemma LowLikesSkipped(u: string, rest: seq<string>, extract: string -> Option<Article>,
                        past: Article -> bool, minLikes: int)
    requires extract(u).Some? && extract(u).value.likes < minLikes
    requires !past(extract(u).value)
    ensures Screen([u] + rest, extract, past, minLikes) == Screen(rest, extract, past, minLikes)
  {
    assert ([u] + rest)[1..] == rest;
  }

  /** Every record counts when all pages load and no filter applies. */
  lemma {:induction false} KeptAll(urls: seq<string>, extract: string -> Option<Article>, minLikes: int)
    requires minLikes <= 0
    requires forall i :: 0 <= i < |urls| ==> extract(urls[i]).Some?
    ensures |Kept(urls, extract, minLikes)| == |urls|
    ensures forall i :: 0 <= i < |urls| ==> Kept(urls, extract, minLikes)[i] == extract(urls[i]).value
  {
    if urls != [] {
      assert forall i :: 1 <= i < |urls| ==> urls[1..][i - 1] == urls[i];
      KeptAll(urls[1..], extract, minLikes);
    }
  }

  /** With no since-date, no likes threshold and every page loading, the walk
      returns one record per distinct feed link: seven distinct links and a
      page that does not grow give seven records. */
  lemma EveryFeedLinkRecorded(passes: seq<Pass>, extract: string -> Option<Article>, minLikes: int)
    requires minLikes <= 0
    requires forall u :: extract(u).Some?
    ensures |Walk(passes, {}, extract, None, minLikes)| == |Feed(passes, {})|
  {
    WithoutSinceNothingStops(passes, {}, extract, minLikes);
    KeptAll(Feed(passes, {}), extract, minLikes);
  }

  /** One pass whose page does not grow, listing distinct links: with no
      since-date, no likes threshold and every page loading, the tag walk
      returns one record per listed link, in page order. */
  lemma OnePassRecordsEachLink(p: Pass, extract: string -> Option<Article>, minLikes: int)
    requires !Grew(p.scroll) && NoDup(Candidates(Listed(p)))
    requires minLikes <= 0
    requires forall u :: extract(u).Some?
    ensures var links := Candidates(Listed(p));
            var r := ArticlesByTag(None, minLikes, [p], extract);
            |r| == |links| && forall i :: 0 <= i < |r| ==> r[i] == extract(links[i]).value
  {
    var links := Candidates(Listed(p));
    FreshOfDistinct({}, links);
    assert Feed([p], {}) == links;
    WithoutSinceNothingStops([p], {}, extract, minLikes);
    KeptAll(links, extract, minLikes);
  }

  /** The walk reads no pass after the first one whose scroll step did not
      grow the page. */
  lemma {:induction false} FeedEndsAtFirstStall(passes: seq<Pass>, processed: set<string>, k: nat)
    requires k < |passes| && !Grew(passes[k].scroll)
    requires forall i :: 0 <= i < k ==> Grew(passes[i].scroll)
    ensures Feed(passes, processed) == Feed(passes[..k + 1], processed)
  {
    if k > 0 {
      var batch := NewLinks(Listed(passes[0]), processed);
      assert passes[..k + 1][1..] == passes[1..][..k];
      assert forall i :: 0 <= i < k - 1 ==> passes[1..][i] == passes[i + 1];
      FeedEndsAtFirstStall(passes[1..], processed + Elems(batch), k - 1);
    }
  }

  /** Once a scroll step leaves the page height where it was (or lower), no
      later pass contributes a record. */
  lemma WalkEndsAtFirstStall(passes: seq<Pass>, processed: set<string>, k: nat,
                             extract: string -> Option<Article>, since: Option<Date>, minLikes: int)
    requires k < |passes| && !Grew(passes[k].scroll)
    requires forall i :: 0 <= i < k ==> Grew(passes[i].scroll)
    ensures Walk(passes, processed, extract, since, minLikes)
            == Walk(passes[..k + 1], processed, extract, since, minLikes)
  {
    WalkScreensFeed(passes, processed, extract, since, minLikes);
    WalkScreensFeed(passes[..k + 1], processed, extract, since, minLikes);
    FeedEndsAtFirstStall(passes, processed, k);
  }

  /** `get_articles_by_tag(tag, since_date, min_likes)` over the observed
      passes, starting with nothing processed. */
  function ArticlesByTag(since: Option<string>, minLikes: int, passes: seq<Pass>,
                         extract: string -> Option<Article>): (r: seq<Article>)
    ensures forall i :: 0 <= i < |r| ==> r[i].likes >= minLikes
    ensures forall i :: 0 <= i < |r| ==> !PastCutoff(r[i], ParseSince(since))
  {
    Walk(passes, {}, extract, ParseSince(since), minLikes)
  }

  /** The since-date "2024-01-01" is the first of January 2024. */
  lemma SinceDateExample()
    ensures ParseSince(Some("2024-01-01")) == Some(Date(2024, 1, 1))
  {
    DecimalValueOfFour("2024");
    assert "2024-01-01"[..4] == "2024";
  }

  /** With the since-date 2024-01-01, an article stamped 2023-12-31, at any
      time of day, ends the walk. */
  lemma OlderArticleStops(a: Article, time: string)
    requires a.date == "2023-12-31" + "T" + time
    ensures PastCutoff(a, Some(Date(2024, 1, 1)))
  {
    var day := "2023-12-31";
    assert Format(Date(2023, 12, 31)) == day;
    ParseFormat(Date(2023, 12, 31));
    assert 'T' !in day;
    PrefixBeforeOfJoin(day, 'T', time);
  }

  /** With the since-date 2024-01-01, an article dated 2024-06-01 does not
      end the walk. */
  lemma NewerArticleContinues(a: Article)
    requires a.date == "2024-06-01"
    ensures !PastCutoff(a, Some(Date(2024, 1, 1)))
  {
    var day := "2024-06-01";
    assert 'T' !in day;
    PrefixBeforeFixes(day, 'T');
    assert DatePart(a.date) == day;
    FirstOfJune2024();
    assert !Precedes(Date(2024, 6, 1), Date(2024, 1, 1));
  }

  /** "2024-06-01" is the first of June 2024. */
  lemma FirstOfJune2024()
    ensures ParseDate("2024-06-01") == Some(Date(2024, 6, 1))
  {
    ParseFormat(Date(2024, 6, 1));
    assert Format(Date(2024, 6, 1)) == "2024-06-01";
  }
}
