# note.com article scraper — a Dafny model of its rules

`NoteScraper` drives a browser over note.com. It collects article records in
one of two ways: from a creator's article index, or from a hashtag feed sorted
newest first. In the hashtag feed, a since-date ends the walk and a minimum
like count filters records. This project models the small pure rules inside
that scraper and proves what they guarantee. Values the browser would report
replace the browser itself: attribute strings, lists of link texts and hrefs,
the extraction outcome of each url, and the page heights read around scrolls.

Modules, one per concern of `src/note_scraper.py`:

- `Wrappers`: `Option`, for every value a page may lack.
- `Text`: Python's `str.strip()`, `split(c)[0]`, `replace(c, '')`,
  `isdigit()` and `int()`, plus the `re.search(r'\d+', …)` match.
- `Distinct`: the insertion-ordered, duplicate-free list. The scraper builds
  one for an article's tags and one for each pass's batch of new feed links.
- `Dates`: `datetime.strptime(s, "%Y-%m-%d")`, written out as the pattern
  Python compiles for that format. It accepts one-digit months and days and a
  space-padded day, requires the match to cover the whole string, and
  requires a real calendar day. The module also orders the resulting days.
- `Extraction`: `scrape_article_details`. A `Page` holds what the browser
  reports, and `Scrape` turns it into an `Article`. It covers the title rule,
  the like count, the tag list, the content selector chain and the record.
- `Scroll`: `_auto_scroll` as a loop over a sequence of height readings, and
  the growth test of `_auto_scroll_step`.
- `Creator`: `get_articles_by_creator`. It normalises links, collects them in
  a set and scrapes each one.
- `TagFeed`: `get_articles_by_tag`. It parses the since-date, builds each
  pass's link batch, and runs the per-article loop, which skips failed
  extractions, stops at the date cutoff and skips records with too few likes.
  The walk goes on from pass to pass while the page grows. The main theorem
  (`WalkAccepts`) characterises the walk's output against an independent
  reference: the extracted records with enough likes, in feed order, up to
  the first article older than the since-date. The per-article loop takes
  the terminal date test as a parameter, and the walk passes it the
  since-date comparison (`Past(since)`).

Three details of the code that the model keeps as written:

- Tags are stripped first, and then every `#` is removed, wherever it stands.
  So the link text `"# python"` gives the tag `" python"`, with its leading
  space.
- Without an og:title, the h1 text is only stripped. It is not cut at `｜`.
  Only the og:title path and the page-title path cut the title.
- A `time` element without a `datetime` attribute stores Python `None` as the
  date. The model stores the empty string. Both are falsy, so both skip the
  date test.

## Model

| member | source | states |
|---|---|---|
| Text.Strip | src/note_scraper.py:54-55 | the stripped text is a slice of the input: only white space lies outside it, and it neither starts nor ends with white space |
| Text.StripIdempotent | src/note_scraper.py:95-96 | stripping an already stripped text changes nothing |
| Text.PrefixBefore | src/note_scraper.py:49-50 | `split(c)[0]` is the longest prefix without `c`: a prefix of the input, free of `c`, and followed by `c` whenever it is shorter than the input |
| Text.PrefixBeforeOfJoin | src/note_scraper.py:223 | in `a + c + b`, the text before the first `c` is `a` when `a` holds no `c` |
| Text.RemoveChar | src/note_scraper.py:107 | `replace('#', '')` leaves no `#`, keeps every other character that occurs, and changes nothing when there is no `#` |
| Text.RemoveCharJoin | src/note_scraper.py:107 | removing a character from a concatenation removes it from each part and keeps the parts in order, so the kept characters keep their order |
| Text.RemoveCharOfOne | src/note_scraper.py:107 | a one-character text loses its character exactly when it is the removed one; with `RemoveCharJoin`, the result is the input with every removed character deleted |
| Text.FirstDigitRun | src/note_scraper.py:90-91 | the regex `\d+` finds nothing exactly when there is no digit; otherwise it finds the leftmost run of digits, extended as far as the digits go |
| Text.DecimalRoundTrip | src/note_scraper.py:92 | `int()` applied to the decimal numeral of `n` gives back `n` |
| Distinct.Fresh | src/note_scraper.py:106-109 | the list built by appending each item that is neither excluded nor listed already: it has no duplicates, holds exactly the non-excluded items, and keeps their first-occurrence order |
| Distinct.FreshOfDistinct | src/note_scraper.py:202-204 | a duplicate-free list none of whose items is excluded comes through whole and in its own order |
| Distinct.NoDupJoin | src/note_scraper.py:202-204 | two duplicate-free lists with nothing in common join into a duplicate-free list |
| Dates.ParseDate | src/note_scraper.py:224 | any date `strptime` accepts is a real calendar day, and the string writes exactly that day: four year digits, `-`, the month as two digits or one, `-`, the day as two digits, one digit or a space and a digit, and nothing after |
| Dates.ParseDateReads | src/note_scraper.py:224 | conversely, a string that writes a real calendar day in that pattern parses to that day |
| Dates.ParseFormat | src/note_scraper.py:185 | every valid day written as `YYYY-MM-DD` parses back to that same day |
| Dates.OneDigitFieldsAccepted | src/note_scraper.py:224 | `2024-1-5` is accepted as 5 January 2024: the format takes one-digit months and days |
| Dates.LeapDayRefusedInCommonYear | src/note_scraper.py:224 | `2023-02-29` is refused: a day that does not exist is a parse failure |
| Dates.LeapDayAcceptedInLeapYear | src/note_scraper.py:224 | `2024-02-29` is accepted as 29 February 2024 |
| Dates.PrecedesIsStrictTotal | src/note_scraper.py:225 | the `<` on the parsed midnights is a strict total order on days |
| Dates.DatePart | src/note_scraper.py:223 | `split('T')[0]` is the longest prefix of the stamp without `T`: a prefix, free of `T`, followed by `T` whenever it is shorter than the stamp |
| Extraction.TrimTitle | src/note_scraper.py:49-50 | the trimmed title is the text before the first `｜`: a prefix with no `｜`, which is the whole title when it has none |
| Extraction.Title | src/note_scraper.py:42-57 | an og:title gives its content up to the first `｜` (all of it when there is none); otherwise a non-blank h1 gives its stripped text; otherwise the page title gives itself up to its first `｜` |
| Extraction.TitleDropsSuffix | src/note_scraper.py:56-57 | `name｜suffix` is trimmed to `name`, and a title without a bar is kept whole |
| Extraction.HeadingIsNotCut | src/note_scraper.py:52-55 | the h1 fallback keeps a `｜` and its author suffix |
| Extraction.Likes | src/note_scraper.py:81-85 | a page without a like button has 0 likes |
| Extraction.LikesReadsLabel | src/note_scraper.py:86-92 | an aria-label of digit-free words, then a run of digits, then a non-digit gives the value of those digits as `int()` reads them (leading zeros allowed), whatever the inner text |
| Extraction.LikesOfSampleLabel | src/note_scraper.py:87-92 | the label `スキ 10` gives 10 likes |
| Extraction.LikesOfPaddedLabel | src/note_scraper.py:87-92 | the label `スキ 007` gives 7 likes |
| Extraction.LikesFallsBackToText | src/note_scraper.py:93-97 | with no digit in the label, a numeral inner text (space around it allowed) is the count; any other inner text gives 0 |
| Extraction.CleanTag | src/note_scraper.py:107 | a cleaned tag text holds no `#`; it equals the stripped text when that text had no `#` |
| Extraction.InnerHashRemoved | src/note_scraper.py:107 | a `#` inside a tag text is removed and the two sides are joined, so `c#sharp` gives `csharp` |
| Extraction.SpaceAfterHashKept | src/note_scraper.py:107 | the `#` is removed after stripping, so `# python` gives the tag ` python` with its leading space |
| Extraction.CollectTags | src/note_scraper.py:102-109 | the tag list has no duplicates, no empty entry and no `#`; its entries are exactly the non-empty cleaned link texts, in order of first occurrence |
| Extraction.RepeatedTagKeptOnce | src/note_scraper.py:108-109 | a tag link that occurs twice gives one tag |
| Extraction.HashRemovedFromTag | src/note_scraper.py:107 | the link text `#name` is the tag `name`, for a name with no `#` and no surrounding space (so `#python` is `python`) |
| Extraction.FirstMatch | src/note_scraper.py:64-66 | the content prober returns nothing exactly when no candidate matched; otherwise it returns the first candidate that matched |
| Extraction.Scrape | src/note_scraper.py:123-131 | the record carries its url, the paywall flag, the title rule's title, the like count and the tag list; its date is the `datetime` attribute or empty; its content is the first matching content element's text, or empty when none matched |
| Extraction.Details | src/note_scraper.py:123-137 | a record exists exactly when the page loaded; it carries the url it was scraped from, and it is the record `Scrape` assembles from the loaded page, so the title, likes, tag and content rules apply to it |
| Extraction.DetailsKeepsUrl | src/note_scraper.py:123-124 | every record scraping yields carries the url it was scraped from |
| Scroll.AutoScroll | src/note_scraper.py:18-31 | at most 100 scrolls. The loop ends at the first height equal to the previous reading (-1 before the first), or else after the 100th scroll. With non-negative heights it scrolls at least twice |
| Scroll.Grew | src/note_scraper.py:252 | a scroll step grew the page exactly when the height after it is greater than the height before |
| Creator.NormalizeHref | src/note_scraper.py:157-158 | the normalised link is the longest prefix of the href holding neither `?` nor `#` |
| Creator.NormalizeIdempotent | src/note_scraper.py:157-158 | normalising twice is normalising once |
| Creator.IsNoteLink | src/note_scraper.py:154 | the selector `a[href^="https://note.com/<creator>/n/"]` picks the links that start with the creator's note prefix |
| Creator.CreatorLinks | src/note_scraper.py:150-159 | the set holds the normalised form of every href with the creator's note prefix, and nothing else; it is no larger than the list of hrefs |
| Creator.CollectedLinksAreBare | src/note_scraper.py:154-158 | when the creator id holds neither `?` nor `#`, every collected link starts with the creator's note prefix and holds neither `?` nor `#` |
| Creator.ScrapeEach | src/note_scraper.py:163-167 | the records are exactly those for the links whose extraction succeeded, and each record is the one extraction returned for its url |
| Creator.ScrapeEachJoin | src/note_scraper.py:163-167 | scraping two runs of links gives the records of the first run, then those of the second |
| Creator.ScrapeEachOfOne | src/note_scraper.py:164-167 | one link gives the record extracted for it, or nothing when its page did not load |
| Creator.ScrapeEachFollowsOrder | src/note_scraper.py:163-167 | over distinct links, the records come in the order of their links |
| Creator.ScrapeEachKeepsDistinct | src/note_scraper.py:164-167 | distinct links give records with distinct urls |
| Creator.ArticlesByCreator | src/note_scraper.py:139-169 | for any iteration order of the link set, there is one record per collected link whose page loaded, no url twice; each record is the one extracted for its url, and the records follow the iteration order |
| TagFeed.Absolutize | src/note_scraper.py:199-200 | an href starting with `/` becomes `https://note.com` + href; any other href is kept; the result never starts with `/` |
| TagFeed.AbsolutizeIdempotent | src/note_scraper.py:199-200 | absolutising twice is absolutising once |
| TagFeed.Listed | src/note_scraper.py:191-193 | the links of a pass are those of the first selector, or of the second when the first finds none |
| TagFeed.Candidates | src/note_scraper.py:196-200 | every present, non-empty href is listed in absolute form, and nothing else is |
| TagFeed.CandidatesJoin | src/note_scraper.py:196-200 | listing two runs of hrefs gives the list of the first run, then that of the second: page order and repetitions are kept |
| TagFeed.CandidatesOfOne | src/note_scraper.py:197-200 | one href gives its absolute form when present and non-empty, and nothing otherwise |
| TagFeed.NewLinks | src/note_scraper.py:195-204 | the batch has no duplicates and no processed url. `processed_urls` grows by exactly the batch, and after the pass it covers every listed link. The batch keeps page order |
| TagFeed.ParseSince | src/note_scraper.py:182-187 | a filter date exists only for a non-empty since string that parses, and then it is that string's date |
| TagFeed.Screen | src/note_scraper.py:214-236 | every kept record has at least `min_likes` likes and fails the terminal date test; there are no more records than urls |
| TagFeed.PastCutoff | src/note_scraper.py:220-228 | the terminal date test: a since-date is set, the article has a date, its part before `T` parses, and that day is earlier than the since-date |
| TagFeed.PastCutoffReadsDate | src/note_scraper.py:220-228 | an article is past the since-date exactly when the part of its date before `T` writes, in the `%Y-%m-%d` pattern, a real day earlier than the since-date |
| TagFeed.CutoffIndex | src/note_scraper.py:219-228 | the index of the first url whose record is past the cutoff, or the length when there is none |
| TagFeed.ScreenIsKeptBeforeCutoff | src/note_scraper.py:214-236 | the per-article loop keeps exactly the extracted records with enough likes that come before the cutoff, in order. It stops exactly when some article is past the cutoff |
| TagFeed.ScreenJoin | src/note_scraper.py:214-240 | running the loop over two batches in a row equals running it over their concatenation, because a stop in the first batch ends everything |
| TagFeed.Feed | src/note_scraper.py:189-210 | the links the walk extracts, across all passes, are duplicate-free and disjoint from the urls processed before |
| TagFeed.Walk | src/note_scraper.py:189-245 | every record the walk returns has at least `min_likes` likes and is not older than the since-date |
| TagFeed.WalkScreensFeed | src/note_scraper.py:189-245 | the walk equals the per-article loop run over the whole feed in encounter order; passes only cut the feed into batches |
| TagFeed.WalkAccepts | src/note_scraper.py:214-236 | the walk returns exactly the extracted records with at least `min_likes` likes that come before the first article older than the since-date, in feed order |
| TagFeed.KeptUrls | src/note_scraper.py:236 | every kept record's url is one of the urls screened |
| TagFeed.NothingKeptFromCutoffOn | src/note_scraper.py:225-228 | no record is kept for the first article past the cutoff, nor for any later article in the feed |
| TagFeed.WithoutSinceNothingStops | src/note_scraper.py:182-187 | with no usable since-date, the walk keeps every extracted record of the feed that has enough likes |
| TagFeed.UndatedNeverStops | src/note_scraper.py:220-230 | an empty or unparseable article date never ends the walk |
| TagFeed.LowLikesSkipped | src/note_scraper.py:233-234 | a record below `min_likes` is dropped, and the loop goes on as if its url had not been there |
| TagFeed.KeptAll | src/note_scraper.py:232-236 | with `min_likes <= 0` and every extraction succeeding, every url gives a record: the one extracted for it, in the order of the urls |
| TagFeed.EveryFeedLinkRecorded | src/note_scraper.py:171-245 | with no since-date, no positive likes threshold and every page loading, there is one record per distinct feed link |
| TagFeed.OnePassRecordsEachLink | src/note_scraper.py:171-245 | one pass listing distinct links, with a page that does not grow, no since-date, no positive likes threshold and every page loading, gives one record per listed link, in page order: seven links give seven records |
| TagFeed.FeedEndsAtFirstStall | src/note_scraper.py:242-252 | no pass after the first scroll step without growth (`curr > prev` false) contributes a link |
| TagFeed.WalkEndsAtFirstStall | src/note_scraper.py:206-209 | no pass after the first scroll step without growth contributes a record |
| TagFeed.ArticlesByTag | src/note_scraper.py:171-245 | every record returned meets the likes threshold and is not older than the parsed since-date |
| TagFeed.SinceDateExample | src/note_scraper.py:183-185 | the since string `2024-01-01` is 1 January 2024 |
| TagFeed.OlderArticleStops | src/note_scraper.py:219-228 | with since 2024-01-01, an article stamped `2023-12-31T…` ends the walk |
| TagFeed.NewerArticleContinues | src/note_scraper.py:219-228 | with since 2024-01-01, an article dated `2024-06-01` does not end the walk |

## Left out

- Browser plumbing is not modelled: Playwright start-up and shutdown, tabs,
  navigation, `wait_for_load_state`, the two-second sleeps and
  `wait_for_timeout`, and the console messages. Every value a browser query
  returns is an input (`Page`, `Pass`, height readings, `extract`).
- Paywall detection is not modelled. The check for the `購入して` marker in
  the page HTML, or a `.p-paywall` element, depends only on opaque HTML, so
  its outcome is the input `Page.paywalled`.
- `main` is not modelled: argument parsing, the choice between creator and
  tag, the timestamped file name and the JSON dump. All of it is I/O and
  library glue. The debug scripts `src/debug_selectors.py` and
  `src/debug_tag_list.py` only print selector probes.
- Bare `except` clauses are modelled only as "the field keeps its default".
  The og:title content is taken to be a present string. In the source, a
  missing `content` attribute makes the title `None`, and the tag walk's
  `title[:20]` log line would then raise.
- Python's `\d`, `str.isdigit()` and `int()` also accept non-ASCII digits
  (for example full-width ones). The model's digits are ASCII only, and this
  includes the digits of `strptime`'s year, month and day.
- A missing `datetime` attribute is stored as `""`, not as `None` (see
  above).
- Python iterates a set in an order of its own. `ArticlesByCreator` takes
  that order as the parameter `order`, which may be any enumeration of the
  link set.
- The tag walk reads a finite list of passes. In the source the feed could
  keep growing for ever; in the model, running out of passes ends the walk.
- Scroll.AutoScroll: takes the page's answers as a list of at least 100
  height readings, one per scroll it might do, because the page always
  answers. Its result is the number of scrolls and how the loop ended.
- Extraction.Likes: its own contract only covers the case with no button. The
  rule for a button is stated by `LikesReadsLabel` (any run of digits in the
  label) and `LikesFallsBackToText` (a label without digits), with the
  examples `LikesOfSampleLabel` and `LikesOfPaddedLabel`.
- TagFeed.Screen: its own contract gives bounds and filters only. The exact
  content of its result is stated by `ScreenIsKeptBeforeCutoff`.
