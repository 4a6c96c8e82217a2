# dime-rss: the extraction and normalisation pipeline of generate_rss.py

dime-rss builds an unofficial RSS feed for the DIME listing page. This project
models the part of `generate_rss.py` that turns the listing page into article
records and the records into feed entries:

- `guess_mime` labels a thumbnail URL with an image MIME type by its path ending.
- `clean_thumb_url` removes the `-<width>x<height>` size token in front of the
  file extension, in the path only.
- `fetch_article_title_and_ogimage` reads an article page's first `h1` and its
  `og:image` meta tag. A failed fetch degrades to `("(no title)", None)`.
- The loop of `fetch_articles` looks at the first ten list items and skips those
  without a link or a date. For the others it resolves the thumbnail through the
  chain `src` → `data-src` → first `srcset` URL → `og:image`, then cleans it. It
  parses the date as `%Y.%m.%d` in UTC, falling back to the current time. It
  appends one record per kept item, in listing order.
- The loop of `generate_rss` skips incomplete records and adds one entry per
  complete record, with an enclosure when the record has a thumbnail.

Modules:

- `Optional`: `Option` and `Result`.
- `Text`: Python's `str.strip`, `str.split()[0]`, `str.lower`, `str.endswith`
  and BeautifulSoup's `get_text(strip=True)`.
- `Urls`: `guess_mime`, `clean_thumb_url` and the regular expression
  `-(\d+)x(\d+)(?=\.\w+$)`, modelled as an explicit backward scan.
- `Dates`: `datetime.strptime(s, "%Y.%m.%d")`, following CPython's `_strptime`
  patterns (`%Y` is four digits, `%m` and `%d` take one or two digits, and
  leftover text is an error), then datetime validation.
- `FilterMaps`: the "walk in order, skip some, append the rest" shape shared by
  both loops, and the lemmas that it keeps order.
- `Scraper`: `fetch_article_title_and_ogimage` and `fetch_articles`.
- `Feed`: `generate_rss` up to the point where the feed is written.

Everything outside the process becomes a parameter:

- the network is a function `source` from a URL to the outcome of fetching it;
- `urllib.parse.urlparse` is a function `parseUrl` to a six-field `Url` record;
- `datetime.utcnow()` is a value `now`.

The listing page is given as what the CSS selectors find in each `li`.

Two places where the model follows less obvious behaviour of the code:

- A blank `og:image` content attribute passes the code's truthiness test before
  it is stripped. `TitleAndOgImage` therefore returns `Some("")`, which the
  thumbnail chain then treats as missing, just as the code does.
- A `srcset` made only of white space is not skipped: the code raises. See
  "Findings" below.

## Model

| member | source | states |
|---|---|---|
| Text.Strip | generate_rss.py:85 | the stripped link has no white space at either end |
| Text.StripRemovesOuterSpace | generate_rss.py:85 | strip removes only white space, and only at the ends: the result is a slice of the input with nothing but white space on either side |
| Text.StripIdempotent | generate_rss.py:85 | stripping an already stripped link changes nothing |
| Text.FirstToken | generate_rss.py:94 | `split()[0]` is absent exactly when the string is all white space; otherwise it is the first maximal run of non-space characters after the leading white space |
| Text.GetText | generate_rss.py:86 | `get_text(strip=True)` has no white space at either end |
| Urls.MimeOfPath | generate_rss.py:20-28 | a lower-cased path is labelled png, gif or webp exactly when it has that ending, and image/jpeg exactly when it has none of them |
| Urls.GuessMime | generate_rss.py:18-28 | the same classification applied to the lower-cased path of the URL |
| Urls.MimeOfPathByExtension | generate_rss.py:20-28 | a path `stem.ext` is labelled by the entry for `ext` in the extension table, and image/jpeg for an unknown extension |
| Urls.GuessMimeByExtension | generate_rss.py:18-28 | guess_mime labels `stem.ext` by its lower-cased extension, so the label is case-insensitive in the extension |
| Urls.GuessMimeIgnoresCase | generate_rss.py:19 | upper-casing the path does not change the label |
| Urls.GuessMimeWithoutExtension | generate_rss.py:28 | a path without any dot is labelled image/jpeg |
| Urls.ExtensionStart | generate_rss.py:41 | finds the dot that starts the lookahead's final `.\w+`; it is the only position where the lookahead holds |
| Urls.DigitsThen | generate_rss.py:41 | one backward step of the scan: a found position holds the expected character and is followed only by one or more digits |
| Urls.DigitsThenFinds | generate_rss.py:41 | a character followed by nothing but digits is found by the step |
| Urls.FindSizeToken | generate_rss.py:41 | whatever the scan returns is a match of `-(\d+)x(\d+)(?=\.\w+$)` |
| Urls.FindSizeTokenComplete | generate_rss.py:41 | every match of the pattern is the one the scan returns |
| Urls.AtMostOneMatch | generate_rss.py:41 | the pattern matches a path at most once, so `re.sub` removes one token or none |
| Urls.CleanPath | generate_rss.py:41 | `re.sub` deletes the match when there is one, and leaves the path unchanged when there is none |
| Urls.CleanThumbUrl | generate_rss.py:37-42 | an empty URL is returned as it is; scheme, host, params, query and fragment are preserved; the path is rewritten exactly as `re.sub` rewrites it |
| Urls.SizeSuffixMatches | generate_rss.py:41 | in `stem-<W>x<H>.ext` the pattern matches `-<W>x<H>` |
| Urls.CleanStripsSizeSuffix | generate_rss.py:33-34 | `stem-<W>x<H>.ext` becomes `stem.ext` |
| Urls.CleanedThumbnail | generate_rss.py:31-42 | a thumbnail URL with path `stem-<W>x<H>.ext` is cleaned to `stem.ext` with the other components unchanged, and is labelled by its extension |
| Urls.CleanPathNotIdempotent | generate_rss.py:41 | one call removes only the last size token: `stem-a-b.ext` becomes `stem-a.ext`, and a second call changes it again |
| Dates.ParseDate | generate_rss.py:106 | a parsed date is a valid calendar date at naive midnight |
| Dates.ParseFormattedDate | generate_rss.py:106 | every valid date written as `YYYY.MM.DD` parses back to that date |
| Dates.ParseRejectsTrailingText | generate_rss.py:106 | a `YYYY.MM.DD` followed by any further text fails to parse |
| FilterMaps.FilterMapKeepsOrder | generate_rss.py:77-117 | the k-th output comes from the k-th kept input, kept positions increase, and a position is kept exactly when it is not skipped |
| Scraper.TitleAndOgImage | generate_rss.py:50-62 | a failed fetch gives `("(no title)", None)`; otherwise the title is the text of the first h1 or "(no title)", and og:image is present exactly when the meta tag has a non-empty content, which is then stripped |
| Scraper.ListThumbAsWritten | generate_rss.py:91-95 | the list thumbnail as written raises exactly when src and data-src are empty or missing and srcset is non-empty but blank |
| Scraper.BlankSrcsetRaises | generate_rss.py:94 | `srcset=" "` with no src and no data-src raises IndexError |
| Scraper.SrcsetToken | generate_rss.py:94 | the first srcset URL is present exactly when srcset is non-empty and not blank, and it is then `split()[0]` |
| Scraper.ListThumb | generate_rss.py:91-95 | the corrected list thumbnail never raises; it is absent exactly when all three sources are missing, empty or blank |
| Scraper.ListThumbAgreesWhereNoRaise | generate_rss.py:91-95 | the corrected thumbnail equals the one as written wherever that does not raise |
| Scraper.FirstTruthy | generate_rss.py:91-95 | `a or b or c` is absent exactly when every candidate is falsy |
| Scraper.ResolveThumb | generate_rss.py:89-99 | the thumbnail before cleaning is the list candidate when there is one, else og:image when it is non-empty, else absent; a present thumbnail is never empty (its fallback order is stated by Scraper.ThumbnailFallbackOrder) |
| Scraper.ThumbnailFallbackOrder | generate_rss.py:89-99 | the thumbnail is the first truthy of src, data-src, the first srcset URL and og:image, in that order |
| Scraper.PublicationDate | generate_rss.py:105-108 | pubDate is UTC: the parsed date when the text parses, else the supplied current time |
| Scraper.ListedDateIsPublicationDate | generate_rss.py:105-108 | a listed `YYYY.MM.DD` becomes midnight UTC of that day, whatever the clock says |
| Scraper.ArticleFor | generate_rss.py:78-117 | an item yields a record exactly when it has both a link and a date; the record's link is the stripped href; its title is the one fetched from that link; its pubDate is the listed date parsed (or the clock), in UTC; its thumbnail is the first truthy of src, data-src, the first srcset URL and og:image, cleaned, and absent when there is none |
| Scraper.ScrapeItem | generate_rss.py:78-117 | the loop body computes exactly the record `ArticleFor` specifies, and requests an article page exactly for the items that give a record, at that record's link |
| Scraper.Capped | generate_rss.py:77 | `items[:10]` keeps min(n, 10) items |
| Scraper.Links | generate_rss.py:85 | the links of the records, one per record, in the same order |
| Scraper.RecordsAreUtc | generate_rss.py:105-108 | every record has a publication date in UTC |
| Scraper.FetchArticles | generate_rss.py:74-119 | the records are those of the first ten items in listing order, at most ten; the article URLs passed to the fetch, one per record, are the records' links, in order; every pubDate is UTC |
| Scraper.RecordsFollowListing | generate_rss.py:77-83 | only the first ten items are looked at; the k-th record comes from the k-th of them with a link and a date, and each such item gives exactly one record |
| Scraper.FailedFetchDegrades | generate_rss.py:97-102 | an article page that cannot be fetched leaves the record in place with "(no title)", its link and date, and a thumbnail from the listing alone |
| Feed.Complete | generate_rss.py:130 | `all([title, link, pubDate])`: title and link non-empty and pubDate present (its use is stated by Feed.EntryFor and Feed.SkipReport) |
| Feed.HasThumb | generate_rss.py:140 | `a.get("thumb")` is truthy: a thumbnail is present and is not the empty URL (its use is stated by Feed.EntryFor) |
| Feed.SkipReport | generate_rss.py:130-132 | a record is reported as skipped exactly when it is not complete, and the report is the record itself |
| Feed.EntryFor | generate_rss.py:130-141 | a record becomes an entry exactly when title, link and pubDate are present; it keeps them; it has an enclosure exactly when the thumbnail is truthy, with length 0 and the MIME type `guess_mime` gives |
| Feed.GenerateRss | generate_rss.py:122-141 | feed title, link and description are the fixed values; the entries are in the order generate_rss adds them, which is record order; the skipped records are reported in order; entries and skips together account for every record |
| Feed.EntriesAndSkipsCover | generate_rss.py:128-132 | every record is either added or skipped, never both: entries and skips together number the records, and each position is kept by exactly one of the two |
| Feed.FetchedRecordsLackOnlyText | generate_rss.py:130 | for records from fetch_articles, an entry is made exactly when title and link are non-empty, and every entry's date is UTC |
| Feed.ThumbnailEntry | generate_rss.py:140-141 | a listed item whose article page gives a non-empty title and whose thumbnail is `stem-<W>x<H>.ext` gets an entry with its link and that title, and an enclosure with the cleaned URL `stem.ext` and the extension's MIME type |

## Left out

- HTTP (`requests.get`, headers, timeout, `raise_for_status`) is not modelled. Its outcome for a URL is the parameter `source`.
- A failed listing-page fetch is not modelled. It is fatal and uncaught in the code, and nothing of the pipeline runs after it.
- HTML parsing and the CSS selectors are not modelled. An item is given as what its `select_one` calls find. `get_text` is given as the element's text nodes in document order.
- `urllib.parse.urlparse` and `urlunparse` are not modelled; `parseUrl` stands in for `urlparse`. A record's thumbnail is held as the cleaned `Url` rather than the string `urlunparse` rebuilds. `guess_mime` is applied to that `Url`, which assumes that `urlparse(urlunparse(u))` gives back `u`.
- Feed.HasThumb: a cleaned thumbnail counts as truthy when it is not the empty URL. This stands in for "the rebuilt string is non-empty".
- `datetime.utcnow()` is not modelled; it is the parameter `now`. Times are not compared with the clock.
- Unicode `\d`, `\w` and `str.lower()` are modelled on ASCII only.
- Regex `$` also matching before a final newline is not modelled; `urlparse` removes newlines from URLs.
- FeedGenerator's serialisation, `os.makedirs`, writing `rss/dime.xml`, the progress `print` calls and the `__main__` block are not modelled.
- Scraper.FetchArticles uses the corrected list thumbnail `Scraper.ListThumb` rather than the raising expression. See Findings.
- The order in which the written feed lists its entries is not modelled. FeedGenerator's `add_entry` puts each new entry first by default, so `rss_file` may write them in reverse; `Feed.RssFeed.entries` holds them in the order generate_rss adds them.

## Findings

| source | as written | input that shows it | evidently intended | confidence | as-written member | corrected member |
|---|---|---|---|---|---|---|
| generate_rss.py:94 | `img_tag.get("srcset", "").split()[0] if img_tag.get("srcset") else None` guards only against an empty srcset | an `img` with no `src`, no `data-src` and `srcset=" "`: the attribute is truthy, `split()` returns `[]`, and `[0]` raises an `IndexError` that nothing in `fetch_articles` catches, so the whole run aborts | a blank srcset counts as no candidate, so the chain moves on to og:image | not executed | Scraper.ListThumbAsWritten (counterexample: Scraper.BlankSrcsetRaises) | Scraper.ListThumb (with Scraper.ListThumbAgreesWhereNoRaise and Scraper.ThumbnailFallbackOrder) |
