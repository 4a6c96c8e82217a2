/**
 * generate_rss: the feed-level fields and the entries it adds to the feed, one
 * per complete record, with the thumbnail attached as an enclosure.
 */
module Feed {

  import opened Optional
  import opened Text
  import opened Urls
  import opened Dates
  import opened FilterMaps
  import opened Scraper

  const BaseUrl := "https://dime.jp/genre/"
  const FeedTitle := "DIME 非公式 RSS"
  const FeedDescription := "DIMEの最新記事を自動取得して生成したRSSフィードです。"

  /** An enclosure: URL, length in bytes and MIME type. */
  datatype Enclosure = Enclosure(url: Url, length: int, mimeType: string)

  datatype Entry = Entry(title: string, link: string, pubDate: DateTime, enclosure: Option<Enclosure>)

  /**
   * What generate_rss hands the FeedGenerator: the feed-level fields and the
   * entries in the order generate_rss adds them (not the order rss_file writes).
   */
  datatype RssFeed = RssFeed(title: string, link: string, description: string, entries: seq<Entry>)

  /** all([a.get("title"), a.get("link"), a.get("pubDate")]) */
  predicate Complete(a: Article) {
    a.title != "" && a.link != "" && a.pubDate.Some?
  }

  /** a.get("thumb") is truthy: there is a thumbnail and it is not the empty URL. */
  predicate HasThumb(a: Article) {
    a.thumb.Some? && a.thumb.value != EmptyUrl
  }

  /**
   * The entry a record becomes: none for an incomplete record; otherwise its
   * title, link and date, and an enclosure exactly when it has a thumbnail, with
   * length 0 and the MIME type guess_mime gives for the thumbnail.
   */
  function EntryFor(a: Article): (r: Option<Entry>)
    ensures r.Some? <==> Complete(a)
    ensures r.Some? ==> r.value.title == a.title && r.value.link == a.link && r.value.pubDate == a.pubDate.value
    ensures r.Some? ==> (r.value.enclosure.Some? <==> HasThumb(a))
    ensures r.Some? && r.value.enclosure.Some? ==>
      r.value.enclosure.value == Enclosure(a.thumb.value, 0, GuessMime(a.thumb.value))
  {
    if !Complete(a) then None
    else
      var enclosure := if HasThumb(a) then Some(Enclosure(a.thumb.value, 0, GuessMime(a.thumb.value))) else None;
      Some(Entry(a.title, a.link, a.pubDate.value, enclosure))
  }

  /** The records generate_rss reports as incomplete and skips. */
  function SkipReport(a: Article): (r: Option<Article>)
    ensures r.Some? <==> !Complete(a)
    ensures r.Some? ==> r.value == a
  {
    if Complete(a) then None else Some(a)
  }

  /**
   * generate_rss up to rss_file: the feed-level fields, the entries in the
   * order generate_rss adds them (record order), and the records reported as
   * skipped.
   */
  method GenerateRss(articles: seq<Article>) returns (feed: RssFeed, skipped: seq<Article>)
    ensures feed.title == FeedTitle && feed.link == BaseUrl && feed.description == FeedDescription
    ensures feed.entries == FilterMap(EntryFor, articles)
    ensures skipped == FilterMap(SkipReport, articles)
    ensures |feed.entries| + |skipped| == |articles|
  {
    var entries: seq<Entry> := [];
    skipped := [];
    for i := 0 to |articles|
      invariant entries == FilterMap(EntryFor, articles[..i])
      invariant skipped == FilterMap(SkipReport, articles[..i])
    {
      var a := articles[i];
      assert articles[..i + 1] == articles[..i] + [a];
      FilterMapSnoc(EntryFor, articles[..i], a);
      FilterMapSnoc(SkipReport, articles[..i], a);
      if !(a.title != "" && a.link != "" && a.pubDate.Some?) {
        assert EntryFor(a) == None && SkipReport(a) == Some(a);
        skipped := skipped + [a];
        continue;
      }
      var enclosure: Option<Enclosure> := None;
      if a.thumb.Some? && a.thumb.value != EmptyUrl {
        enclosure := Some(Enclosure(a.thumb.value, 0, GuessMime(a.thumb.value)));
      }
      assert EntryFor(a) == Some(Entry(a.title, a.link, a.pubDate.value, enclosure)) && SkipReport(a) == None;
      entries := entries + [Entry(a.title, a.link, a.pubDate.value, enclosure)];
    }
    assert articles[..|articles|] == articles;
    EntriesAndSkipsCover(articles);
    feed := RssFeed(FeedTitle, BaseUrl, FeedDescription, entries);
  }

  /** Every record is either added to the feed or reported as skipped, never both. */
  lemma {:induction false} EntriesAndSkipsCover(articles: seq<Article>)
    ensures |FilterMap(EntryFor, articles)| + |FilterMap(SkipReport, articles)| == |articles|
    ensures forall i :: 0 <= i < |articles| ==>
      (i in Kept(EntryFor, articles) <==> i !in Kept(SkipReport, articles))
  {
    if articles != [] {
      var init, a := articles[..|articles| - 1], articles[|articles| - 1];
      EntriesAndSkipsCover(init);
      assert init + [a] == articles;
      FilterMapSnoc(EntryFor, init, a);
      FilterMapSnoc(SkipReport, init, a);
    }
    assert forall i :: 0 <= i < |articles| ==>
      (i in Kept(EntryFor, articles) <==> i !in Kept(SkipReport, articles)) by {
      FilterMapKeepsOrder(EntryFor, articles);
      FilterMapKeepsOrder(SkipReport, articles);
    }
  }

  /**
   * For the records fetch_articles builds, the date is never what makes
   * generate_rss skip one: a record becomes an entry exactly when its title and
   * link are non-empty, and every entry's date carries UTC.
   */
  lemma {:induction false} FetchedRecordsLackOnlyText(items: seq<ListItem>, source: string -> Fetched, parseUrl: string -> Url, now: DateTime)
    ensures var articles := FilterMap(Step(source, parseUrl, now), items);
      forall k :: 0 <= k < |articles| ==>
        && (EntryFor(articles[k]).Some? <==> articles[k].title != "" && articles[k].link != "")
        && (EntryFor(articles[k]).Some? ==> EntryFor(articles[k]).value.pubDate.tz == Utc)
  {
    var step := Step(source, parseUrl, now);
    var articles := FilterMap(step, items);
    FilterMapKeepsOrder(step, items);
    forall k | 0 <= k < |articles|
      ensures articles[k].pubDate.Some? && articles[k].pubDate.value.tz == Utc
    {
      var i := Kept(step, items)[k];
      assert ArticleFor(items[i], source, parseUrl, now) == Some(articles[k]);
    }
  }

  /**
   * A listed item whose article page gives a non-empty title: its entry keeps
   * the link and that title, and, when the chosen thumbnail's path is
   * "stem-<W>x<H>.ext", carries the cleaned URL with the extension's MIME type.
   */
  lemma ThumbnailEntry(item: ListItem, thumb: string, stem: string, w: string, h: string, ext: string,
                       source: string -> Fetched, parseUrl: string -> Url, now: DateTime)
    requires item.link.Some? && item.date.Some?
    requires Strip(item.link.value.href.GetOr("")) != ""
    requires TitleAndOgImage(source(Strip(item.link.value.href.GetOr("")))).title != ""
    requires ResolveThumb(item.img, TitleAndOgImage(source(Strip(item.link.value.href.GetOr("")))).ogImage) == Some(thumb)
    requires thumb != ""
    requires Digits(w) && Digits(h) && WordChars(ext)
    requires parseUrl(thumb).path == stem + "-" + w + "x" + h + "." + ext
    ensures ArticleFor(item, source, parseUrl, now).Some?
    ensures var entry := EntryFor(ArticleFor(item, source, parseUrl, now).value);
      && entry.Some? && entry.value.link == Strip(item.link.value.href.GetOr("")) && entry.value.title == TitleAndOgImage(source(Strip(item.link.value.href.GetOr("")))).title
      && entry.value.enclosure
         == Some(Enclosure(parseUrl(thumb).(path := stem + "." + ext), 0, MimeOfExtension(Lower(ext))))
  {
    CleanedThumbnail(parseUrl(thumb), stem, w, h, ext);
    var u := CleanThumbUrl(parseUrl(thumb));
    assert u.path != [];
  }
}
