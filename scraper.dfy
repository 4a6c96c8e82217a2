/**
 * fetch_articles and fetch_article_title_and_ogimage: from the items of the
 * listing page and the article pages they link to, build the article records
 * (title, link, pubDate, thumb) in listing order.
 *
 * The HTML is given as what the CSS selectors find; the network is the
 * function `source`, which gives the outcome of fetching a URL; urlparse is the
 * function `parseUrl`; datetime.utcnow() is the value `now`.
 */
module Scraper {

  import opened Optional
  import opened Text
  import opened Urls
  import opened Dates
  import opened FilterMaps

  /** items[:10]: at most this many list items are looked at. */
  const MaxItems := 10

  /** The title of an article whose page cannot be fetched or has no h1. */
  const NoTitle := "(no title)"

  /** An element found by a selector, as the text nodes it contains, in document order. */
  datatype Element = Element(strings: seq<string>)

  /** a.entryList_item_link, by its href attribute. */
  datatype Anchor = Anchor(href: Option<string>)

  /** The img in div.entryList_item_img, by the attributes that can name the thumbnail. */
  datatype Img = Img(src: Option<string>, dataSrc: Option<string>, srcset: Option<string>)

  /** One li.entryList_item: what its three select_one calls find (None when nothing matches). */
  datatype ListItem = ListItem(link: Option<Anchor>, date: Option<Element>, img: Option<Img>)

  /** meta[property="og:image"], by its content attribute. */
  datatype Meta = Meta(content: Option<string>)

  /** An article page: its first h1 and its first og:image meta tag. */
  datatype ArticlePage = ArticlePage(h1: Option<Element>, ogImage: Option<Meta>)

  /** The outcome of requests.get, raise_for_status and parsing for one URL. */
  datatype Fetched = FetchFailed | Page(page: ArticlePage)

  /** The pair fetch_article_title_and_ogimage returns. */
  datatype ArticleInfo = ArticleInfo(title: string, ogImage: Option<string>)

  /** The record fetch_articles appends: its keys title, link, pubDate and thumb. */
  datatype Article = Article(title: string, link: string, pubDate: Option<DateTime>, thumb: Option<Url>)

  /** Python truthiness of an optional string: present and non-empty. */
  predicate Truthy(s: Option<string>) { s.Some? && s.value != "" }

  predicate Falsy(s: Option<string>) { !Truthy(s) }

  /**
   * fetch_article_title_and_ogimage: a failed fetch degrades to ("(no title)", None);
   * otherwise the title is the stripped text of the first h1 ("(no title)" without one)
   * and the og:image is the stripped content of the meta tag, when that content is non-empty.
   */
  function TitleAndOgImage(f: Fetched): (r: ArticleInfo)
    ensures f.FetchFailed? ==> r == ArticleInfo(NoTitle, None)
    ensures f.Page? && f.page.h1.None? ==> r.title == NoTitle
    ensures f.Page? && f.page.h1.Some? ==> r.title == GetText(f.page.h1.value.strings)
    ensures NoOuterSpace(r.title)
    ensures r.ogImage.Some? <==> f.Page? && f.page.ogImage.Some? && Truthy(f.page.ogImage.value.content)
    ensures r.ogImage.Some? ==>
      NoOuterSpace(r.ogImage.value) && r.ogImage.value == Strip(f.page.ogImage.value.content.value)
  {
    match f
    case FetchFailed => ArticleInfo(NoTitle, None)
    case Page(page) =>
      var title := if page.h1.Some? then GetText(page.h1.value.strings) else NoTitle;
      var og := if page.ogImage.Some? && Truthy(page.ogImage.value.content)
        then Some(Strip(page.ogImage.value.content.value)) else None;
      ArticleInfo(title, og)
  }

  /** An exception fetch_articles does not catch. */
  datatype Raised = IndexError

  /**
   * The list-page thumbnail as written:
   *   img.get("src") or img.get("data-src") or (img.get("srcset", "").split()[0] if img.get("srcset") else None)
   * A srcset made only of white space is truthy but splits into no token, so
   * [0] raises IndexError, which nothing catches.
   */
  function ListThumbAsWritten(img: Img): (r: Result<Option<string>, Raised>)
    ensures r.Failure? <==> Falsy(img.src) && Falsy(img.dataSrc) && Truthy(img.srcset) && AllSpace(img.srcset.value)
  {
    if Truthy(img.src) then Success(img.src)
    else if Truthy(img.dataSrc) then Success(img.dataSrc)
    else if Truthy(img.srcset) then
      match FirstToken(img.srcset.value)
      case Some(token) => Success(Some(token))
      case None => Failure(IndexError)
    else Success(None)
  }

  /** An img with srcset=" " and neither src nor data-src makes fetch_articles raise. */
  lemma BlankSrcsetRaises()
    ensures ListThumbAsWritten(Img(None, None, Some(" "))) == Failure(IndexError)
  {
    assert FirstToken(" ") == None;
  }

  /** The first URL of a srcset attribute; None when it is missing, empty or blank. */
  function SrcsetToken(srcset: Option<string>): (r: Option<string>)
    ensures Truthy(srcset) && !AllSpace(srcset.value) <==> r.Some?
    ensures r.Some? ==> Truthy(r) && r == FirstToken(srcset.value)
  {
    if Truthy(srcset) then FirstToken(srcset.value) else None
  }

  /** The list-page thumbnail, with a blank srcset treated like a missing one. */
  function ListThumb(img: Img): (r: Option<string>)
    ensures r.Some? ==> Truthy(r)
    ensures r.None? <==> Falsy(img.src) && Falsy(img.dataSrc) && SrcsetToken(img.srcset).None?
  {
    if Truthy(img.src) then img.src
    else if Truthy(img.dataSrc) then img.dataSrc
    else SrcsetToken(img.srcset)
  }

  /** ListThumb differs from the code as written only where that raises. */
  lemma ListThumbAgreesWhereNoRaise(img: Img)
    ensures ListThumbAsWritten(img).Success? ==> ListThumb(img) == ListThumbAsWritten(img).value
    ensures ListThumbAsWritten(img).Failure? ==> ListThumb(img) == None
  {
  }

  /**
   * The thumbnail before cleaning: the list-page candidate when there is one,
   * else og:image when it is non-empty, else none.
   */
  function ResolveThumb(img: Option<Img>, og: Option<string>): (r: Option<string>)
    ensures r.Some? ==> Truthy(r)
    ensures img.Some? && ListThumb(img.value).Some? ==> r == ListThumb(img.value)
    ensures (img.None? || ListThumb(img.value).None?) ==> r == (if Truthy(og) then og else None)
  {
    var listThumb := if img.Some? then ListThumb(img.value) else None;
    if Falsy(listThumb) && Truthy(og) then og else listThumb
  }

  /** The first truthy candidate, None when there is none ("a or b or c"). */
  function FirstTruthy(candidates: seq<Option<string>>): (r: Option<string>)
    ensures r.None? <==> forall k :: 0 <= k < |candidates| ==> Falsy(candidates[k])
    ensures r.Some? ==> Truthy(r)
  {
    if candidates == [] then None
    else if Truthy(candidates[0]) then candidates[0]
    else FirstTruthy(candidates[1..])
  }

  /** The thumbnail sources in priority order: src, data-src, srcset's first URL, og:image. */
  function ThumbCandidates(img: Option<Img>, og: Option<string>): seq<Option<string>> {
    (if img.Some? then [img.value.src, img.value.dataSrc, SrcsetToken(img.value.srcset)] else []) + [og]
  }

  /**
   * The thumbnail is the first truthy source in the order src, data-src, the first
   * URL of srcset, og:image: a later source is used only when every earlier one is
   * missing or empty.
   */
  lemma ThumbnailFallbackOrder(img: Option<Img>, og: Option<string>)
    ensures ResolveThumb(img, og) == FirstTruthy(ThumbCandidates(img, og))
  {
    var c := ThumbCandidates(img, og);
    if img.Some? {
      var i := img.value;
      var token := SrcsetToken(i.srcset);
      assert c == [i.src, i.dataSrc, token, og];
      assert c[1..] == [i.dataSrc, token, og];
      assert c[1..][1..] == [token, og];
      assert c[1..][1..][1..] == [og];
      if Truthy(i.src) {
        assert FirstTruthy(c) == i.src;
      } else if Truthy(i.dataSrc) {
        assert FirstTruthy(c) == FirstTruthy(c[1..]) == i.dataSrc;
      } else if Truthy(token) {
        assert FirstTruthy(c) == FirstTruthy(c[1..]) == FirstTruthy(c[1..][1..]) == token;
      } else {
        assert token == None;
        assert FirstTruthy(c) == FirstTruthy(c[1..]) == FirstTruthy(c[1..][1..]) == FirstTruthy([og]);
        assert FirstTruthy([og]) == (if Truthy(og) then og else FirstTruthy([og][1..]));
      }
    } else {
      assert c == [og];
    }
  }

  /**
   * pubDate: strptime(date_str, "%Y.%m.%d") with tzinfo=UTC, or, when that
   * raises, utcnow() with tzinfo=UTC.
   */
  function PublicationDate(dateText: string, now: DateTime): (r: DateTime)
    ensures r.tz == Utc
    ensures ParseDate(dateText).Some? ==> r == ParseDate(dateText).value.(tz := Utc)
    ensures ParseDate(dateText).None? ==> r == now.(tz := Utc)
  {
    match ParseDate(dateText)
    case Some(d) => d.(tz := Utc)
    case None => now.(tz := Utc)
  }

  /** A listed "YYYY.MM.DD" becomes midnight UTC of that day, whatever the clock says. */
  lemma ListedDateIsPublicationDate(y: int, m: int, d: int, now: DateTime)
    requires ValidDate(y, m, d)
    ensures PublicationDate(FormatDate(y, m, d), now) == DateTime(y, m, d, 0, 0, 0, 0, Utc)
  {
    ParseFormattedDate(y, m, d);
  }

  /**
   * One iteration of the loop of fetch_articles: None for an item that is
   * skipped (no link or no date element), otherwise the record it appends.
   */
  function ArticleFor(item: ListItem, source: string -> Fetched, parseUrl: string -> Url, now: DateTime): (r: Option<Article>)
    ensures r.Some? <==> item.link.Some? && item.date.Some?
    ensures r.Some? ==> r.value.link == Strip(item.link.value.href.GetOr(""))
    ensures r.Some? ==> r.value.pubDate.Some? && r.value.pubDate.value.tz == Utc
    ensures r.Some? ==>
      var info := TitleAndOgImage(source(r.value.link));
      var t := FirstTruthy(ThumbCandidates(item.img, info.ogImage));
      && r.value.title == info.title
      && r.value.pubDate == Some(PublicationDate(GetText(item.date.value.strings), now))
      && r.value.thumb == (if t.Some? then Some(CleanThumbUrl(parseUrl(t.value))) else None)
  {
    if item.link.None? || item.date.None? then None
    else
      var link := Strip(item.link.value.href.GetOr(""));
      var info := TitleAndOgImage(source(link));
      var thumb := ResolveThumb(item.img, info.ogImage);
      ThumbnailFallbackOrder(item.img, info.ogImage);
      var pubDate := PublicationDate(GetText(item.date.value.strings), now);
      Some(Article(info.title, link, Some(pubDate),
                   if Truthy(thumb) then Some(CleanThumbUrl(parseUrl(thumb.value))) else None))
  }

  function Step(source: string -> Fetched, parseUrl: string -> Url, now: DateTime): ListItem -> Option<Article> {
    item => ArticleFor(item, source, parseUrl, now)
  }

  /** The number of list items looked at: len(items[:10]). */
  function Capped(n: nat): (r: nat)
    ensures r <= n && r <= MaxItems
    ensures r == n || r == MaxItems
  {
    if n < MaxItems then n else MaxItems
  }

  /**
   * The body of the loop of fetch_articles for one item: skip it when it has no
   * link or no date element; otherwise fetch the article page, choose and clean
   * the thumbnail and parse the date. The result is the record the item
   * contributes, if any, and the article URL requested from `source`, if any.
   */
  method ScrapeItem(item: ListItem, source: string -> Fetched, parseUrl: string -> Url, now: DateTime)
    returns (r: Option<Article>, requested: Option<string>)
    ensures r == Step(source, parseUrl, now)(item)
    ensures requested == (if r.Some? then Some(r.value.link) else None)
  {
    if !(item.link.Some? && item.date.Some?) {
      return None, None;
    }
    var link := Strip(item.link.value.href.GetOr(""));
    requested := Some(link);
    var dateStr := GetText(item.date.value.strings);
    var thumb: Option<string> := None;
    if item.img.Some? {
      thumb := ListThumb(item.img.value);
    }
    var info := TitleAndOgImage(source(link));
    if Falsy(thumb) && Truthy(info.ogImage) {
      thumb := info.ogImage;
    }
    assert thumb == ResolveThumb(item.img, info.ogImage);
    var cleaned: Option<Url> := None;
    if Truthy(thumb) {
      cleaned := Some(CleanThumbUrl(parseUrl(thumb.value)));
    }
    assert cleaned == ArticleFor(item, source, parseUrl, now).value.thumb;
    var pubDate: DateTime;
    match ParseDate(dateStr) {
      case Some(d) => pubDate := d.(tz := Utc);
      case None => pubDate := now.(tz := Utc);
    }
    assert pubDate == PublicationDate(dateStr, now);
    r := Some(Article(info.title, link, Some(pubDate), cleaned));
  }

  /** The links of the records, in order. */
  function Links(articles: seq<Article>): (r: seq<string>)
    ensures |r| == |articles|
    ensures forall k :: 0 <= k < |articles| ==> r[k] == articles[k].link
  {
    if articles == [] then [] else Links(articles[..|articles| - 1]) + [articles[|articles| - 1].link]
  }

  /** Every record has a publication date, in UTC. */
  lemma {:induction false} RecordsAreUtc(items: seq<ListItem>, source: string -> Fetched, parseUrl: string -> Url, now: DateTime)
    ensures var articles := FilterMap(Step(source, parseUrl, now), items);
      forall k :: 0 <= k < |articles| ==> articles[k].pubDate.Some? && articles[k].pubDate.value.tz == Utc
  {
    if items != [] {
      var init := items[..|items| - 1];
      RecordsAreUtc(init, source, parseUrl, now);
      assert init + [items[|items| - 1]] == items;
      FilterMapSnoc(Step(source, parseUrl, now), init, items[|items| - 1]);
    }
  }

  /** One iteration of the loop, for any per-item step: the record, if any, is appended. */
  lemma NextRecord(step: ListItem -> Option<Article>, items: seq<ListItem>, i: nat, articles: seq<Article>, r: Option<Article>)
    requires i < |items| && articles == FilterMap(step, items[..i]) && r == step(items[i])
    ensures FilterMap(step, items[..i + 1]) == (if r.Some? then articles + [r.value] else articles)
    ensures r.Some? ==> Links(articles + [r.value]) == Links(articles) + [r.value.link]
  {
    assert items[..i + 1] == items[..i] + [items[i]];
    FilterMapSnoc(step, items[..i], items[i]);
    if r.Some? {
      assert (articles + [r.value])[..|articles|] == articles;
    }
  }

  /**
   * fetch_articles after the listing page is fetched and parsed. Besides the
   * records it returns `fetched`, the article URLs it requested, in order.
   */
  method FetchArticles(items: seq<ListItem>, source: string -> Fetched, parseUrl: string -> Url, now: DateTime)
    returns (articles: seq<Article>, fetched: seq<string>)
    ensures articles == FilterMap(Step(source, parseUrl, now), items[..Capped(|items|)])
    ensures |articles| <= MaxItems
    ensures fetched == Links(articles)
    ensures forall k :: 0 <= k < |articles| ==> articles[k].pubDate.Some? && articles[k].pubDate.value.tz == Utc
  {
    var step := Step(source, parseUrl, now);
    var n := Capped(|items|);
    articles, fetched := [], [];
    for i := 0 to n
      invariant articles == FilterMap(step, items[..i])
      invariant fetched == Links(articles)
    {
      var r, requested := ScrapeItem(items[i], source, parseUrl, now);
      NextRecord(step, items, i, articles, r);
      if r.None? {
        continue;
      }
      fetched := fetched + [requested.value];
      articles := articles + [r.value];
    }
    assert items[..n] == items[..Capped(|items|)];
    RecordsAreUtc(items[..n], source, parseUrl, now);
  }

  /**
   * The records follow the listing: only the first ten items are looked at, the
   * k-th record comes from the k-th of them that has both a link and a date
   * element, and each such item gives exactly one record.
   */
  lemma {:induction false} RecordsFollowListing(items: seq<ListItem>, source: string -> Fetched, parseUrl: string -> Url, now: DateTime)
    ensures var n := Capped(|items|);
      var articles := FilterMap(Step(source, parseUrl, now), items[..n]);
      var from := Kept(Step(source, parseUrl, now), items[..n]);
      && |from| == |articles|
      && (forall k, l :: 0 <= k < l < |from| ==> from[k] < from[l])
      && (forall k :: 0 <= k < |from| ==>
            && from[k] < n
            && items[from[k]].link.Some? && items[from[k]].date.Some?
            && ArticleFor(items[from[k]], source, parseUrl, now) == Some(articles[k]))
      && (forall i :: 0 <= i < n ==> (items[i].link.Some? && items[i].date.Some? <==> i in from))
  {
    var n := Capped(|items|);
    var step := Step(source, parseUrl, now);
    FilterMapKeepsOrder(step, items[..n]);
    assert forall i :: 0 <= i < n ==> items[..n][i] == items[i];
  }

  /**
   * An article page that cannot be fetched does not cost the record: it keeps
   * its link and date, gets the title "(no title)", and its thumbnail comes from
   * the listing alone.
   */
  lemma FailedFetchDegrades(item: ListItem, source: string -> Fetched, parseUrl: string -> Url, now: DateTime)
    requires item.link.Some? && item.date.Some?
    requires source(Strip(item.link.value.href.GetOr(""))) == FetchFailed
    ensures var listThumb := if item.img.Some? then ListThumb(item.img.value) else None;
      ArticleFor(item, source, parseUrl, now) == Some(Article(
        NoTitle,
        Strip(item.link.value.href.GetOr("")),
        Some(PublicationDate(GetText(item.date.value.strings), now)),
        if Truthy(listThumb) then Some(CleanThumbUrl(parseUrl(listThumb.value))) else None))
  {
  }
}
