/** The article locator and extractor (`getFirstArticleUrl` and
    `getArticleContent`, main.py lines 17-52). The HTTP exchange is an input:
    its status code and the page the HTML parser would produce from its body.
    Each page is reduced to the lookups the code makes, each of which may find
    nothing. */
module Crawler {
  import opened Results

  /** An HTTP response: its status code and its parsed page. */
  datatype Response<P> = Response(status: int, page: P)

  /** The first `<a>` in the first `<li>`, with its `href` attribute if it has one. */
  datatype Anchor = Anchor(href: Option<string>)
  /** The first `<li>` of the article list, with its first `<a>`. */
  datatype ListItem = ListItem(anchor: Option<Anchor>)
  /** The `ul.newspaper_article_lst` list, with its first `<li>`. */
  datatype ArticleList = ArticleList(firstItem: Option<ListItem>)
  /** The `div.newspaper_brick_item._start_page` block, with its article list. */
  datatype Brick = Brick(articleList: Option<ArticleList>)
  /** The front-page listing, with its first brick block. */
  datatype FrontPage = FrontPage(brick: Option<Brick>)

  /** An article page: the text of the title block `div.media_end_head_title`
      and of the body block `div#newsct_article`, each if present. */
  datatype ArticlePage = ArticlePage(titleText: Option<string>, bodyText: Option<string>)

  datatype ArticleContent = ArticleContent(title: string, body: string)

  /** The exceptions the two steps raise. */
  datatype CrawlError =
    | ListRequestFailed(status: int)
    | LinkNotFound
    | ArticleRequestFailed(status: int)

  const NoTitle: string := "❌ 제목 없음"
  const NoBody: string := "❌ 본문 없음"

  /** Every node from the brick block down to the link's `href` is present. */
  predicate LinkChainComplete(page: FrontPage)
  {
    && page.brick.Some?
    && page.brick.value.articleList.Some?
    && page.brick.value.articleList.value.firstItem.Some?
    && page.brick.value.articleList.value.firstItem.value.anchor.Some?
    && page.brick.value.articleList.value.firstItem.value.anchor.value.href.Some?
  }

  /** The URL of the first article on the front page. Each lookup is made
      only when the previous one found its node; a missing node anywhere in
      the chain ends in one `LinkNotFound` failure. */
  function GetFirstArticleUrl(resp: Response<FrontPage>): (r: Result<string, CrawlError>)
    ensures resp.status != 200 ==> r == Err(ListRequestFailed(resp.status))
    ensures resp.status == 200 && !LinkChainComplete(resp.page) ==> r == Err(LinkNotFound)
    ensures r.Ok? <==> resp.status == 200 && LinkChainComplete(resp.page)
    ensures r.Ok? ==>
      r.value == resp.page.brick.value.articleList.value.firstItem.value.anchor.value.href.value
  {
    if resp.status != 200 then Err(ListRequestFailed(resp.status))
    else
      var brickDiv := resp.page.brick;
      var ul := if brickDiv.Some? then brickDiv.value.articleList else None;
      var firstLi := if ul.Some? then ul.value.firstItem else None;
      var linkTag := if firstLi.Some? then firstLi.value.anchor else None;
      if !(linkTag.Some? && linkTag.value.href.Some?) then Err(LinkNotFound)
      else Ok(linkTag.value.href.value)
  }

  /** The title and body of an article. Missing markup never fails: a fixed
      placeholder stands in for a missing title or body. */
  function GetArticleContent(resp: Response<ArticlePage>): (r: Result<ArticleContent, CrawlError>)
    ensures r.Err? <==> resp.status != 200
    ensures r.Err? ==> r.error == ArticleRequestFailed(resp.status)
    ensures r.Ok? && resp.page.titleText.None? ==> r.value.title == NoTitle
    ensures r.Ok? && resp.page.titleText.Some? ==> r.value.title == resp.page.titleText.value
    ensures r.Ok? && resp.page.bodyText.None? ==> r.value.body == NoBody
    ensures r.Ok? && resp.page.bodyText.Some? ==> r.value.body == resp.page.bodyText.value
  {
    if resp.status != 200 then Err(ArticleRequestFailed(resp.status))
    else
      var title := if resp.page.titleText.Some? then resp.page.titleText.value else NoTitle;
      var body := if resp.page.bodyText.Some? then resp.page.bodyText.value else NoBody;
      Ok(ArticleContent(title, body))
  }
}
