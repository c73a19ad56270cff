/**
 * The API route `handler`: the order in which it rejects a request, fails,
 * or answers with the scraped product and its download links. The browser,
 * the clock, the file system and the image fetches are inputs: the rendered
 * page, the ISO timestamp, whether each stage threw, and whether each image
 * was fetched and written.
 */
module Handler {
  import opened Wrappers
  import opened Dom
  import opened Extractor
  import opened Artifacts

  /** The JavaScript values a request field or an error message can hold, as far as truthiness tells them apart. */
  datatype JsValue = Undefined | Null | Bool(b: bool) | Number(n: int) | Str(s: string) | Composite

  /** JavaScript truthiness: `undefined`, `null`, `false`, `0` and `""` are falsy; every object is truthy. */
  predicate Truthy(v: JsValue) {
    match v
    case Undefined => false
    case Null => false
    case Bool(b) => b
    case Number(n) => n != 0
    case Str(s) => s != ""
    case Composite => true
  }

  /** The HTTP method and the `url` property of the parsed body (`Undefined` when absent). */
  datatype Request = Request(httpMethod: string, url: JsValue)

  /** What a thrown error carries into the `catch` block: its `message` property. */
  datatype Thrown = Thrown(message: JsValue)

  /**
   * Everything outside the route's own logic: whether creating the downloads
   * root throws, the page the browser renders for the URL, whether any later
   * awaited step (connecting, navigating, the screenshot, the folder, the
   * screenshot, HTML and JSON writes, closing) throws, the ISO timestamp of
   * the run, and per image index whether its fetch and write succeeded
   * (an index past the end of `imageOk` counts as a failure).
   */
  datatype Environment = Environment(
    rootFailure: Option<Thrown>,
    page: seq<Element>,
    scrapeFailure: Option<Thrown>,
    timestamp: string,
    imageOk: seq<bool>)

  /** The object written to `product-data.json` and spread into the response: the extracted fields plus `downloadedImages`. */
  datatype ProductData = ProductData(info: ProductInfo, downloadedImages: Option<seq<string>>)

  /** The JSON body: `{ success: false, message }`, `{ success: false, error }` or `{ success: true, data }`. */
  datatype Body =
    | Rejected(message: string)
    | Errored(error: JsValue)
    | Scraped(data: ProductData, downloads: Downloads)

  datatype Response = Response(status: int, body: Body)

  const MethodNotAllowed := "Method not allowed. Please use POST."
  const UrlRequired := "URL is required in the request body"
  const DefaultError := "An error occurred while scraping the product"

  /** `success` in the JSON body. */
  predicate Success(r: Response) {
    r.body.Scraped?
  }

  /** Whether image `i` was fetched and written. */
  function ImageOutcomes(env: Environment, n: nat): (ok: seq<bool>)
    ensures |ok| == n
    ensures forall i :: 0 <= i < n ==> (ok[i] <==> i < |env.imageOk| && env.imageOk[i])
  {
    seq(n, i requires 0 <= i < n => i < |env.imageOk| && env.imageOk[i])
  }

  /** `error.message || 'An error occurred while scraping the product'`. */
  function ErrorText(t: Thrown): (e: JsValue)
    ensures Truthy(e)
    ensures Truthy(t.message) ==> e == t.message
    ensures !Truthy(t.message) ==> e == Str(DefaultError)
  {
    if Truthy(t.message) then t.message else Str(DefaultError)
  }

  /** The successful run: extract, name the folder, compact the image outcomes, build the links. */
  function Scrape(env: Environment): Response {
    var info := Extracted(env.page);
    var folder := FolderName(env.timestamp);
    var ok := ImageOutcomes(env, |info.images|);
    Response(200, Scraped(ProductData(info, DownloadedImages(folder, info.images, ok)), DownloadLinks(folder)))
  }

  /** The whole route, in the order its checks and awaited steps run. */
  function Handle(req: Request, env: Environment): Response {
    if req.httpMethod != "POST" then Response(405, Rejected(MethodNotAllowed))
    else if env.rootFailure.Some? then Response(500, Errored(ErrorText(env.rootFailure.value)))
    else if !Truthy(req.url) then Response(400, Rejected(UrlRequired))
    else if env.scrapeFailure.Some? then Response(500, Errored(ErrorText(env.scrapeFailure.value)))
    else Scrape(env)
  }

  /**
   * The status tells the four outcomes apart: 405 exactly for a method other
   * than POST; 400 exactly for a POST with a falsy `url` once the downloads
   * root exists; 500 exactly when a stage that runs throws; 200 otherwise;
   * and `success` is true exactly for 200.
   */
  lemma HandleStatus(req: Request, env: Environment)
    ensures var r := Handle(req, env);
      && r.status in {200, 400, 405, 500}
      && (r.status == 405 <==> req.httpMethod != "POST")
      && (r.status == 400 <==> req.httpMethod == "POST" && env.rootFailure.None? && !Truthy(req.url))
      && (r.status == 500 <==>
            (req.httpMethod == "POST" && (env.rootFailure.Some? || (Truthy(req.url) && env.scrapeFailure.Some?))))
      && (r.status == 200 <==>
            (req.httpMethod == "POST" && env.rootFailure.None? && Truthy(req.url) && env.scrapeFailure.None?))
      && (Success(r) <==> r.status == 200)
  {
  }

  /** A method other than POST is refused before anything else happens, whatever the page or the file system would do. */
  lemma MethodCheckedFirst(req: Request, env: Environment, env': Environment)
    requires req.httpMethod != "POST"
    ensures Handle(req, env) == Handle(req, env') == Response(405, Rejected(MethodNotAllowed))
  {
  }

  /** A refusal of a falsy `url` does not depend on the page or on any later step. */
  lemma UrlCheckedBeforeBrowsing(req: Request, env: Environment, env': Environment)
    requires req.httpMethod == "POST" && !Truthy(req.url)
    requires env.rootFailure.None? && env'.rootFailure.None?
    ensures Handle(req, env) == Handle(req, env') == Response(400, Rejected(UrlRequired))
  {
  }

  /**
   * A 500 carries the thrown error's message when that is truthy and the
   * fixed fallback otherwise, so its `error` is never falsy; the first
   * stage that throws is the one reported.
   */
  lemma FailureReportsError(req: Request, env: Environment)
    requires Handle(req, env).status == 500
    ensures var r := Handle(req, env);
      && r.body.Errored? && Truthy(r.body.error)
      && (env.rootFailure.Some? ==> r.body.error == ErrorText(env.rootFailure.value))
      && (env.rootFailure.None? ==> env.scrapeFailure.Some? && r.body.error == ErrorText(env.scrapeFailure.value))
  {
  }

  /**
   * A successful run carries what the extractor returned for the page, the
   * links of exactly the images that were downloaded (each under its original
   * index and in order, set only when the page had images), and the three
   * links into the same run folder, named after the sanitised timestamp.
   */
  lemma ScrapePayload(env: Environment)
    ensures var r := Scrape(env);
      var folder := FolderName(env.timestamp);
      var images := Extracted(env.page).images;
      var ok := ImageOutcomes(env, |images|);
      && r.status == 200 && r.body.Scraped?
      && r.body.data.info == Extracted(env.page)
      && r.body.downloads == DownloadLinks(folder)
      && (r.body.data.downloadedImages.Some? <==> |images| > 0)
      && (|images| > 0 ==> r.body.data.downloadedImages == Some(SuccessLinks(folder, images, ok)))
      && (forall i :: 0 <= i < |images| ==>
            (ImagePath(folder, i, images[i]) in SuccessLinks(folder, images, ok)
             <==> i < |env.imageOk| && env.imageOk[i]))
  {
    var folder := FolderName(env.timestamp);
    var images := Extracted(env.page).images;
    DownloadedImagesSpec(folder, images, ImageOutcomes(env, |images|));
  }

  /** A POST with a truthy `url` where no stage throws is answered by the successful run. */
  lemma SuccessPayload(req: Request, env: Environment)
    requires req.httpMethod == "POST" && Truthy(req.url)
    requires env.rootFailure.None? && env.scrapeFailure.None?
    ensures Handle(req, env) == Scrape(env)
    ensures Handle(req, env).body.Scraped?
  {
  }

  /** Two runs at different instants write into different folders, so neither overwrites the other's files. */
  lemma RunsDoNotCollide(req: Request, env: Environment, env': Environment)
    requires req.httpMethod == "POST" && Truthy(req.url)
    requires env.rootFailure.None? && env.scrapeFailure.None?
    requires env'.rootFailure.None? && env'.scrapeFailure.None?
    requires IsIsoTimestamp(env.timestamp) && IsIsoTimestamp(env'.timestamp)
    requires env.timestamp != env'.timestamp
    ensures Handle(req, env).body.downloads.json != Handle(req, env').body.downloads.json
  {
    var f, f' := FolderName(env.timestamp), FolderName(env'.timestamp);
    FolderNameUnique(env.timestamp, env'.timestamp);
    RunPathsSeparate(f, f', JsonFile);
  }

}
