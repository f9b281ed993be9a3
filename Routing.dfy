/**
 * `StreamingHandler.do_GET` of the two servers, as a map from the request
 * path to the response: status, headers in the order sent, and body. The
 * preview server (server.py) redirects `/` to `/index.html`; the realtime
 * server (realtime.py) serves the page at `/` and has no `/index.html`.
 * The page text is a parameter (the servers read it from an HTML file).
 */
module Routing {
  import opened Wrappers
  import opened Text
  import opened Http
  import Multipart

  datatype ResponseBody =
    | Content(bytes: seq<byte>)   // written with `wfile.write`
    | FrameStream                 // the multipart loop of the stream handler
    | NoBody

  datatype Response = Response(status: nat, headers: seq<Header>, body: ResponseBody)

  /** `PAGE.encode("utf-8")` sent as `text/html` with its length. */
  function PageResponse(page: string): Response {
    var content := Utf8(page);
    Response(200, [Header("Content-Type", "text/html"), Header("Content-Length", Decimal(|content|))],
             Content(content))
  }

  /** The headers of `/stream.mjpg`; `Age` is sent as the int 0. */
  const STREAM_HEADERS: seq<Header> := [
    Header("Age", Decimal(0)),
    Header("Cache-Control", "no-cache, private"),
    Header("Pragma", "no-cache"),
    Header("Content-Type", "multipart/x-mixed-replace; boundary=" + Multipart.BOUNDARY)
  ]

  function StreamResponse(): Response {
    Response(200, STREAM_HEADERS, FrameStream)
  }

  /** `send_error(404)`; the error page it writes is not modelled. */
  function NotFound(): Response {
    Response(404, [], NoBody)
  }

  /** server.py: `/` redirects, `/index.html` is the page. */
  function ServerGet(path: string, page: string): Response {
    if path == "/" then Response(301, [Header("Location", "/index.html")], NoBody)
    else if path == "/index.html" then PageResponse(page)
    else if path == "/stream.mjpg" then StreamResponse()
    else NotFound()
  }

  /** realtime.py: the page is served at `/`. */
  function RealtimeGet(path: string, page: string): Response {
    if path == "/" then PageResponse(page)
    else if path == "/stream.mjpg" then StreamResponse()
    else NotFound()
  }

  // ---------------------------------------------------------------------
  // Properties.

  /** The page response declares the byte length it sends, and the bytes are the page. */
  lemma {:induction false} PageDeclaresItsLength(page: string)
    ensures var r := PageResponse(page);
      && r.status == 200 && r.body.Content?
      && Lookup(r.headers, "Content-Type") == Some("text/html")
      && Lookup(r.headers, "Content-Length").Some?
      && ParseDecimal(Latin1(Lookup(r.headers, "Content-Length").value)) == Some(|r.body.bytes|)
      && DecodeUtf8(r.body.bytes) == Some(page)
  {
    var content := Utf8(page);
    DecimalRoundTrip(|content|);
    Utf8RoundTrip(page);
    var hs := PageResponse(page).headers;
    assert Lookup(hs[1..], "Content-Length") == Some(Decimal(|content|));
  }

  /** server.py routes by exact match on the whole path. */
  lemma {:induction false} ServerRoutes(path: string, page: string)
    ensures var r := ServerGet(path, page);
      && (r.status == 301 <==> path == "/")
      && (r == PageResponse(page) <==> path == "/index.html")
      && (r == StreamResponse() <==> path == "/stream.mjpg")
      && (r == NotFound() <==> path != "/" && path != "/index.html" && path != "/stream.mjpg")
  {
  }

  /** Following the redirect of `/` on server.py gives the page. */
  lemma {:induction false} ServerRedirectLeadsToPage(page: string)
    ensures var r := ServerGet("/", page);
      && r.status == 301 && r.body == NoBody
      && Lookup(r.headers, "Location") == Some("/index.html")
      && ServerGet(Lookup(r.headers, "Location").value, page) == PageResponse(page)
  {
  }

  /** realtime.py serves the page only at `/`; `/index.html` is not found. */
  lemma {:induction false} RealtimeRoutes(path: string, page: string)
    ensures var r := RealtimeGet(path, page);
      && (r == PageResponse(page) <==> path == "/")
      && (r == StreamResponse() <==> path == "/stream.mjpg")
      && (r == NotFound() <==> path != "/" && path != "/stream.mjpg")
      && RealtimeGet("/index.html", page).status == 404
  {
  }

  /** The two servers answer the stream and the page alike, at their own paths. */
  lemma {:induction false} ServersAgree(path: string, page: string)
    ensures path != "/" && path != "/index.html" ==> ServerGet(path, page) == RealtimeGet(path, page)
    ensures ServerGet("/index.html", page) == RealtimeGet("/", page)
  {
  }

  /**
   * The stream response: status 200, then exactly `Age`, `Cache-Control`,
   * `Pragma` and `Content-Type` in this order, and a boundary parameter that
   * is the delimiter every part opens with.
   */
  lemma {:induction false} StreamHeaders()
    ensures var r := StreamResponse();
      && r.status == 200 && r.body == FrameStream
      && r.headers == [Header("Age", "0"), Header("Cache-Control", "no-cache, private"),
                       Header("Pragma", "no-cache"),
                       Header("Content-Type", "multipart/x-mixed-replace; boundary=FRAME")]
      && Multipart.DELIMITER_LINE == Latin1("--" + Multipart.BOUNDARY + "\r\n")
  {
    assert Decimal(0) == "0";
    assert "multipart/x-mixed-replace; boundary=" + Multipart.BOUNDARY
        == "multipart/x-mixed-replace; boundary=FRAME";
  }
}
