/** The static-resource helpers and constants of namespace HTTP: the MIME
    table, file-extension extraction, the URL-to-path mapping under the
    document root, and the canned error response. */
module Http {
  import opened Text

  /** The directory static files are served from. */
  const HTML_ROOT_DIR: string := "../html"

  /** The reason text of the canned error responses, by status code. */
  const ERROR_MESSAGES: map<int, string> := map[
    400 := "Your browser sent a bad request, " + "such as a POST without a Content-Length.",
    500 := "Error prohibited CGI execution."
  ]

  /** The request methods the server knows. */
  datatype Method = GET | POST | PUT

  /** The MIME type of each known file extension. */
  const MIME_TYPES: map<string, string> := map[
    "js" := "text/javascript",
    "css" := "text/css",
    "html" := "text/html",
    "jpg" := "image/jpeg",
    "png" := "image/png",
    "txt" := "text/plain"
  ]

  /** get_content_type: the MIME type of a file extension; an unknown
      extension is served as plain text. Each of the five other types
      belongs to exactly one extension. */
  function GetContentType(extension: string): (r: string)
    ensures r == "text/javascript" <==> extension == "js"
    ensures r == "text/css" <==> extension == "css"
    ensures r == "text/html" <==> extension == "html"
    ensures r == "image/jpeg" <==> extension == "jpg"
    ensures r == "image/png" <==> extension == "png"
    ensures r == "text/plain" <==> extension !in {"js", "css", "html", "jpg", "png"}
  {
    if extension in MIME_TYPES then MIME_TYPES[extension] else "text/plain"
  }

  /** extract_file_extension: what follows the last '.' of the URL, or the
      empty string when it has none. */
  function ExtractFileExtension(url: string): (r: string)
    ensures '.' !in url ==> r == []
    ensures '.' in url ==> '.' !in r && exists p :: url == p + "." + r
  {
    match RFind(url, '.')
    case None => []
    case Some(i) =>
      assert url == url[..i] + "." + url[i + 1..];
      url[i + 1..]
  }

  /** The extension is determined by the part after the last dot alone:
      whatever precedes it does not matter. */
  lemma ExtensionOfSuffix(p: string, e: string)
    requires '.' !in e
    ensures ExtractFileExtension(p + "." + e) == e
  {
    var url := p + "." + e;
    assert url[|p|] == '.' && url[|p| + 1..] == e;
  }

  /** url_to_path: "/" is served from the root's index page; every other
      URL is appended to the root directory as it is. */
  function UrlToPath(url: string): (r: string)
    ensures HTML_ROOT_DIR <= r
    ensures url == "/" ==> r == "../html/index.html"
    ensures url != "/" ==> r == HTML_ROOT_DIR + url
  {
    if url == "/" then HTML_ROOT_DIR + "/index.html" else HTML_ROOT_DIR + url
  }

  /** Two URLs map to the same file exactly when they are equal, or when
      one is "/" and the other is "/index.html". */
  lemma UrlToPathCollision(a: string, b: string)
    ensures UrlToPath(a) == UrlToPath(b) <==> a == b || {a, b} == {"/", "/index.html"}
  {
    var n := |HTML_ROOT_DIR|;
    if UrlToPath(a) == UrlToPath(b) {
      var x := if a == "/" then "/index.html" else a;
      var y := if b == "/" then "/index.html" else b;
      assert UrlToPath(a) == HTML_ROOT_DIR + x && UrlToPath(b) == HTML_ROOT_DIR + y;
      assert x == (HTML_ROOT_DIR + x)[n..];
      assert y == (HTML_ROOT_DIR + y)[n..];
      if a != b {
        assert a == "/" || b == "/";
      }
    }
  }

  /** A URL that climbs out of the root is mapped outside it all the same:
      dot-dot segments are not rejected. */
  lemma DotDotNotRejected()
    ensures UrlToPath("/../secret") == "../html/../secret"
  {
  }

  /** generate_bad_response: a status line with the code and its reason
      text (when the code has one), a Content-type header, the blank line,
      and a one-paragraph body repeating the reason text. */
  function GenerateBadResponse(code: Int32): string {
    "HTTP/1.0 " + IntToDecimal(code) + " " + ErrorMessage(code) + "\r\nContent-type: text/html\r\n\r\n"
      + ErrorParagraph(code)
  }

  /** The reason text of a code, empty when it has none. */
  function ErrorMessage(code: int): string {
    if code in ERROR_MESSAGES then ERROR_MESSAGES[code] else ""
  }

  /** The body of the canned response: one paragraph holding the reason
      text, or nothing when the code has none. */
  function ErrorParagraph(code: int): string {
    if code in ERROR_MESSAGES then "<p>" + ERROR_MESSAGES[code] + "\r\n" else ""
  }

  /** No reason text holds a line break, so each fits on the status line. */
  lemma ErrorMessageOneLine(code: int)
    ensures '\n' !in ErrorMessage(code)
  {
    NoLineBreakIn400a();
    NoLineBreakIn400b();
    NoLineBreakIn500();
  }

  lemma NoLineBreakIn400a()
    ensures '\n' !in "Your browser sent a bad request, "
  {
  }

  lemma NoLineBreakIn400b()
    ensures '\n' !in "such as a POST without a Content-Length."
  {
  }

  lemma NoLineBreakIn500()
    ensures '\n' !in "Error prohibited CGI execution."
  {
  }

  /** The canned response for a bad request, in full. */
  lemma BadRequestResponse()
    ensures GenerateBadResponse(400)
         == "HTTP/1.0 " + "400" + " "
          + ("Your browser sent a bad request, " + "such as a POST without a Content-Length.")
          + "\r\nContent-type: text/html\r\n\r\n" + "<p>"
          + ("Your browser sent a bad request, " + "such as a POST without a Content-Length.")
          + "\r\n"
  {
    assert IntToDecimal(400) == "400" by {
      assert NatToDecimal(4) == "4";
      assert NatToDecimal(40) == "40";
    }
  }

  /** The canned response for a failed CGI execution, in full. */
  lemma ServerErrorResponse()
    ensures GenerateBadResponse(500)
         == "HTTP/1.0 " + "500" + " " + "Error prohibited CGI execution."
          + "\r\nContent-type: text/html\r\n\r\n" + "<p>" + "Error prohibited CGI execution."
          + "\r\n"
  {
    assert IntToDecimal(500) == "500" by {
      assert NatToDecimal(5) == "5";
      assert NatToDecimal(50) == "50";
    }
  }

  /** Every other code gets a bare response: no reason text after the code
      and no body after the blank line. */
  lemma UnknownCodeResponse(code: Int32)
    requires code != 400 && code != 500
    ensures GenerateBadResponse(code)
         == "HTTP/1.0 " + IntToDecimal(code) + " " + "\r\nContent-type: text/html\r\n\r\n"
  {
    assert code !in ERROR_MESSAGES;
  }
}
