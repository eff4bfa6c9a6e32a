/** The response text the Tiny server writes (tiny/tiny.c): the header
    block of `serve_static`, the two lines `serve_dynamic` writes before the
    CGI program's output, and the complete error response of `clienterror`.
    Each is shown to follow the HTTP/1.0 framing of `HttpText`, so a client
    reads back exactly the status, headers and body the server meant. */
module Responses {
  import opened Wrappers
  import opened CStrings
  import opened Decimal
  import opened HttpText
  import opened FileType

  const Version: string := "HTTP/1.0"
  const ServerName: string := "Tiny Web Server"

  /** The header block `serve_static` writes; the file's bytes follow it.
      It is the head of the static response for the file's MIME type. */
  function StaticHeader(filename: string, filesize: int): (h: string)
    ensures h == Render(StaticResponse(GetFiletype(filename), filesize, []))
  {
    HeaderBlock(GetFiletype(filename), filesize)
  }

  /** The five lines of the static header block, for a given type: the
      status line, four header lines and the blank line. */
  function HeaderBlock(filetype: string, filesize: int): (h: string)
    ensures h == Render(StaticResponse(filetype, filesize, []))
  {
    var r := StaticResponse(filetype, filesize, []);
    var h0, h1, h2, h3 := r.headers[0], r.headers[1], r.headers[2], r.headers[3];
    HeaderTextOfFour(h0, h1, h2, h3);
    assert "HTTP/1.0 200 OK\r\n" == Version + " " + "200" + " " + "OK" + Crlf;
    assert "Server: Tiny Web Server\r\n" == HeaderLine(h0);
    assert "Connection: close\r\n" == HeaderLine(h1);
    LengthLiteral(h2.value);
    LastTypeLiteral(filetype);
    var s0, s1, s2, s3, s4 := StatusLine(r), HeaderLine(h0), HeaderLine(h1), HeaderLine(h2), HeaderLine(h3);
    assert s0 + s1 + s2 + s3 + (s4 + Crlf) == s0 + (s1 + (s2 + (s3 + s4))) + Crlf + [];
    "HTTP/1.0 200 OK\r\n"
    + "Server: Tiny Web Server\r\n"
    + "Connection: close\r\n"
    + ("Content-length: " + IntToDecimal(filesize) + "\r\n")
    + ("Content-type: " + filetype + "\r\n\r\n")
  }

  /** What a static reply means: status 200, four headers, then the content. */
  function StaticResponse(filetype: string, filesize: int, content: string): Response {
    Response(Version, "200", "OK",
      [ Header("Server", ServerName),
        Header("Connection", "close"),
        Header("Content-length", IntToDecimal(filesize)),
        Header("Content-type", filetype) ],
      content)
  }

  lemma DecimalIsToken(i: int)
    ensures ' ' !in IntToDecimal(i) && '\r' !in IntToDecimal(i)
  {
    var s := IntToDecimal(i);
    assert forall k :: 0 <= k < |s| ==> s[k] == '-' || IsDigit(s[k]);
  }

  lemma LengthLiteral(d: string)
    ensures "Content-length: " + d + "\r\n" == HeaderLine(Header("Content-length", d))
  {
    assert "Content-length: " == "Content-length" + ": ";
  }

  lemma LastLengthLiteral(d: string)
    ensures "Content-length: " + d + "\r\n\r\n" == HeaderLine(Header("Content-length", d)) + Crlf
  {
    assert "Content-length: " == "Content-length" + ": ";
    assert "\r\n\r\n" == Crlf + Crlf;
  }

  lemma LastTypeLiteral(t: string)
    ensures "Content-type: " + t + "\r\n\r\n" == HeaderLine(Header("Content-type", t)) + Crlf
  {
    assert "Content-type: " == "Content-type" + ": ";
    assert "\r\n\r\n" == Crlf + Crlf;
  }

  /** Appending a body to a rendered head renders the response with that body. */

  lemma StaticWellFormed(filetype: string, filesize: int, content: string)
    requires '\r' !in filetype
    ensures WellFormed(StaticResponse(filetype, filesize, content))
  {
    DecimalIsToken(filesize);
    assert WellFormedHeader(Header("Server", ServerName));
    assert WellFormedHeader(Header("Connection", "close"));
    ValueHeaderOk("Content-length", IntToDecimal(filesize));
    ValueHeaderOk("Content-type", filetype);
    WellFormedOfFour(Header("Server", ServerName), Header("Connection", "close"),
                     Header("Content-length", IntToDecimal(filesize)),
                     Header("Content-type", filetype));
  }

  lemma ValueHeaderOk(name: string, v: string)
    requires name == "Content-length" || name == "Content-type"
    requires '\r' !in v
    ensures WellFormedHeader(Header(name, v))
  {
  }

  /** A client reads the static header block followed by any content as
      the static response: status 200, then `Server`, `Connection: close`,
      `Content-length` and the file's MIME type as `Content-type`. */
  lemma StaticHeaderParses(filename: string, filesize: int, content: string)
    ensures ParseResponse(StaticHeader(filename, filesize) + content)
         == Some(StaticResponse(GetFiletype(filename), filesize, content))
  {
    var t := GetFiletype(filename);
    assert '\r' !in t;
    assert Render(StaticResponse(t, filesize, [])) + content == Render(StaticResponse(t, filesize, content));
    StaticWellFormed(t, filesize, content);
    ParseRender(StaticResponse(t, filesize, content));
  }

  /** The advertised `Content-length` reads back as `filesize`, the number
      of file bytes `serve_static` then writes. */
  lemma StaticContentLength(filename: string, filesize: int, content: string)
    ensures var r := ParseResponse(StaticHeader(filename, filesize) + content);
      && r.Some?
      && HeaderValue(r.value.headers, "Content-length") == Some(IntToDecimal(filesize))
      && ParseInt(IntToDecimal(filesize)) == Some(filesize)
  {
    StaticHeaderParses(filename, filesize, content);
    var hs := StaticResponse(GetFiletype(filename), filesize, content).headers;
    assert hs[1..][1..][0] == Header("Content-length", IntToDecimal(filesize));
    assert HeaderValue(hs[1..][1..], "Content-length") == Some(IntToDecimal(filesize));
    assert HeaderValue(hs, "Content-length") == HeaderValue(hs[1..][1..], "Content-length");
    DecimalRoundTrip(filesize);
  }

  /** The two lines `serve_dynamic` writes itself; the CGI program writes the
      rest of the head and the body. */
  function DynamicPreamble(): (p: string)
    ensures p == StatusLine(Response(Version, "200", "OK", [], []))
                 + HeaderLine(Header("Server", ServerName))
  {
    assert "HTTP/1.0 200 OK\r\n" == StatusLine(Response(Version, "200", "OK", [], []));
    assert "Server: Tiny Web Server\r\n" == HeaderLine(Header("Server", ServerName));
    "HTTP/1.0 200 OK\r\n" + "Server: Tiny Web Server\r\n"
  }

  /** When the CGI program writes well-formed header lines, a blank line and
      a body, the client reads a 200 response whose first header is the
      server's own. */
  lemma DynamicResponseParses(hs: seq<Header>, body: string)
    requires HeadersWellFormed(hs)
    ensures ParseResponse(DynamicPreamble() + HeaderText(hs) + Crlf + body)
         == Some(Response(Version, "200", "OK", [Header("Server", ServerName)] + hs, body))
  {
    var server := Header("Server", ServerName);
    var r := Response(Version, "200", "OK", [server] + hs, body);
    DynamicRenders(hs, body);
    assert WellFormedHeader(server);
    HeadersWellFormedCons(server, hs);
    ParseRender(r);
  }

  lemma DynamicRenders(hs: seq<Header>, body: string)
    ensures DynamicPreamble() + HeaderText(hs) + Crlf + body
         == Render(Response(Version, "200", "OK", [Header("Server", ServerName)] + hs, body))
  {
    var server := Header("Server", ServerName);
    var r := Response(Version, "200", "OK", [server] + hs, body);
    assert StatusLine(r) == StatusLine(Response(Version, "200", "OK", [], []));
    HeaderTextFront(server, hs);
    var a, b, c := StatusLine(r), HeaderLine(server), HeaderText(hs);
    assert a + b + c + Crlf + body == a + (b + c) + Crlf + body;
  }

  /** The HTML page `clienterror` sends; it names the status, both messages
      and the cause. */
  function ErrorBody(cause: string, errnum: string, shortmsg: string, longmsg: string): (b: string)
    ensures Contains(b, errnum) && Contains(b, shortmsg)
    ensures Contains(b, longmsg) && Contains(b, cause)
  {
    var top := "<html><title>Tiny Error</title>" + "<body bgcolor=ffffff>\r\n";
    var tail := "\r\n" + "<hr><em>The Tiny Web Server</em>\r\n";
    ContainsEachOfFour(top, errnum, ": ", shortmsg, "\r\n" + "<p>", longmsg, ": ", cause, tail);
    top + errnum + ": " + shortmsg + ("\r\n" + "<p>") + longmsg + ": " + cause + tail
  }

  /** Everything `clienterror` writes, in order: status line, two headers,
      blank line, body. It is the rendering of the error response: status
      line `HTTP/1.0 <errnum> <shortmsg>`, `Content-type: text/html`, a
      `Content-length` giving the page's length in bytes, and the page. */
  function ClientErrorText(cause: string, errnum: string, shortmsg: string, longmsg: string): (t: string)
    ensures t == Render(ErrorResponse(cause, errnum, shortmsg, longmsg))
  {
    var body := ErrorBody(cause, errnum, shortmsg, longmsg);
    var r := ErrorResponse(cause, errnum, shortmsg, longmsg);
    HeaderTextOfTwo(r.headers[0], r.headers[1]);
    assert "Content-type: text/html\r\n" == HeaderLine(r.headers[0]);
    LastLengthLiteral(IntToDecimal(|body|));
    assert "HTTP/1.0 " == Version + " ";
    "HTTP/1.0 " + errnum + " " + shortmsg + "\r\n"
    + "Content-type: text/html\r\n"
    + "Content-length: " + IntToDecimal(|body|) + "\r\n\r\n"
    + body
  }

  /** What an error reply means: the status and reason given, an HTML body,
      and a `Content-length` naming that body's length. */
  function ErrorResponse(cause: string, errnum: string, shortmsg: string, longmsg: string): Response {
    var body := ErrorBody(cause, errnum, shortmsg, longmsg);
    Response(Version, errnum, shortmsg,
      [Header("Content-type", "text/html"), Header("Content-length", IntToDecimal(|body|))],
      body)
  }

  /** The status code is one token and the head has no stray CR. */
  predicate StatusFieldsOk(errnum: string, shortmsg: string) {
    ' ' !in errnum && '\r' !in errnum && '\r' !in shortmsg
  }

  /** A client reads the error text back as the error response. */
  lemma ClientErrorParses(cause: string, errnum: string, shortmsg: string, longmsg: string)
    requires StatusFieldsOk(errnum, shortmsg)
    ensures ParseResponse(ClientErrorText(cause, errnum, shortmsg, longmsg))
         == Some(ErrorResponse(cause, errnum, shortmsg, longmsg))
  {
    var r := ErrorResponse(cause, errnum, shortmsg, longmsg);
    DecimalIsToken(|r.body|);
    ValueHeaderOk("Content-type", "text/html");
    ValueHeaderOk("Content-length", IntToDecimal(|r.body|));
    WellFormedOfTwo(Header("Content-type", "text/html"),
                    Header("Content-length", IntToDecimal(|r.body|)));
    ParseRender(r);
  }

  /** The advertised `Content-length` is exactly the length of the page
      that follows the head. */
  lemma ClientErrorLengthExact(cause: string, errnum: string, shortmsg: string, longmsg: string)
    requires StatusFieldsOk(errnum, shortmsg)
    ensures var r := ParseResponse(ClientErrorText(cause, errnum, shortmsg, longmsg));
      && r.Some?
      && HeaderValue(r.value.headers, "Content-length") == Some(IntToDecimal(|r.value.body|))
      && ParseInt(IntToDecimal(|r.value.body|)) == Some(|r.value.body|)
  {
    ClientErrorParses(cause, errnum, shortmsg, longmsg);
    var r := ErrorResponse(cause, errnum, shortmsg, longmsg);
    assert r.headers[1..][0] == Header("Content-length", IntToDecimal(|r.body|));
    assert HeaderValue(r.headers, "Content-length") == HeaderValue(r.headers[1..], "Content-length");
    DecimalRoundTrip(|r.body|);
  }
}
