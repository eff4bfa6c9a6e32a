/** `doit` of the Tiny server (tiny/tiny.c): one request, from the request
    line to the choice of reply. The file system is a map from file name to
    what `stat` reports; a name absent from the map is one `stat` fails on.
    Reading the header lines, opening files and running CGI programs are
    not modelled; `Reply` gives the text `doit` writes itself. */
module Tiny {
  import opened Wrappers
  import opened CStrings
  import opened Decimal
  import opened HttpText
  import opened Uri
  import opened Responses
  import opened FileType

  /** The parts of `struct stat` the server looks at: `S_ISREG`, the owner
      read and execute bits, and `st_size`. */
  datatype FileStat = FileStat(isRegular: bool, ownerRead: bool, ownerExec: bool, size: nat)

  type FileSystem = map<string, FileStat>

  /** What `doit` decides to do with a request. */
  datatype Action =
    | Reject(cause: string, errnum: string, shortmsg: string, longmsg: string)
    | ServeStatic(filename: string, filesize: int)
    | ServeDynamic(filename: string, cgiargs: string)

  /** The long messages of the 404 and 403 replies. Each `char` stands for
      one byte: the apostrophe is U+2019, whose UTF-8 encoding is three
      bytes, and `strlen` counts all three. */
  const Apostrophe: string := "\U{00E2}\U{0080}\U{0099}"
  const NotFoundMsg: string := "Tiny couldn" + Apostrophe + "t find this file"
  const NoReadMsg: string := "Tiny couldn" + Apostrophe + "t read the file"
  const NoRunMsg: string := "Tiny couldn" + Apostrophe + "t run the CGI program"

  /** `strcasecmp(method, "GET") == 0`. */
  predicate IsGet(verb: string) {
    EqualsIgnoreCase(verb, "GET")
  }

  /** The method test accepts exactly the eight spellings of GET. */
  lemma IsGetSpellings(verb: string)
    ensures IsGet(verb) <==>
      |verb| == 3 && verb[0] in "gG" && verb[1] in "eE" && verb[2] in "tT"
  {
  }

  /** `sscanf(buf, "%s %s %s", method, uri, version)` leaves a field unset
      when the line runs out of words, and `doit` then reads that unset
      buffer: the method always, the URI when the method is GET. A request
      line that leaves nothing unset that `doit` reads is defined. */
  predicate Defined(line: string) {
    var ws := Words(line);
    |ws| >= 1 && (IsGet(ws[0]) ==> |ws| >= 2)
  }

  /** `st_size` passed as the `int filesize` parameter of `serve_static`:
      the value modulo 2^32, read as a 32-bit two's complement number. */
  function ToCInt(n: int): (r: int)
    ensures -0x8000_0000 <= r < 0x8000_0000
    ensures (r - n) % 0x1_0000_0000 == 0
  {
    var m := n % 0x1_0000_0000;
    if m >= 0x8000_0000 then m - 0x1_0000_0000 else m
  }

  /** Sizes below 2 GiB pass through the conversion unchanged. */
  lemma ToCIntSmall(n: int)
    requires 0 <= n < 0x8000_0000
    ensures ToCInt(n) == n
  {
  }

  function Doit(line: string, fs: FileSystem): (a: Action)
    requires Defined(line)
    ensures var verb := Words(line)[0];
      !IsGet(verb) ==>
        a == Reject(verb, "501", "Not implemented", "Tiny does not implement this method")
    ensures a.Reject? ==> ErrorStatus(a.errnum, a.shortmsg)
    ensures a.Reject? && a.errnum == "501" <==> !IsGet(Words(line)[0])
    ensures IsGet(Words(line)[0]) ==>
      var t := ParseUri(Words(line)[1]);
      && (a.Reject? ==> a.cause == t.filename)
      && (!a.Reject? ==> a.filename == t.filename)
      && (a.Reject? && a.errnum == "404" <==> t.filename !in fs)
      && (a.Reject? && a.errnum == "403" <==>
            t.filename in fs
            && (!fs[t.filename].isRegular
                || (if t.isStatic then !fs[t.filename].ownerRead else !fs[t.filename].ownerExec)))
    ensures a.ServeStatic? ==>
      && IsGet(Words(line)[0]) && !Contains(Words(line)[1], CgiDir)
      && a.filename in fs && fs[a.filename].isRegular && fs[a.filename].ownerRead
      && a.filesize == ToCInt(fs[a.filename].size)
    ensures a.ServeDynamic? ==>
      && IsGet(Words(line)[0]) && Contains(Words(line)[1], CgiDir)
      && a.filename in fs && fs[a.filename].isRegular && fs[a.filename].ownerExec
      && a.cgiargs == ParseUri(Words(line)[1]).cgiargs
    ensures a.Reject? && a.errnum == "404" ==> a.longmsg == NotFoundMsg
    ensures a.Reject? && a.errnum == "403" ==>
      a.longmsg == (if ParseUri(Words(line)[1]).isStatic then NoReadMsg else NoRunMsg)
  {
    var ws := Words(line);
    var verb := ws[0];
    if !IsGet(verb) then
      Reject(verb, "501", "Not implemented", "Tiny does not implement this method")
    else
      var t := ParseUri(ws[1]);
      if t.filename !in fs then
        Reject(t.filename, "404", "Not found", NotFoundMsg)
      else
        var st := fs[t.filename];
        if t.isStatic then
          if !st.isRegular || !st.ownerRead then
            Reject(t.filename, "403", "Forbidden", NoReadMsg)
          else
            ServeStatic(t.filename, ToCInt(st.size))
        else
          if !st.isRegular || !st.ownerExec then
            Reject(t.filename, "403", "Forbidden", NoRunMsg)
          else
            ServeDynamic(t.filename, t.cgiargs)
  }

  /** The text `doit` writes for an action: the whole error response, the
      static header block (the file's bytes follow), or the two lines
      written before the CGI program's output. */
  function Reply(a: Action): (r: string)
    ensures a.Reject? ==> r == Render(ErrorResponse(a.cause, a.errnum, a.shortmsg, a.longmsg))
    ensures a.ServeStatic? ==> r == Render(StaticResponse(GetFiletype(a.filename), a.filesize, []))
    ensures a.ServeDynamic? ==>
      r == StatusLine(Response(Version, "200", "OK", [], [])) + HeaderLine(Header("Server", ServerName))
  {
    match a
    case Reject(cause, errnum, shortmsg, longmsg) => ClientErrorText(cause, errnum, shortmsg, longmsg)
    case ServeStatic(filename, filesize) => StaticHeader(filename, filesize)
    case ServeDynamic(_, _) => DynamicPreamble()
  }

  /** The request line `GET /x HTTP/1.0` CR LF, on a file system where
      `stat` fails, is answered with 404 for `./x`. */
  lemma NotFoundExample(line: string)
    requires line == "GET /x HTTP/1.0\r\n"
    ensures Defined(line)
    ensures Doit(line, map[]) == Reject("./x", "404", "Not found", NotFoundMsg)
  {
    ExampleLineWords(line);
    ExampleUri();
  }

  lemma ExampleUri()
    ensures IsGet("GET") && ParseUri("/x").filename == "./x"
  {
    assert FindSub("/x", CgiDir).None?;
  }

  lemma ExampleLineWords(line: string)
    requires line == "GET /x HTTP/1.0\r\n"
    ensures Words(line) == ["GET", "/x", "HTTP/1.0"]
  {
    var ws := ["GET", "/x", "HTTP/1.0"];
    assert JoinWords(ws) == "GET" + " " + ("/x" + " " + "HTTP/1.0") by {
      assert ws[1..] == ["/x", "HTTP/1.0"];
      assert ws[1..][1..] == ["HTTP/1.0"];
    }
    assert line == JoinWords(ws) + "\r\n";
    assert AllSpace("\r\n");
    WordsOfLine(ws, "\r\n");
  }

  /** The reply to that request advertises a 144-byte page: the apostrophe
      of the long message counts three bytes, as `strlen` counts it. */
  lemma NotFoundLength()
    ensures ErrorResponse("./x", "404", "Not found", NotFoundMsg).headers[1]
         == Header("Content-length", "144")
  {
    assert |NotFoundMsg| == 30;
    assert |ErrorBody("./x", "404", "Not found", NotFoundMsg)| == 144;
    assert NatToDecimal(1) == "1";
    assert NatToDecimal(14) == "14";
  }

  /** `doit` reads nothing of the request line beyond its first word, and
      its second word when the method is GET: two request lines that agree
      on those are handled alike. */
  lemma DecidedByLeadingWords(line: string, line': string, fs: FileSystem)
    ensures Defined(line) && Defined(line')
            && Words(line)[0] == Words(line')[0]
            && (IsGet(Words(line)[0]) ==> Words(line)[1] == Words(line')[1])
        ==> Doit(line, fs) == Doit(line', fs)
  {
  }

  /** A method other than GET is answered with 501 whatever the rest of the
      request line and whatever the file system holds. The line is as
      `Rio_readlineb` delivers it: words, then a white-space terminator
      such as CR LF. */
  lemma MethodGate(verb: string, rest: seq<string>, eol: string, fs: FileSystem)
    requires |verb| > 0 && NoSpace(verb) && !IsGet(verb)
    requires forall i :: 0 <= i < |rest| ==> |rest[i]| > 0 && NoSpace(rest[i])
    requires AllSpace(eol)
    ensures Defined(JoinWords([verb] + rest) + eol)
    ensures Doit(JoinWords([verb] + rest) + eol, fs)
         == Reject(verb, "501", "Not implemented", "Tiny does not implement this method")
  {
    var ws := [verb] + rest;
    forall i | 0 <= i < |ws| ensures |ws[i]| > 0 && NoSpace(ws[i]) {
      if i > 0 { assert ws[i] == rest[i - 1]; }
    }
    WordsOfLine(ws, eol);
  }

  /** A GET request line is decided by its URI alone: the version word,
      anything after it and the terminator play no part. */
  lemma GetIgnoresVersion(verb: string, uri: string, tail: seq<string>, eol: string,
                          tail': seq<string>, eol': string, fs: FileSystem)
    requires IsGet(verb) && |uri| > 0 && NoSpace(uri)
    requires forall i :: 0 <= i < |tail| ==> |tail[i]| > 0 && NoSpace(tail[i])
    requires forall i :: 0 <= i < |tail'| ==> |tail'[i]| > 0 && NoSpace(tail'[i])
    requires AllSpace(eol) && AllSpace(eol')
    ensures Defined(JoinWords([verb, uri] + tail) + eol)
    ensures Defined(JoinWords([verb, uri] + tail') + eol')
    ensures Doit(JoinWords([verb, uri] + tail) + eol, fs)
         == Doit(JoinWords([verb, uri] + tail') + eol', fs)
  {
    IsGetSpellings(verb);
    WordsOfPrefix(verb, uri, tail, eol);
    WordsOfPrefix(verb, uri, tail', eol');
  }

  lemma WordsOfPrefix(verb: string, uri: string, tail: seq<string>, eol: string)
    requires |verb| > 0 && NoSpace(verb) && |uri| > 0 && NoSpace(uri)
    requires forall i :: 0 <= i < |tail| ==> |tail[i]| > 0 && NoSpace(tail[i])
    requires AllSpace(eol)
    ensures var ws := Words(JoinWords([verb, uri] + tail) + eol);
      |ws| >= 2 && ws[0] == verb && ws[1] == uri
  {
    var ws := [verb, uri] + tail;
    forall i | 0 <= i < |ws| ensures |ws[i]| > 0 && NoSpace(ws[i]) {
      if i >= 2 { assert ws[i] == tail[i - 2]; }
    }
    WordsOfLine(ws, eol);
  }

  /** The three error statuses `doit` sends, with their reason phrases. */
  predicate ErrorStatus(errnum: string, shortmsg: string) {
    || (errnum == "501" && shortmsg == "Not implemented")
    || (errnum == "404" && shortmsg == "Not found")
    || (errnum == "403" && shortmsg == "Forbidden")
  }

  lemma ErrorStatusFieldsOk(errnum: string, shortmsg: string)
    requires ErrorStatus(errnum, shortmsg)
    ensures StatusFieldsOk(errnum, shortmsg)
  {
  }

  /** Every error reply is a well-framed response: its status line carries
      the error number and short message, its `Content-length` is the
      length of the page that follows, and the page names the cause. */
  lemma ErrorReplyFramed(line: string, fs: FileSystem)
    requires Defined(line)
    ensures var a := Doit(line, fs);
      a.Reject? ==>
        var r := ParseResponse(Reply(a));
        && r.Some?
        && r.value.code == a.errnum && r.value.reason == a.shortmsg
        && HeaderValue(r.value.headers, "Content-length") == Some(IntToDecimal(|r.value.body|))
        && Contains(r.value.body, a.cause)
  {
    var a := Doit(line, fs);
    if a.Reject? {
      RejectReplyFramed(a);
    }
  }

  lemma RejectReplyFramed(a: Action)
    requires a.Reject? && ErrorStatus(a.errnum, a.shortmsg)
    ensures var r := ParseResponse(Reply(a));
      && r.Some?
      && r.value.code == a.errnum && r.value.reason == a.shortmsg
      && HeaderValue(r.value.headers, "Content-length") == Some(IntToDecimal(|r.value.body|))
      && Contains(r.value.body, a.cause)
  {
    ErrorStatusFieldsOk(a.errnum, a.shortmsg);
    ClientErrorParses(a.cause, a.errnum, a.shortmsg, a.longmsg);
    ClientErrorLengthExact(a.cause, a.errnum, a.shortmsg, a.longmsg);
  }

  /** The static reply announces status 200 and, for files under 2 GiB,
      a `Content-length` equal to the file's size. */
  lemma StaticReplyFramed(line: string, fs: FileSystem, content: string)
    requires Defined(line)
    requires Doit(line, fs).ServeStatic?
    requires fs[Doit(line, fs).filename].size < 0x8000_0000
    ensures var a := Doit(line, fs);
      var r := ParseResponse(Reply(a) + content);
      && r.Some? && r.value.code == "200"
      && HeaderValue(r.value.headers, "Content-length").Some?
      && ParseInt(HeaderValue(r.value.headers, "Content-length").value)
         == Some(fs[a.filename].size)
  {
    var a := Doit(line, fs);
    ToCIntSmall(fs[a.filename].size);
    StaticHeaderParses(a.filename, a.filesize, content);
    StaticContentLength(a.filename, a.filesize, content);
  }
}
