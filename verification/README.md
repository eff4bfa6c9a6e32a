# Tiny web server: request handling and response text

This project models the request-handling core of the Tiny HTTP/1.0 server
(`tiny/tiny.c`), an iterative server that serves static files and runs CGI
programs:

- `parse_uri` turns a request URI into the local file name (a `.` before
  the URI, plus `home.html` for a directory) and the CGI argument string. It
  also decides between static and dynamic content: a URI is dynamic when it
  mentions `cgi-bin` anywhere.
- `get_filetype` picks the MIME type from the first fragment, in a fixed
  priority list, that occurs anywhere in the file name.
- `serve_static` writes a five-line header block ahead of the file's bytes.
  `serve_dynamic` writes a two-line preamble before the CGI program's output.
- `clienterror` writes a complete error response with an HTML page.
- `doit` reads the request line and answers any method other than `GET`
  (compared case-insensitively) with 501. It then answers 404 when `stat`
  fails and 403 when the file is not a regular file or lacks the owner
  permission it needs. Otherwise it serves the file.

Strings are C byte strings, written as `seq<char>` in which each `char`
stands for one byte. So a length is a byte count, as `strlen` gives it. The
apostrophe in the 404 and 403 messages is U+2019, which the source file
holds as the three UTF-8 bytes E2 80 99, and the model spells it as those
three bytes. The C library string routines the code relies on
(`strstr`, `index`, `strcasecmp`, the `%s` conversions of `sscanf`, and `%d`
of `sprintf`) are modelled in `CStrings` and `Decimal`. The response text is
related to its meaning through `HttpText`, a model of how a client frames an
HTTP/1.0 response: a status line, `Name: value` header lines, a blank line,
then the body. `Render` and `ParseResponse` are inverses on well-formed
responses. Each text builder is proved to parse back as the response it is
meant to be.

Modules:

- `Wrappers`: `Option`.
- `CStrings`: substring search, splitting, case folding, and white-space
  tokenising.
- `Decimal`: `%d` and its inverse.
- `HttpText`: response framing and the client-side parser.
- `Uri`: `parse_uri`.
- `FileType`: `get_filetype`.
- `Responses`: the text of `serve_static`, `serve_dynamic` and `clienterror`.
- `Tiny`: `doit`.

## Model

| member | source | states |
|---|---|---|
| `Uri.ParseUri` | tiny/tiny.c:144-188 | The URI is static exactly when `cgi-bin` does not occur in it, query included. The file name always starts with `.`. A static URI gets empty CGI arguments and the file name `.`+URI, with `home.html` appended if and only if the URI ends in `/`. A dynamic URI is split at its first `?`: the file name holds no `?`, and name, `?` and arguments spell the URI again. Without a `?`, the file name is `.`+URI and the arguments are empty. |
| `Uri.QueryMakesDynamic` | tiny/tiny.c:149-176 | A `cgi-bin` that occurs only in the query still makes the URI dynamic. The path before the `?` becomes the program and the query becomes the arguments. |
| `FileType.GetFiletype` | tiny/tiny.c:191-206 | Each of the six results is characterised by an if-and-only-if: the first of `.html`, `.gif`, `.png`, `.jpg` and `.mp4` that occurs anywhere in the name decides the type. `text/plain` is returned exactly when none occurs. |
| `FileType.FiletypeIsFirstMatch` | tiny/tiny.c:193-205 | The if-chain equals the first-match reading of the priority list of fragment/type rules. |
| `FileType.FiletypeRange` | tiny/tiny.c:191-206 | Every name gets one of the listed types or `text/plain`. |
| `FileType.FirstMatchRange` | tiny/tiny.c:193-205 | A first-match over any rule list yields one of the list's types or the default. |
| `FileType.HtmlAnywhereWins` | tiny/tiny.c:193-194 | `.html` anywhere in a name selects `text/html` whatever follows, so `x.html.gif` is HTML. |
| `Responses.StaticHeader` | tiny/tiny.c:215-220 | The block written ahead of a file is the head of the 200 response whose `Content-type` is the file's MIME type as `get_filetype` chooses it. |
| `Responses.HeaderBlock` | tiny/tiny.c:216-220 | The five lines are the rendering of the head of a 200 `OK` response for HTTP/1.0, with headers `Server: Tiny Web Server`, `Connection: close`, `Content-length: <filesize in decimal>` and `Content-type: <type>` in that order, then the blank line. |
| `Responses.StaticHeaderParses` | tiny/tiny.c:215-220 | The header block followed by any content reads back as status `HTTP/1.0 200 OK`, then the headers `Server: Tiny Web Server`, `Connection: close`, `Content-length: <filesize in decimal>` and `Content-type: <type of the file>` in that order, then the content. |
| `Responses.StaticContentLength` | tiny/tiny.c:219 | The advertised `Content-length` value parses back to the file size passed in. |
| `Responses.DynamicPreamble` | tiny/tiny.c:255-258 | The two lines are the HTTP/1.0 `200 OK` status line followed by the header line `Server: Tiny Web Server`. |
| `Responses.DynamicResponseParses` | tiny/tiny.c:255-258 | The two lines written before the CGI output, followed by the program's well-formed header lines, blank line and body, read back as a 200 response whose first header is `Server: Tiny Web Server`. |
| `Responses.ErrorBody` | tiny/tiny.c:280-284 | The error page contains the error number, the short message, the long message and the cause. |
| `Responses.ClientErrorText` | tiny/tiny.c:280-291 | The error text is exactly the rendering of a response with status line `HTTP/1.0 <errnum> <shortmsg>`, headers `Content-type: text/html` and `Content-length: <page length in bytes>`, and the page as body. |
| `Responses.ClientErrorParses` | tiny/tiny.c:285-291 | For a one-token error number and CR-free messages, a client reads the error text back as that response. |
| `Responses.ClientErrorLengthExact` | tiny/tiny.c:289-291 | The advertised `Content-length` is the decimal byte length of the page that follows, and it parses back to that length. |
| `Decimal.IntToDecimal` | tiny/tiny.c:289 | `%d` prints a non-empty numeral that starts with `-` exactly for negative values; every other character is a digit. The numeral is canonical: it has no leading zero unless the value is zero, when it is `0`. |
| `Decimal.DecimalRoundTrip` | tiny/tiny.c:219 | Reading back what `%d` printed gives the printed value, negative values included. |
| `HttpText.ParseRender` | tiny/tiny.c:216-220 | Any well-formed response that the server's framing renders is read back unchanged: status line, header lines, blank line, body. |
| `CStrings.FindSub` | tiny/tiny.c:149 | The search (the model of `strstr`) succeeds exactly when the pattern occurs, and returns the first occurrence. |
| `CStrings.SplitAt` | tiny/tiny.c:170-176 | Splitting at the first separator (the model of `index` plus the NUL write) returns the text before and after it. The parts rebuild the input, no separator occurs before the split point, and the result is `None` exactly when the separator is absent. |
| `CStrings.Words` | tiny/tiny.c:74 | The words `%s` conversions read are non-empty and contain no white space, and there are none exactly when the line is all white space. |
| `CStrings.WordsOfSpread` | tiny/tiny.c:74 | Non-empty words laid out with optional leading white space, any non-empty white space between them and optional trailing white space are read back as exactly those words. |
| `CStrings.IgnoreCaseIsFoldedEquality` | tiny/tiny.c:77 | The case-insensitive comparison (the model of `strcasecmp` returning 0) holds exactly when both strings folded to lower case are equal. |
| `CStrings.WordsOfLine` | tiny/tiny.c:69-74 | A request line as read from the socket, that is words separated by single spaces and ended by a white-space terminator such as CR LF, is read back as exactly those words. |
| `Tiny.IsGetSpellings` | tiny/tiny.c:77 | The method test accepts exactly the eight upper/lower-case spellings of `GET`. |
| `Tiny.ToCInt` | tiny/tiny.c:110 | Passing `st_size` as the `int` parameter keeps the value modulo 2^32, inside the 32-bit signed range. |
| `Tiny.Doit` | tiny/tiny.c:74-123 | A method that is not `GET` gives 501 "Not implemented", with the method as cause, and 501 happens only then. For `GET`, the cause or served file is the file name `parse_uri` gives. 404 happens exactly when `stat` fails. 403 happens exactly when the file exists but is not regular or lacks owner read (static) or owner execute (dynamic) permission. A static serve passes the converted size. A dynamic serve passes the CGI arguments `parse_uri` gives. The 404 long message is "Tiny couldn’t find this file"; the 403 one is "Tiny couldn’t read the file" for static and "Tiny couldn’t run the CGI program" for dynamic content. |
| `Tiny.Reply` | tiny/tiny.c:77-122 | What `doit` causes to be written: the rendered error response for a rejection, the head of the 200 response with the file's type and size for a static serve, and the 200 status line plus the `Server` header for a dynamic serve. |
| `Tiny.NotFoundExample` | tiny/tiny.c:69-97 | The request line `GET /x HTTP/1.0` CR LF, on a file system where `stat` fails for `./x`, is answered with 404 "Not found" naming `./x`. |
| `Tiny.NotFoundLength` | tiny/tiny.c:280-289 | That 404 reply advertises `Content-length: 144`, counting the three bytes of the apostrophe in the long message. |
| `Tiny.MethodGate` | tiny/tiny.c:69-81 | A request line (words, then a white-space terminator such as CR LF) whose first word is not `GET` is answered with the 501 rejection whatever the other words and whatever the file system holds. |
| `Tiny.GetIgnoresVersion` | tiny/tiny.c:69-90 | For `GET` request lines ended by a white-space terminator such as CR LF, the version word, anything after it and the terminator do not influence the decision. |
| `Tiny.DecidedByLeadingWords` | tiny/tiny.c:74-90 | Any two request lines with the same first word, and the same second word when the method is `GET`, get the same decision from `doit`. |
| `Tiny.ErrorReplyFramed` | tiny/tiny.c:77-118 | Every rejection `doit` makes is sent as a response a client parses. Its status code and reason are the error's, its `Content-length` is the page's length in bytes, and the page names the cause. |
| `Tiny.StaticReplyFramed` | tiny/tiny.c:104-110 | A static serve of a file under 2 GiB is a 200 response whose `Content-length` parses to the file's size. |

## Left out

- `main`, the accept loop, `Getnameinfo` and the logging `printf`s: socket
  I/O and process start-up.
- `read_requesthdrs`: it consumes header lines from the socket and returns
  only on a line that is exactly CR LF. `Doit` assumes it returns. A head
  that ends in a bare LF, or a client that closes before the blank line,
  keeps `doit` in that loop, so it never reaches `parse_uri` and sends no
  reply. The model does not cover that case.
- `stat`: modelled as a map from file name to the file's kind, owner read
  and execute bits, and size. A name absent from the map is one `stat` fails
  on.
- Opening, reading and writing the file in `serve_static`, and the
  `fork`/`setenv`/`dup2`/`execve`/`wait` of `serve_dynamic`: I/O and process
  control. `Reply` models only the text `doit` itself causes to be written.
- `MAXLINE`/`MAXBUF` buffer bounds and overflow: strings are unbounded.
  Strings are also assumed free of NUL characters.
- The `sprintf(buf, "%s…", buf)` self-append idiom (source and destination
  overlap, which C leaves undefined) is modelled as the concatenation it is
  evidently meant to perform.
- A request line with no words, or a `GET` with no URI, leaves `sscanf`
  fields unset that `doit` then reads. That is undefined in C, so `Doit`
  requires `Defined(line)` instead of modelling it. The same reason makes the
  URI non-empty for `ParseUri`.
- The conversion of `st_size` to `int` is modelled as the 32-bit wrap that
  common platforms perform. The C standard leaves an out-of-range
  conversion implementation-defined.
- Responses.ErrorBody: its contract states that the page names the error
  number, both messages and the cause. It does not state the exact HTML
  around them; that layout is fixed text with no property of its own.
- The proxy, cache and reader/writer code of the surrounding repository is
  not part of this model.
