/** HTTP/1.0 response framing, as a client reads what the server writes:
    a status line, header lines of the form `Name: value`, a blank line,
    then the body. Every line ends with CR LF. `Render` is the framing the
    server's response text follows; `ParseResponse` is its inverse. */
module HttpText {
  import opened Wrappers
  import opened CStrings

  const Crlf: string := "\r\n"

  datatype Header = Header(name: string, value: string)

  datatype Response = Response(
    version: string,
    code: string,
    reason: string,
    headers: seq<Header>,
    body: string)

  function HeaderLine(h: Header): string {
    h.name + ": " + h.value + Crlf
  }

  function HeaderText(hs: seq<Header>): string {
    if |hs| == 0 then [] else HeaderLine(hs[0]) + HeaderText(hs[1..])
  }

  function StatusLine(r: Response): string {
    r.version + " " + r.code + " " + r.reason + Crlf
  }

  function Render(r: Response): string {
    StatusLine(r) + HeaderText(r.headers) + Crlf + r.body
  }

  /** A header whose line can be read back unambiguously. */
  predicate WellFormedHeader(h: Header) {
    ':' !in h.name && '\r' !in h.name && '\r' !in h.value
  }

  /** A response whose text can be read back unambiguously: the version and
      code are single tokens and no field of the head carries a CR. */
  predicate WellFormed(r: Response) {
    && ' ' !in r.version && '\r' !in r.version
    && ' ' !in r.code && '\r' !in r.code
    && '\r' !in r.reason
    && HeadersWellFormed(r.headers)
  }

  predicate HeadersWellFormed(hs: seq<Header>) {
    forall i :: 0 <= i < |hs| ==> WellFormedHeader(hs[i])
  }

  lemma HeadersWellFormedCons(h: Header, hs: seq<Header>)
    requires WellFormedHeader(h) && HeadersWellFormed(hs)
    ensures HeadersWellFormed([h] + hs)
  {
    forall i | 0 <= i < |[h] + hs| ensures WellFormedHeader(([h] + hs)[i]) {
      if i > 0 { assert ([h] + hs)[i] == hs[i - 1]; }
    }
  }

  /** Splits a status line into version, code and reason phrase. */
  function ParseStatusLine(line: string): (r: Option<(string, string, string)>)
    ensures r.Some? ==> line == r.value.0 + " " + r.value.1 + " " + r.value.2
  {
    match SplitAt(line, " ")
    case None => None
    case Some((version, rest)) =>
      match SplitAt(rest, " ")
      case None => None
      case Some((code, reason)) => Some((version, code, reason))
  }

  function ParseHeaderLine(line: string): (r: Option<Header>)
    ensures r.Some? ==> line == r.value.name + ": " + r.value.value
  {
    match SplitAt(line, ": ")
    case None => None
    case Some((name, value)) => Some(Header(name, value))
  }

  /** Reads header lines up to and including the blank line that ends the
      head; returns the headers and the text after the blank line. */
  function ParseHead(s: string): (r: Option<(seq<Header>, string)>)
    ensures r.Some? ==> s == HeaderText(r.value.0) + Crlf + r.value.1
    decreases |s|
  {
    var split := SplitAt(s, Crlf);
    if split.None? then None
    else
      var line, rest := split.value.0, split.value.1;
      if line == [] then
        assert s == HeaderText([]) + Crlf + rest;
        Some(([], rest))
      else
        var h := ParseHeaderLine(line);
        if h.None? then None
        else
          var tail := ParseHead(rest);
          if tail.None? then None
          else
            HeaderTextCons(h.value, tail.value.0, tail.value.1);
            Some(([h.value] + tail.value.0, tail.value.1))
  }

  lemma HeaderTextFront(h: Header, hs: seq<Header>)
    ensures HeaderText([h] + hs) == HeaderLine(h) + HeaderText(hs)
  {
    assert ([h] + hs)[1..] == hs;
  }

  lemma HeaderTextOfTwo(a: Header, b: Header)
    ensures HeaderText([a, b]) == HeaderLine(a) + HeaderLine(b)
  {
    assert [a, b][1..] == [b];
    assert [b][1..] == [];
    assert HeaderText([b]) == HeaderLine(b) + [] == HeaderLine(b);
  }

  lemma HeaderTextOfFour(a: Header, b: Header, c: Header, d: Header)
    ensures HeaderText([a, b, c, d])
         == HeaderLine(a) + (HeaderLine(b) + (HeaderLine(c) + HeaderLine(d)))
  {
    assert [a, b, c, d][1..] == [b, c, d];
    assert [b, c, d][1..] == [c, d];
    HeaderTextOfTwo(c, d);
  }

  lemma WellFormedOfTwo(a: Header, b: Header)
    requires WellFormedHeader(a) && WellFormedHeader(b)
    ensures HeadersWellFormed([a, b])
  {
  }

  lemma WellFormedOfFour(a: Header, b: Header, c: Header, d: Header)
    requires WellFormedHeader(a) && WellFormedHeader(b)
    requires WellFormedHeader(c) && WellFormedHeader(d)
    ensures HeadersWellFormed([a, b, c, d])
  {
    var hs := [a, b, c, d];
    forall i | 0 <= i < |hs| ensures WellFormedHeader(hs[i]) {
      assert hs[i] == a || hs[i] == b || hs[i] == c || hs[i] == d;
    }
  }

  lemma HeaderTextCons(h: Header, hs: seq<Header>, body: string)
    ensures HeaderText([h] + hs) + Crlf + body
         == (h.name + ": " + h.value) + Crlf + (HeaderText(hs) + Crlf + body)
  {
    assert ([h] + hs)[1..] == hs;
  }

  /** Reads a whole response. Whatever it accepts, `Render` writes back
      character for character. */
  function ParseResponse(s: string): (r: Option<Response>)
    ensures r.Some? ==> Render(r.value) == s
  {
    var split := SplitAt(s, Crlf);
    if split.None? then None
    else
      var status := ParseStatusLine(split.value.0);
      var head := ParseHead(split.value.1);
      if status.None? || head.None? then None
      else
        var r := Response(status.value.0, status.value.1, status.value.2,
                          head.value.0, head.value.1);
        RenderSplit(r);
        Some(r)
  }

  /** The rendered text is the status line's text, a CR LF, and the rest. */
  lemma RenderSplit(r: Response)
    ensures Render(r) == (r.version + " " + r.code + " " + r.reason) + Crlf
                         + (HeaderText(r.headers) + Crlf + r.body)
  {
  }

  lemma {:induction false} ParseHeadOfText(hs: seq<Header>, body: string)
    requires HeadersWellFormed(hs)
    ensures ParseHead(HeaderText(hs) + Crlf + body) == Some((hs, body))
    decreases |hs|
  {
    if |hs| == 0 {
      assert HeaderText(hs) + Crlf + body == [] + Crlf + body;
      SplitAtFirst([], Crlf, body);
    } else {
      var h := hs[0];
      var line := h.name + ": " + h.value;
      var rest := HeaderText(hs[1..]) + Crlf + body;
      assert HeaderText(hs) + Crlf + body == line + Crlf + rest;
      assert '\r' !in line;
      SplitAtFirst(line, Crlf, rest);
      SplitAtFirst(h.name, ": ", h.value);
      ParseHeadOfText(hs[1..], body);
      assert hs == [h] + hs[1..];
    }
  }

  lemma StatusLineRoundTrip(version: string, code: string, reason: string)
    requires ' ' !in version && ' ' !in code
    ensures ParseStatusLine(version + " " + code + " " + reason) == Some((version, code, reason))
  {
    assert version + " " + code + " " + reason == version + " " + (code + " " + reason);
    SplitAtFirst(version, " ", code + " " + reason);
    SplitAtFirst(code, " ", reason);
  }

  /** Reading what `Render` wrote gives back the response it rendered. */
  lemma ParseRender(r: Response)
    requires WellFormed(r)
    ensures ParseResponse(Render(r)) == Some(r)
  {
    var line := r.version + " " + r.code + " " + r.reason;
    var rest := HeaderText(r.headers) + Crlf + r.body;
    RenderSplit(r);
    assert '\r' !in line;
    SplitAtFirst(line, Crlf, rest);
    StatusLineRoundTrip(r.version, r.code, r.reason);
    ParseHeadOfText(r.headers, r.body);
  }

  /** The value of the first header called `name`, if any. */
  function HeaderValue(hs: seq<Header>, name: string): (v: Option<string>)
    ensures v.Some? ==> exists i :: 0 <= i < |hs| && hs[i] == Header(name, v.value)
    ensures v.None? ==> forall i :: 0 <= i < |hs| ==> hs[i].name != name
  {
    if |hs| == 0 then None
    else if hs[0].name == name then Some(hs[0].value)
    else
      var v := HeaderValue(hs[1..], name);
      assert v.Some? ==> exists i :: 0 <= i < |hs| && hs[i] == Header(name, v.value) by {
        if v.Some? {
          var i :| 0 <= i < |hs[1..]| && hs[1..][i] == Header(name, v.value);
          assert hs[i + 1] == Header(name, v.value);
        }
      }
      v
  }
}
