/** `parse_uri` of the Tiny server (tiny/tiny.c): turns a request URI into
    the local file to serve or run, plus the CGI argument string. */
module Uri {
  import opened Wrappers
  import opened CStrings

  /** Any URI naming this directory is served dynamically. */
  const CgiDir: string := "cgi-bin"

  /** The page served for a URI that names a directory. */
  const HomePage: string := "home.html"

  /** The outcome of `parse_uri`: its return value (1 for static content)
      and the two strings it writes. */
  datatype Target = Target(isStatic: bool, filename: string, cgiargs: string)

  /** The C code reads the URI's last character, so the URI is non-empty;
      a URI read by `%s` always is. */
  function ParseUri(uri: string): (t: Target)
    requires |uri| > 0
    ensures t.isStatic <==> !Contains(uri, CgiDir)
    ensures |t.filename| > 0 && t.filename[0] == '.'
    ensures t.isStatic ==> t.cgiargs == []
    ensures t.isStatic ==> t.filename == "." + uri || t.filename == "." + uri + HomePage
    ensures t.isStatic ==> (t.filename == "." + uri + HomePage <==> uri[|uri| - 1] == '/')
    ensures !t.isStatic ==> '?' !in t.filename[1..]
    ensures !t.isStatic && '?' in uri ==> uri == t.filename[1..] + "?" + t.cgiargs
    ensures !t.isStatic && '?' !in uri ==> t.filename == "." + uri && t.cgiargs == []
  {
    if FindSub(uri, CgiDir).None? then
      Target(true, "." + uri + (if uri[|uri| - 1] == '/' then HomePage else []), [])
    else
      ContainsChar(uri, '?');
      match SplitAt(uri, "?")
      case Some((path, args)) =>
        SplitAtCharPrefix(uri, '?');
        assert ("." + path)[1..] == path;
        Target(false, "." + path, args)
      case None =>
        assert ("." + uri)[1..] == uri;
        Target(false, "." + uri, [])
  }

  /** The CGI test looks at the whole URI, query included: a query that
      mentions the CGI directory makes any path dynamic, and the path
      before the `?` becomes the program to run. */
  lemma QueryMakesDynamic(path: string, query: string)
    requires '?' !in path
    requires Contains(query, CgiDir)
    ensures ParseUri(path + "?" + query) == Target(false, "." + path, query)
  {
    var uri := path + "?" + query;
    ContainsInContext(path + "?", query, [], CgiDir);
    assert uri == path + "?" + query + [];
    SplitAtFirst(path, "?", query);
  }
}
