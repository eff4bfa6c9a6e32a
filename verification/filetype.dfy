/** `get_filetype` of the Tiny server (tiny/tiny.c): the MIME type sent in
    the `Content-type` header of static content. */
module FileType {
  import opened CStrings

  /** One entry of the priority list: a name fragment and the type it
      selects. */
  datatype MimeRule = MimeRule(fragment: string, mime: string)

  /** The fragments in the order the server tests them. */
  const Rules: seq<MimeRule> := [
    MimeRule(".html", "text/html"),
    MimeRule(".gif", "image/gif"),
    MimeRule(".png", "image/png"),
    MimeRule(".jpg", "image/jpeg"),
    MimeRule(".mp4", "video/mp4")
  ]

  /** The type of a file whose name matches no fragment. */
  const DefaultMime: string := "text/plain"

  /** A fragment anywhere in the name selects the type, not only a suffix;
      earlier fragments take precedence over later ones. */
  function GetFiletype(filename: string): (t: string)
    ensures t == "text/html" <==> Contains(filename, ".html")
    ensures t == "image/gif" <==> !Contains(filename, ".html") && Contains(filename, ".gif")
    ensures t == "image/png" <==>
      !Contains(filename, ".html") && !Contains(filename, ".gif") && Contains(filename, ".png")
    ensures t == "image/jpeg" <==>
      !Contains(filename, ".html") && !Contains(filename, ".gif") && !Contains(filename, ".png")
      && Contains(filename, ".jpg")
    ensures t == "video/mp4" <==>
      !Contains(filename, ".html") && !Contains(filename, ".gif") && !Contains(filename, ".png")
      && !Contains(filename, ".jpg") && Contains(filename, ".mp4")
    ensures t == DefaultMime <==>
      !Contains(filename, ".html") && !Contains(filename, ".gif") && !Contains(filename, ".png")
      && !Contains(filename, ".jpg") && !Contains(filename, ".mp4")
  {
    if FindSub(filename, ".html").Some? then "text/html"
    else if FindSub(filename, ".gif").Some? then "image/gif"
    else if FindSub(filename, ".png").Some? then "image/png"
    else if FindSub(filename, ".jpg").Some? then "image/jpeg"
    else if FindSub(filename, ".mp4").Some? then "video/mp4"
    else DefaultMime
  }

  /** Reference reading of a priority list: the type of the first rule
      whose fragment occurs in the name, or the default. */
  ghost function FirstMatch(rules: seq<MimeRule>, filename: string): string {
    if |rules| == 0 then DefaultMime
    else if Contains(filename, rules[0].fragment) then rules[0].mime
    else FirstMatch(rules[1..], filename)
  }

  /** The if-chain is the first-match reading of the rule list. */
  lemma FiletypeIsFirstMatch(filename: string)
    ensures GetFiletype(filename) == FirstMatch(Rules, filename)
  {
    var f := filename;
    var r1 := Rules[1..];
    var r2 := r1[1..];
    var r3 := r2[1..];
    var r4 := r3[1..];
    assert r4[1..] == [];
    assert FirstMatch(r4, f) == if Contains(f, ".mp4") then "video/mp4" else DefaultMime;
    assert FirstMatch(r3, f) == if Contains(f, ".jpg") then "image/jpeg" else FirstMatch(r4, f);
    assert FirstMatch(r2, f) == if Contains(f, ".png") then "image/png" else FirstMatch(r3, f);
    assert FirstMatch(r1, f) == if Contains(f, ".gif") then "image/gif" else FirstMatch(r2, f);
    assert FirstMatch(Rules, f) == if Contains(f, ".html") then "text/html" else FirstMatch(r1, f);
  }

  /** Every name gets one of the listed types or the default. */
  lemma FiletypeRange(filename: string)
    ensures GetFiletype(filename) == DefaultMime
         || exists i :: 0 <= i < |Rules| && GetFiletype(filename) == Rules[i].mime
  {
    FiletypeIsFirstMatch(filename);
    FirstMatchRange(Rules, filename);
  }

  lemma {:induction false} FirstMatchRange(rules: seq<MimeRule>, filename: string)
    ensures FirstMatch(rules, filename) == DefaultMime
         || exists i :: 0 <= i < |rules| && FirstMatch(rules, filename) == rules[i].mime
  {
    if |rules| > 0 && !Contains(filename, rules[0].fragment) {
      FirstMatchRange(rules[1..], filename);
      var t := FirstMatch(rules, filename);
      if t != DefaultMime {
        var i :| 0 <= i < |rules[1..]| && t == rules[1..][i].mime;
        assert t == rules[i + 1].mime;
      }
    }
  }

  /** `.html` anywhere in the name wins, whatever else the name holds:
      `x.html.gif` is served as HTML. */
  lemma HtmlAnywhereWins(pre: string, post: string)
    ensures GetFiletype(pre + ".html" + post) == "text/html"
  {
    ContainsMiddle(pre, ".html", post);
  }
}
