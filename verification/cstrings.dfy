/** The C library string routines the server relies on (`strstr`, `index`,
    `strcasecmp` and the `%s` conversion of `sscanf`), stated over `seq<char>`.
    C strings end at their first NUL; the strings here are assumed NUL-free. */
module CStrings {
  import opened Wrappers

  /** `pat` occurs in `s` starting at index `i`. */
  predicate OccursAt(s: string, pat: string, i: int) {
    0 <= i && i + |pat| <= |s| && s[i..i + |pat|] == pat
  }

  /** `pat` is a substring of `s` (what a non-null `strstr` reports). */
  ghost predicate Contains(s: string, pat: string) {
    exists i :: OccursAt(s, pat, i)
  }

  /** The first occurrence of `pat` in `s` at or after index `k`. */
  function FindFrom(s: string, pat: string, k: nat): (r: Option<nat>)
    ensures r.Some? ==> k <= r.value && OccursAt(s, pat, r.value)
    ensures r.Some? ==> forall j :: k <= j < r.value ==> !OccursAt(s, pat, j)
    ensures r.None? ==> forall j :: k <= j ==> !OccursAt(s, pat, j)
    decreases |s| - k
  {
    if k + |pat| > |s| then None
    else if s[k..k + |pat|] == pat then Some(k)
    else FindFrom(s, pat, k + 1)
  }

  /** `strstr(s, pat)`: the index of the first occurrence of `pat`, or
      `None` for a null result. */
  function FindSub(s: string, pat: string): (r: Option<nat>)
    ensures r.Some? <==> Contains(s, pat)
    ensures r.Some? ==> OccursAt(s, pat, r.value)
    ensures r.Some? ==> forall j :: 0 <= j < r.value ==> !OccursAt(s, pat, j)
  {
    FindFrom(s, pat, 0)
  }

  /** Splits `s` around the first occurrence of `sep`, as the server does
      with `index(uri, '?')` followed by overwriting the `'?'` with NUL. */
  function SplitAt(s: string, sep: string): (r: Option<(string, string)>)
    ensures r.None? <==> !Contains(s, sep)
    ensures r.Some? ==> s == r.value.0 + sep + r.value.1
    ensures r.Some? ==> forall j :: 0 <= j < |r.value.0| ==> !OccursAt(s, sep, j)
  {
    match FindSub(s, sep)
    case None => None
    case Some(i) =>
      assert s == s[..i] + sep + s[i + |sep|..];
      Some((s[..i], s[i + |sep|..]))
  }

  /** When the first character of `sep` does not occur in `a`, the first
      occurrence of `sep` in `a + sep + b` is the one right after `a`. */
  lemma SplitAtFirst(a: string, sep: string, b: string)
    requires |sep| > 0 && sep[0] !in a
    ensures SplitAt(a + sep + b, sep) == Some((a, b))
  {
    var s := a + sep + b;
    assert OccursAt(s, sep, |a|) by { assert s[|a|..|a| + |sep|] == sep; }
    forall j | 0 <= j < |a| ensures !OccursAt(s, sep, j) {
      OccursAtFirstChar(s, sep, j);
      assert s[j] == a[j];
    }
    assert s[..|a|] == a;
    assert s[|a| + |sep|..] == b;
  }

  /** An occurrence begins with the pattern's first character. */
  lemma OccursAtFirstChar(s: string, pat: string, j: int)
    requires |pat| > 0 && 0 <= j < |s|
    ensures OccursAt(s, pat, j) ==> s[j] == pat[0]
  {
    if OccursAt(s, pat, j) {
      assert s[j..j + |pat|][0] == s[j];
    }
  }

  /** A substring survives any text added around it. */
  lemma ContainsInContext(pre: string, s: string, post: string, pat: string)
    requires Contains(s, pat)
    ensures Contains(pre + s + post, pat)
  {
    var i :| OccursAt(s, pat, i);
    var t := pre + s + post;
    assert t[|pre| + i..|pre| + i + |pat|] == s[i..i + |pat|];
    assert OccursAt(t, pat, |pre| + i);
  }

  /** Every string contains itself, whatever surrounds it. */
  lemma ContainsMiddle(pre: string, x: string, post: string)
    ensures Contains(pre + x + post, x)
  {
    var t := pre + x + post;
    assert t[|pre|..|pre| + |x|] == x;
    assert OccursAt(t, x, |pre|);
  }

  /** Each of four pieces interleaved with separators is a substring of
      the whole. */
  lemma ContainsEachOfFour(p0: string, x1: string, p1: string, x2: string, p2: string,
                           x3: string, p3: string, x4: string, p4: string)
    ensures var w := p0 + x1 + p1 + x2 + p2 + x3 + p3 + x4 + p4;
      Contains(w, x1) && Contains(w, x2) && Contains(w, x3) && Contains(w, x4)
  {
    var w := p0 + x1 + p1 + x2 + p2 + x3 + p3 + x4 + p4;
    assert w == p0 + x1 + (p1 + x2 + p2 + x3 + p3 + x4 + p4);
    ContainsMiddle(p0, x1, p1 + x2 + p2 + x3 + p3 + x4 + p4);
    assert w == (p0 + x1 + p1) + x2 + (p2 + x3 + p3 + x4 + p4);
    ContainsMiddle(p0 + x1 + p1, x2, p2 + x3 + p3 + x4 + p4);
    assert w == (p0 + x1 + p1 + x2 + p2) + x3 + (p3 + x4 + p4);
    ContainsMiddle(p0 + x1 + p1 + x2 + p2, x3, p3 + x4 + p4);
    assert w == (p0 + x1 + p1 + x2 + p2 + x3 + p3) + x4 + p4;
    ContainsMiddle(p0 + x1 + p1 + x2 + p2 + x3 + p3, x4, p4);
  }

  /** A one-character pattern occurs exactly where that character is. */
  lemma OccursAtChar(s: string, c: char, j: int)
    requires 0 <= j < |s|
    ensures OccursAt(s, [c], j) <==> s[j] == c
  {
    assert s[j..j + 1] == [s[j]];
  }

  /** `index(s, c)` is non-null exactly when `c` is in `s`. */
  lemma ContainsChar(s: string, c: char)
    ensures Contains(s, [c]) <==> c in s
  {
    if c in s {
      var j :| 0 <= j < |s| && s[j] == c;
      OccursAtChar(s, c, j);
    }
    if Contains(s, [c]) {
      var j :| OccursAt(s, [c], j);
      OccursAtChar(s, c, j);
    }
  }

  /** The text before the first occurrence of a character does not hold it. */
  lemma SplitAtCharPrefix(s: string, c: char)
    requires SplitAt(s, [c]).Some?
    ensures c !in SplitAt(s, [c]).value.0
  {
    var a := SplitAt(s, [c]).value.0;
    forall j | 0 <= j < |a| ensures a[j] != c {
      OccursAtChar(s, c, j);
      assert s[j] == a[j];
    }
  }

  /** `tolower` in the C locale: only `A`..`Z` change. */
  function Lower(c: char): char {
    if 'A' <= c <= 'Z' then (c as int + 32) as char else c
  }

  /** `strcasecmp(a, b) == 0`: position by position, the characters agree
      once folded to lower case. */
  predicate EqualsIgnoreCase(a: string, b: string) {
    |a| == |b| && forall i :: 0 <= i < |a| ==> Lower(a[i]) == Lower(b[i])
  }

  /** The whole string folded to lower case. */
  function LowerAll(s: string): string {
    if |s| == 0 then [] else [Lower(s[0])] + LowerAll(s[1..])
  }

  lemma {:induction false} LowerAllAt(s: string)
    ensures |LowerAll(s)| == |s|
    ensures forall i :: 0 <= i < |s| ==> LowerAll(s)[i] == Lower(s[i])
    decreases |s|
  {
    if |s| > 0 {
      LowerAllAt(s[1..]);
      assert forall i :: 1 <= i < |s| ==> LowerAll(s)[i] == LowerAll(s[1..])[i - 1];
    }
  }

  /** The comparison is equality of the lower-case foldings of both
      strings, the way `strcasecmp` is defined. */
  lemma IgnoreCaseIsFoldedEquality(a: string, b: string)
    ensures EqualsIgnoreCase(a, b) <==> LowerAll(a) == LowerAll(b)
  {
    LowerAllAt(a);
    LowerAllAt(b);
    if LowerAll(a) == LowerAll(b) {
      forall i | 0 <= i < |a| ensures Lower(a[i]) == Lower(b[i]) {
        assert LowerAll(a)[i] == LowerAll(b)[i];
      }
    }
  }

  /** The characters `isspace` accepts in the C locale. */
  predicate IsSpace(c: char) {
    c == ' ' || c == '\t' || c == '\n' || c == '\U{000B}' || c == '\U{000C}' || c == '\r'
  }

  predicate NoSpace(s: string) {
    forall i :: 0 <= i < |s| ==> !IsSpace(s[i])
  }

  /** Length of the run of white space at the front of `s`. */
  function SpaceRun(s: string): (n: nat)
    ensures n <= |s|
    ensures forall i :: 0 <= i < n ==> IsSpace(s[i])
    ensures n == |s| || !IsSpace(s[n])
  {
    if |s| > 0 && IsSpace(s[0]) then 1 + SpaceRun(s[1..]) else 0
  }

  /** Length of the run of non-space characters at the front of `s`. */
  function WordRun(s: string): (n: nat)
    ensures n <= |s|
    ensures forall i :: 0 <= i < n ==> !IsSpace(s[i])
    ensures n == |s| || IsSpace(s[n])
  {
    if |s| > 0 && !IsSpace(s[0]) then 1 + WordRun(s[1..]) else 0
  }

  /** One `%s` conversion: skip white space, then take the longest run of
      non-space characters. Returns the word and the unread remainder. */
  function ScanWord(s: string): (r: (string, string))
    ensures NoSpace(r.0)
    ensures |r.0| + |r.1| <= |s|
    ensures r.1 == [] || IsSpace(r.1[0])
    ensures r.0 == [] ==> r.1 == []
  {
    var k := SpaceRun(s);
    var t := s[k..];
    var n := WordRun(t);
    (t[..n], t[n..])
  }

  /** The white-space separated words of `s`, in order: what repeated `%s`
      conversions of `sscanf` read. */
  function Words(s: string): (ws: seq<string>)
    ensures forall i :: 0 <= i < |ws| ==> |ws[i]| > 0 && NoSpace(ws[i])
    ensures ws == [] <==> AllSpace(s)
    decreases |s|
  {
    var r := ScanWord(s);
    var k := SpaceRun(s);
    assert r.0 == [] <==> k == |s| by {
      if k < |s| {
        assert s[k..][0] == s[k];
        assert WordRun(s[k..]) > 0;
      }
    }
    if r.0 == [] then [] else [r.0] + Words(r.1)
  }

  /** Words joined by single spaces. */
  function JoinWords(ws: seq<string>): string {
    if |ws| == 0 then []
    else if |ws| == 1 then ws[0]
    else ws[0] + " " + JoinWords(ws[1..])
  }

  /** Leading white space is skipped by every `%s` conversion. */
  lemma ScanWordSkipsSpace(sp: string, s: string)
    requires forall i :: 0 <= i < |sp| ==> IsSpace(sp[i])
    requires s == [] || !IsSpace(s[0])
    ensures ScanWord(sp + s) == ScanWord(s)
  {
    var t := sp + s;
    assert forall i :: 0 <= i < |sp| ==> t[i] == sp[i];
    assert |s| > 0 ==> t[|sp|] == s[0];
    var k := SpaceRun(t);
    assert k == |sp|;
    assert t[k..] == s;
    assert SpaceRun(s) == 0;
    assert s[0..] == s;
  }

  /** The word at the front of `w + rest`, for a space-free `w` followed by
      white space or nothing. */
  lemma ScanWordFront(w: string, rest: string)
    requires |w| > 0 && NoSpace(w)
    requires rest == [] || IsSpace(rest[0])
    ensures ScanWord(w + rest) == (w, rest)
  {
    var t := w + rest;
    assert forall i :: 0 <= i < |w| ==> t[i] == w[i];
    assert |rest| > 0 ==> t[|w|] == rest[0];
    assert SpaceRun(t) == 0 by { assert !IsSpace(t[0]); }
    assert t[0..] == t;
    var n := WordRun(t);
    assert n == |w|;
    assert t[..n] == w;
    assert t[n..] == rest;
  }

  predicate AllSpace(s: string) {
    forall i :: 0 <= i < |s| ==> IsSpace(s[i])
  }

  /** White space alone holds no word. */
  lemma AllSpaceWords(sp: string)
    requires AllSpace(sp)
    ensures Words(sp) == []
  {
    ScanWordSkipsSpace(sp, []);
    assert sp + [] == sp;
    assert ScanWord([]).0 == [];
  }

  /** A word read off the front of `lead + w + t`, where `lead` is white
      space and `t` is empty or starts with white space. */
  lemma WordsFront(lead: string, w: string, t: string)
    requires AllSpace(lead) && |w| > 0 && NoSpace(w)
    requires t == [] || IsSpace(t[0])
    ensures Words(lead + w + t) == [w] + Words(t)
  {
    assert lead + w + t == lead + (w + t);
    assert (w + t)[0] == w[0];
    ScanWordSkipsSpace(lead, w + t);
    ScanWordFront(w, t);
  }

  /** Words laid out with arbitrary white space: gap `gaps[i]` follows word
      `ws[i]`. */
  function Spread(ws: seq<string>, gaps: seq<string>): string
    requires |gaps| == |ws|
  {
    if |ws| == 0 then [] else ws[0] + gaps[0] + Spread(ws[1..], gaps[1..])
  }

  /** Non-empty space-free words; white-space gaps, every gap between two
      words non-empty, the gap after the last word possibly empty. */
  predicate Layout(ws: seq<string>, gaps: seq<string>) {
    && |gaps| == |ws|
    && (forall i :: 0 <= i < |ws| ==> |ws[i]| > 0 && NoSpace(ws[i]))
    && (forall i :: 0 <= i < |gaps| ==> AllSpace(gaps[i]))
    && (forall i :: 0 <= i < |gaps| - 1 ==> |gaps[i]| > 0)
  }

  /** Tokenising reads back exactly the words of any layout, whatever white
      space comes before, between and after them. */
  lemma {:induction false} WordsOfSpread(lead: string, ws: seq<string>, gaps: seq<string>)
    requires AllSpace(lead) && Layout(ws, gaps)
    ensures Words(lead + Spread(ws, gaps)) == ws
    decreases |ws|
  {
    if |ws| == 0 {
      assert lead + Spread(ws, gaps) == lead;
      AllSpaceWords(lead);
    } else {
      var w, g := ws[0], gaps[0];
      var rest := Spread(ws[1..], gaps[1..]);
      var t := g + rest;
      assert Layout(ws[1..], gaps[1..]);
      if |ws| > 1 {
        assert |g| > 0 && t[0] == g[0];
      } else {
        assert t == g;
      }
      assert lead + Spread(ws, gaps) == lead + w + t;
      WordsFront(lead, w, t);
      WordsOfSpread(g, ws[1..], gaps[1..]);
      assert ws == [w] + ws[1..];
    }
  }

  /** The gaps of a line of `n` words: single spaces, then `eol`. */
  function LineGaps(n: nat, eol: string): seq<string> {
    seq(n, i => if i == n - 1 then eol else " ")
  }

  lemma {:induction false} JoinIsSpread(ws: seq<string>, eol: string)
    requires |ws| > 0
    ensures JoinWords(ws) + eol == Spread(ws, LineGaps(|ws|, eol))
    decreases |ws|
  {
    var gs := LineGaps(|ws|, eol);
    if |ws| == 1 {
      assert gs[0] == eol;
      assert Spread(ws[1..], gs[1..]) == [];
    } else {
      assert gs[0] == " ";
      assert gs[1..] == LineGaps(|ws| - 1, eol);
      JoinIsSpread(ws[1..], eol);
      assert JoinWords(ws) + eol == ws[0] + " " + (JoinWords(ws[1..]) + eol);
    }
  }

  /** A request line as `Rio_readlineb` delivers it: words joined by single
      spaces, then the line's white-space terminator. Tokenising it gives
      the words back. */
  lemma WordsOfLine(ws: seq<string>, eol: string)
    requires forall i :: 0 <= i < |ws| ==> |ws[i]| > 0 && NoSpace(ws[i])
    requires AllSpace(eol)
    ensures Words(JoinWords(ws) + eol) == ws
  {
    if |ws| == 0 {
      assert JoinWords(ws) + eol == eol;
      AllSpaceWords(eol);
    } else {
      var gs := LineGaps(|ws|, eol);
      JoinIsSpread(ws, eol);
      assert forall i :: 0 <= i < |gs| ==> AllSpace(gs[i]);
      assert Layout(ws, gs);
      WordsOfSpread([], ws, gs);
      assert [] + Spread(ws, gs) == Spread(ws, gs);
    }
  }
}
