/** The third pass of `formatEpub` (epubserver.py:243-251): image references found by the
    pattern `(src|xlink:href)="([a-zA-Z0-9/\-._]+\.(jpg|png|jpeg|gif))` are pointed at the
    server's `/asset` route, named by their base name. The pattern is scanned by hand here,
    with the leftmost, greedy, backtracking, non-overlapping semantics of `re.findall`. */
module ImagePass {
  import opened Wrappers
  import opened Strings
  import opened Encoding
  import opened Routes

  /** The attribute an image reference was found in. */
  datatype Attr = Src | XLink

  /** One result of `findall`: the attribute (group 1) and the image path (group 2). */
  datatype ImgMatch = ImgMatch(attr: Attr, path: string)

  /** The attribute text up to and including the opening quote. */
  function Opening(attr: Attr): string
  {
    match attr
    case Src => "src=\""
    case XLink => "xlink:href=\""
  }

  /** The character class `[a-zA-Z0-9/\-._]` of an image path. */
  predicate PathChar(c: char) {
    ('a' <= c <= 'z') || ('A' <= c <= 'Z') || ('0' <= c <= '9') || c == '/' || c == '-' || c == '.' || c == '_'
  }

  /** The extensions of the pattern's last group, in the order the alternation tries them. */
  const Extensions: seq<string> := ["jpg", "png", "jpeg", "gif"]

  predicate AllPathChars(s: string) {
    forall j :: 0 <= j < |s| ==> PathChar(s[j])
  }

  /** `s` ends in `.` and `ext`, with at least one character before the dot. */
  predicate HasExtension(s: string, ext: string) {
    |ext| + 2 <= |s| && s[|s| - |ext| - 1..] == "." + ext
  }

  /** `s` ends in `.` and one of the extensions, with at least one character before the dot. */
  predicate EndsWithImageExtension(s: string) {
    exists ext :: ext in Extensions && HasExtension(s, ext)
  }

  /** The length of the run of path characters starting at `i`. */
  function RunLength(s: string, i: nat): (n: nat)
    requires i <= |s|
    ensures i + n <= |s|
    ensures forall j :: i <= j < i + n ==> PathChar(s[j])
    ensures i + n < |s| ==> !PathChar(s[i + n])
    decreases |s| - i
  {
    if i < |s| && PathChar(s[i]) then 1 + RunLength(s, i + 1) else 0
  }

  /** The extension the alternation `(jpg|png|jpeg|gif)` matches at `i`: the first that occurs. */
  function ExtAt(s: string, i: nat): (r: Option<string>)
    ensures r.Some? ==> At(s, r.value, i)
  {
    if At(s, "jpg", i) then Some("jpg")
    else if At(s, "png", i) then Some("png")
    else if At(s, "jpeg", i) then Some("jpeg")
    else if At(s, "gif", i) then Some("gif")
    else None
  }

  /** The extension matched after a dot at `i`, if the text has a dot there. */
  function DotExt(s: string, i: nat): (r: Option<string>)
    ensures r.Some? ==> i < |s| && s[i] == '.' && At(s, r.value, i + 1)
  {
    if i < |s| && s[i] == '.' then ExtAt(s, i + 1) else None
  }

  /** What the alternation matches is one of the extensions. */
  lemma DotExtIsExtension(s: string, i: nat, ext: string)
    requires DotExt(s, i) == Some(ext)
    ensures ext in Extensions && AllPathChars(ext)
    ensures i < |s| && s[i] == '.' && i + 1 + |ext| <= |s| && s[i + 1..i + 1 + |ext|] == ext
  {
    ExtensionsArePathChars(ext);
  }

  /** Greedy backtracking of `[...]+\.`: the largest offset `k`, at most `n` and at least 1,
      at which a dot and an extension follow the path characters from `q`. */
  function Backtrack(s: string, q: nat, n: nat): (r: Option<nat>)
    ensures r.Some? ==> 1 <= r.value <= n
    decreases n
  {
    if n == 0 then None
    else if DotExt(s, q + n).Some? then Some(n)
    else Backtrack(s, q, n - 1)
  }

  /** The offset backtracking settles on has a dot and an extension after it. */
  lemma {:induction false} BacktrackFinds(s: string, q: nat, n: nat)
    requires Backtrack(s, q, n).Some?
    ensures DotExt(s, q + Backtrack(s, q, n).value).Some?
    decreases n
  {
    if DotExt(s, q + n).None? {
      BacktrackSkips(s, q, n);
      BacktrackFinds(s, q, n - 1);
    }
  }

  /** Backtracking gives up only when no offset works, and otherwise picks the largest one:
      no dot with an extension follows at any offset `i - q` from 1 to `n` that it passed over. */
  lemma {:induction false} BacktrackIsGreedy(s: string, q: nat, n: nat, i: nat)
    requires q + 1 <= i <= q + n
    requires Backtrack(s, q, n).None? || q + Backtrack(s, q, n).value < i
    ensures DotExt(s, i).None?
    decreases n
  {
    if DotExt(s, q + n).None? && i < q + n {
      BacktrackSkips(s, q, n);
      BacktrackIsGreedy(s, q, n - 1, i);
    }
  }

  /** An offset without a dot and an extension is passed over. */
  lemma BacktrackSkips(s: string, q: nat, n: nat)
    requires n > 0 && DotExt(s, q + n).None?
    ensures Backtrack(s, q, n) == Backtrack(s, q, n - 1)
  {
  }

  /** The attribute whose opening starts at `p`, if any (the alternation tries `src` first). */
  function AttrAt(s: string, p: nat): Option<Attr>
  {
    if At(s, Opening(Src), p) then Some(Src)
    else if At(s, Opening(XLink), p) then Some(XLink)
    else None
  }

  /** The end of the image path starting at `q`: the path characters from `q` up to the last
      dot that an extension follows, and that extension. */
  function PathEnd(s: string, q: nat): (r: Option<nat>)
    requires q <= |s|
    ensures r.Some? ==> q <= r.value <= |s|
  {
    var k := Backtrack(s, q, RunLength(s, q));
    if k.None? then None
    else
      BacktrackFinds(s, q, RunLength(s, q));
      var ext := DotExt(s, q + k.value).value;
      Some(q + k.value + 1 + |ext|)
  }

  /** The path that ends there is made of path characters and ends with an image extension. */
  lemma PathEndIsSound(s: string, q: nat)
    requires q <= |s| && PathEnd(s, q).Some?
    ensures AllPathChars(s[q..PathEnd(s, q).value]) && EndsWithImageExtension(s[q..PathEnd(s, q).value])
  {
    var k := Backtrack(s, q, RunLength(s, q)).value;
    BacktrackFinds(s, q, RunLength(s, q));
    var ext := DotExt(s, q + k).value;
    DotExtIsExtension(s, q + k, ext);
    PathIsSound(s, q, k, ext, PathEnd(s, q).value);
  }

  /** The match of the pattern starting at `p`, with the index just past it: the attribute's
      opening, then a path of path characters that ends with an image extension. */
  function MatchAt(s: string, p: nat): (r: Option<(ImgMatch, nat)>)
    ensures r.Some? ==>
              && At(s, Opening(r.value.0.attr), p)
              && p + |Opening(r.value.0.attr)| <= r.value.1 <= |s|
              && r.value.0.path == s[p + |Opening(r.value.0.attr)|..r.value.1]
              && AllPathChars(r.value.0.path) && EndsWithImageExtension(r.value.0.path)
  {
    match AttrAt(s, p)
    case None => None
    case Some(attr) =>
      var q := p + |Opening(attr)|;
      match PathEnd(s, q)
      case None => None
      case Some(e) => PathEndIsSound(s, q); Some((ImgMatch(attr, s[q..e]), e))
  }

  /** The path the backtracking settles on, which a dot and an extension end, is made of path
      characters and ends with an image extension. */
  lemma PathIsSound(s: string, q: nat, k: nat, ext: string, e: nat)
    requires q <= |s| && 1 <= k <= RunLength(s, q)
    requires ext in Extensions && AllPathChars(ext)
    requires e == q + k + 1 + |ext| <= |s| && s[q + k] == '.' && s[q + k + 1..e] == ext
    ensures AllPathChars(s[q..e]) && EndsWithImageExtension(s[q..e])
  {
    var path, run := s[q..e], s[q..q + k + 1];
    assert k < RunLength(s, q);
    RunIsPathChars(s, q, k + 1);
    SliceSplit(s, q, q + k + 1, e);
    PathCharsConcat(run, ext);
    assert path[k..] == "." + ext;
    assert HasExtension(path, ext);
  }

  /** A prefix of the run of path characters is made of path characters. */
  lemma RunIsPathChars(s: string, q: nat, m: nat)
    requires q <= |s| && m <= RunLength(s, q)
    ensures AllPathChars(s[q..q + m])
  {
    var run := s[q..q + m];
    forall j | 0 <= j < |run| ensures PathChar(run[j]) {
      assert run[j] == s[q + j];
    }
  }

  lemma PathCharsConcat(a: string, b: string)
    requires AllPathChars(a) && AllPathChars(b)
    ensures AllPathChars(a + b)
  {
    forall j | 0 <= j < |a + b| ensures PathChar((a + b)[j]) {
      if j >= |a| {
        assert (a + b)[j] == b[j - |a|];
      }
    }
  }

  /** `findall` from position `p`: the leftmost match, then the matches after its end. */
  function FindAllFrom(s: string, p: nat): seq<ImgMatch>
    decreases |s| - p
  {
    if p >= |s| then []
    else
      match MatchAt(s, p)
      case None => FindAllFrom(s, p + 1)
      case Some((m, e)) => if e <= p then [] else [m] + FindAllFrom(s, e)
  }

  /** `IMGRE.findall(content)`. */
  function FindAll(s: string): seq<ImgMatch>
  {
    FindAllFrom(s, 0)
  }

  /** The `<img>` tag an inline SVG image is replaced by. */
  function ImgTag(file: string, path: string): string
  {
    "<img src=\"" + AssetRoute(file, BaseName(path)) + "\">"
  }

  /** The page after the loop's handling of one match (epubserver.py:245-251). */
  function Apply(file: string, content: string, m: ImgMatch): string
  {
    match m.attr
    case XLink =>
      Slice(content, 0, Find(content, "<svg", 0)) + ImgTag(file, m.path)
        + Slice(content, Find(content, "</svg>", 0) + 6, |content|)
    case Src => ReplaceAll(content, m.path, AssetRoute(file, BaseName(m.path)))
  }

  /** The page after handling `ms` in order. */
  function ApplyAll(file: string, content: string, ms: seq<ImgMatch>): string
    decreases |ms|
  {
    if ms == [] then content else ApplyAll(file, Apply(file, content, ms[0]), ms[1..])
  }

  /** The result of the image pass over a page: every match found in the page as it was before
      the pass, handled in order on the page as the earlier ones left it. */
  function Imaged(file: string, content: string): string
  {
    ApplyAll(file, content, FindAll(content))
  }

  /** The pass as the source runs it: a `for` loop over the matches, rebuilding the page. */
  method RewriteImages(file: string, content: string) returns (r: string)
    ensures r == Imaged(file, content)
  {
    var matches := FindAll(content);
    ghost var goal := Imaged(file, content);
    r := content;
    for i := 0 to |matches|
      invariant ApplyAll(file, r, matches[i..]) == goal
    {
      ghost var before := r;
      r := HandleMatch(file, r, matches[i]);
      ApplyAllStep(file, before, r, matches, i, goal);
    }
  }

  /** The loop body for one match (epubserver.py:245-251): an `xlink:href` image replaces the
      page's first `<svg` up to its first `</svg>` by an `<img>` tag, a `src` image has every
      occurrence of its path pointed at the asset route. */
  method HandleMatch(file: string, content: string, m: ImgMatch) returns (r: string)
    ensures r == Apply(file, content, m)
  {
    if m.attr == XLink {
      var a := Find(content, "<svg", 0);
      var b := Find(content, "</svg>", 0);
      r := Slice(content, 0, a) + ImgTag(file, m.path) + Slice(content, b + 6, |content|);
    } else {
      r := ReplaceAll(content, m.path, AssetRoute(file, BaseName(m.path)));
    }
  }

  /** Handling the next match carries the loop's invariant over to the remaining matches. */
  lemma ApplyAllStep(file: string, content: string, next: string, ms: seq<ImgMatch>, i: nat, goal: string)
    requires i < |ms| && next == Apply(file, content, ms[i]) && ApplyAll(file, content, ms[i..]) == goal
    ensures ApplyAll(file, next, ms[i + 1..]) == goal
  {
    assert ms[i..][1..] == ms[i + 1..];
  }

  /** All extension letters are path characters. */
  lemma ExtensionsArePathChars(ext: string)
    requires ext in Extensions
    ensures AllPathChars(ext)
  {
  }

  /** The pattern occurs in `s` at or after `p`, opening and path together. */
  ghost predicate FoundFrom(s: string, p: nat, m: ImgMatch) {
    exists i :: p <= i && At(s, Opening(m.attr) + m.path, i)
  }

  /** A match at `p` is an occurrence of its opening and path at `p`. */
  lemma MatchIsFound(s: string, p: nat)
    requires MatchAt(s, p).Some?
    ensures MatchAt(s, p).value.1 > p && FoundFrom(s, p, MatchAt(s, p).value.0)
  {
    var (m0, e) := MatchAt(s, p).value;
    assert s[p..p + |Opening(m0.attr)|] == Opening(m0.attr);
    assert s[p..e] == Opening(m0.attr) + m0.path;
    assert e == p + |Opening(m0.attr) + m0.path|;
    assert At(s, Opening(m0.attr) + m0.path, p);
  }

  lemma FoundFromEarlier(s: string, p: nat, e: nat, m: ImgMatch)
    requires p <= e && FoundFrom(s, e, m)
    ensures FoundFrom(s, p, m)
  {
    var i :| e <= i && At(s, Opening(m.attr) + m.path, i);
  }

  /** Every result of `findall` from `p` occurs in the text after `p`, opening included, and
      is a path of path characters ending with an image extension. */
  lemma {:induction false} FindAllIsSound(s: string, p: nat)
    ensures forall m :: m in FindAllFrom(s, p) ==>
              AllPathChars(m.path) && EndsWithImageExtension(m.path) && FoundFrom(s, p, m)
    decreases |s| - p
  {
    if p < |s| {
      var r := MatchAt(s, p);
      if r.None? {
        FindAllIsSound(s, p + 1);
        assert FindAllFrom(s, p) == FindAllFrom(s, p + 1);
        forall m | m in FindAllFrom(s, p) ensures FoundFrom(s, p, m) {
          FoundFromEarlier(s, p, p + 1, m);
        }
      } else {
        var (m0, e) := r.value;
        MatchIsFound(s, p);
        FindAllIsSound(s, e);
        assert FindAllFrom(s, p) == [m0] + FindAllFrom(s, e);
        forall m | m in FindAllFrom(s, e) ensures FoundFrom(s, p, m) {
          FoundFromEarlier(s, p, e, m);
        }
      }
    }
  }

  /** No position at or after `p` where the pattern matches. */
  ghost predicate NoMatchFrom(s: string, p: nat) {
    forall j :: p <= j ==> MatchAt(s, j).None?
  }

  /** `findall` finds nothing exactly when the pattern matches at no position. */
  lemma {:induction false} FindAllEmptyIff(s: string, p: nat)
    ensures FindAllFrom(s, p) == [] <==> NoMatchFrom(s, p)
    decreases |s| - p
  {
    if p < |s| {
      if MatchAt(s, p).None? {
        FindAllEmptyIff(s, p + 1);
        NoMatchStep(s, p);
      } else {
        FindAllFound(s, p);
      }
    } else {
      NoMatchPastEnd(s, p);
    }
  }

  /** Beyond the end of the text no opening fits, so nothing matches. */
  lemma NoMatchPastEnd(s: string, p: nat)
    requires |s| <= p
    ensures FindAllFrom(s, p) == [] && NoMatchFrom(s, p)
  {
    forall j | p <= j ensures MatchAt(s, j).None? {
      assert AttrAt(s, j).None?;
    }
  }

  /** Where nothing matches at `p`, `findall` moves on one position. */
  lemma NoMatchStep(s: string, p: nat)
    requires p < |s| && MatchAt(s, p).None?
    ensures FindAllFrom(s, p) == FindAllFrom(s, p + 1)
    ensures NoMatchFrom(s, p) <==> NoMatchFrom(s, p + 1)
  {
    if NoMatchFrom(s, p + 1) {
      forall j | p <= j ensures MatchAt(s, j).None? {
        if j > p {
          assert p + 1 <= j;
        }
      }
    }
  }

  /** Where the pattern matches at `p`, `findall` finds that match first. */
  lemma FindAllFound(s: string, p: nat)
    requires p < |s| && MatchAt(s, p).Some?
    ensures FindAllFrom(s, p) != [] && !NoMatchFrom(s, p)
  {
    var r := MatchAt(s, p);
    assert r.value.1 > p;
    assert FindAllFrom(s, p) == [r.value.0] + FindAllFrom(s, r.value.1);
  }

  /** A page with neither `src="` nor `xlink:href="` leaves the image pass unchanged. */
  lemma NoReferenceNoChange(file: string, content: string)
    requires NoneFrom(content, Opening(Src), 0) && NoneFrom(content, Opening(XLink), 0)
    ensures Imaged(file, content) == content
  {
    forall j | 0 <= j ensures MatchAt(content, j).None? {
      assert AttrAt(content, j).None?;
    }
    assert NoMatchFrom(content, 0);
    FindAllEmptyIff(content, 0);
  }

  /** Path characters are left alone by `quote`. */
  lemma PathCharsAreSafe(s: string)
    requires AllPathChars(s)
    ensures Quote(s) == s
  {
    QuoteOfSafeText(s);
  }

  /** The asset route written for a found image names the path's base name unescaped: the base
      name of a path contains no `/` and only path characters, all of which `quote` keeps. */
  lemma ImageRouteNamesBaseName(file: string, path: string)
    requires AllPathChars(path)
    ensures AssetRoute(file, BaseName(path)) == "/asset?file=" + Quote(file) + "&path=" + BaseName(path)
    ensures forall j :: !At(BaseName(path), "/", j)
  {
    BaseNameIsLastSegment(path);
    var k :| 0 <= k <= |path| && path[k..] == BaseName(path);
    assert AllPathChars(path[k..]) by {
      forall j | 0 <= j < |path[k..]| ensures PathChar(path[k..][j]) {
        assert path[k..][j] == path[k + j];
      }
    }
    PathCharsAreSafe(BaseName(path));
  }

  /** An inline SVG image: the text from the page's first `<svg` up to and including its first
      `</svg>` is replaced by an `<img>` tag for the image. */
  lemma SvgIsReplaced(file: string, content: string, path: string, a: nat, b: nat)
    requires FirstAt(content, "<svg", 0, a) && FirstAt(content, "</svg>", 0, b) && a <= b
    ensures Apply(file, content, ImgMatch(XLink, path)) == content[..a] + ImgTag(file, path) + content[b + 6..]
  {
    FindIsFirst(content, "<svg", 0, a);
    FindIsFirst(content, "</svg>", 0, b);
    assert Slice(content, 0, a) == content[..a];
    assert Slice(content, b + 6, |content|) == content[b + 6..];
  }

  /** Without any `<svg` in the page, `find` gives -1 and the slice `content[:-1]` keeps all but
      the page's last character before the `<img>` tag. */
  lemma MissingSvgDropsLastCharacter(file: string, content: string, path: string, b: nat)
    requires |content| > 0
    requires NoneFrom(content, "<svg", 0) && FirstAt(content, "</svg>", 0, b)
    ensures Apply(file, content, ImgMatch(XLink, path))
            == content[..|content| - 1] + ImgTag(file, path) + content[b + 6..]
  {
    FindCharacterised(content, "<svg", 0);
    FindIsFirst(content, "</svg>", 0, b);
    assert Slice(content, 0, -1) == content[..|content| - 1];
    assert Slice(content, b + 6, |content|) == content[b + 6..];
  }
}
