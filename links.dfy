/** The second pass of `formatEpub` (epubserver.py:209-242): every anchor whose target can be
    found in the book's spine index is pointed at that page of the server's `/read` route, and
    every other anchor is unwrapped. */
module LinkPass {
  import opened Wrappers
  import opened Strings
  import opened Routes

  const AnchorOpen := "<a "
  const AnchorClose := "</a>"
  const SelfClose := "/>"
  const HrefOpen := "href=\""
  const TagEnd := "\">"
  /** The stand-in the source uses for a closing token that was not found. */
  const Far := 9999999999999999

  /** What the link pass needs to know of the book and the server. */
  datatype Context = Context(file: string, password: Option<string>, index: map<string, int>)

  /** Where an anchor ends: `close` is the position of its closing token, `end` is just past it. */
  datatype Extent = Extent(close: nat, end: nat)

  /** The anchor starting at `a` ends at the first `</a>` or the first `/>` after it,
      whichever comes first (epubserver.py:218-229). */
  function AnchorExtent(content: string, a: nat): Option<Extent>
  {
    var e := Find(content, AnchorClose, a);
    var c := Find(content, SelfClose, a);
    if e == -1 && c == -1 then None
    else
      var e' := if e == -1 then Far else e;
      var c' := if c == -1 then Far else c;
      if e' < c' then Some(Extent(e', e' + |AnchorClose|)) else Some(Extent(c', c' + |SelfClose|))
  }

  /** `bc[bc.find('href="') + 6:bc.find('">')]` (epubserver.py:231), with Python's slice rules. */
  function Href(bc: string): string
  {
    Slice(bc, Find(bc, HrefOpen, 0) + |HrefOpen|, Find(bc, TagEnd, 0))
  }

  /** `fc.replace('.', '_')`. */
  function Underscored(fc: string): string
  {
    ReplaceAll(fc, ".", "_")
  }

  /** `fc.split('.')[0]`. */
  function Stem(fc: string): string
  {
    FirstPart(fc, ".")
  }

  /** The spine id an href segment resolves to (epubserver.py:233-236), if any. */
  function Resolve(fc: string, index: map<string, int>): Option<string>
  {
    var chosen := if fc in index then fc else if Underscored(fc) in index then Underscored(fc) else Stem(fc);
    if chosen in index then Some(chosen) else None
  }

  /** The names tried for an href segment, in the order they are tried. */
  function Candidates(fc: string): seq<string>
  {
    [fc, Underscored(fc), Stem(fc)]
  }

  /** The first of `names` that is a key of `index`. */
  function FirstKnown(names: seq<string>, index: map<string, int>): Option<string>
  {
    if names == [] then None
    else if names[0] in index then Some(names[0])
    else FirstKnown(names[1..], index)
  }

  /** The text and cursor after handling the anchor found from cursor `b`; `None` when the loop
      breaks (no `<a ` left, or no closing token after it). */
  function Step(ctx: Context, content: string, b: nat): Option<(string, nat)>
  {
    var a := Find(content, AnchorOpen, b);
    if a == -1 then None
    else
      match AnchorExtent(content, a)
      case None => None
      case Some(x) => Some(Handle(ctx, content, a, x))
  }

  /** The text and cursor after handling the anchor at `a` with extent `x` (epubserver.py:230-242). */
  function Handle(ctx: Context, content: string, a: nat, x: Extent): (string, nat)
  {
    var bc := Slice(content, a, x.end);
    var mc := Href(bc);
    match Resolve(LastPart(mc, "/"), ctx.index)
    case Some(key) =>
      (ReplaceAll(content, mc, ReadRoute(ctx.file, ctx.index[key], ctx.password)), a + 1)
    case None => (Unwrap(content, a, x), a)
  }

  /** The text with the anchor at `a` unwrapped (epubserver.py:240-241). */
  function Unwrap(content: string, a: nat, x: Extent): string
  {
    var bc := Slice(content, a, x.end);
    var q := Find(bc, TagEnd, 0);
    if q != -1 then
      Slice(content, 0, a) + Slice(bc, q + |TagEnd|, x.close) + Slice(content, x.end, |content|)
    else
      Slice(content, 0, a) + Slice(content, x.end, |content|)
  }

  /** The text the loop (epubserver.py:212-242) ends with when it starts from cursor `b` and may
      take at most `fuel` turns; `None` when it would need more. The three stages of one turn
      are written as three functions: find the next `<a `, find its closing token, handle it. */
  function LinkedFrom(ctx: Context, content: string, b: nat, fuel: nat): Option<string>
    decreases fuel, 2
  {
    var a := Find(content, AnchorOpen, b);
    if a == -1 then Some(content) else Closed(ctx, content, a, fuel)
  }

  /** The loop once the next anchor is found at `a`. */
  function Closed(ctx: Context, content: string, a: nat, fuel: nat): Option<string>
    decreases fuel, 1
  {
    match AnchorExtent(content, a)
    case None => Some(content)
    case Some(x) => Handled(ctx, content, a, x, fuel)
  }

  /** The loop once the anchor at `a` is known to have extent `x`: handling it uses a turn. */
  function Handled(ctx: Context, content: string, a: nat, x: Extent, fuel: nat): Option<string>
    decreases fuel, 0
  {
    if fuel == 0 then None
    else LinkedFrom(ctx, Handle(ctx, content, a, x).0, Handle(ctx, content, a, x).1, fuel - 1)
  }

  /** The result of the link pass over a whole page within `fuel` turns. */
  function Linked(ctx: Context, content: string, fuel: nat): Option<string>
  {
    LinkedFrom(ctx, content, 0, fuel)
  }

  /** Where no turn can be taken the loop stops with the text it has. */
  lemma PassStops(ctx: Context, content: string, b: nat, fuel: nat)
    requires Step(ctx, content, b).None?
    ensures LinkedFrom(ctx, content, b, fuel) == Some(content)
  {
  }

  /** A turn that can be taken costs one unit of fuel, and without fuel the pass gives up. */
  lemma PassContinues(ctx: Context, content: string, b: nat, t: string, b': nat, fuel: nat)
    requires Step(ctx, content, b) == Some((t, b'))
    ensures LinkedFrom(ctx, content, b, 0) == None
    ensures LinkedFrom(ctx, content, b, fuel + 1) == LinkedFrom(ctx, t, b', fuel)
  {
    var a := Find(content, AnchorOpen, b);
    var x := AnchorExtent(content, a).value;
    assert Closed(ctx, content, a, 0) == Handled(ctx, content, a, x, 0);
    assert Closed(ctx, content, a, fuel + 1) == Handled(ctx, content, a, x, fuel + 1);
  }

  /** The closing token of the anchor at `a`, as the loop finds it: `</a>` and `/>` are
      looked for, a missing one counts as lying at `Far`, and the nearer one wins. */
  method FindExtent(text: string, a: nat) returns (found: bool, c: nat, b: nat)
    ensures found <==> AnchorExtent(text, a).Some?
    ensures found ==> AnchorExtent(text, a) == Some(Extent(c, b))
  {
    var e := Find(text, AnchorClose, a);
    var s := Find(text, SelfClose, a);
    if e == -1 && s == -1 {
      return false, 0, 0;
    }
    if e == -1 { e := Far; }
    if s == -1 { s := Far; }
    if e < s {
      c := e;
      b := e + |AnchorClose|;
    } else {
      c := s;
      b := s + |SelfClose|;
    }
    found := true;
  }

  /** The body of the loop once the anchor at `a` is known to end with a closing token at `c`
      and just before `b`: the text rebuilt for it, and the cursor to resume from. */
  method HandleAnchor(ctx: Context, text: string, a: nat, c: nat, b: nat) returns (r: string, next: nat)
    ensures (r, next) == Handle(ctx, text, a, Extent(c, b))
  {
    var bc := Slice(text, a, b);
    var mc := Slice(bc, Find(bc, HrefOpen, 0) + |HrefOpen|, Find(bc, TagEnd, 0));
    assert mc == Href(bc);
    var fc := Fallback(LastPart(mc, "/"), ctx.index);
    if fc in ctx.index {
      r := ReplaceAll(text, mc, ReadRoute(ctx.file, ctx.index[fc], ctx.password));
      next := a + 1;
    } else {
      r := UnwrapAnchor(text, a, c, b);
      next := a;
    }
  }

  /** The name settled on for an href segment (epubserver.py:232-236): the segment itself when
      the index has it, else its underscored form when the index has that, else its stem. */
  method Fallback(fc: string, index: map<string, int>) returns (name: string)
    ensures Resolve(fc, index).Some? <==> name in index
    ensures Resolve(fc, index).Some? ==> Resolve(fc, index).value == name
  {
    name := fc;
    if name !in index {
      if ReplaceAll(name, ".", "_") in index {
        name := ReplaceAll(name, ".", "_");
      } else {
        name := FirstPart(name, ".");
      }
    }
  }

  /** The unwrapping of the anchor at `a` (epubserver.py:240-241). */
  method UnwrapAnchor(text: string, a: nat, c: nat, b: nat) returns (r: string)
    ensures r == Unwrap(text, a, Extent(c, b))
  {
    var bc := Slice(text, a, b);
    if Find(bc, TagEnd, 0) != -1 {
      r := Slice(text, 0, a) + Slice(bc, Find(bc, TagEnd, 0) + |TagEnd|, c) + Slice(text, b, |text|);
    } else {
      r := Slice(text, 0, a) + Slice(text, b, |text|);
    }
  }

  /** One turn of the source's loop from cursor `b`, with its cursors `a`, `b` and `c`: `more`
      is false where the loop breaks, and then the pass ends with the text as it is; otherwise
      the text is rebuilt and the cursor moved, at the cost of one turn. */
  method Turn(ctx: Context, text: string, b: nat) returns (more: bool, text': string, b': nat)
    ensures !more ==> forall n: nat :: LinkedFrom(ctx, text, b, n) == Some(text)
    ensures more ==> LinkedFrom(ctx, text, b, 0) == None
    ensures more ==> forall n: nat :: LinkedFrom(ctx, text, b, n + 1) == LinkedFrom(ctx, text', b', n)
  {
    var a := Find(text, AnchorOpen, b);
    if a == -1 {
      forall n: nat ensures LinkedFrom(ctx, text, b, n) == Some(text) {
        PassStops(ctx, text, b, n);
      }
      return false, text, b;
    }
    var found, c, end := FindExtent(text, a);
    if !found {
      forall n: nat ensures LinkedFrom(ctx, text, b, n) == Some(text) {
        PassStops(ctx, text, b, n);
      }
      return false, text, b;
    }
    text', b' := HandleAnchor(ctx, text, a, c, end);
    assert Step(ctx, text, b) == Some((text', b'));
    forall n: nat ensures LinkedFrom(ctx, text, b, n + 1) == LinkedFrom(ctx, text', b', n) {
      PassContinues(ctx, text, b, text', b', n);
    }
    PassContinues(ctx, text, b, text', b', 0);
    more := true;
  }

  /** The pass as the source runs it, over a text rebuilt in place; it gives up (`None`) after
      `fuel` turns. */
  method RewriteLinks(ctx: Context, content: string, fuel: nat) returns (r: Option<string>)
    ensures r == Linked(ctx, content, fuel)
  {
    var text := content;
    var b: nat := 0;
    var steps := fuel;
    while true
      invariant LinkedFrom(ctx, text, b, steps) == Linked(ctx, content, fuel)
      decreases steps
    {
      var more, text', b' := Turn(ctx, text, b);
      if !more {
        break;
      }
      if steps == 0 {
        return None;
      }
      text, b, steps := text', b', steps - 1;
    }
    r := Some(text);
  }

  /** The segment is tried as it is, then with every `.` made `_`, then cut at its first `.`;
      the first of these that the index knows is used, and none is used when it knows none. */
  lemma ResolveTriesCandidatesInOrder(fc: string, index: map<string, int>)
    ensures Resolve(fc, index) == FirstKnown(Candidates(fc), index)
    ensures Resolve(fc, index).Some? ==> Resolve(fc, index).value in index
    ensures Resolve(fc, index).None? <==> (forall name :: name in Candidates(fc) ==> name !in index)
  {
    var cs := Candidates(fc);
    assert cs[1..] == [Underscored(fc), Stem(fc)];
    assert cs[1..][1..] == [Stem(fc)];
    assert cs[1..][1..][1..] == [];
    assert FirstKnown([Stem(fc)], index) == if Stem(fc) in index then Some(Stem(fc)) else None;
    assert FirstKnown([Underscored(fc), Stem(fc)], index)
        == if Underscored(fc) in index then Some(Underscored(fc)) else FirstKnown([Stem(fc)], index);
  }

  /** An href segment `chap.1.xhtml` is tried as `chap.1.xhtml`, `chap_1_xhtml` and `chap`: an
      index whose only key is `chap_1` does not resolve it, one with `chap_1_xhtml` or `chap`
      does. */
  lemma DottedSegmentCandidates(fc: string, page: int)
    requires fc == "chap.1.xhtml"
    ensures Candidates(fc) == [fc, "chap_1_xhtml", "chap"]
    ensures Resolve(fc, map["chap_1" := page]) == None
    ensures Resolve(fc, map["chap_1_xhtml" := page]) == Some("chap_1_xhtml")
    ensures Resolve(fc, map["chap" := page]) == Some("chap")
  {
    ChapterSpellings(fc);
  }

  /** The two fallback spellings of `chap.1.xhtml`. */
  lemma ChapterSpellings(fc: string)
    requires fc == "chap.1.xhtml"
    ensures Underscored(fc) == "chap_1_xhtml"
    ensures Stem(fc) == "chap"
  {
    ChapterStem(fc);
    DotSplit(fc, 4);
    SectionSpelling(fc[5..]);
    assert fc[..4] == "chap";
    assert fc[5..] == "1.xhtml";
  }

  lemma ChapterStem(fc: string)
    requires fc == "chap.1.xhtml"
    ensures Stem(fc) == "chap"
  {
    DotSplit(fc, 4);
    assert fc[..4] == "chap";
  }

  lemma SectionSpelling(rest: string)
    requires rest == "1.xhtml"
    ensures Underscored(rest) == "1_xhtml"
  {
    DotSplit(rest, 1);
    ExtensionSpelling(rest[2..]);
    assert rest[..1] == "1";
    assert rest[2..] == "xhtml";
  }

  lemma ExtensionSpelling(tail: string)
    requires tail == "xhtml"
    ensures Underscored(tail) == tail
  {
    NoDot(tail);
  }

  /** Around the first `.` of `s`, at `i`: `replace` makes it `_` and goes on after it, and
      `split('.')[0]` is the text before it. */
  lemma DotSplit(s: string, i: nat)
    requires i < |s| && s[i] == '.' && forall j :: 0 <= j < i ==> s[j] != '.'
    ensures ReplaceAll(s, ".", "_") == s[..i] + "_" + ReplaceAll(s[i + 1..], ".", "_")
    ensures Stem(s) == s[..i]
  {
    FirstDot(s, i);
  }

  /** A text with no `.` is left alone by `replace('.', '_')`. */
  lemma NoDot(s: string)
    requires forall j :: 0 <= j < |s| ==> s[j] != '.'
    ensures ReplaceAll(s, ".", "_") == s
  {
    forall j | 0 <= j ensures !At(s, ".", j) {
      AtOneChar(s, ".", j);
    }
    FindCharacterised(s, ".", 0);
  }

  /** The first `.` of `s` is at `i`. */
  lemma FirstDot(s: string, i: nat)
    requires i < |s| && s[i] == '.' && forall j :: 0 <= j < i ==> s[j] != '.'
    ensures Find(s, ".", 0) == i
  {
    forall j | 0 <= j < i ensures !At(s, ".", j) {
      AtOneChar(s, ".", j);
    }
    AtOneChar(s, ".", i);
    FindIsFirst(s, ".", 0, i);
  }

  /** The second and third candidates contain no `.`; the third is a prefix of the segment. */
  lemma CandidatesAreDotless(fc: string)
    ensures forall j :: !At(Underscored(fc), ".", j)
    ensures forall j :: !At(Stem(fc), ".", j)
    ensures |Stem(fc)| <= |fc| && fc[..|Stem(fc)|] == Stem(fc)
  {
    ReplaceIsJoinOfSplit(fc, ".", "_");
    UnderscoredIsDotless(fc);
    SplitPartsAvoidSeparator(fc, ".");
    assert Split(fc, ".")[0] in Split(fc, ".");
  }

  lemma {:induction false} UnderscoredIsDotless(s: string)
    ensures forall j :: !At(ReplaceAll(s, ".", "_"), ".", j)
    decreases |s|
  {
    var i := Find(s, ".", 0);
    if i != -1 {
      var rest := s[i + 1..];
      UnderscoredIsDotless(rest);
      var r := ReplaceAll(s, ".", "_");
      var tail := ReplaceAll(rest, ".", "_");
      assert r == s[..i] + "_" + tail;
      forall j | At(r, ".", j) ensures false {
        AtOneChar(r, ".", j);
        if j < i {
          assert r[j] == s[j];
          AtOneChar(s, ".", j);
        } else if j > i {
          assert r[j] == tail[j - i - 1];
          AtOneChar(tail, ".", j - i - 1);
        }
      }
    }
  }

  /** The extent of an anchor: whichever of `</a>` and `/>` comes first after it ends it,
      closing token included; when neither follows, there is no extent. */
  lemma AnchorEndsAtFirstClose(content: string, a: nat)
    requires |content| < Far
    ensures AnchorExtent(content, a).None? <==> NoneFrom(content, AnchorClose, a) && NoneFrom(content, SelfClose, a)
    ensures AnchorExtent(content, a).Some? ==>
      var x := AnchorExtent(content, a).value;
      && a <= x.close && x.end <= |content|
      && ((At(content, AnchorClose, x.close) && x.end == x.close + |AnchorClose|)
          || (At(content, SelfClose, x.close) && x.end == x.close + |SelfClose|))
      && (forall j :: a <= j < x.close ==> !At(content, AnchorClose, j) && !At(content, SelfClose, j))
  {
    FindCharacterised(content, AnchorClose, a);
    FindCharacterised(content, SelfClose, a);
  }

  /** An `<a ` with no closing token after it ends the pass and leaves the text as it is. */
  lemma UnclosedAnchorStopsPass(ctx: Context, content: string, b: nat, a: nat, fuel: nat)
    requires FirstAt(content, AnchorOpen, b, a)
    requires NoneFrom(content, AnchorClose, a) && NoneFrom(content, SelfClose, a)
    ensures LinkedFrom(ctx, content, b, fuel) == Some(content)
  {
    FindIsFirst(content, AnchorOpen, b, a);
    FindCharacterised(content, AnchorClose, a);
    FindCharacterised(content, SelfClose, a);
    PassStops(ctx, content, b, fuel);
  }

  /** A text with no `<a ` after the cursor comes out of the pass unchanged. */
  lemma NoAnchorNoChange(ctx: Context, content: string, b: nat, fuel: nat)
    requires NoneFrom(content, AnchorOpen, b)
    ensures LinkedFrom(ctx, content, b, fuel) == Some(content)
  {
    FindCharacterised(content, AnchorOpen, b);
    PassStops(ctx, content, b, fuel);
  }

  /** The href value: with `href="` first at `h` and `">` first at `q` after it, it is the
      text between them. */
  lemma HrefIsQuotedValue(bc: string, h: nat, q: nat)
    requires FirstAt(bc, HrefOpen, 0, h) && FirstAt(bc, TagEnd, 0, q) && h + |HrefOpen| <= q
    ensures Href(bc) == bc[h + |HrefOpen|..q]
  {
    FindIsFirst(bc, HrefOpen, 0, h);
    FindIsFirst(bc, TagEnd, 0, q);
  }

  /** A known target: every occurrence of the href text anywhere in the page is replaced by
      the route to the target's page, and scanning resumes one past the anchor's start. */
  lemma ResolvedLinkIsRewritten(ctx: Context, content: string, b: nat, a: nat, key: string)
    requires |content| < Far
    requires FirstAt(content, AnchorOpen, b, a)
    requires AnchorExtent(content, a).Some?
    requires Resolve(LastPart(Href(content[a..AnchorExtent(content, a).value.end]), "/"), ctx.index) == Some(key)
    ensures key in ctx.index
    ensures Step(ctx, content, b) == Some((ReplaceAll(content, Href(content[a..AnchorExtent(content, a).value.end]),
                                                      ReadRoute(ctx.file, ctx.index[key], ctx.password)), a + 1))
  {
    FindIsFirst(content, AnchorOpen, b, a);
    AnchorEndsAtFirstClose(content, a);
    ResolveTriesCandidatesInOrder(LastPart(Href(content[a..AnchorExtent(content, a).value.end]), "/"), ctx.index);
  }

  /** An unknown target leaves the anchor to `Unwrap`, and scanning resumes where it started. */
  lemma UnresolvedIsUnwrapped(ctx: Context, content: string, a: nat, x: Extent)
    requires Resolve(LastPart(Href(Slice(content, a, x.end)), "/"), ctx.index).None?
    ensures Handle(ctx, content, a, x) == (Unwrap(content, a, x), a)
  {
  }

  /** Unwrapping an anchor whose tag has its first `">` at offset `q`: the anchor is replaced by
      the text after the `">` up to the closing token, followed by the first `a` characters of
      the closing token (the source cuts the anchor text with the page offset of the closing
      token, so only an anchor at the very start of the page loses its whole closing token). */
  lemma UnwrapKeepsInnerText(content: string, a: nat, x: Extent, q: nat)
    requires a <= x.close && x.end <= |content|
    requires (At(content, AnchorClose, x.close) && x.end == x.close + |AnchorClose|)
          || (At(content, SelfClose, x.close) && x.end == x.close + |SelfClose|)
    requires FirstAt(content[a..x.end], TagEnd, 0, q)
    ensures a + q + |TagEnd| <= x.close
    ensures Unwrap(content, a, x)
            == content[..a] + content[a + q + |TagEnd|..x.close] + content[x.close..x.close + Kept(a, x)] + content[x.end..]
  {
    FindIsFirst(content[a..x.end], TagEnd, 0, q);
    TagEndBeforeClose(content, a, x, q);
    UnwrapFound(content, a, x, q);
    UnwrapAssembled(content, a, x, q);
  }

  /** How many characters of the closing token an unwrap keeps: the source cuts the anchor text
      with the page offset of the closing token, so at most `a` of them survive. */
  function Kept(a: nat, x: Extent): nat
    requires x.close <= x.end
  {
    if a < x.end - x.close then a else x.end - x.close
  }

  /** The source's slices of an unwrap once the position of `">` is known, in the page's terms. */
  lemma UnwrapAssembled(content: string, a: nat, x: Extent, q: nat)
    requires a + q + |TagEnd| <= x.close <= x.end <= |content|
    ensures content[..a] + Slice(content[a..x.end], q + |TagEnd|, x.close) + content[x.end..]
            == content[..a] + content[a + q + |TagEnd|..x.close] + content[x.close..x.close + Kept(a, x)] + content[x.end..]
  {
    var kept := Kept(a, x);
    InnerSlice(content, a, x.end, q + |TagEnd|, a + q + |TagEnd|, x.close, kept);
    Substitute(content[..a], Slice(content[a..x.end], q + |TagEnd|, x.close), content[x.end..],
               content[a + q + |TagEnd|..x.close], content[x.close..x.close + kept]);
  }

  /** `Unwrap` when the tag's first `">` is at offset `q`, in the source's own slices. */
  lemma UnwrapFound(content: string, a: nat, x: Extent, q: nat)
    requires a <= x.end <= |content| && Find(content[a..x.end], TagEnd, 0) == q
    ensures Unwrap(content, a, x) == content[..a] + Slice(content[a..x.end], q + |TagEnd|, x.close) + content[x.end..]
  {
    assert Slice(content, a, x.end) == content[a..x.end];
    assert Slice(content, 0, a) == content[..a];
    assert Slice(content, x.end, |content|) == content[x.end..];
  }

  /** `bc[lo:c]` for `bc = content[a:e]`, where `c` is an offset into `content` rather than
      into `bc`: the text from `a + lo` to `c`, then up to `a` more characters after `c`. */
  lemma InnerSlice(content: string, a: nat, e: nat, lo: nat, start: nat, c: nat, kept: nat)
    requires start == a + lo <= c <= e <= |content|
    requires kept == if a < e - c then a else e - c
    ensures Slice(content[a..e], lo, c) == content[start..c] + content[c..c + kept]
  {
    var bc := content[a..e];
    if a < e - c {
      assert Slice(bc, lo, c) == bc[lo..c];
      SliceOfSlice(content, a, e, lo, c);
    } else {
      assert Slice(bc, lo, c) == bc[lo..e - a];
      SliceOfSlice(content, a, e, lo, e - a);
    }
    assert content[a + lo..c + kept] == content[a + lo..c] + content[c..c + kept];
  }

  /** Unwrapping an anchor whose tag has no `">` removes the whole anchor. */
  lemma UnwrapBareRemoves(content: string, a: nat, x: Extent)
    requires a <= x.end <= |content|
    requires NoneFrom(content[a..x.end], TagEnd, 0)
    ensures Unwrap(content, a, x) == content[..a] + content[x.end..]
  {
    assert Slice(content, a, x.end) == content[a..x.end];
    FindCharacterised(content[a..x.end], TagEnd, 0);
  }

  /** The pass's turn at an anchor with an unknown target whose tag has its first `">` at
      offset `q` keeps the anchor's text, as `UnwrapKeepsInnerText` describes, and resumes
      scanning where the anchor started. */
  lemma UnresolvedLinkIsUnwrapped(ctx: Context, content: string, b: nat, a: nat, x: Extent, q: nat)
    requires |content| < Far
    requires FirstAt(content, AnchorOpen, b, a)
    requires AnchorExtent(content, a) == Some(x)
    requires a <= x.end <= |content|
    requires Resolve(LastPart(Href(content[a..x.end]), "/"), ctx.index).None?
    requires FirstAt(content[a..x.end], TagEnd, 0, q)
    ensures a + q + |TagEnd| <= x.close
    ensures Step(ctx, content, b)
            == Some((content[..a] + content[a + q + |TagEnd|..x.close] + content[x.close..x.close + Kept(a, x)] + content[x.end..], a))
  {
    FindIsFirst(content, AnchorOpen, b, a);
    AnchorCloses(content, a);
    StepUnwraps(ctx, content, b, a, x);
    UnwrapKeepsInnerText(content, a, x, q);
  }

  /** Where the closing token of an anchor with an extent lies. */
  lemma AnchorCloses(content: string, a: nat)
    requires |content| < Far && AnchorExtent(content, a).Some?
    ensures var x := AnchorExtent(content, a).value;
            && a <= x.close && x.end <= |content|
            && ((At(content, AnchorClose, x.close) && x.end == x.close + |AnchorClose|)
                || (At(content, SelfClose, x.close) && x.end == x.close + |SelfClose|))
  {
    AnchorEndsAtFirstClose(content, a);
  }

  /** The turn at an anchor with an unknown target is `Unwrap`. */
  lemma StepUnwraps(ctx: Context, content: string, b: nat, a: nat, x: Extent)
    requires Find(content, AnchorOpen, b) == a && AnchorExtent(content, a) == Some(x) && a <= x.end <= |content|
    requires Resolve(LastPart(Href(content[a..x.end]), "/"), ctx.index).None?
    ensures Step(ctx, content, b) == Some((Unwrap(content, a, x), a))
  {
    assert Slice(content, a, x.end) == content[a..x.end];
    UnresolvedIsUnwrapped(ctx, content, a, x);
  }

  /** The first `">` of an anchor lies before its closing token, with room for itself. */
  lemma TagEndBeforeClose(content: string, a: nat, x: Extent, q: nat)
    requires a <= x.close && x.end <= |content|
    requires (At(content, AnchorClose, x.close) && x.end == x.close + |AnchorClose|)
          || (At(content, SelfClose, x.close) && x.end == x.close + |SelfClose|)
    requires At(content[a..x.end], TagEnd, q)
    ensures a + q + |TagEnd| <= x.close
  {
    AtChar(content[a..x.end], TagEnd, q, 0);
    AtChar(content[a..x.end], TagEnd, q, 1);
    assert content[a + q] == '"' && content[a + q + 1] == '>';
    if At(content, AnchorClose, x.close) {
      AtChar(content, AnchorClose, x.close, 0);
      AtChar(content, AnchorClose, x.close, 1);
      AtChar(content, AnchorClose, x.close, 2);
      AtChar(content, AnchorClose, x.close, 3);
    } else {
      AtChar(content, SelfClose, x.close, 0);
      AtChar(content, SelfClose, x.close, 1);
    }
  }

  /** The pass's turn at an anchor with an unknown target whose tag has no `">` removes the
      whole anchor. */
  lemma UnresolvedBareLinkIsRemoved(ctx: Context, content: string, b: nat, a: nat)
    requires |content| < Far
    requires FirstAt(content, AnchorOpen, b, a)
    requires AnchorExtent(content, a).Some?
    requires Resolve(LastPart(Href(content[a..AnchorExtent(content, a).value.end]), "/"), ctx.index).None?
    requires NoneFrom(content[a..AnchorExtent(content, a).value.end], TagEnd, 0)
    ensures Step(ctx, content, b) == Some((content[..a] + content[AnchorExtent(content, a).value.end..], a))
  {
    FindIsFirst(content, AnchorOpen, b, a);
    var x := AnchorExtent(content, a).value;
    AnchorCloses(content, a);
    StepUnwraps(ctx, content, b, a, x);
    UnwrapBareRemoves(content, a, x);
  }

  /** Fuel only decides whether the pass finishes, never what it produces. */
  lemma {:induction false} MoreFuelSameResult(ctx: Context, content: string, b: nat, fuel: nat, more: nat)
    requires LinkedFrom(ctx, content, b, fuel).Some? && fuel <= more
    ensures LinkedFrom(ctx, content, b, more) == LinkedFrom(ctx, content, b, fuel)
    decreases fuel, 2
  {
    var a := Find(content, AnchorOpen, b);
    if a != -1 {
      MoreFuelClosed(ctx, content, a, fuel, more);
    }
  }

  lemma {:induction false} MoreFuelClosed(ctx: Context, content: string, a: nat, fuel: nat, more: nat)
    requires Closed(ctx, content, a, fuel).Some? && fuel <= more
    ensures Closed(ctx, content, a, more) == Closed(ctx, content, a, fuel)
    decreases fuel, 1
  {
    match AnchorExtent(content, a)
    case None =>
    case Some(x) => MoreFuelHandled(ctx, content, a, x, fuel, more);
  }

  lemma {:induction false} MoreFuelHandled(ctx: Context, content: string, a: nat, x: Extent, fuel: nat, more: nat)
    requires Handled(ctx, content, a, x, fuel).Some? && fuel <= more
    ensures Handled(ctx, content, a, x, more) == Handled(ctx, content, a, x, fuel)
    decreases fuel, 0
  {
    var h := Handle(ctx, content, a, x);
    MoreFuelSameResult(ctx, h.0, h.1, fuel - 1, more - 1);
  }
}
