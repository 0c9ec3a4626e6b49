/** The first pass of `formatEpub` (epubserver.py:187-208): after each `style="` the value
    that follows the next `color:` is deleted, so that the page's own text colours do not
    override the server's colour scheme. */
module ColourPass {
  import opened Wrappers
  import opened Strings

  const StyleOpen := "style=\""
  const ColourKey := "color:"

  /** One turn of the loop from cursor `b`: `None` when no `style="` remains and the loop
      breaks, otherwise the new text and the new cursor. */
  function Step(content: string, b: nat): (r: Option<(string, nat)>)
    requires b <= |content|
    ensures r.Some? ==> b < r.value.1 <= |r.value.0| && |r.value.0| - r.value.1 < |content| - b
  {
    var a := Find(content, StyleOpen, b);
    if a == -1 then None
    else
      var k := Find(content, ColourKey, a);
      var next: nat := a + |StyleOpen|;
      if k == -1 then Some((content, next))
      else
        var v: nat := k + |ColourKey|;
        var semi := Find(content, ";", v);
        var d := if semi == -1 then Find(content, "\"", v) else semi;
        if d == -1 then Some((content, v)) else Some((content[..v] + content[d..], v))
  }

  /** The text the loop ends with when it starts from cursor `b`. */
  function StrippedFrom(content: string, b: nat): string
    requires b <= |content|
    decreases |content| - b
  {
    match Step(content, b)
    case None => content
    case Some((next, b')) => StrippedFrom(next, b')
  }

  /** The result of the colour pass over a whole page. */
  function Stripped(content: string): string
  {
    StrippedFrom(content, 0)
  }

  /** The pass as the source runs it: cursor `b` over a text rebuilt in place. */
  method StripColours(content: string) returns (r: string)
    ensures r == Stripped(content)
  {
    r := content;
    var b: nat := 0;
    while true
      invariant b <= |r|
      invariant StrippedFrom(r, b) == Stripped(content)
      decreases |r| - b
    {
      var more, r', b' := Turn(r, b);
      if !more {
        break;
      }
      r, b := r', b';
    }
  }

  /** One turn of the source's loop from cursor `b`, with its cursor `a`: `more` is false where
      the loop breaks, otherwise the text is rebuilt and the cursor moved. */
  method Turn(content: string, b: nat) returns (more: bool, r: string, b': nat)
    requires b <= |content|
    ensures more <==> Step(content, b).Some?
    ensures more ==> Step(content, b) == Some((r, b'))
  {
    var a := Find(content, StyleOpen, b);
    if a == -1 {
      return false, content, b;
    }
    r, b' := content, a + |StyleOpen|;
    a := Find(content, ColourKey, a);
    if a != -1 {
      a := a + |ColourKey|;
      var c := Find(content, ";", a);
      if c == -1 {
        c := Find(content, "\"", a);
      }
      if c != -1 {
        r := content[..a] + content[c..];
      }
      b' := a;
    }
    more := true;
  }

  /** With no `style="` at or after the cursor the loop stops at once. */
  lemma StepWithoutStyle(content: string, b: nat)
    requires b <= |content| && NoneFrom(content, StyleOpen, b)
    ensures Step(content, b) == None
    ensures StrippedFrom(content, b) == content
  {
    FindCharacterised(content, StyleOpen, b);
  }

  /** A `style="` with no `color:` anywhere after it: nothing changes and the cursor moves
      past the `style="`. */
  lemma StepWithoutColour(content: string, b: nat, s: nat)
    requires b <= |content| && FirstAt(content, StyleOpen, b, s)
    requires NoneFrom(content, ColourKey, s)
    ensures Step(content, b) == Some((content, s + |StyleOpen|))
  {
    FindIsFirst(content, StyleOpen, b, s);
    FindCharacterised(content, ColourKey, s);
  }

  /** The first `color:` at or after the first `style="` (even outside the attribute, even
      inside `background-color:`): the text from just after it up to the first `;`, or when
      there is no `;` up to the first `"`, is deleted; the token and the delimiter stay, and
      the cursor resumes just after the token. */
  lemma StepDeletesColourValue(content: string, b: nat, s: nat, k: nat, d: nat)
    requires b <= |content| && FirstAt(content, StyleOpen, b, s)
    requires FirstAt(content, ColourKey, s, k)
    requires FirstAt(content, ";", k + |ColourKey|, d)
          || (NoneFrom(content, ";", k + |ColourKey|) && FirstAt(content, "\"", k + |ColourKey|, d))
    ensures k + |ColourKey| <= d <= |content|
    ensures Step(content, b) == Some((content[..k + |ColourKey|] + content[d..], k + |ColourKey|))
  {
    FindIsFirst(content, StyleOpen, b, s);
    FindIsFirst(content, ColourKey, s, k);
    DelimiterFound(content, k + |ColourKey|, d);
  }

  /** The delimiter the loop settles on: the first `;`, or the first `"` when there is no `;`. */
  lemma DelimiterFound(content: string, v: nat, d: nat)
    requires FirstAt(content, ";", v, d) || (NoneFrom(content, ";", v) && FirstAt(content, "\"", v, d))
    ensures v <= d <= |content|
    ensures (if Find(content, ";", v) == -1 then Find(content, "\"", v) else Find(content, ";", v)) == d
  {
    if FirstAt(content, ";", v, d) {
      FindIsFirst(content, ";", v, d);
    } else {
      FindCharacterised(content, ";", v);
      FindIsFirst(content, "\"", v, d);
    }
  }

  /** A `color:` followed by neither `;` nor `"`: nothing is deleted. */
  lemma StepWithoutDelimiter(content: string, b: nat, s: nat, k: nat)
    requires b <= |content| && FirstAt(content, StyleOpen, b, s)
    requires FirstAt(content, ColourKey, s, k)
    requires NoneFrom(content, ";", k + |ColourKey|) && NoneFrom(content, "\"", k + |ColourKey|)
    ensures Step(content, b) == Some((content, k + |ColourKey|))
  {
    FindIsFirst(content, StyleOpen, b, s);
    FindIsFirst(content, ColourKey, s, k);
    FindCharacterised(content, ";", k + |ColourKey|);
    FindCharacterised(content, "\"", k + |ColourKey|);
  }

  /** Text before the cursor is never touched: the loop only edits after `color:` tokens
      that lie at or after it. */
  lemma {:induction false} StrippedKeepsPrefix(content: string, b: nat)
    requires b <= |content|
    ensures b <= |StrippedFrom(content, b)|
    ensures StrippedFrom(content, b)[..b] == content[..b]
    decreases |content| - b
  {
    match Step(content, b)
    case None =>
    case Some((next, b')) =>
      StepMovesForward(content, b);
      StrippedKeepsPrefix(next, b');
      var out := StrippedFrom(next, b');
      assert out == StrippedFrom(content, b);
      assert out[..b] == out[..b'][..b];
      assert next[..b] == next[..b'][..b];
  }

  /** Each step moves the cursor forward and leaves the text before the old cursor as it was. */
  lemma StepMovesForward(content: string, b: nat)
    requires b <= |content| && Step(content, b).Some?
    ensures b < Step(content, b).value.1
    ensures Step(content, b).value.0[..b] == content[..b]
  {
  }

  /** The pass only deletes: it never adds a character, nor makes one more frequent. */
  lemma {:induction false} StrippedOnlyDeletes(content: string, b: nat)
    requires b <= |content|
    ensures multiset(StrippedFrom(content, b)) <= multiset(content)
    ensures |StrippedFrom(content, b)| <= |content|
    decreases |content| - b
  {
    match Step(content, b)
    case None =>
    case Some((next, b')) =>
      StepOnlyDeletes(content, b);
      StrippedOnlyDeletes(next, b');
  }

  lemma StepOnlyDeletes(content: string, b: nat)
    requires b <= |content| && Step(content, b).Some?
    ensures multiset(Step(content, b).value.0) <= multiset(content)
    ensures |Step(content, b).value.0| <= |content|
  {
    var a := Find(content, StyleOpen, b);
    var k := Find(content, ColourKey, a);
    if k == -1 {
      assert Step(content, b).value.0 == content;
    } else {
      var v := k + |ColourKey|;
      var semi := Find(content, ";", v);
      var d := if semi == -1 then Find(content, "\"", v) else semi;
      if d == -1 {
        assert Step(content, b).value.0 == content;
      } else {
        assert Step(content, b).value.0 == content[..v] + content[d..];
        DeletingKeepsMultiset(content, v, d);
      }
    }
  }

  lemma DeletingKeepsMultiset(content: string, v: nat, d: nat)
    requires v <= d <= |content|
    ensures multiset(content[..v] + content[d..]) <= multiset(content)
  {
    var left, mid, right := content[..v], content[v..d], content[d..];
    assert content == left + mid + right;
    assert content[..v] + content[d..] == left + right;
  }

  /** A page without any `color:` comes out of the pass unchanged. */
  lemma {:induction false} StrippedWithoutColour(content: string, b: nat)
    requires b <= |content| && NoneFrom(content, ColourKey, 0)
    ensures StrippedFrom(content, b) == content
    decreases |content| - b
  {
    FindCharacterised(content, ColourKey, 0);
    match Step(content, b)
    case None =>
    case Some((next, b')) =>
      var a := Find(content, StyleOpen, b);
      FindCharacterised(content, ColourKey, a);
      assert next == content;
      StrippedWithoutColour(next, b');
  }
}
