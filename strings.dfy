/** Python's string operations as the server uses them: `str.find` with a start index,
    slicing with clamped and negative bounds, `str.split`, `str.join` and the global,
    left-to-right, non-overlapping `str.replace`. */
module Strings {

  /** `sub` occurs in `s` starting at index `i`. */
  predicate At(s: string, sub: string, i: int) {
    0 <= i && i + |sub| <= |s| && s[i..i + |sub|] == sub
  }

  /** `s.find(sub, start)` for a non-negative `start`: the first index at or after `start`
      where `sub` occurs, or -1 when there is none (also when `start` lies past the end). */
  function Find(s: string, sub: string, start: nat): (r: int)
    ensures r == -1 || (start <= r && At(s, sub, r))
    ensures forall i :: start <= i && (r == -1 || i < r) ==> !At(s, sub, i)
    decreases |s| - start
  {
    if start + |sub| > |s| then -1
    else if s[start..start + |sub|] == sub then start
    else Find(s, sub, start + 1)
  }

  /** `i` is the first occurrence of `sub` in `s` at or after `start`. */
  predicate FirstAt(s: string, sub: string, start: int, i: int) {
    start <= i && At(s, sub, i) && forall j :: start <= j < i ==> !At(s, sub, j)
  }

  /** `sub` does not occur in `s` at or after `start`. */
  ghost predicate NoneFrom(s: string, sub: string, start: int) {
    forall j :: start <= j ==> !At(s, sub, j)
  }

  /** `find` returns the first occurrence, and -1 exactly when there is none. */
  lemma FindCharacterised(s: string, sub: string, start: nat)
    ensures Find(s, sub, start) == -1 <==> NoneFrom(s, sub, start)
    ensures Find(s, sub, start) != -1 ==> FirstAt(s, sub, start, Find(s, sub, start))
  {
  }

  /** The first occurrence is the one `find` reports. */
  lemma FindIsFirst(s: string, sub: string, start: nat, i: int)
    requires FirstAt(s, sub, start, i)
    ensures Find(s, sub, start) == i
  {
  }

  /** Python's normalisation of one slice bound: a negative bound counts from the end,
      and the result is clamped to `0..n`. */
  function Clamp(i: int, n: nat): (r: nat)
    ensures r <= n
    ensures 0 <= i <= n ==> r == i
    ensures i > n ==> r == n
    ensures i < 0 && 0 <= i + n ==> r == i + n
    ensures i + n < 0 ==> r == 0
  {
    if i < 0 then (if i + n < 0 then 0 else i + n) else if i > n then n else i
  }

  /** Python's `s[i:j]`: both bounds normalised by `Clamp`, empty when they cross. */
  function Slice<T>(s: seq<T>, i: int, j: int): (r: seq<T>)
    ensures 0 <= i <= j <= |s| ==> r == s[i..j]
    ensures Clamp(i, |s|) < Clamp(j, |s|) ==> r == s[Clamp(i, |s|)..Clamp(j, |s|)]
    ensures Clamp(j, |s|) <= Clamp(i, |s|) ==> r == []
  {
    var lo := Clamp(i, |s|);
    var hi := Clamp(j, |s|);
    if lo < hi then s[lo..hi] else []
  }

  /** `s.split(sep)` for a non-empty separator (Python refuses an empty one). */
  function Split(s: string, sep: string): (parts: seq<string>)
    requires |sep| > 0
    ensures |parts| >= 1
    decreases |s|
  {
    var i := Find(s, sep, 0);
    if i == -1 then [s] else [s[..i]] + Split(s[i + |sep|..], sep)
  }

  /** `sep.join(parts)`. */
  function Join(parts: seq<string>, sep: string): string
  {
    if |parts| == 0 then ""
    else if |parts| == 1 then parts[0]
    else parts[0] + sep + Join(parts[1..], sep)
  }

  /** `s.split(sep)[-1]`: the text after the last separator. */
  function LastPart(s: string, sep: string): string
    requires |sep| > 0
  {
    var parts := Split(s, sep);
    parts[|parts| - 1]
  }

  /** `s.split(sep)[0]`: the text before the first separator. */
  function FirstPart(s: string, sep: string): string
    requires |sep| > 0
  {
    Split(s, sep)[0]
  }

  /** `path.split('/')[-1]`: the base name of a path. */
  function BaseName(path: string): string
  {
    LastPart(path, "/")
  }

  /** Where `sub` occurs at `i`, its `k`-th character stands at `i + k`. */
  lemma AtChar(s: string, sub: string, i: int, k: nat)
    requires At(s, sub, i) && k < |sub|
    ensures s[i + k] == sub[k]
  {
    assert s[i..i + |sub|][k] == s[i + k];
  }

  /** A slice of a slice is a slice of the whole. */
  lemma SliceOfSlice<T>(s: seq<T>, a: nat, b: nat, i: nat, j: nat)
    requires a <= b <= |s| && i <= j <= b - a
    ensures s[a..b][i..j] == s[a + i..a + j]
  {
    forall k | 0 <= k < j - i ensures s[a..b][i..j][k] == s[a + i..a + j][k] {
      assert s[a..b][i..j][k] == s[a..b][i + k] == s[a + i + k];
    }
  }

  /** Cutting a slice at a point in between gives its two halves. */
  lemma SliceSplit<T>(s: seq<T>, a: nat, b: nat, c: nat)
    requires a <= b <= c <= |s|
    ensures s[a..c] == s[a..b] + s[b..c]
  {
  }

  lemma Regroup<T>(w: seq<T>, x: seq<T>, y: seq<T>, z: seq<T>)
    ensures w + (x + y) + z == w + x + y + z
    ensures w + x + (y + z) == w + x + y + z
    ensures w + x + y + z == w + (x + y + z)
  {
  }

  lemma Substitute<T>(p: seq<T>, m: seq<T>, r: seq<T>, m1: seq<T>, m2: seq<T>)
    requires m == m1 + m2
    ensures p + m + r == p + m1 + m2 + r
  {
  }

  /** `s.endswith(suffix)`. */
  predicate EndsWith(s: string, suffix: string) {
    |suffix| <= |s| && s[|s| - |suffix|..] == suffix
  }

  /** `s.replace(pat, rep)`: every occurrence of `pat`, found left to right without overlap,
      is replaced by `rep`. An empty `pat` matches before every character and at the end. */
  function ReplaceAll(s: string, pat: string, rep: string): string
    decreases |s|
  {
    if |pat| == 0 then Interleave(s, rep)
    else
      var i := Find(s, pat, 0);
      if i == -1 then s else s[..i] + rep + ReplaceAll(s[i + |pat|..], pat, rep)
  }

  /** `s.replace("", rep)`: `rep` before every character of `s` and once more at the end. */
  function Interleave(s: string, rep: string): string
  {
    if s == [] then rep else rep + [s[0]] + Interleave(s[1..], rep)
  }

  /** A one-character pattern occurs exactly where that character stands. */
  lemma AtOneChar(s: string, sub: string, j: int)
    requires |sub| == 1
    ensures At(s, sub, j) <==> 0 <= j < |s| && s[j] == sub[0]
  {
    if 0 <= j < |s| {
      assert s[j..j + 1] == [s[j]];
    }
  }

  /** An occurrence inside a prefix is an occurrence in the whole text. */
  lemma AtPrefix(s: string, sub: string, n: nat, j: int)
    requires n <= |s| && At(s[..n], sub, j)
    ensures At(s, sub, j)
  {
    assert s[..n][j..j + |sub|] == s[j..j + |sub|];
  }

  /** No piece produced by `split` contains the separator. */
  lemma {:induction false} SplitPartsAvoidSeparator(s: string, sep: string)
    requires |sep| > 0
    ensures forall p, j :: p in Split(s, sep) ==> !At(p, sep, j)
    decreases |s|
  {
    var i := Find(s, sep, 0);
    if i != -1 {
      var rest := s[i + |sep|..];
      SplitPartsAvoidSeparator(rest, sep);
      forall j | At(s[..i], sep, j) ensures false {
        AtPrefix(s, sep, i, j);
      }
    }
  }

  /** Joining the pieces of a split with the same separator gives the text back. */
  lemma {:induction false} JoinSplit(s: string, sep: string)
    requires |sep| > 0
    ensures Join(Split(s, sep), sep) == s
    decreases |s|
  {
    var i := Find(s, sep, 0);
    if i != -1 {
      var rest := s[i + |sep|..];
      var tail := Split(rest, sep);
      var parts := [s[..i]] + tail;
      assert Split(s, sep) == parts;
      JoinSplit(rest, sep);
      assert Join(parts, sep) == s[..i] + sep + Join(tail, sep) by {
        assert parts[1..] == tail;
      }
      AroundOccurrence(s, sep, i);
    }
  }

  /** A text is what comes before an occurrence, the occurrence, and what comes after it. */
  lemma AroundOccurrence(s: string, sub: string, i: int)
    requires At(s, sub, i)
    ensures s == s[..i] + sub + s[i + |sub|..]
  {
    assert s == s[..i] + s[i..i + |sub|] + s[i + |sub|..];
  }

  /** Python's identity `s.replace(pat, rep) == rep.join(s.split(pat))` for a non-empty `pat`. */
  lemma {:induction false} ReplaceIsJoinOfSplit(s: string, pat: string, rep: string)
    requires |pat| > 0
    ensures ReplaceAll(s, pat, rep) == Join(Split(s, pat), rep)
    decreases |s|
  {
    var i := Find(s, pat, 0);
    if i != -1 {
      var rest := s[i + |pat|..];
      var tail := Split(rest, pat);
      var parts := [s[..i]] + tail;
      assert Split(s, pat) == parts;
      ReplaceIsJoinOfSplit(rest, pat, rep);
      assert parts[1..] == tail;
      assert Join(parts, rep) == s[..i] + rep + Join(tail, rep);
    }
  }

  /** The base name never contains `/`, and the path ends with it. */
  lemma {:induction false} BaseNameIsLastSegment(path: string)
    ensures forall j :: !At(BaseName(path), "/", j)
    ensures exists k :: 0 <= k <= |path| && path[k..] == BaseName(path)
    decreases |path|
  {
    SplitPartsAvoidSeparator(path, "/");
    var parts := Split(path, "/");
    assert parts[|parts| - 1] in parts;
    var i := Find(path, "/", 0);
    if i == -1 {
      assert path[0..] == BaseName(path);
    } else {
      var rest := path[i + 1..];
      BaseNameIsLastSegment(rest);
      assert Split(path, "/")[1..] == Split(rest, "/");
      assert BaseName(path) == BaseName(rest);
      var k :| 0 <= k <= |rest| && rest[k..] == BaseName(rest);
      assert path[i + 1 + k..] == rest[k..];
    }
  }
}
