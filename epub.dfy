/** The loaded form of a book (epubserver.py:158-184). An EPUB archive is held abstractly: its
    spine (the reading order, as item ids, some of which may be missing) and its items in
    manifest order, each with an id, a kind, a name inside the archive, its raw content and its
    decoded body text. Loading builds the page list in spine order, the index from spine id to
    page position, and the image map keyed by base name. */
module Epub {
  import opened Wrappers
  import opened Strings

  /** `get_type()` of an item, as far as the server distinguishes it. */
  datatype Kind = Document | Image | Cover | Other

  /** An item of the archive: `id`, `get_type()`, `get_name()`, `get_content()`, and
      `get_body_content()` already decoded from UTF-8. */
  datatype Item = Item(id: string, kind: Kind, name: string, content: seq<bv8>, body: string)

  /** What `epub.read_epub` yields that the server reads: the spine idrefs and the items. */
  datatype Archive = Archive(spine: seq<Option<string>>, items: seq<Item>)

  /** A page slot: the raw item until it is first read, then its formatted text. */
  datatype Slot = Raw(item: Item) | Done(html: string)

  /** A loaded book: `{'pages': …, 'img': …, 'index': …}`. */
  datatype Book = Book(pages: seq<Slot>, img: map<string, seq<bv8>>, index: map<string, int>)

  /** `book.get_item_with_id(id)`: the first item with that id, or `None`. */
  function ItemWithId(items: seq<Item>, id: string): (r: Option<Item>)
    ensures r.Some? ==> r.value.id == id && r.value in items
    ensures r.None? <==> forall k :: 0 <= k < |items| ==> items[k].id != id
  {
    if items == [] then None
    else if items[0].id == id then Some(items[0])
    else ItemWithId(items[1..], id)
  }

  /** The spine id names a document item. */
  predicate IsDocument(items: seq<Item>, id: string) {
    ItemWithId(items, id).Some? && ItemWithId(items, id).value.kind == Document
  }

  /** The state of the spine loop: the pages and the index so far, and whether an id was not
      found (the source then fails on `None.get_type()` and stops). */
  datatype Indexing = Indexing(pages: seq<Item>, index: map<string, int>, failed: bool)

  /** One turn of the spine loop (epubserver.py:172-176). */
  function AddSpineEntry(items: seq<Item>, st: Indexing, entry: Option<string>): Indexing
  {
    match entry
    case None => st
    case Some(id) =>
      match ItemWithId(items, id)
      case None => st.(failed := true)
      case Some(item) =>
        if item.kind == Document then Indexing(st.pages + [item], st.index[id := |st.pages|], false)
        else st
  }

  /** The spine loop over `spine`, stopping at the first id that names no item. */
  function IndexSpine(items: seq<Item>, spine: seq<Option<string>>): Indexing
    decreases |spine|
  {
    if spine == [] then Indexing([], map[], false)
    else
      var prev := IndexSpine(items, spine[..|spine| - 1]);
      if prev.failed then prev else AddSpineEntry(items, prev, spine[|spine| - 1])
  }

  /** The document items of `spine`, in spine order: an independent description of the pages. */
  function Docs(items: seq<Item>, spine: seq<Option<string>>): seq<Item>
    decreases |spine|
  {
    if spine == [] then []
    else
      (if spine[0].Some? && IsDocument(items, spine[0].value) then [ItemWithId(items, spine[0].value).value] else [])
      + Docs(items, spine[1..])
  }

  /** Some spine entry names no item. */
  predicate HasDanglingId(items: seq<Item>, spine: seq<Option<string>>) {
    exists k :: 0 <= k < |spine| && spine[k].Some? && ItemWithId(items, spine[k].value).None?
  }

  /** `m` after the image loop over `items` for one kind: each item of that kind, in order,
      stored under its base name (epubserver.py:177-180). */
  function PutAll(m: map<string, seq<bv8>>, items: seq<Item>, kind: Kind): map<string, seq<bv8>>
    decreases |items|
  {
    if items == [] then m
    else
      var before := PutAll(m, items[..|items| - 1], kind);
      var last := items[|items| - 1];
      if last.kind == kind then before[BaseName(last.name) := last.content] else before
  }

  /** The image map: images first, then covers. */
  function ImageMap(items: seq<Item>): map<string, seq<bv8>>
  {
    PutAll(PutAll(map[], items, Image), items, Cover)
  }

  /** The content of the last item of `kind` whose base name is `name`. */
  function LastOf(items: seq<Item>, kind: Kind, name: string): Option<seq<bv8>>
    decreases |items|
  {
    if items == [] then None
    else
      var last := items[|items| - 1];
      if last.kind == kind && BaseName(last.name) == name then Some(last.content)
      else LastOf(items[..|items| - 1], kind, name)
  }

  /** The book a successful or failed load leaves in the cache. */
  function Loaded(archive: Archive): Book
  {
    var st := IndexSpine(archive.items, archive.spine);
    Book(RawSlots(st.pages), if st.failed then map[] else ImageMap(archive.items), st.index)
  }

  /** Each item as a raw page slot. */
  function RawSlots(pages: seq<Item>): (r: seq<Slot>)
    ensures |r| == |pages|
    ensures forall k :: 0 <= k < |pages| ==> r[k] == Raw(pages[k])
  {
    seq(|pages|, k requires 0 <= k < |pages| => Raw(pages[k]))
  }

  /** `keys[-limit:]` when the cache holds at least `limit` books, otherwise every key: the
      books that survive the trimming (epubserver.py:163-167). */
  function Survivors(keys: seq<string>, limit: int): seq<string>
  {
    if |keys| >= limit then Slice(keys, -limit, |keys|) else keys
  }

  /** The keys of `keys` that are in `keep`, in order: what the `pop` loop leaves. */
  function Filter(keys: seq<string>, keep: seq<string>): (r: seq<string>)
    ensures forall k :: k in r <==> k in keys && k in keep
    decreases |keys|
  {
    if keys == [] then []
    else Filter(keys[..|keys| - 1], keep) + (if keys[|keys| - 1] in keep then [keys[|keys| - 1]] else [])
  }

  predicate Distinct(keys: seq<string>) {
    forall i, j :: 0 <= i < j < |keys| ==> keys[i] != keys[j]
  }

  /** `keys` with `key` taken out: the key order of a dict after `pop(key, None)`. */
  function Without(keys: seq<string>, key: string): (r: seq<string>)
    ensures forall k :: k in r <==> k in keys && k != key
    decreases |keys|
  {
    if keys == [] then []
    else (if keys[0] == key then [] else [keys[0]]) + Without(keys[1..], key)
  }

  lemma {:induction false} WithoutAbsent(keys: seq<string>, key: string)
    requires key !in keys
    ensures Without(keys, key) == keys
    decreases |keys|
  {
    if keys != [] {
      WithoutAbsent(keys[1..], key);
      assert [keys[0]] + keys[1..] == keys;
    }
  }

  /** Popping a key that occurs once removes exactly that occurrence. */
  lemma {:induction false} WithoutOnce(before: seq<string>, key: string, after: seq<string>)
    requires key !in before && key !in after
    ensures Without(before + [key] + after, key) == before + after
    decreases |before|
  {
    if before == [] {
      assert [key] + after == [key] + after;
      assert ([key] + after)[1..] == after;
      WithoutAbsent(after, key);
    } else {
      assert (before + [key] + after)[1..] == before[1..] + [key] + after;
      WithoutOnce(before[1..], key, after);
      assert [before[0]] + (before[1..] + after) == before + after;
    }
  }

  /** The survivors are a suffix of the keys, so they are keys and distinct when the keys are. */
  lemma SurvivorsAreKeys(keys: seq<string>, limit: int)
    ensures forall k :: k in Survivors(keys, limit) ==> k in keys
    ensures Distinct(keys) ==> Distinct(Survivors(keys, limit))
  {
    if |keys| >= limit {
      var j := Clamp(-limit, |keys|);
      assert Survivors(keys, limit) == keys[j..];
      forall k | k in keys[j..] ensures k in keys {
        var i :| j <= i < |keys| && keys[i] == k;
      }
    }
  }

  /** The cache with only the entries whose keys are in `keep`. */
  function Restrict(loaded: map<string, Book>, keep: seq<string>): (r: map<string, Book>)
    ensures forall k :: k in r <==> k in loaded && k in keep
    ensures forall k :: k in r ==> r[k] == loaded[k]
  {
    map k | k in loaded && k in keep :: loaded[k]
  }

  /** Once an id names no item the loop has stopped: later entries change nothing. */
  lemma {:induction false} SpineLoopNeverRecovers(items: seq<Item>, spine: seq<Option<string>>, n: nat)
    requires n <= |spine| && IndexSpine(items, spine[..n]).failed
    ensures IndexSpine(items, spine) == IndexSpine(items, spine[..n])
    decreases |spine|
  {
    if n < |spine| {
      assert spine[..|spine| - 1][..n] == spine[..n];
      SpineLoopNeverRecovers(items, spine[..|spine| - 1], n);
    } else {
      assert spine[..n] == spine;
    }
  }

  /** Every index entry names a page holding the item with that id, every page is a document,
      and there are no more pages than spine entries. */
  lemma {:induction false} IndexPointsAtItsPage(items: seq<Item>, spine: seq<Option<string>>)
    ensures var r := IndexSpine(items, spine);
            && |r.pages| <= |spine|
            && (forall k :: 0 <= k < |r.pages| ==> r.pages[k].kind == Document)
            && (forall id :: id in r.index ==> 0 <= r.index[id] < |r.pages| && r.pages[r.index[id]].id == id)
    decreases |spine|
  {
    if spine != [] {
      IndexPointsAtItsPage(items, spine[..|spine| - 1]);
    }
  }

  /** A spine loop that runs to the end indexes exactly the spine ids that name documents. */
  lemma {:induction false} IndexCoversDocuments(items: seq<Item>, spine: seq<Option<string>>)
    ensures var r := IndexSpine(items, spine);
            !r.failed ==> forall id :: id in r.index <==> Some(id) in spine && IsDocument(items, id)
    decreases |spine|
  {
    if spine != [] {
      var init := spine[..|spine| - 1];
      IndexCoversDocuments(items, init);
      assert spine == init + [spine[|spine| - 1]];
      forall id ensures Some(id) in spine <==> Some(id) in init || spine[|spine| - 1] == Some(id) {
      }
    }
  }

  /** The loop stops early exactly when some spine id names no item. */
  lemma {:induction false} FailureIffDanglingId(items: seq<Item>, spine: seq<Option<string>>)
    ensures IndexSpine(items, spine).failed <==> HasDanglingId(items, spine)
    decreases |spine|
  {
    if spine != [] {
      var init := spine[..|spine| - 1];
      var last := spine[|spine| - 1];
      FailureIffDanglingId(items, init);
      if HasDanglingId(items, init) {
        var k :| 0 <= k < |init| && init[k].Some? && ItemWithId(items, init[k].value).None?;
        assert spine[k] == init[k];
      }
      if last.Some? && ItemWithId(items, last.value).None? {
        assert spine[|spine| - 1] == last;
      }
    }
  }

  lemma {:induction false} DocsOfConcat(items: seq<Item>, a: seq<Option<string>>, b: seq<Option<string>>)
    ensures Docs(items, a + b) == Docs(items, a) + Docs(items, b)
    decreases |a|
  {
    if a != [] {
      var head := if a[0].Some? && IsDocument(items, a[0].value) then [ItemWithId(items, a[0].value).value] else [];
      assert (a + b)[0] == a[0];
      assert (a + b)[1..] == a[1..] + b;
      assert Docs(items, a + b) == head + Docs(items, a[1..] + b);
      assert Docs(items, a) == head + Docs(items, a[1..]);
      DocsOfConcat(items, a[1..], b);
      assert head + (Docs(items, a[1..]) + Docs(items, b)) == head + Docs(items, a[1..]) + Docs(items, b);
    } else {
      assert a + b == b;
    }
  }

  /** A spine loop that runs to the end has the spine's document items as its pages, in
      spine order. */
  lemma {:induction false} PagesAreSpineDocuments(items: seq<Item>, spine: seq<Option<string>>)
    ensures !IndexSpine(items, spine).failed ==> IndexSpine(items, spine).pages == Docs(items, spine)
    decreases |spine|
  {
    if spine != [] {
      var init := spine[..|spine| - 1];
      var last := spine[|spine| - 1];
      PagesAreSpineDocuments(items, init);
      assert spine == init + [last];
      DocsOfConcat(items, init, [last]);
      assert [last][1..] == [];
    }
  }

  /** One item of `kind` in `items` is stored under its base name by the loop. */
  lemma {:induction false} PutAllIsLastOf(m: map<string, seq<bv8>>, items: seq<Item>, kind: Kind, name: string)
    ensures name in PutAll(m, items, kind) <==> LastOf(items, kind, name).Some? || name in m
    ensures name in PutAll(m, items, kind) ==>
              PutAll(m, items, kind)[name] == if LastOf(items, kind, name).Some? then LastOf(items, kind, name).value else m[name]
    decreases |items|
  {
    if items != [] {
      PutAllIsLastOf(m, items[..|items| - 1], kind, name);
    }
  }

  /** The image map has an entry for a name exactly when an image or cover item has that base
      name; a cover wins over an image of the same name, and among items of one kind the last
      one wins. */
  lemma ImageMapEntries(items: seq<Item>, name: string)
    ensures name in ImageMap(items) <==> LastOf(items, Cover, name).Some? || LastOf(items, Image, name).Some?
    ensures name in ImageMap(items) ==>
              ImageMap(items)[name] == if LastOf(items, Cover, name).Some? then LastOf(items, Cover, name).value
                                       else LastOf(items, Image, name).value
  {
    PutAllIsLastOf(map[], items, Image, name);
    PutAllIsLastOf(PutAll(map[], items, Image), items, Cover, name);
  }

  /** `LastOf` finds an item of that kind and base name exactly when there is one. */
  lemma {:induction false} LastOfFinds(items: seq<Item>, kind: Kind, name: string)
    ensures LastOf(items, kind, name).Some? <==>
              exists k :: 0 <= k < |items| && items[k].kind == kind && BaseName(items[k].name) == name
    decreases |items|
  {
    if items != [] {
      var init := items[..|items| - 1];
      LastOfFinds(init, kind, name);
      if exists k :: 0 <= k < |init| && init[k].kind == kind && BaseName(init[k].name) == name {
        var k :| 0 <= k < |init| && init[k].kind == kind && BaseName(init[k].name) == name;
        assert items[k] == init[k];
      }
      if exists k :: 0 <= k < |items| && items[k].kind == kind && BaseName(items[k].name) == name {
        var k :| 0 <= k < |items| && items[k].kind == kind && BaseName(items[k].name) == name;
        if k < |init| {
          assert init[k] == items[k];
        }
      }
    }
  }

  /** With a positive limit only the last `limit` keys survive (all of them when there are
      fewer); a limit of 0 keeps every key, since `keys[-0:]` is the whole list; a negative
      limit drops the first `-limit` keys. */
  lemma SurvivorsAreLastKeys(keys: seq<string>, limit: int)
    ensures limit >= 1 ==> var n := if |keys| < limit then |keys| else limit;
                           Survivors(keys, limit) == keys[|keys| - n..]
    ensures limit == 0 ==> Survivors(keys, limit) == keys
    ensures limit < 0 ==> Survivors(keys, limit) == keys[if |keys| < -limit then |keys| else -limit..]
  {
  }

  /** Filtering distinct keys by one of their own suffixes gives that suffix. */
  lemma {:induction false} FilterBySuffix(keys: seq<string>, j: nat)
    requires Distinct(keys) && j <= |keys|
    ensures Filter(keys, keys[j..]) == keys[j..]
    decreases |keys|
  {
    if keys != [] {
      var init := keys[..|keys| - 1];
      var last := keys[|keys| - 1];
      if j < |keys| {
        assert Distinct(init);
        FilterBySuffix(init, j);
        assert init[j..] + [last] == keys[j..];
        assert Filter(init, keys[j..]) == Filter(init, init[j..]) by {
          FilterSameOnPrefix(init, keys[j..], init[j..], last);
        }
      } else {
        assert keys[j..] == [];
        FilterByNothing(keys);
      }
    }
  }

  lemma {:induction false} FilterByNothing(keys: seq<string>)
    ensures Filter(keys, []) == []
    decreases |keys|
  {
    if keys != [] {
      FilterByNothing(keys[..|keys| - 1]);
    }
  }

  /** Filtering `keys` by `keep` and by `keep` less one key that `keys` does not hold agree. */
  lemma {:induction false} FilterSameOnPrefix(keys: seq<string>, keep: seq<string>, keep': seq<string>, x: string)
    requires x !in keys && keep == keep' + [x]
    ensures Filter(keys, keep) == Filter(keys, keep')
    decreases |keys|
  {
    if keys != [] {
      FilterSameOnPrefix(keys[..|keys| - 1], keep, keep', x);
    }
  }

  /** The survivors are what the `pop` loop leaves, for distinct keys. */
  lemma SurvivorsAreFiltered(keys: seq<string>, limit: int)
    requires Distinct(keys)
    ensures Filter(keys, Survivors(keys, limit)) == Survivors(keys, limit)
  {
    if |keys| >= limit {
      var j := Clamp(-limit, |keys|);
      assert Survivors(keys, limit) == keys[j..];
      FilterBySuffix(keys, j);
    } else {
      FilterBySuffix(keys, 0);
      assert keys[0..] == keys;
    }
  }
}
