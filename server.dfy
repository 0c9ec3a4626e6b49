/** The `EPUBServer` object (epubserver.py:52-287): its settings, the bookmarks it keeps and
    the cache of loaded books, with the `/`, `/read` and `/asset` handlers that read and change
    them. The folder's files and the archives in it are parameters: `entries` is what the folder
    listing yields, `shelf` maps a path to the archive `epub.read_epub` opens there. */
module Server {
  import opened Wrappers
  import opened Strings
  import opened Encoding
  import opened Epub
  import LinkPass
  import Format
  import Footer

  /** The settings used when `settings.json` is missing (epubserver.py:57-59). */
  const DefaultFolder := "books"
  const DefaultBookLimit := 4

  /** What a handler answers. `ServerError` is `HTTPInternalServerError` or an exception the
      handler lets escape; `Unfinished` is a page whose link pass needs more turns than the
      fuel it was given. */
  datatype Response =
    | Page(html: string)
    | Listing(files: seq<string>)
    | NotFound
    | ServerError
    | Unfinished

  /** The server folder with one trailing `/` or `\` removed (epubserver.py:69-70). */
  function StripFolder(folder: string): string
  {
    if EndsWith(folder, "/") || EndsWith(folder, "\\") then folder[..|folder| - 1] else folder
  }

  /** Stripping keeps a prefix of the folder and drops one character exactly when that
      character is a final separator. */
  lemma StripFolderDropsOneSeparator(folder: string)
    ensures var r := StripFolder(folder);
            && |folder| - 1 <= |r| <= |folder|
            && r == folder[..|r|]
            && (|r| < |folder| <==> |folder| > 0 && (folder[|folder| - 1] == '/' || folder[|folder| - 1] == '\\'))
  {
    if |folder| > 0 {
      assert EndsWith(folder, "/") <==> folder[|folder| - 1] == '/' by {
        assert folder[|folder| - 1..] == [folder[|folder| - 1]];
      }
      assert EndsWith(folder, "\\") <==> folder[|folder| - 1] == '\\' by {
        assert folder[|folder| - 1..] == [folder[|folder| - 1]];
      }
    }
  }

  /** `permitted` (epubserver.py:122-124): with a password configured, the request's `pass`
      parameter, read as the empty text when it is absent, must equal it. */
  predicate Permitted(password: Option<string>, pass: Option<string>) {
    password.None? || (if pass.Some? then pass.value else "") == password.value
  }

  /** A request is let through when there is no password, when it carries the password, and,
      for an empty password only, when it carries no `pass` at all. */
  lemma PermittedCases(password: Option<string>, pass: Option<string>)
    ensures Permitted(password, pass) <==>
              password.None? || pass == Some(password.value) || (password == Some("") && pass.None?)
  {
  }

  /** `int(query.get('page', bookmarks.get(file, 0)))` (epubserver.py:265): the page asked for,
      else the bookmark, else 0; `None` where `int` raises. */
  function RequestedPage(bookmarks: map<Option<string>, int>, file: Option<string>, pageParam: Option<string>): Option<int>
  {
    match pageParam
    case None => Some(if file in bookmarks then bookmarks[file] else 0)
    case Some(text) => ParseInt(text)
  }

  /** A page number written by the footer or the link pass is read back as that number, and a
      request without one resumes at the bookmark. */
  lemma RequestedPageCases(bookmarks: map<Option<string>, int>, file: Option<string>, n: int)
    ensures RequestedPage(bookmarks, file, Some(IntToString(n))) == Some(n)
    ensures file in bookmarks ==> RequestedPage(bookmarks, file, None) == Some(bookmarks[file])
    ensures file !in bookmarks ==> RequestedPage(bookmarks, file, None) == Some(0)
  {
    IntToStringRoundTrip(n);
  }

  /** The slot `pages[page]` addresses in a list of `count` pages, Python's negative indices
      included; `None` where the lookup raises `IndexError`. */
  function SlotIndex(count: nat, page: int): (r: Option<nat>)
    ensures r.Some? ==> r.value < count
  {
    if 0 <= page < count then Some(page as nat)
    else if -(count as int) <= page < 0 then Some((count + page) as nat)
    else None
  }

  /** Exactly the pages from `-count` to `count - 1` exist, and page `p` is slot `p` modulo
      `count`: `p` and `p - count` are the same page. */
  lemma SlotIndexCases(count: nat, page: int)
    ensures SlotIndex(count, page).Some? <==> -(count as int) <= page < count
    ensures SlotIndex(count, page).Some? ==> SlotIndex(count, page).value == page % count
  {
    if 0 <= page < count {
      assert page % count == page;
    } else if -(count as int) <= page < 0 {
      assert page == (count + page) - count;
      assert page % count == count + page;
    }
  }

  /** The text `read` answers with (epubserver.py:276-278): the bar, the page, the bar again. */
  function Render(file: string, password: Option<string>, page: int, count: int, content: string): string
  {
    var bar := Footer.Footer(file, page, count, password);
    bar + "<div class=\"epub_content\">" + content + "</div>" + bar
  }

  /** The answer `read` gives for page `page` of a loaded book, with the book after it: a slot
      read for the first time is formatted and stored as text (epubserver.py:271-273). */
  function Served(book: Book, file: string, password: Option<string>, page: int, fuel: nat): (Response, Book)
  {
    match SlotIndex(|book.pages|, page)
    case None => (ServerError, book)
    case Some(k) =>
      match book.pages[k]
      case Done(html) => (Page(Render(file, password, page, |book.pages|, html)), book)
      case Raw(item) =>
        match Format.Formatted(LinkPass.Context(file, password, book.index), item.body, fuel)
        case None => (Unfinished, book)
        case Some(html) => (Page(Render(file, password, page, |book.pages|, html)), book.(pages := book.pages[k := Done(html)]))
  }

  /** Serving a page touches at most the slot it reads, and only to store that slot's formatted
      text; a page is answered exactly when its slot exists and formatting finishes, and the
      answer is that text between two copies of the bar. */
  lemma ServedTouchesOneSlot(book: Book, file: string, password: Option<string>, page: int, fuel: nat)
    ensures var (resp, after) := Served(book, file, password, page, fuel);
            && after.img == book.img && after.index == book.index && |after.pages| == |book.pages|
            && (forall j :: 0 <= j < |book.pages| && SlotIndex(|book.pages|, page) != Some(j) ==> after.pages[j] == book.pages[j])
            && (resp == ServerError <==> SlotIndex(|book.pages|, page).None?)
            && (resp.Page? ==>
                  var k := SlotIndex(|book.pages|, page).value;
                  && after.pages[k].Done?
                  && resp.html == Render(file, password, page, |book.pages|, after.pages[k].html)
                  && match book.pages[k]
                     case Done(html) => after.pages[k] == book.pages[k]
                     case Raw(item) => Format.Formatted(LinkPass.Context(file, password, book.index), item.body, fuel) == Some(after.pages[k].html))
            && (resp == Unfinished <==>
                  SlotIndex(|book.pages|, page).Some? && book.pages[SlotIndex(|book.pages|, page).value].Raw?
                  && Format.Formatted(LinkPass.Context(file, password, book.index),
                                      book.pages[SlotIndex(|book.pages|, page).value].item.body, fuel).None?)
  {
  }

  /** A page, once answered, is answered again with the same text and no formatting, whatever
      the fuel; the same slot reached by its negative index gives the same content. */
  lemma ServedIsMemoised(book: Book, file: string, password: Option<string>, page: int, fuel: nat, page': int, fuel': nat)
    requires Served(book, file, password, page, fuel).0.Page?
    requires SlotIndex(|book.pages|, page') == SlotIndex(|book.pages|, page)
    ensures var (resp, after) := Served(book, file, password, page, fuel);
            var k := SlotIndex(|book.pages|, page).value;
            && Served(after, file, password, page, fuel') == (resp, after)
            && Served(after, file, password, page', fuel') == (Page(Render(file, password, page', |book.pages|, after.pages[k].html)), after)
  {
    ServedTouchesOneSlot(book, file, password, page, fuel);
  }

  /** `read`'s page step on values (epubserver.py:268-278). */
  method Serve(book: Book, file: string, password: Option<string>, page: int, fuel: nat) returns (resp: Response, after: Book)
    ensures (resp, after) == Served(book, file, password, page, fuel)
  {
    var count := |book.pages|;
    var k: nat;
    if 0 <= page < count {
      k := page;
    } else if -(count as int) <= page < 0 {
      k := count + page;
    } else {
      return ServerError, book;
    }
    after := book;
    var content: string;
    match book.pages[k] {
      case Done(html) =>
        content := html;
      case Raw(item) =>
        var formatted := Format.FormatEpub(LinkPass.Context(file, password, book.index), item.body, fuel);
        if formatted.None? {
          return Unfinished, book;
        }
        content := formatted.value;
        after := book.(pages := book.pages[k := Done(content)]);
    }
    resp := Page(Render(file, password, page, count, content));
  }

  /** The cache trimming of `loadEpub` (epubserver.py:162-167), on the cache and the order of
      its keys: once it holds `limit` books or more, every book whose key is not among the last
      `limit` keys is popped. */
  method Trim(loaded: map<string, Book>, order: seq<string>, limit: int) returns (loaded': map<string, Book>, order': seq<string>)
    requires Distinct(order) && forall k :: k in order <==> k in loaded
    ensures order' == Survivors(order, limit)
    ensures loaded' == Restrict(loaded, order')
  {
    loaded', order' := loaded, order;
    var keys := order;
    if |keys| >= limit {
      var nKeys := Slice(keys, -limit, |keys|);
      for i := 0 to |keys|
        invariant order' == Filter(keys[..i], nKeys) + keys[i..]
        invariant loaded' == Restrict(loaded, order')
      {
        var k := keys[i];
        if k in nKeys {
          TrimKeeps(keys, nKeys, i);
        } else {
          OnlyOnce(keys, i);
          TrimPops(keys, nKeys, i);
          RestrictWithout(loaded, order', k);
          loaded' := loaded' - {k};
          order' := Without(order', k);
        }
      }
      assert keys[..|keys|] == keys;
      SurvivorsAreFiltered(keys, limit);
    }
  }

  /** A turn of the trimming loop at a key that survives leaves the key order as it is. */
  lemma TrimKeeps(keys: seq<string>, nKeys: seq<string>, i: nat)
    requires i < |keys| && keys[i] in nKeys
    ensures Filter(keys[..i + 1], nKeys) + keys[i + 1..] == Filter(keys[..i], nKeys) + keys[i..]
  {
    FilterStep(keys, nKeys, i);
    Unfolded(keys, i);
  }

  /** The keys from `i` on are the key at `i` followed by the rest. */
  lemma Unfolded(keys: seq<string>, i: nat)
    requires i < |keys|
    ensures keys[i..] == [keys[i]] + keys[i + 1..]
  {
    assert keys[i..][1..] == keys[i + 1..];
  }

  /** The trimming loop's filter over one more key. */
  lemma FilterStep(keys: seq<string>, nKeys: seq<string>, i: nat)
    requires i < |keys|
    ensures Filter(keys[..i + 1], nKeys) == Filter(keys[..i], nKeys) + (if keys[i] in nKeys then [keys[i]] else [])
  {
    var pre := keys[..i + 1];
    assert pre[..|pre| - 1] == keys[..i] && pre[|pre| - 1] == keys[i];
  }

  /** A turn of the trimming loop at a key that does not survive, and that occurs nowhere else
      in the order, pops that key. */
  lemma TrimPops(keys: seq<string>, nKeys: seq<string>, i: nat)
    requires i < |keys| && keys[i] !in nKeys
    requires keys[i] !in keys[..i] && keys[i] !in keys[i + 1..]
    ensures Filter(keys[..i + 1], nKeys) + keys[i + 1..] == Without(Filter(keys[..i], nKeys) + keys[i..], keys[i])
  {
    FilterStep(keys, nKeys, i);
    Unfolded(keys, i);
    PopFiltered(keys[..i], nKeys, keys[i], keys[i + 1..]);
  }

  /** Popping a key that the filtered part cannot hold and the rest does not hold. */
  lemma PopFiltered(before: seq<string>, nKeys: seq<string>, k: string, rest: seq<string>)
    requires k !in before && k !in rest
    ensures Without(Filter(before, nKeys) + ([k] + rest), k) == Filter(before, nKeys) + rest
  {
    var done := Filter(before, nKeys);
    WithoutOnce(done, k, rest);
    assert done + [k] + rest == done + ([k] + rest);
  }

  /** A key of a duplicate-free order occurs neither before nor after its own place. */
  lemma OnlyOnce(keys: seq<string>, i: nat)
    requires Distinct(keys) && i < |keys|
    ensures keys[i] !in keys[..i] && keys[i] !in keys[i + 1..]
  {
    forall j | 0 <= j < i ensures keys[..i][j] != keys[i] {
      assert keys[..i][j] == keys[j];
    }
    var rest := keys[i + 1..];
    forall j | 0 <= j < |rest| ensures rest[j] != keys[i] {
      assert rest[j] == keys[i + 1 + j];
    }
  }

  lemma RestrictWithout(loaded: map<string, Book>, keys: seq<string>, k: string)
    ensures Restrict(loaded, Without(keys, k)) == Restrict(loaded, keys) - {k}
  {
  }

  /** The spine loop of `loadEpub` (epubserver.py:170-176): stops, as the source does on
      `None.get_type()`, at an id that names no item. */
  method IndexPages(items: seq<Item>, spine: seq<Option<string>>) returns (pages: seq<Item>, index: map<string, int>, failed: bool)
    ensures IndexSpine(items, spine) == Indexing(pages, index, failed)
  {
    pages, index, failed := [], map[], false;
    for i := 0 to |spine|
      invariant IndexSpine(items, spine[..i]) == Indexing(pages, index, false)
    {
      assert spine[..i + 1][..i] == spine[..i];
      var entry := spine[i];
      if entry.Some? {
        var item := ItemWithId(items, entry.value);
        if item.None? {
          failed := true;
          SpineLoopNeverRecovers(items, spine, i + 1);
          return;
        }
        if item.value.kind == Document {
          index := index[entry.value := |pages|];
          pages := pages + [item.value];
        }
      }
    }
    assert spine[..|spine|] == spine;
  }

  /** The image and cover loops of `loadEpub` (epubserver.py:177-180). */
  method CollectImages(items: seq<Item>) returns (img: map<string, seq<bv8>>)
    ensures img == ImageMap(items)
  {
    img := map[];
    for j := 0 to |items|
      invariant img == PutAll(map[], items[..j], Image)
    {
      assert items[..j + 1][..j] == items[..j];
      if items[j].kind == Image {
        img := img[BaseName(items[j].name) := items[j].content];
      }
    }
    assert items[..|items|] == items;
    ghost var images := img;
    for j := 0 to |items|
      invariant img == PutAll(images, items[..j], Cover)
    {
      assert items[..j + 1][..j] == items[..j];
      if items[j].kind == Cover {
        img := img[BaseName(items[j].name) := items[j].content];
      }
    }
    assert items[..|items|] == items;
  }

  /** The cache entry `loadEpub` builds for an archive, and whether the spine loop failed. */
  method BuildBook(archive: Archive) returns (book: Book, failed: bool)
    ensures book == Loaded(archive)
    ensures failed == IndexSpine(archive.items, archive.spine).failed
  {
    var pages, index;
    pages, index, failed := IndexPages(archive.items, archive.spine);
    var img := map[];
    if !failed {
      img := CollectImages(archive.items);
    }
    book := Book(RawSlots(pages), img, index);
  }

  /** The `.epub` names among the folder's files, in listing order (epubserver.py:129). */
  function EpubFiles(entries: seq<string>): (r: seq<string>)
    ensures forall f :: f in r <==> f in entries && EndsWith(f, ".epub")
    ensures |r| <= |entries|
    decreases |entries|
  {
    if entries == [] then []
    else (if EndsWith(entries[0], ".epub") then [entries[0]] else []) + EpubFiles(entries[1..])
  }

  /** The bookmarks of the listed books only (epubserver.py:134-137). */
  function Pruned(bookmarks: map<Option<string>, int>, fs: seq<string>): (r: map<Option<string>, int>)
    ensures forall k :: k in r <==> k in bookmarks && k.Some? && k.value in fs
    ensures forall k :: k in r ==> r[k] == bookmarks[k]
  {
    map k | k in bookmarks && k.Some? && k.value in fs :: bookmarks[k]
  }

  /** The bookmark loop of `main` (epubserver.py:133-137). */
  method PruneBookmarks(bookmarks: map<Option<string>, int>, fs: seq<string>) returns (kept: map<Option<string>, int>)
    ensures kept == Pruned(bookmarks, fs)
  {
    kept := map[];
    for i := 0 to |fs|
      invariant kept == Pruned(bookmarks, fs[..i])
    {
      assert fs[..i + 1] == fs[..i] + [fs[i]];
      var f := Some(fs[i]);
      if f in bookmarks {
        kept := kept[f := bookmarks[f]];
      }
    }
    assert fs[..|fs|] == fs;
  }

  lemma {:induction false} SubsetNoLarger<T>(a: set<T>, b: set<T>)
    requires a <= b
    ensures |a| <= |b|
    decreases |a|
  {
    if a != {} {
      var x :| x in a;
      SubsetNoLarger(a - {x}, b - {x});
    }
  }

  /** Pruning loses no bookmark exactly when it keeps as many as there were, so the source's
      size comparison replaces the bookmarks only when one was dropped. */
  lemma PruningKeepsAllIffSameSize(bookmarks: map<Option<string>, int>, fs: seq<string>)
    ensures |Pruned(bookmarks, fs)| == |bookmarks| <==> Pruned(bookmarks, fs) == bookmarks
  {
    var r := Pruned(bookmarks, fs);
    if |r| == |bookmarks| && r != bookmarks {
      var x :| x in bookmarks && x !in r;
      assert r.Keys <= bookmarks.Keys - {x};
      SubsetNoLarger(r.Keys, bookmarks.Keys - {x});
      assert false;
    }
  }

  /** `asset` (epubserver.py:280-287): the image stored under `path` for the loaded book
      `file`; `None`, which the source answers with `HTTPNotFound`, when a parameter is
      missing or nothing is stored there. */
  function AssetData(loaded: map<string, Book>, file: Option<string>, path: Option<string>): Option<seq<bv8>>
  {
    if file.None? || path.None? then None
    else if file.value in loaded && path.value in loaded[file.value].img then Some(loaded[file.value].img[path.value])
    else None
  }

  /** Right after a book is loaded, `asset` serves a name exactly when the spine loop finished
      and an image or cover item has that base name; a cover wins, and the last item wins. */
  lemma AssetOfLoadedBook(loaded: map<string, Book>, file: string, archive: Archive, name: string)
    ensures var r := AssetData(loaded[file := Loaded(archive)], Some(file), Some(name));
            var items := archive.items;
            && (r.Some? <==> !IndexSpine(items, archive.spine).failed
                             && (LastOf(items, Cover, name).Some? || LastOf(items, Image, name).Some?))
            && (r.Some? ==> r.value == if LastOf(items, Cover, name).Some? then LastOf(items, Cover, name).value
                                        else LastOf(items, Image, name).value)
  {
    ImageMapEntries(archive.items, name);
  }

  /** The key order after `file` is stored in a cache whose keys are in the order `keep`. */
  function Stored(keep: seq<string>, file: string): seq<string>
  {
    if file in keep then keep else keep + [file]
  }

  /** The key order of the cache after `files` are loaded, one after the other, into an empty
      cache: each load trims the cache to `limit` books and then stores its book last. */
  function KeysAfterLoads(files: seq<string>, limit: int): seq<string>
    decreases |files|
  {
    if files == [] then []
    else Stored(Survivors(KeysAfterLoads(files[..|files| - 1], limit), limit), files[|files| - 1])
  }

  /** Loading a book that is not cached into a cache of distinct keys keeps the last
      `min(n, limit)` keys in their order and puts the new book after them, so the cache then
      holds `min(n, limit) + 1` books: one more than `limit` once it has filled up. */
  lemma CacheAfterOneLoad(order: seq<string>, limit: int, file: string)
    requires limit >= 1 && Distinct(order) && file !in order
    ensures var n := if |order| < limit then |order| else limit;
            && Stored(Survivors(order, limit), file) == order[|order| - n..] + [file]
            && |Stored(Survivors(order, limit), file)| == n + 1
  {
    SurvivorsAreLastKeys(order, limit);
    SurvivorsAreKeys(order, limit);
  }

  /** After distinct books are loaded one by one into an empty cache with a positive limit, the
      cache holds the last `limit + 1` of them (all of them while there are fewer), in the order
      they were loaded: the trimming runs before the new book is stored, so the cache settles at
      `limit + 1` books, not `limit`. */
  lemma {:induction false} CacheKeepsLastLoads(files: seq<string>, limit: int)
    requires limit >= 1 && Distinct(files)
    ensures var n := if |files| < limit + 1 then |files| else limit + 1;
            KeysAfterLoads(files, limit) == files[|files| - n..]
    decreases |files|
  {
    if files != [] {
      var init := files[..|files| - 1];
      var last := files[|files| - 1];
      DistinctPrefix(files);
      CacheKeepsLastLoads(init, limit);
      var m := if |init| < limit + 1 then |init| else limit + 1;
      var prev := init[|init| - m..];
      DistinctSuffixOfPrefix(files, |init| - m);
      CacheAfterOneLoad(prev, limit, last);
      assert KeysAfterLoads(files, limit) == Stored(Survivors(prev, limit), last);
      var n := if |prev| < limit then |prev| else limit;
      SuffixThenLast(files, m, n);
    }
  }

  /** The keys of a duplicate-free order but the last are duplicate-free. */
  lemma DistinctPrefix(files: seq<string>)
    requires Distinct(files) && files != []
    ensures Distinct(files[..|files| - 1])
  {
    var init := files[..|files| - 1];
    forall i, j | 0 <= i < j < |init| ensures init[i] != init[j] {
      assert init[i] == files[i] && init[j] == files[j];
    }
  }

  /** A stretch of a duplicate-free order before its last key is duplicate-free and does not
      hold the last key. */
  lemma DistinctSuffixOfPrefix(files: seq<string>, j: nat)
    requires Distinct(files) && j < |files|
    ensures Distinct(files[j..|files| - 1]) && files[|files| - 1] !in files[j..|files| - 1]
  {
    var mid := files[j..|files| - 1];
    forall a, b | 0 <= a < b < |mid| ensures mid[a] != mid[b] {
      assert mid[a] == files[j + a] && mid[b] == files[j + b];
    }
    forall a | 0 <= a < |mid| ensures mid[a] != files[|files| - 1] {
      assert mid[a] == files[j + a];
    }
  }

  /** The last `n` of the last `m` keys before the final one, followed by the final one, are
      the last `n + 1` keys. */
  lemma SuffixThenLast(files: seq<string>, m: nat, n: nat)
    requires files != [] && n <= m <= |files| - 1
    ensures var init := files[..|files| - 1];
            var prev := init[|init| - m..];
            prev[|prev| - n..] + [files[|files| - 1]] == files[|files| - (n + 1)..]
  {
    var init := files[..|files| - 1];
    var prev := init[|init| - m..];
    assert prev[|prev| - n..] == files[|files| - 1 - n..|files| - 1];
  }

  /** The server object. `loaded` is `self.loaded`, and `order` the order of its keys, which
      decides what the cache trimming pops. */
  class EpubServer {
    var password: Option<string>
    var folder: string
    var bookLimit: int
    var modified: bool
    var bookmarks: map<Option<string>, int>
    var loaded: map<string, Book>
    var order: seq<string>

    ghost predicate Valid()
      reads this
    {
      Distinct(order) && forall k :: k in order <==> k in loaded
    }

    /** `__init__` with the settings `load` read (epubserver.py:55-70). */
    constructor(password: Option<string>, folder: string, bookLimit: int, bookmarks: map<Option<string>, int>)
      ensures Valid()
      ensures this.password == password && this.folder == StripFolder(folder) && this.bookLimit == bookLimit
      ensures this.bookmarks == bookmarks && !modified && loaded == map[] && order == []
    {
      this.password := password;
      this.folder := StripFolder(folder);
      this.bookLimit := bookLimit;
      this.bookmarks := bookmarks;
      modified := false;
      loaded := map[];
      order := [];
    }

    /** `loadEpub` (epubserver.py:158-184): `false` where the source raises. A missing archive
        changes nothing; otherwise the cache is trimmed and the book stored, and a spine id
        that names no item leaves the pages found so far and no images. */
    method LoadEpub(file: string, shelf: map<string, Archive>) returns (ok: bool)
      requires Valid()
      modifies this
      ensures Valid()
      ensures password == old(password) && folder == old(folder) && bookLimit == old(bookLimit)
      ensures modified == old(modified) && bookmarks == old(bookmarks)
      ensures folder + "/" + file !in shelf ==> !ok && loaded == old(loaded) && order == old(order)
      ensures folder + "/" + file in shelf ==>
                && order == Stored(Survivors(old(order), bookLimit), file)
                && loaded == Restrict(old(loaded), Survivors(old(order), bookLimit))[file := Loaded(shelf[folder + "/" + file])]
                && ok == !IndexSpine(shelf[folder + "/" + file].items, shelf[folder + "/" + file].spine).failed
    {
      var path := folder + "/" + file;
      if path !in shelf {
        return false;
      }
      var archive := shelf[path];
      SurvivorsAreKeys(order, bookLimit);
      var l, o := Trim(loaded, order, bookLimit);
      var book, failed := BuildBook(archive);
      loaded := l[file := book];
      if file !in o {
        order := o + [file];
      } else {
        order := o;
      }
      ok := !failed;
    }

    /** `read` (epubserver.py:262-278) for the query parameters `file`, `page` and `pass`. */
    method Read(file: Option<string>, pageParam: Option<string>, pass: Option<string>, shelf: map<string, Archive>, fuel: nat)
      returns (resp: Response)
      requires Valid()
      modifies this
      ensures Valid()
      ensures password == old(password) && folder == old(folder) && bookLimit == old(bookLimit)
      ensures !Permitted(password, pass) || RequestedPage(old(bookmarks), file, pageParam).None? ==>
                && resp == ServerError && modified == old(modified) && bookmarks == old(bookmarks)
                && loaded == old(loaded) && order == old(order)
      ensures Permitted(password, pass) && RequestedPage(old(bookmarks), file, pageParam).Some? ==>
                && modified && bookmarks == old(bookmarks)[file := RequestedPage(old(bookmarks), file, pageParam).value]
                && (file.None? ==> resp == NotFound && loaded == old(loaded) && order == old(order))
                && (file.Some? ==> Shown(old(loaded), old(order), file.value, RequestedPage(old(bookmarks), file, pageParam).value, shelf, fuel, resp))
    {
      if !Permitted(password, pass) {
        return ServerError;
      }
      var page: int;
      if pageParam.None? {
        page := if file in bookmarks then bookmarks[file] else 0;
      } else {
        var parsed := ParseInt(pageParam.value);
        if parsed.None? {
          return ServerError;
        }
        page := parsed.value;
      }
      bookmarks := bookmarks[file := page];
      modified := true;
      if file.None? {
        return NotFound;
      }
      resp := Show(file.value, page, shelf, fuel);
    }

    /** How `read` answers for a named file and page from the cache `loaded0` with key order
        `order0`, and what the cache is afterwards: a cached book is served as it is; otherwise
        the archive at the file's path is loaded first, a missing archive or a failed spine loop
        answering as an error. */
    ghost predicate Shown(loaded0: map<string, Book>, order0: seq<string>, f: string, page: int,
                          shelf: map<string, Archive>, fuel: nat, resp: Response)
      reads this
    {
      var path := folder + "/" + f;
      if f in loaded0 then
        var s := Served(loaded0[f], f, password, page, fuel);
        resp == s.0 && loaded == loaded0[f := s.1] && order == order0
      else if path !in shelf then
        resp == ServerError && loaded == loaded0 && order == order0
      else
        var archive := shelf[path];
        var keep := Survivors(order0, bookLimit);
        var s := Served(Loaded(archive), f, password, page, fuel);
        && order == keep + [f]
        && if IndexSpine(archive.items, archive.spine).failed then
             resp == ServerError && loaded == Restrict(loaded0, keep)[f := Loaded(archive)]
           else
             resp == s.0 && loaded == Restrict(loaded0, keep)[f := s.1]
    }

    /** The part of `read` after the bookmark is stored (epubserver.py:269-278). */
    method Show(f: string, page: int, shelf: map<string, Archive>, fuel: nat) returns (resp: Response)
      requires Valid()
      modifies this
      ensures Valid()
      ensures password == old(password) && folder == old(folder) && bookLimit == old(bookLimit)
      ensures modified == old(modified) && bookmarks == old(bookmarks)
      ensures Shown(old(loaded), old(order), f, page, shelf, fuel, resp)
    {
      if f !in loaded {
        SurvivorsAreKeys(order, bookLimit);
        var ok := LoadEpub(f, shelf);
        if !ok {
          return ServerError;
        }
      }
      var after;
      resp, after := Serve(loaded[f], f, password, page, fuel);
      loaded := loaded[f := after];
    }

    /** `main` (epubserver.py:127-146) for the folder's file names `entries`: the `.epub`
        files, and the bookmarks pruned to them when some bookmark names no listed file. */
    method ListBooks(entries: seq<string>, pass: Option<string>) returns (resp: Response)
      requires Valid()
      modifies this
      ensures Valid()
      ensures password == old(password) && folder == old(folder) && bookLimit == old(bookLimit)
      ensures loaded == old(loaded) && order == old(order)
      ensures !Permitted(password, pass) ==>
                resp == ServerError && bookmarks == old(bookmarks) && modified == old(modified)
      ensures Permitted(password, pass) ==>
                var fs := EpubFiles(entries);
                var kept := Pruned(old(bookmarks), fs);
                && resp == Listing(fs)
                && (fs != [] && |kept| != |old(bookmarks)| ==> bookmarks == kept && modified)
                && (fs == [] || |kept| == |old(bookmarks)| ==> bookmarks == old(bookmarks) && modified == old(modified))
    {
      if !Permitted(password, pass) {
        return ServerError;
      }
      var fs := EpubFiles(entries);
      if fs != [] {
        var kept := PruneBookmarks(bookmarks, fs);
        if |kept| != |bookmarks| {
          bookmarks := kept;
          modified := true;
        }
      }
      resp := Listing(fs);
    }
  }
}
