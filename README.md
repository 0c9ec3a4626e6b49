# EPUBServer core, modelled in Dafny

A model of the core of EPUBServer, a small web server that serves the pages of `.epub`
books kept in one folder. `EPUBServer` keeps a cache of loaded books. For each book it
holds the page list built from the spine (the reading order), an index from spine id to
page position, and the images by base name. The first time a page is read, its HTML is
rewritten once by `formatEpub` and stored back in its slot. The model covers:

- `formatEpub`, in three passes over the page text, each a `method` with the source's
  `while`/`for` loop, proved against a specification function:
  - the colour pass (`ColourPass`). After each `style="`, the value after the next `color:`
    is deleted.
  - the link pass (`LinkPass`). An anchor whose href's last segment, or one of its two
    fallback spellings, is in the spine index is pointed at `/read?file=…&page=N`. Every
    other anchor is unwrapped.
  - the image pass (`ImagePass`). Image references are pointed at
    `/asset?file=…&path=<base name>`, and an inline `<svg>` is replaced by an `<img>`.
- `loadEpub`'s cache trimming, spine indexing and image map (`Epub`, and `Server.Trim`,
  `Server.IndexPages`, `Server.CollectImages`).
- The page-slot memoisation in `read`: a slot is `Raw(item)` until it is formatted once,
  then `Done(html)` (`Server.Served`, `Server.Serve`).
- `generateHeaderFooter` (`Footer`), `permitted`, the `asset` lookup, the bookmark pruning
  in `main`, and the stripping of a trailing separator from the folder (`Server`).
- The server object itself (`Server.EpubServer`): a class whose fields are the settings,
  the bookmarks, the cache and the key order of the cache. Its `LoadEpub`, `Read`, `Show`
  and `ListBooks` methods change those fields as the handlers do.

Python's string built-ins are modelled exactly as the server uses them (`Strings`):
- `find` returns -1 when there is no match;
- slices clamp, and a negative bound counts from the end;
- `split`, and the global, non-overlapping `replace`, which on an empty pattern inserts
  the replacement around every character.

`urllib.parse.quote` is modelled in full for UTF-8 text (`Encoding.Quote`), `str(n)` in
full, and `int(s)` for an optional sign followed by ASCII digits.

The link loop has no termination measure: its global `replace` can shift the text, so the
same anchor can be found again further right. The loop therefore runs with a `fuel` bound.
`None` (or the `Unfinished` response) means the bound was reached. `MoreFuelSameResult`
proves that the fuel never changes a result once one is produced.

Behaviours of the code worth noting:
- After a load the cache holds `limit + 1` books, because trimming runs before the new
  book is stored (`Server.CacheKeepsLastLoads`).
- The href segment `chap.1.xhtml` is tried as `chap.1.xhtml`, `chap_1_xhtml` and `chap`,
  in that order (`LinkPass.DottedSegmentCandidates`).
- Unwrapping an anchor keeps exactly its inner text only when the anchor starts the page.
  Otherwise, up to `a` characters of the closing token stay behind, because the code
  slices the anchor's text with a page offset (`LinkPass.UnwrapKeepsInnerText`).

## Model

| member | source | states |
|---|---|---|
| `ColourPass.StripColours` | epubserver.py:187-208 | the colour loop, over a text rebuilt in place, ends with the text `Stripped` describes |
| `ColourPass.Turn` | epubserver.py:191-208 | one turn of the colour loop: it breaks exactly when no `style="` is left, and otherwise rebuilds the text and moves the cursor as `Step` does |
| `ColourPass.Step` | epubserver.py:191-208 | each turn moves the cursor forward and shrinks the distance from the cursor to the end of the text, which is the loop's termination measure |
| `ColourPass.StepWithoutStyle` | epubserver.py:191-193 | with no `style="` at or after the cursor, the loop stops and the text is returned unchanged |
| `ColourPass.StepWithoutColour` | epubserver.py:195-198 | a `style="` with no later `color:` changes nothing, and scanning resumes just past the `style="` |
| `ColourPass.StepDeletesColourValue` | epubserver.py:196-208 | the first `color:` at or after the `style="` is used, even outside the attribute or inside `background-color:`. The text after it up to the first `;` (or, with no `;`, up to the first `"`) is deleted. The token and the delimiter stay, and scanning resumes after the token |
| `ColourPass.DelimiterFound` | epubserver.py:201-203 | the delimiter is the first `;`, or the first `"` when there is no `;` |
| `ColourPass.StepWithoutDelimiter` | epubserver.py:204-205 | a `color:` followed by neither `;` nor `"` leaves the text unchanged |
| `ColourPass.StrippedKeepsPrefix` | epubserver.py:190-208 | the text before the cursor is never changed by the rest of the loop |
| `ColourPass.StrippedOnlyDeletes` | epubserver.py:207 | the pass only deletes: the result is no longer than the input, and its multiset of characters is contained in the input's |
| `ColourPass.StrippedWithoutColour` | epubserver.py:196-198 | a page with no `color:` comes out of the pass unchanged |
| `LinkPass.RewriteLinks` | epubserver.py:210-242 | the link loop, over a text rebuilt in place, ends with `Linked`'s result, or gives up exactly when `Linked` needs more turns than the fuel |
| `LinkPass.Turn` | epubserver.py:213-242 | one turn of the link loop: when it breaks the pass ends with the text as it is; otherwise one unit of fuel takes the pass on from the new text and cursor |
| `LinkPass.FindExtent` | epubserver.py:218-229 | the anchor's closing token is the nearer of `</a>` and `/>`, with a missing one counted as `9999999999999999` |
| `LinkPass.HandleAnchor` | epubserver.py:230-242 | the body of the loop for one anchor: a resolved link is rewritten, and an unresolved one is unwrapped |
| `LinkPass.Fallback` | epubserver.py:232-236 | the name the code settles on is in the index exactly when `Resolve` finds a target, and it is that target |
| `LinkPass.UnwrapAnchor` | epubserver.py:240-241 | the text rebuilt for an unresolved anchor is `Unwrap`'s |
| `LinkPass.PassStops` | epubserver.py:214-221 | where no `<a ` or no closing token follows the cursor, the pass ends with the text unchanged |
| `LinkPass.PassContinues` | epubserver.py:213-242 | each anchor handled costs one turn, and without fuel the pass gives up |
| `LinkPass.AnchorEndsAtFirstClose` | epubserver.py:218-229 | an anchor has an extent exactly when `</a>` or `/>` follows it. Its closing token is the first one of either kind, and the extent includes it |
| `LinkPass.UnclosedAnchorStopsPass` | epubserver.py:220-221 | an `<a ` with no closing token after it ends the pass with the rest of the text untouched |
| `LinkPass.NoAnchorNoChange` | epubserver.py:214-216 | a text with no `<a ` after the cursor is returned unchanged |
| `LinkPass.HrefIsQuotedValue` | epubserver.py:231 | with `href="` and `">` present in that order, the href is the text between them |
| `LinkPass.ResolveTriesCandidatesInOrder` | epubserver.py:232-236 | the segment is tried as it is, then with every `.` replaced by `_`, then cut at its first `.`. The first one the index holds is used, and none is used exactly when the index holds none |
| `LinkPass.DottedSegmentCandidates` | epubserver.py:232-236 | `chap.1.xhtml` is tried as `chap.1.xhtml`, `chap_1_xhtml` and `chap`: an index holding only `chap_1` does not resolve it |
| `LinkPass.CandidatesAreDotless` | epubserver.py:234-235 | the second and third candidates contain no `.`, and the third is a prefix of the segment |
| `LinkPass.UnderscoredIsDotless` | epubserver.py:234 | `replace('.', '_')` leaves no `.` behind |
| `LinkPass.ResolvedLinkIsRewritten` | epubserver.py:236-238 | for a resolved anchor, every occurrence of the href text anywhere in the page is replaced by the `/read` route to the target's page, and scanning resumes one past the anchor's start |
| `LinkPass.UnresolvedIsUnwrapped` | epubserver.py:239-242 | an unresolved anchor is unwrapped, and scanning resumes where the anchor started |
| `LinkPass.UnwrapKeepsInnerText` | epubserver.py:240 | unwrapping an anchor whose first `">` is at offset `q` keeps the text between the `">` and the closing token, plus the first `min(a, token length)` characters of the closing token |
| `LinkPass.UnresolvedLinkIsUnwrapped` | epubserver.py:239-242 | the pass's turn at an unresolved anchor with a `">` replaces the anchor with its inner text and part of its closing token, as above, and resumes at the anchor's start |
| `LinkPass.UnwrapBareRemoves` | epubserver.py:241 | an anchor with no `">` is removed whole |
| `LinkPass.UnresolvedBareLinkIsRemoved` | epubserver.py:241-242 | the pass's turn at an unresolved anchor with no `">` removes the whole anchor, closing token included |
| `LinkPass.TagEndBeforeClose` | epubserver.py:240 | the anchor's first `">` lies before its closing token, with room for both characters |
| `LinkPass.MoreFuelSameResult` | epubserver.py:213 | fuel only decides whether the link pass finishes, never what it produces |
| `ImagePass.RewriteImages` | epubserver.py:244-251 | the image loop over the matches ends with `Imaged`'s result |
| `ImagePass.HandleMatch` | epubserver.py:246-251 | the body of the image loop for one match is `Apply` |
| `ImagePass.MatchAt` | epubserver.py:54 | a match of the image pattern is an attribute opening followed by a path made of path characters that ends with `.jpg`, `.png`, `.jpeg` or `.gif` |
| `ImagePass.PathEnd` | epubserver.py:54 | the path ends inside the text, after its start |
| `ImagePass.BacktrackIsGreedy` | epubserver.py:54 | the greedy `+` followed by backtracking picks the longest path that a dot and an extension end |
| `ImagePass.BacktrackFinds` | epubserver.py:54 | the length backtracking settles on has a dot and an extension after it |
| `ImagePass.FindAllIsSound` | epubserver.py:244 | every `findall` result occurs in the text, opening included, and is a path of path characters with an image extension |
| `ImagePass.FindAllEmptyIff` | epubserver.py:244 | `findall` finds nothing exactly when the pattern matches at no position |
| `ImagePass.NoReferenceNoChange` | epubserver.py:244-251 | a page with neither `src="` nor `xlink:href="` is returned unchanged by the image pass |
| `ImagePass.ImageRouteNamesBaseName` | epubserver.py:249-251 | the asset route names the path's base name unescaped: the base name has no `/` and holds only characters `quote` keeps |
| `ImagePass.SvgIsReplaced` | epubserver.py:246-249 | for an `xlink:href` image, the text from the page's first `<svg` through its first `</svg>` is replaced by an `<img>` tag pointing at the asset route |
| `ImagePass.MissingSvgDropsLastCharacter` | epubserver.py:247-249 | with no `<svg` on the page, `find` gives -1, so the slice keeps all but the page's last character before the `<img>` tag |
| `Format.FormatEpub` | epubserver.py:186-252 | the colour pass, the link pass and the image pass run in turn, each on the text the previous one produced |
| `Format.FormattedWithMoreFuel` | epubserver.py:186-252 | more fuel never changes a formatted page |
| `Format.PlainPageIsUnchanged` | epubserver.py:186-252 | a page with no `style="`, `<a `, `src="` or `xlink:href="` is formatted as itself |
| `Footer.FooterIsJoinedControls` | epubserver.py:254-260 | the bar is the links of its controls, in order, separated by ` # `, inside one `elem` block |
| `Footer.ControlsShown` | epubserver.py:256-258 | Previous (to `page - 1`) appears exactly when `page > 0`. Next (to `page + 1`) appears exactly when `page < count - 1`. Back always appears. The order is Previous, Back, Next |
| `Epub.ItemWithId` | epubserver.py:173 | the item found has the id asked for; `None` exactly when no item has it |
| `Epub.IndexPointsAtItsPage` | epubserver.py:171-176 | every index value is a valid page position, and that page is the item with that id. Every page is a document, and there are no more pages than spine entries |
| `Epub.IndexCoversDocuments` | epubserver.py:171-176 | a spine loop that runs to the end indexes exactly the spine ids that name document items |
| `Epub.PagesAreSpineDocuments` | epubserver.py:171-176 | a spine loop that runs to the end holds the spine's document items in spine order, skipping `None` ids |
| `Epub.FailureIffDanglingId` | epubserver.py:172-174 | the spine loop fails on `None.get_type()` exactly when some spine id names no item |
| `Epub.SpineLoopNeverRecovers` | epubserver.py:173-174 | after a failing id, later spine entries change nothing |
| `Epub.ImageMapEntries` | epubserver.py:177-180 | the image map has a base name exactly when an image or cover item has it. A cover overrides an image of the same name, and among items of one kind the last one wins |
| `Epub.LastOfFinds` | epubserver.py:177-180 | an item of a kind with a base name is found exactly when one exists |
| `Epub.SurvivorsAreLastKeys` | epubserver.py:163-164 | with a positive limit, the last `min(n, limit)` keys survive. `keys[-0:]` keeps every key, and a negative limit drops the first `-limit` keys |
| `Epub.SurvivorsAreKeys` | epubserver.py:164 | the survivors are keys of the cache, and they are distinct when the keys are |
| `Epub.SurvivorsAreFiltered` | epubserver.py:165-167 | popping every key not among the survivors leaves exactly the survivors, in order |
| `Server.Trim` | epubserver.py:162-167 | the trimming loop leaves the key order `Survivors(order, limit)`, and the cache restricted to those keys with their entries unchanged |
| `Server.IndexPages` | epubserver.py:170-176 | the spine loop builds the pages and the index `IndexSpine` describes, and stops at the first id that names no item |
| `Server.CollectImages` | epubserver.py:177-180 | the image and cover loops build `ImageMap` |
| `Server.BuildBook` | epubserver.py:170-180 | the cache entry built for an archive is `Loaded(archive)`, and the method reports whether the spine loop failed |
| `Server.CacheAfterOneLoad` | epubserver.py:162-170 | loading an uncached book into a cache of `n` distinct keys keeps the last `min(n, limit)` keys in order and stores the new book after them, leaving `min(n, limit) + 1` books |
| `Server.CacheKeepsLastLoads` | epubserver.py:162-170 | after distinct books are loaded one by one, the cache holds the last `limit + 1` of them (all of them while there are fewer), in load order |
| `Server.SlotIndex` | epubserver.py:273 | `pages[page]` names a slot below the page count, or raises |
| `Server.SlotIndexCases` | epubserver.py:273 | exactly the pages from `-count` to `count - 1` exist, and page `p` is slot `p mod count` |
| `Server.ServedTouchesOneSlot` | epubserver.py:273-278 | reading a page changes at most its own slot, and only from raw to its formatted text. The images and the index do not change. The answer is that text between two copies of the bar. An out-of-range page is an error |
| `Server.ServedIsMemoised` | epubserver.py:273-275 | a page once answered is answered again with the same text and no formatting, whatever the fuel. The same slot reached by a negative index shows the same content |
| `Server.Serve` | epubserver.py:273-278 | `read`'s page step computes the answer and the book that `Served` describes |
| `Server.RequestedPageCases` | epubserver.py:265 | a page number written into a route is read back as that number. Without one, the bookmark is used, else page 0 |
| `Server.PermittedCases` | epubserver.py:122-124 | a request passes when there is no password, or when it carries the password. With an empty password, a request with no `pass` also passes |
| `Server.StripFolderDropsOneSeparator` | epubserver.py:69-70 | stripping keeps a prefix of the folder and drops exactly one character, and only when that character is a final `/` or `\` |
| `Server.EpubFiles` | epubserver.py:129 | the listed books are exactly the listed names ending in `.epub` |
| `Server.Pruned` | epubserver.py:135-138 | the pruned bookmarks are exactly the old ones whose file is listed, with their pages unchanged |
| `Server.PruneBookmarks` | epubserver.py:135-138 | the bookmark loop builds `Pruned` |
| `Server.PruningKeepsAllIffSameSize` | epubserver.py:141-143 | the size comparison replaces the bookmarks exactly when pruning dropped one |
| `Server.AssetOfLoadedBook` | epubserver.py:285-287 | right after a load, `asset` serves a name exactly when the spine loop finished and an image or cover item has that base name, with the cover's content winning |
| `Server.EpubServer.constructor` | epubserver.py:55-70 | the server starts with the settings read, the folder stripped of one trailing separator, an empty cache and no pending save |
| `Server.EpubServer.LoadEpub` | epubserver.py:158-184 | a missing archive changes nothing and fails. Otherwise the cache is trimmed and the new book stored last. The call fails exactly when a spine id names no item, and then the partial book stays cached |
| `Server.EpubServer.Read` | epubserver.py:262-278 | a refused password or an unreadable page number is an error that changes nothing. Otherwise the bookmark is stored and a save is flagged, a missing `file` answers not found, and a named file is served as `Shown` describes |
| `Server.EpubServer.Show` | epubserver.py:269-278 | a cached book is served from its slots. An uncached one is loaded first, and a missing archive or a failed spine loop is an error |
| `Server.EpubServer.ListBooks` | epubserver.py:127-145 | the listing is the `.epub` files. When some are listed and a bookmark names no listed file, the bookmarks are pruned and a save is flagged |
| `Strings.Find` | epubserver.py:191 | `find` returns -1 or an occurrence at or after the start, and no occurrence lies between the start and the result |
| `Strings.FindCharacterised` | epubserver.py:191 | `find` returns -1 exactly when there is no occurrence, and otherwise the first one |
| `Strings.Slice` | epubserver.py:231 | a slice is the clamped sub-range, or empty when the bounds cross |
| `Strings.ReplaceIsJoinOfSplit` | epubserver.py:237 | `replace` is joining the pieces of `split` with the replacement |
| `Strings.BaseNameIsLastSegment` | epubserver.py:178 | `split('/')[-1]` has no `/` and ends the path |
| `Encoding.QuoteOfSafeText` | epubserver.py:249 | `quote` leaves text made of safe characters unchanged |
| `Encoding.QuoteOutputIsUrlSafe` | epubserver.py:237 | quoted text holds only safe characters, `%` and upper-case hexadecimal digits |
| `Encoding.IntToStringRoundTrip` | epubserver.py:237 | a page number written by `format` is read back by `int` as the same number |

## Left out

- The aiohttp routes, responses, HTTP exceptions, `run` and the assembly of `BASE_HTML`.
  These are I/O. A handler's answer is a `Response` value instead, and the listing page's
  HTML is not built.
- `settings.json` loading and saving, the autosave task and the favicon. These are file
  I/O and concurrency. The constructor takes the loaded settings as parameters, and
  `modified` only records that a save is pending.
- The directory listing. `ListBooks` takes the folder's file names as a parameter.
- `epub.read_epub` and the rest of ebooklib. An archive is an abstract record of its spine
  and items, and `shelf` maps a path to the archive found there. A missing path stands
  for `read_epub` raising.
- `get_body_content().decode("utf-8")`: each item carries its body already decoded. A
  decoding error is not modelled.
- `mimetypes.guess_type` in `asset`. Only the bytes served are modelled.
- Console output (`print`, `traceback`).
- `LinkPass.RewriteLinks`: the link loop is bounded by a fuel parameter, because its
  global `replace` can move an anchor so that the loop finds it again. The model does not
  show whether the loop always ends. A run that needs more turns than the fuel gives
  `None`, which `Read` answers with `Unfinished`.
- `Encoding.ParseInt`: `int()` is modelled for an optional sign followed by ASCII digits.
  Surrounding whitespace, `_` separators and non-ASCII digits, which Python also accepts,
  are treated as errors.
- The key order of `self.loaded` is kept in a separate `order` field beside the map,
  because Dafny maps have no order.
